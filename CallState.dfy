/**
 * The user manager's operations as functions of the `users` dictionary: what
 * each one computes and what the dictionary is afterwards. The class in
 * UserManager.dfy performs them in place and is proved to agree with these.
 */
module CallState {
  import opened Registry

  /** What an operation returns, together with the dictionary it leaves behind. */
  datatype Outcome<R> = Outcome(result: R, users: map<Id, User>)

  /** The fields no call transition touches. */
  predicate SameProfile(a: User, b: User) {
    a.ws == b.ws && a.username == b.username && a.avatarColor == b.avatarColor
  }

  /** `x` is registered before and after, and only its status and partner changed, to `s` and `p`. */
  predicate Became(before: map<Id, User>, after: map<Id, User>, x: Id, s: Status, p: Option<Id>) {
    x in before && x in after &&
    after[x].status == s && after[x].inCallWith == p && SameProfile(after[x], before[x])
  }

  /** The same ids are registered, and every user outside `ids` keeps its record. */
  predicate UnchangedExcept(before: map<Id, User>, after: map<Id, User>, ids: set<Id>) {
    after.Keys == before.Keys &&
    forall x :: x in before && x !in ids ==> after[x] == before[x]
  }

  /**
   * The partner the call transitions and `remove_user` act on: the user's
   * `in_call_with`, provided it is truthy and still registered.
   */
  function LivePartner(users: map<Id, User>, u: Id): Option<Id> {
    if u in users && users[u].inCallWith.Some?
       && Truthy(users[u].inCallWith.value) && users[u].inCallWith.value in users
    then users[u].inCallWith
    else None
  }

  /** `add_user`: a fresh record for `u`, replacing any record `u` already had. */
  function Register(users: map<Id, User>, u: Id, ws: Socket, username: string): (r: map<Id, User>)
    ensures r.Keys == users.Keys + {u}
    ensures r[u].status == Disponible && r[u].inCallWith == None
    ensures r[u].ws == ws && r[u].username == username && r[u].avatarColor == AvatarColor(u)
    ensures forall x :: x in users && x != u ==> r[x] == users[x]
  {
    users[u := User(ws, username, Disponible, None, AvatarColor(u))]
  }

  /** `update_status` on a registered user; an unknown id leaves everything as it is. */
  function SetStatus(users: map<Id, User>, u: Id, s: Status, p: Option<Id>): (r: map<Id, User>)
    ensures u in users ==> Became(users, r, u, s, p)
    ensures UnchangedExcept(users, r, {u})
  {
    if u in users then users[u := users[u].(status := s, inCallWith := p)] else users
  }

  /**
   * The state part of `remove_user`: a live partner is released to
   * disponible with no partner, then `u` is deleted.
   */
  function Unregister(users: map<Id, User>, u: Id): (r: map<Id, User>)
    ensures r.Keys == users.Keys - {u}
    ensures LivePartner(users, u).Some? && LivePartner(users, u).value != u ==>
              Became(users, r, LivePartner(users, u).value, Disponible, None)
    ensures forall x :: x in r && Some(x) != LivePartner(users, u) ==> r[x] == users[x]
  {
    var released :=
      match LivePartner(users, u)
      case Some(p) => users[p := users[p].(inCallWith := None, status := Disponible)]
      case None => users;
    released - {u}
  }

  /** `can_call_user`: only the target's status is consulted, never the caller's. */
  function CanCall(users: map<Id, User>, caller: Id, target: Id): (r: bool)
    ensures r ==> caller != target && caller in users && target in users
    ensures r ==> users[target].status == Disponible
  {
    if target in users && caller in users && target != caller then
      users[target].status == Disponible
    else
      false
  }

  /** `initiate_call`: the caller starts calling the target, who starts receiving. */
  function Initiate(users: map<Id, User>, caller: Id, target: Id): (r: Outcome<bool>)
    ensures r.result == CanCall(users, caller, target)
    ensures r.result ==>
              Became(users, r.users, caller, Llamando, Some(target)) &&
              Became(users, r.users, target, RecibiendoLlamada, Some(caller)) &&
              UnchangedExcept(users, r.users, {caller, target})
    ensures !r.result ==> r.users == users
  {
    if CanCall(users, caller, target) && caller in users && target in users then
      var calling := SetStatus(users, caller, Llamando, Some(target));
      Outcome(true, SetStatus(calling, target, RecibiendoLlamada, Some(caller)))
    else
      Outcome(false, users)
  }

  /** `accept_call`: both ends go in call with each other; the partner's status is not checked. */
  function Accept(users: map<Id, User>, u: Id): (r: Outcome<Option<Id>>)
    ensures r.result == LivePartner(users, u)
    ensures r.result.Some? ==>
              Became(users, r.users, u, EnLlamada, r.result) &&
              Became(users, r.users, r.result.value, EnLlamada, Some(u)) &&
              UnchangedExcept(users, r.users, {u, r.result.value})
    ensures r.result.None? ==> r.users == users
  {
    match LivePartner(users, u)
    case Some(p) =>
      var accepting := SetStatus(users, u, EnLlamada, Some(p));
      Outcome(Some(p), SetStatus(accepting, p, EnLlamada, Some(u)))
    case None => Outcome(None, users)
  }

  /**
   * `end_call` and `decline_call`, which share one body: the partner and
   * then the user return to disponible with no partner.
   */
  function Release(users: map<Id, User>, u: Id): (r: Outcome<Option<Id>>)
    ensures r.result == LivePartner(users, u)
    ensures r.result.Some? ==>
              Became(users, r.users, u, Disponible, None) &&
              Became(users, r.users, r.result.value, Disponible, None) &&
              UnchangedExcept(users, r.users, {u, r.result.value})
    ensures r.result.None? ==> r.users == users
  {
    match LivePartner(users, u)
    case Some(p) =>
      var freed := SetStatus(users, p, Disponible, None);
      Outcome(Some(p), SetStatus(freed, u, Disponible, None))
    case None => Outcome(None, users)
  }
}
