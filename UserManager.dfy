/**
 * The server's user manager: the `users` dictionary and the `online_users`
 * set, updated in place by each operation. Every mutating method is proved
 * to leave exactly the state the matching function of CallState computes.
 */
module Server {
  import opened Registry
  import opened CallState

  /** No id occurs twice. */
  predicate NoDuplicates(s: seq<Id>) {
    forall i, j :: 0 <= i < j < |s| ==> s[i] != s[j]
  }

  /** `s` with every occurrence of `x` taken out, the rest in their order. */
  function Without(s: seq<Id>, x: Id): (r: seq<Id>)
    ensures forall y :: y in r <==> y in s && y != x
    ensures NoDuplicates(s) ==> NoDuplicates(r)
    ensures x !in s ==> r == s
    ensures |r| <= |s|
  {
    if s == [] then []
    else if s[0] == x then Without(s[1..], x)
    else
      var rest := Without(s[1..], x);
      assert NoDuplicates(s) ==> s[0] !in s[1..] && NoDuplicates(s[1..]) by {
        if NoDuplicates(s) {
          forall k | 0 <= k < |s| - 1
            ensures s[1..][k] != s[0]
          {
            assert s[1..][k] == s[k + 1];
          }
        }
      }
      [s[0]] + rest
  }

  lemma IdsOfAppend(infos: seq<UserInfo>, info: UserInfo)
    ensures IdsOf(infos + [info]) == IdsOf(infos) + {info.id}
  {
    var longer := infos + [info];
    assert longer[|infos|] == info;
    forall y | y in IdsOf(longer)
      ensures y in IdsOf(infos) + {info.id}
    {
      var i :| 0 <= i < |longer| && longer[i].id == y;
      if i < |infos| {
        assert infos[i] == longer[i];
      }
    }
    forall y | y in IdsOf(infos)
      ensures y in IdsOf(longer)
    {
      var i :| 0 <= i < |infos| && infos[i].id == y;
      assert longer[i] == infos[i];
    }
  }

  /** The online set is the key set, and `order` enumerates the keys once each. */
  predicate Consistent(users: map<Id, User>, online: set<Id>, order: seq<Id>) {
    online == users.Keys &&
    NoDuplicates(order) &&
    (forall i :: 0 <= i < |order| ==> order[i] in users) &&
    (forall x :: x in users ==> x in order)
  }

  /** Removing an id from the dictionary, the online set and the order keeps them consistent. */
  lemma UnregisterKeepsConsistent(users: map<Id, User>, order: seq<Id>, u: Id)
    requires Consistent(users, users.Keys, order)
    ensures Consistent(Unregister(users, u), users.Keys - {u}, Without(order, u))
  {
    var r := Unregister(users, u);
    var o := Without(order, u);
    forall i | 0 <= i < |o|
      ensures o[i] in r
    {
      assert o[i] in o;
    }
  }

  /**
   * Right after `add_user(u, ...)` (which also puts `u` online), `u` is on the
   * roster sent to every other user and never on its own.
   */
  lemma RegisteredListedForOthers(
    users: map<Id, User>, online: set<Id>, u: Id, ws: Socket, username: string, viewer: Option<Id>)
    ensures u in RosterIds(online + {u}, Register(users, u, ws, username), viewer) <==> viewer != Some(u)
  {
  }

  class UserManager {
    /** `users`: id to record. */
    var users: map<Id, User>
    /** `online_users`. */
    var onlineUsers: set<Id>
    /** The order in which the dictionary iterates its keys: insertion order. */
    var order: seq<Id>

    /** `online_users` is exactly the set of registered ids, and `order` lists each once. */
    ghost predicate Valid()
      reads this
    {
      Consistent(users, onlineUsers, order)
    }

    constructor ()
      ensures Valid()
      ensures users == map[] && onlineUsers == {} && order == []
    {
      users := map[];
      onlineUsers := {};
      order := [];
    }

    /** `add_user`: (re)register `u`, disponible, and return its avatar colour. */
    method AddUser(u: Id, ws: Socket, username: string) returns (color: string)
      requires Valid()
      modifies this
      ensures Valid()
      ensures color == AvatarColor(u)
      ensures users == Register(old(users), u, ws, username)
      ensures onlineUsers == old(onlineUsers) + {u}
      ensures order == if u in old(users) then old(order) else old(order) + [u]
    {
      color := AvatarColor(u);
      if u !in users {
        order := order + [u];
      }
      users := users[u := User(ws, username, Disponible, None, color)];
      onlineUsers := onlineUsers + {u};
    }

    /** `remove_user`, state part: release a live partner, then delete `u` everywhere. */
    method RemoveUser(u: Id)
      requires Valid()
      modifies this
      ensures Valid()
      ensures users == Unregister(old(users), u)
      ensures onlineUsers == old(onlineUsers) - {u}
      ensures order == Without(old(order), u)
    {
      if u in users {
        var partner := users[u].inCallWith;
        if partner.Some? && Truthy(partner.value) && partner.value in users {
          var p := partner.value;
          users := users[p := users[p].(inCallWith := None)];
          users := users[p := users[p].(status := Disponible)];
          assert users == old(users)[p := old(users)[p].(inCallWith := None, status := Disponible)];
        }
        if u in onlineUsers {
          onlineUsers := onlineUsers - {u};
        }
        users := users - {u};
      }
      assert users == Unregister(old(users), u);
      order := Without(order, u);
      UnregisterKeepsConsistent(old(users), old(order), u);
    }

    /** `update_status`: overwrite status and partner of a registered user. */
    method UpdateStatus(u: Id, s: Status, p: Option<Id>) returns (ok: bool)
      requires Valid()
      modifies this
      ensures Valid()
      ensures ok == (u in old(users))
      ensures users == SetStatus(old(users), u, s, p)
      ensures onlineUsers == old(onlineUsers) && order == old(order)
    {
      if u in users {
        users := users[u := users[u].(status := s, inCallWith := p)];
        return true;
      }
      return false;
    }

    /** `get_online_users`: the public view of every online user except `exclude`. */
    method GetOnlineUsers(exclude: Option<Id>) returns (list: seq<UserInfo>)
      ensures IdsOf(list) == RosterIds(onlineUsers, users, exclude)
      ensures forall i :: 0 <= i < |list| ==>
                list[i].id in users && list[i] == InfoOf(list[i].id, users[list[i].id])
      ensures forall i, j :: 0 <= i < j < |list| ==> list[i].id != list[j].id
    {
      list := [];
      var remaining := onlineUsers;
      while remaining != {}
        invariant remaining <= onlineUsers
        invariant IdsOf(list) == RosterIds(onlineUsers - remaining, users, exclude)
        invariant forall i :: 0 <= i < |list| ==>
                    list[i].id in users && list[i] == InfoOf(list[i].id, users[list[i].id])
        invariant forall i, j :: 0 <= i < j < |list| ==> list[i].id != list[j].id
        decreases remaining
      {
        var x :| x in remaining;
        if Some(x) != exclude {
          var info := UserInfoOf(users, x);
          if info.Some? {
            assert x !in IdsOf(list);
            IdsOfAppend(list, info.value);
            list := list + [info.value];
          }
        }
        assert RosterIds(onlineUsers - (remaining - {x}), users, exclude) ==
               RosterIds(onlineUsers - remaining, users, exclude) +
               (if x in users && Some(x) != exclude then {x} else {});
        remaining := remaining - {x};
      }
    }

    /** `find_user_by_username`: the first id, in dictionary order, whose username matches. */
    method FindUserByUsername(username: string) returns (r: Option<Id>)
      requires Valid()
      ensures r.None? <==> forall x :: x in users ==> users[x].username != username
      ensures r.Some? ==>
                exists k :: 0 <= k < |order| && order[k] == r.value &&
                  users[order[k]].username == username &&
                  forall j :: 0 <= j < k ==> users[order[j]].username != username
    {
      var i := 0;
      while i < |order|
        invariant 0 <= i <= |order|
        invariant forall j :: 0 <= j < i ==> users[order[j]].username != username
      {
        if users[order[i]].username == username {
          return Some(order[i]);
        }
        i := i + 1;
      }
      return None;
    }

    /** `initiate_call`: two `update_status` calls when `can_call_user` allows it. */
    method InitiateCall(caller: Id, target: Id) returns (ok: bool)
      requires Valid()
      modifies this
      ensures Valid()
      ensures ok == Initiate(old(users), caller, target).result
      ensures users == Initiate(old(users), caller, target).users
      ensures onlineUsers == old(onlineUsers) && order == old(order)
    {
      if CanCall(users, caller, target) && caller in users && target in users {
        var _ := UpdateStatus(caller, Llamando, Some(target));
        var _ := UpdateStatus(target, RecibiendoLlamada, Some(caller));
        return true;
      }
      return false;
    }

    /** `accept_call`: both ends in call with each other; returns the partner. */
    method AcceptCall(u: Id) returns (partner: Option<Id>)
      requires Valid()
      modifies this
      ensures Valid()
      ensures partner == Accept(old(users), u).result
      ensures users == Accept(old(users), u).users
      ensures onlineUsers == old(onlineUsers) && order == old(order)
    {
      if u in users {
        var p := users[u].inCallWith;
        if p.Some? && Truthy(p.value) && p.value in users {
          var _ := UpdateStatus(u, EnLlamada, p);
          var _ := UpdateStatus(p.value, EnLlamada, Some(u));
          return p;
        }
      }
      return None;
    }

    /** `end_call`: both ends back to disponible; returns the partner. */
    method EndCall(u: Id) returns (partner: Option<Id>)
      requires Valid()
      modifies this
      ensures Valid()
      ensures partner == Release(old(users), u).result
      ensures users == Release(old(users), u).users
      ensures onlineUsers == old(onlineUsers) && order == old(order)
    {
      partner := ReleasePair(u);
    }

    /** `decline_call`: the same state change as `end_call`. */
    method DeclineCall(u: Id) returns (partner: Option<Id>)
      requires Valid()
      modifies this
      ensures Valid()
      ensures partner == Release(old(users), u).result
      ensures users == Release(old(users), u).users
      ensures onlineUsers == old(onlineUsers) && order == old(order)
    {
      partner := ReleasePair(u);
    }

    /** The body `end_call` and `decline_call` share. */
    method ReleasePair(u: Id) returns (partner: Option<Id>)
      requires Valid()
      modifies this
      ensures Valid()
      ensures partner == Release(old(users), u).result
      ensures users == Release(old(users), u).users
      ensures onlineUsers == old(onlineUsers) && order == old(order)
    {
      if u in users {
        var p := users[u].inCallWith;
        if p.Some? && Truthy(p.value) && p.value in users {
          var _ := UpdateStatus(p.value, Disponible, None);
          var _ := UpdateStatus(u, Disponible, None);
          return p;
        }
      }
      return None;
    }
  }
}
