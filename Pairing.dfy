/**
 * The partner-symmetry invariant of the registry and which operations keep
 * it. Because `can_call_user` ignores the caller, `accept_call` ignores the
 * partner's status and `update_status` never releases a previous partner,
 * symmetry is not kept by every operation: the lemmas below say exactly when
 * it is, and the counterexamples show where it is lost.
 */
module Pairing {
  import opened Registry
  import opened CallState

  /**
   * `x`'s record is consistent: a disponible user has no partner, any other
   * user has a registered partner other than itself that points back.
   */
  predicate PairedAt(users: map<Id, User>, x: Id)
    requires x in users
  {
    if users[x].status == Disponible then
      users[x].inCallWith == None
    else
      users[x].inCallWith.Some? &&
      var p := users[x].inCallWith.value;
      p != x && p in users && users[p].inCallWith == Some(x)
  }

  /** Every record is consistent, and no user has the empty (falsy) id. */
  predicate Paired(users: map<Id, User>) {
    "" !in users &&
    forall x :: x in users ==> PairedAt(users, x)
  }

  /** In a paired registry the partner of a busy user is found by the call transitions. */
  lemma PartnerIsLive(users: map<Id, User>, x: Id)
    requires Paired(users) && x in users && users[x].status != Disponible
    ensures LivePartner(users, x) == users[x].inCallWith
    ensures LivePartner(users, x).Some? && LivePartner(users, x).value != x
  {
    assert PairedAt(users, x);
  }

  /** Registering a new id, or re-registering a disponible one, keeps the registry paired. */
  lemma RegisterKeepsPaired(users: map<Id, User>, u: Id, ws: Socket, username: string)
    requires Paired(users)
    requires Truthy(u)
    requires u in users ==> users[u].status == Disponible
    ensures Paired(Register(users, u, ws, username))
  {
    var r := Register(users, u, ws, username);
    forall x | x in r
      ensures PairedAt(r, x)
    {
      if x != u {
        assert PairedAt(users, x);
        if users[x].status != Disponible {
          var p := users[x].inCallWith.value;
          if p == u {
            assert PairedAt(users, u);
          }
        }
      }
    }
  }

  /** `initiate_call` keeps the registry paired when the caller is disponible. */
  lemma InitiateKeepsPaired(users: map<Id, User>, caller: Id, target: Id)
    requires Paired(users)
    requires caller in users ==> users[caller].status == Disponible
    ensures Paired(Initiate(users, caller, target).users)
  {
    var r := Initiate(users, caller, target);
    if r.result {
      assert PairedAt(users, caller) && PairedAt(users, target);
      forall x | x in r.users
        ensures PairedAt(r.users, x)
      {
        if x != caller && x != target {
          assert PairedAt(users, x);
        }
      }
    }
  }

  /** `accept_call` keeps the registry paired. */
  lemma AcceptKeepsPaired(users: map<Id, User>, u: Id)
    requires Paired(users)
    ensures Paired(Accept(users, u).users)
  {
    var r := Accept(users, u);
    if r.result.Some? {
      var p := r.result.value;
      assert PairedAt(users, u);
      assert PairedAt(users, p);
      forall x | x in r.users
        ensures PairedAt(r.users, x)
      {
        if x != u && x != p {
          assert PairedAt(users, x);
        }
      }
    }
  }

  /** `end_call` and `decline_call` keep the registry paired. */
  lemma ReleaseKeepsPaired(users: map<Id, User>, u: Id)
    requires Paired(users)
    ensures Paired(Release(users, u).users)
  {
    var r := Release(users, u);
    if r.result.Some? {
      var p := r.result.value;
      assert PairedAt(users, u);
      assert PairedAt(users, p);
      forall x | x in r.users
        ensures PairedAt(r.users, x)
      {
        if x != u && x != p {
          assert PairedAt(users, x);
        }
      }
    }
  }

  /** `remove_user` keeps the registry paired: the partner-release cascade repairs the other end. */
  lemma UnregisterKeepsPaired(users: map<Id, User>, u: Id)
    requires Paired(users)
    ensures Paired(Unregister(users, u))
  {
    var r := Unregister(users, u);
    if u in users {
      assert PairedAt(users, u);
      forall x | x in r
        ensures PairedAt(r, x)
      {
        assert PairedAt(users, x);
        if LivePartner(users, u).Some? {
          assert PairedAt(users, LivePartner(users, u).value);
        }
      }
    }
  }

  /** In a paired registry a release leaves the user with no partner at all. */
  lemma ReleaseLeavesNoPartner(users: map<Id, User>, u: Id)
    requires Paired(users) && u in users
    ensures var r := Release(users, u).users;
            u in r && r[u].status == Disponible && r[u].inCallWith == None
  {
    assert PairedAt(users, u);
  }

  /**
   * `end_call` / `decline_call` are idempotent: straight after one, the next
   * finds no partner and changes nothing.
   */
  lemma ReleaseIdempotent(users: map<Id, User>, u: Id)
    ensures var once := Release(users, u);
            Release(once.users, u) == Outcome(None, once.users)
  {
    var once := Release(users, u);
    if once.result.Some? {
      assert once.users[u].inCallWith == None;
    }
  }

  /** Accepting twice in a row is the same as accepting once. */
  lemma AcceptIdempotent(users: map<Id, User>, u: Id)
    ensures var once := Accept(users, u);
            Accept(once.users, u) == once
  {
    var once := Accept(users, u);
    if once.result.Some? {
      var p := once.result.value;
      assert LivePartner(once.users, u) == Some(p);
      var twice := Accept(once.users, u);
      assert twice.users == once.users;
    }
  }

  /** `can_call_user` gives the same answer whatever the caller's own status and partner are. */
  lemma CanCallIgnoresCaller(users: map<Id, User>, caller: Id, target: Id, s: Status, p: Option<Id>)
    ensures CanCall(SetStatus(users, caller, s, p), caller, target) == CanCall(users, caller, target)
  {
  }

  /** `can_call_user` holds exactly for a registered target other than the registered caller that is disponible. */
  lemma CanCallExactly(users: map<Id, User>, caller: Id, target: Id)
    ensures CanCall(users, caller, target) <==>
              caller != target && caller in users && target in users &&
              users[target].status == Disponible
  {
  }

  /**
   * Since `accept_call` does not check that the partner is calling, the
   * caller can accept its own outgoing call and both ends go in call.
   */
  lemma CallerCanAcceptOwnCall(users: map<Id, User>, caller: Id, target: Id)
    requires CanCall(users, caller, target) && Truthy(target)
    ensures var rung := Initiate(users, caller, target).users;
            var r := Accept(rung, caller);
            r.result == Some(target) &&
            r.users[caller].status == EnLlamada && r.users[target].status == EnLlamada
  {
    var rung := Initiate(users, caller, target).users;
    assert LivePartner(rung, caller) == Some(target);
  }

  /**
   * A call from start to finish: two disponible users, one calls the other,
   * the callee accepts, and both are in call with each other, still paired;
   * if the caller then disconnects, the callee is disponible again.
   */
  lemma CallLifecycle(users: map<Id, User>, a: Id, b: Id)
    requires Paired(users) && a != b && a in users && b in users
    requires users[a].status == Disponible && users[b].status == Disponible
    ensures var rung := Initiate(users, a, b);
            var talking := Accept(rung.users, b);
            var left := Unregister(talking.users, a);
            rung.result && talking.result == Some(a) &&
            Became(users, talking.users, a, EnLlamada, Some(b)) &&
            Became(users, talking.users, b, EnLlamada, Some(a)) &&
            Paired(talking.users) &&
            a !in left && Became(users, left, b, Disponible, None) && Paired(left)
  {
    var rung := Initiate(users, a, b);
    InitiateKeepsPaired(users, a, b);
    assert "" !in users;
    assert LivePartner(rung.users, b) == Some(a);
    var talking := Accept(rung.users, b);
    AcceptKeepsPaired(rung.users, b);
    assert LivePartner(talking.users, a) == Some(b);
    UnregisterKeepsPaired(talking.users, a);
  }

  /** A call request to a busy user fails and changes nobody, the target's partner included. */
  lemma BusyTargetUnchanged(users: map<Id, User>, caller: Id, target: Id)
    requires target in users && users[target].status != Disponible
    ensures Initiate(users, caller, target) == Outcome(false, users)
  {
  }

  // Counterexamples: where the invariant is lost.

  /** The registry of a call between "A" and "B", with "C" disponible. */
  function InCallAB(): map<Id, User> {
    map[
      "A" := User(Socket(0), "Alice", Llamando, Some("B"), AvatarColor("A")),
      "B" := User(Socket(1), "Bob", RecibiendoLlamada, Some("A"), AvatarColor("B")),
      "C" := User(Socket(2), "Carol", Disponible, None, AvatarColor("C"))
    ]
  }

  lemma InCallABIsPaired()
    ensures Paired(InCallAB())
  {
    var m := InCallAB();
    assert PairedAt(m, "A") && PairedAt(m, "B") && PairedAt(m, "C");
    forall x | x in m
      ensures PairedAt(m, x)
    {
      assert x == "A" || x == "B" || x == "C";
    }
  }

  /** A caller that is already calling may start a second call, which leaves its first partner dangling. */
  lemma BusyCallerBreaksPairing()
    ensures Paired(InCallAB())
    ensures Initiate(InCallAB(), "A", "C").result
    ensures !Paired(Initiate(InCallAB(), "A", "C").users)
  {
    InCallABIsPaired();
    var r := Initiate(InCallAB(), "A", "C");
    assert r.users["A"].inCallWith == Some("C");
    assert !PairedAt(r.users, "B");
  }

  /** `update_status` alone does not release the previous partner. */
  lemma SetStatusLeavesPartnerDangling()
    ensures Paired(InCallAB())
    ensures !Paired(SetStatus(InCallAB(), "A", Disponible, None))
  {
    InCallABIsPaired();
    var r := SetStatus(InCallAB(), "A", Disponible, None);
    assert !PairedAt(r, "B");
  }

  /** Re-registering an id that is in a call resets it and leaves its partner dangling. */
  lemma ReregisterBreaksPairing()
    ensures Paired(InCallAB())
    ensures !Paired(Register(InCallAB(), "A", Socket(3), "Alice"))
  {
    InCallABIsPaired();
    var r := Register(InCallAB(), "A", Socket(3), "Alice");
    assert !PairedAt(r, "B");
  }

  /** The registry of `InCallAB` in which disponible "C" still holds a stale partner, "A". */
  function StaleAB(): map<Id, User> {
    InCallAB()["C" := InCallAB()["C"].(inCallWith := Some("A"))]
  }

  lemma StaleABIsWeaklyPaired()
    ensures WeaklyPaired(StaleAB())
    ensures LivePartner(StaleAB(), "C") == Some("A")
  {
    var m := StaleAB();
    assert WeaklyPairedAt(m, "A") && WeaklyPairedAt(m, "B") && WeaklyPairedAt(m, "C");
    forall x | x in m
      ensures WeaklyPairedAt(m, x)
    {
      assert x == "A" || x == "B" || x == "C";
    }
  }

  /**
   * The weaker invariant that constrains only busy users is not enough: a
   * disponible user holding a stale partner acts on that partner and strands
   * the partner's real peer, whether it accepts, ends or declines, or
   * disconnects.
   */
  lemma StalePartnerBreaksWeakSymmetry()
    ensures WeaklyPaired(StaleAB())
    ensures !WeaklyPaired(Accept(StaleAB(), "C").users)
    ensures !WeaklyPaired(Release(StaleAB(), "C").users)
    ensures !WeaklyPaired(Unregister(StaleAB(), "C"))
  {
    StaleABIsWeaklyPaired();
    assert !WeaklyPairedAt(Accept(StaleAB(), "C").users, "B");
    assert !WeaklyPairedAt(Release(StaleAB(), "C").users, "B");
    assert !WeaklyPairedAt(Unregister(StaleAB(), "C"), "B");
  }

  /** Only a busy user is constrained: its partner is registered and points back. */
  predicate WeaklyPairedAt(users: map<Id, User>, x: Id)
    requires x in users
  {
    users[x].status != Disponible ==>
      users[x].inCallWith.Some? &&
      users[x].inCallWith.value in users &&
      users[users[x].inCallWith.value].inCallWith == Some(x)
  }

  predicate WeaklyPaired(users: map<Id, User>) {
    forall x :: x in users ==> WeaklyPairedAt(users, x)
  }
}
