/**
 Test before evict: what happens to a recorded collision, when a tried entry may be evicted,
 and which branches are never taken.
 */
module AddrManCollisions {
  import opened AddrMan
  import opened AddrManInvariant
  import opened AddrManSteps
  import opened AddrManOps
  import opened Ordered
  import opened Wrappers

  /** A recorded collision whose entry still exists is one: its tried slot is taken. */
  lemma CollisionIsReal(s: State, id: Id, now: int)
    requires CollisionsOk(s) && id in s.collisions
    ensures Judge(s, id, now) != NoCollision
  {
  }

  /**
   When the challenger `c` may take the place of the tried entry `x` at time `now`: the last
   success of x is four hours old or more, and either its last attempt is between a minute and
   four hours old, or that is older still and c has been waiting for over forty minutes.
   */
  predicate Justified(s: State, x: Id, c: Id, now: int)
    requires x in s.info
  {
    && c in s.info && s.cfg.TriedSlot(s.info[c].addr) == s.cfg.TriedSlot(s.info[x].addr)
    && now - s.info[x].lastSuccess >= REPLACEMENT
    && (|| MINUTE < now - s.info[x].lastTry < REPLACEMENT
        || (now - s.info[x].lastTry >= REPLACEMENT && now - s.info[c].lastSuccess > TEST_WINDOW))
  }

  ghost predicate ResolvedOne(s: State, r: State, id: Id, now: int) {
    && Evolves(s, r) && TriedKept(s, r)
    && s.collisions - {id} <= r.collisions <= s.collisions && r.info.Keys <= s.info.Keys
    && (forall x :: x in r.info && x != id ==> SameHistory(s.info[x], r.info[x]))
    && (forall x :: x in s.info && s.info[x].inTried && x in r.info && !r.info[x].inTried ==> Justified(s, x, id, now))
  }

  lemma CollisionsShrink(s: State, id: Id)
    requires Inv(s)
    ensures Inv(s.(collisions := s.collisions - {id}))
  {
    hide Occ, Shuffled, RefsOk, Counted, TriedOk, NewOk, Indexed, CollisionsOk, RoutableOnly, Calm;
    var r := s.(collisions := s.collisions - {id});
    RefsTimes(s, {});
    RewriteKeeps(s, r, {}, {});
    CalmSelf(s);
    assert Calm(s, r) by { CalmButCollisions(s, s, r); }
    CalmKeeps(s, r);
  }

  lemma CalmButCollisions(s: State, t: State, r: State)
    requires Calm(s, t) && r == t.(collisions := r.collisions)
    ensures Calm(s, r)
  {
  }

  /** Moving a challenger into its taken slot. */
  lemma ReplaceKeeps(s: State, id: Id, now: int)
    requires Inv(s) && id in s.collisions && now > 0 && Judge(s, id, now) == Replace
    ensures Inv(ResolveOne(s, id, now)) && ResolvedOne(s, ResolveOne(s, id, now), id, now)
  {
    hide Occ, Shuffled, RefsOk, Counted, TriedOk, NewOk, Indexed, MakeTried, Find, Moved, Calm, Evolves, RoutableOnly, CollisionsOk;
    var a := s.info[id].addr;
    FindsItself(s, id, now);
    GoodTouches(s, id, now);
    var t := s.(lastGood := now).With(id, Succeeded(s.info[id], now));
    NotNegativeInv(s, id);
    Challenges(s, id);
    MakeTriedKeeps(t, id);
    MovedEvolves(t, MakeTried(t, id), id);
    var u := MakeTried(t, id);
    var r := u.(collisions := s.collisions - {id});
    assert ResolveOne(s, id, now) == u.(collisions := u.collisions - {id});
    assert u.collisions == t.collisions == s.collisions by { MovedCollisions(t, u, id); }
    assert Inv(r) by {
      hide *;
      ButCollisions(u, s.collisions - {id});
    }
    ReplaceIs(s, t, u, id, now);
  }

  lemma MovedCollisions(t: State, u: State, id: Id)
    requires id in t.info && Moved(t, u, id)
    ensures u.collisions == t.collisions
  {
  }

  lemma ButCollisions(u: State, c: set<Id>)
    requires InvBut(u, {}, {}) && RoutableOnly(u) && CollisionsOk(u.(collisions := c))
    ensures Inv(u.(collisions := c))
  {
    hide Occ, Shuffled, RefsOk, Counted, TriedOk, NewOk, Indexed;
    RefsTimes(u, {});
    RewriteKeeps(u, u.(collisions := c), {}, {});
  }

  lemma FindsItself(s: State, id: Id, now: int)
    requires Indexed(s.info, s.ids, s.idCount) && id in s.info
    ensures Find(s.(lastGood := now), s.info[id].addr) == Some(id)
  {
  }

  lemma Challenges(s: State, id: Id)
    requires CollisionsOk(s) && id in s.collisions && id in s.info
    ensures !s.info[id].inTried && s.cfg.TriedSlot(s.info[id].addr) in s.triedTable
  {
  }

  lemma ReplaceIs(s: State, t: State, u: State, id: Id, now: int)
    requires Inv(s) && id in s.collisions && Judge(s, id, now) == Replace
    requires t.info == s.info[id := Succeeded(s.info[id], now)] && Calm(s, t) && t.collisions == s.collisions
    requires Moved(t, u, id) && Evolves(t, u)
    ensures ResolvedOne(s, u.(collisions := u.collisions - {id}), id, now)
  {
    hide Occ, Shuffled, RefsOk, Counted, NewOk;
    EvolvesOn(s, t, u);
  }

  lemma ResolveOneKeeps(s: State, id: Id, now: int)
    requires Inv(s) && id in s.collisions && now > 0
    ensures Inv(ResolveOne(s, id, now)) && ResolvedOne(s, ResolveOne(s, id, now), id, now)
  {
    hide Occ, Shuffled, RefsOk, Counted, TriedOk, NewOk, Indexed, CollisionsOk, RoutableOnly, Good;
    CollisionIsReal(s, id, now);
    match Judge(s, id, now)
    case Replace => ReplaceKeeps(s, id, now);
    case Forget => CollisionsShrink(s, id);
    case Wait =>
  }

  /** The challenger takes the slot exactly when the rules allow it; otherwise the tables stay as they are. */
  lemma ResolveExactly(s: State, id: Id, now: int)
    requires Inv(s) && id in s.collisions && id in s.info && now > 0
    ensures var slot := s.cfg.TriedSlot(s.info[id].addr);
            slot in s.triedTable && s.triedTable[slot] in s.info
    ensures var x := s.triedTable[s.cfg.TriedSlot(s.info[id].addr)];
            var r := ResolveOne(s, id, now);
            if Justified(s, x, id, now) then id in r.info && r.info[id].inTried && x in r.info && !r.info[x].inTried
            else r == s || r == s.(collisions := s.collisions - {id})
  {
    hide Occ, Shuffled, RefsOk, Counted, NewOk, Indexed, MakeTried, Good, Calm, Evolves;
    Challenges(s, id);
    var slot := s.cfg.TriedSlot(s.info[id].addr);
    var x := s.triedTable[slot];
    assert x in s.info && s.info[x].inTried && s.cfg.TriedSlot(s.info[x].addr) == slot;
    assert s.cfg.Routable(s.info[id].addr.host);
    if Justified(s, x, id, now) { ReplaceMoves(s, id, x, now); }
  }

  lemma ReplaceMoves(s: State, id: Id, x: Id, now: int)
    requires Inv(s) && id in s.collisions && id in s.info && now > 0 && Judge(s, id, now) == Replace
    requires s.cfg.TriedSlot(s.info[id].addr) in s.triedTable && s.triedTable[s.cfg.TriedSlot(s.info[id].addr)] == x
    requires x in s.info && s.info[x].inTried && !s.info[id].inTried
    ensures var r := ResolveOne(s, id, now);
            id in r.info && r.info[id].inTried && x in r.info && !r.info[x].inTried
  {
    hide Occ, Shuffled, RefsOk, Counted, TriedOk, NewOk, Indexed, MakeTried, Find, Calm, Evolves, RoutableOnly, CollisionsOk;
    FindsItself(s, id, now);
    GoodTouches(s, id, now);
    NotNegativeInv(s, id);
    MakeTriedKeeps(s.(lastGood := now).With(id, Succeeded(s.info[id], now)), id);
  }

  /** All evictions of a pass over the collisions are justified by what was known before it. */
  ghost predicate EvictionsJustified(s: State, r: State, todo: set<Id>, now: Id -> int) {
    forall x :: x in s.info && s.info[x].inTried && !(x in r.info && r.info[x].inTried) ==>
                  exists c :: c in todo && Justified(s, x, c, now(c))
  }

  lemma JustifiedBefore(s: State, t: State, id: Id, time: int, x: Id, c: Id, now: int)
    requires ResolvedOne(s, t, id, time) && x in s.info && x in t.info && x != id && c != id && Justified(t, x, c, now)
    ensures Justified(s, x, c, now)
  {
  }

  lemma JustifiedSelf(s: State, todo: set<Id>, now: Id -> int)
    ensures EvictionsJustified(s, s, todo, now)
  {
  }

  lemma CombineJustified(s: State, t: State, r: State, todo: set<Id>, id: Id, now: Id -> int)
    requires Inv(s) && id in todo && id in s.collisions
    requires ResolvedOne(s, t, id, now(id)) && EvictionsJustified(t, r, todo - {id}, now)
    ensures EvictionsJustified(s, r, todo, now)
  {
    hide Inv, ResolvedOne, Justified;
    ResolvedFacts(s, t, id, now(id));
    forall x | x in s.info && s.info[x].inTried && !(x in r.info && r.info[x].inTried)
      ensures exists c :: c in todo && Justified(s, x, c, now(c))
    {
      if t.info[x].inTried {
        var c :| c in todo - {id} && Justified(t, x, c, now(c));
        if x == id { ChallengerUntried(s, id); }
        JustifiedBefore(s, t, id, now(id), x, c, now(c));
        assert c in todo;
      } else {
        JustifiedNow(s, t, id, now(id), x);
      }
    }
  }

  lemma {:induction false} ResolveFromKeeps(s: State, todo: set<Id>, now: Id -> int)
    requires Inv(s) && todo <= s.collisions && forall c :: now(c) > 0
    ensures var r := ResolveFrom(s, todo, now);
            Inv(r) && Evolves(s, r) && EvictionsJustified(s, r, todo, now)
    decreases |todo|
  {
    hide Inv, ResolvedOne, Justified, Evolves, ResolveOne, EvictionsJustified, Indexed;
    if todo == {} {
      EvolvesSelf(s);
      JustifiedSelf(s, todo, now);
    } else {
      var id := Least(todo);
      var t := ResolveOne(s, id, now(id));
      ResolveOneKeeps(s, id, now(id));
      ResolvedFacts(s, t, id, now(id));
      var r := ResolveFrom(t, todo - {id}, now);
      ResolveFromKeeps(t, todo - {id}, now);
      InvIndexed(s);
      EvolvesOn(s, t, r);
      CombineJustified(s, t, r, todo, id, now);
    }
  }

  lemma EvolvesSelf(s: State)
    ensures Evolves(s, s)
  {
  }

  lemma InvIndexed(s: State)
    requires Inv(s)
    ensures Indexed(s.info, s.ids, s.idCount)
  {
  }

  lemma ResolvedFacts(s: State, t: State, id: Id, now: int)
    requires ResolvedOne(s, t, id, now)
    ensures Evolves(s, t) && s.collisions - {id} <= t.collisions
    ensures forall x :: x in s.info && s.info[x].inTried ==> x in t.info
  {
  }

  lemma JustifiedNow(s: State, t: State, id: Id, now: int, x: Id)
    requires ResolvedOne(s, t, id, now) && x in s.info && s.info[x].inTried && x in t.info && !t.info[x].inTried
    ensures Justified(s, x, id, now)
  {
  }

  lemma ChallengerUntried(s: State, id: Id)
    requires Inv(s) && id in s.collisions && id in s.info
    ensures !s.info[id].inTried
  {
  }

  /** Resolving collisions. */
  lemma ResolveCollisionsKeeps(s: State, now: Id -> int)
    requires Inv(s) && forall c :: now(c) > 0
    ensures var r := ResolveCollisions(s, now);
            Inv(r) && Evolves(s, r) && EvictionsJustified(s, r, s.collisions, now)
  {
    ResolveFromKeeps(s, s.collisions, now);
  }

  /** The entry reported for a collision is a tried one in the slot of a challenger; nothing is created. */
  lemma SelectTriedCollisionKeeps(s: State, draw: nat)
    requires Inv(s)
    ensures var (r, found) := SelectTriedCollision(s, draw);
            && Inv(r) && r == s.(collisions := r.collisions) && r.collisions <= s.collisions && Calm(s, r)
            && (found.Some? ==> exists id, c :: id in s.info && s.info[id] == found.value && found.value.inTried
                                                && c in s.collisions && c in s.info
                                                && s.cfg.TriedSlot(s.info[c].addr) == s.cfg.TriedSlot(found.value.addr))
  {
    hide Occ, Shuffled, RefsOk, Counted, NewOk, Indexed, RoutableOnly, Nth, Calm;
    CalmSelf(s);
    if s.collisions != {} {
      assert |s.collisions| > 0;
      var c := Nth(s.collisions, draw % |s.collisions|);
      if c in s.info {
        Challenges(s, c);
        var slot := s.cfg.TriedSlot(s.info[c].addr);
        var id := s.triedTable[slot];
        assert id in s.info && s.info[id].inTried && s.cfg.TriedSlot(s.info[id].addr) == slot;
      } else {
        CollisionsShrink(s, c);
        CalmButCollisions(s, s, s.(collisions := s.collisions - {c}));
      }
    }
  }
}
