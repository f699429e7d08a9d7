/**
 What every step of the allocator keeps, and what holds over whole runs in which the
 steps of any number of reservations interleave in any order.
 */
module AllocatorLaws {
  import opened Wrappers
  import opened Sets
  import opened AllocatorSpec

  // ---------------------------------------------------------------------------
  // How one changed entry moves the union of held elements

  lemma HeldAfterUpdate<C>(m: map<C, Change>, c: C, v: Change)
    requires Exclusive(m)
    ensures c in m ==> HeldBits(m[c := v]) == HeldBits(m) - m[c].Held() + v.Held()
    ensures c !in m ==> HeldBits(m[c := v]) == HeldBits(m) + v.Held()
  {
    var n := m[c := v];
    forall x
      ensures x in HeldBits(n) <==> (x in v.Held() || (x in HeldBits(m) && (c in m ==> x !in m[c].Held())))
    {
      if x in v.Held() {
        assert c in n && x in n[c].Held();
      }
      if d :| d in m && d != c && x in m[d].Held() {
        assert d in n && x in n[d].Held();
      }
    }
  }

  lemma HeldAfterRemove<C>(m: map<C, Change>, c: C)
    requires Exclusive(m) && c in m
    ensures HeldBits(m - {c}) == HeldBits(m) - m[c].Held()
  {
    var n := m - {c};
    forall x
      ensures x in HeldBits(n) <==> x in HeldBits(m) && x !in m[c].Held()
    {
      if d :| d in m && d != c && x in m[d].Held() {
        assert d in n && x in n[d].Held();
      }
    }
  }

  lemma HeldMember<C>(m: map<C, Change>, c: C)
    requires c in m
    ensures m[c].Held() <= HeldBits(m)
  {
  }

  lemma ExclusiveAfterUpdate<C>(m: map<C, Change>, c: C, v: Change)
    requires Exclusive(m)
    requires v.Held() !! (HeldBits(m) - (if c in m then m[c].Held() else {}))
    ensures Exclusive(m[c := v])
  {
    forall d | d in m && d != c ensures m[d].Held() !! v.Held() {
      HeldMember(m, d);
    }
  }

  lemma FreesAfterUpdate<C>(m: map<C, Change>, bitmap: set<nat>, c: C, v: Change)
    requires FreesOwned(m, bitmap)
    requires PendingFree(v) ==> v.bits <= bitmap && forall d :: d in m && d != c && PendingFree(m[d]) ==> m[d].bits !! v.bits
    ensures FreesOwned(m[c := v], bitmap)
  {
  }

  lemma OwnershipAfterUpdate<R, C>(m: map<C, Change>, rs: map<R, Reservation<C>>, c: C, v: Change)
    requires Ownership(m, rs)
    requires c in m ==> m[c].kind == v.kind
    ensures Ownership(m[c := v], rs)
  {
  }

  lemma OwnershipAfterOpen<R, C>(m: map<C, Change>, rs: map<R, Reservation<C>>, r: R, c: C, kind: Kind)
    requires Ownership(m, rs) && r in rs && c !in m
    ensures kind.Allocation? ==> Ownership(m[c := Change(kind, {}, false)], rs[r := rs[r].(allocations := Some(c))])
    ensures kind.Deallocation? ==> Ownership(m[c := Change(kind, {}, false)], rs[r := rs[r].(deallocations := Some(c))])
  {
  }

  lemma OwnershipAfterReserve<R, C>(m: map<C, Change>, rs: map<R, Reservation<C>>, r: R, n: nat)
    requires Ownership(m, rs) && r in rs
    ensures Ownership(m, rs[r := rs[r].(reserved := n)])
  {
  }

  // ---------------------------------------------------------------------------
  // Steps and runs

  datatype Step<R, C> =
    | StepOpen(r: R)
    | StepOpenAllocations(r: R, c: C)
    | StepOpenDeallocations(r: R, c: C)
    | StepGrow(extra: nat)
    | StepReserve(r: R, n: nat)
    | StepCancel(r: R)
    | StepAllocate(r: R, x: nat)
    | StepFree(r: R, x: nat)
    | StepCommit(r: R)
    | StepTake(r: R)
    | StepDrop(c: C)
    | StepClose(r: R)

  /** x is pending in the allocations of r. */
  ghost predicate PendingIn<R, C>(s: State<R, C>, r: R, x: nat)
    requires r in s.reservations
  {
    var a := s.reservations[r].allocations;
    a.Some? && a.value in s.changes && x in s.changes[a.value].bits
  }

  /** The caller owns x: it is pending here, or in use and waiting to be freed nowhere else. */
  ghost predicate Freeable<R, C>(s: State<R, C>, r: R, x: nat)
    requires r in s.reservations
  {
    || PendingIn(s, r, x)
    || (x in s.bitmap &&
        forall c :: c in s.changes && s.reservations[r].deallocations != Some(c) && PendingFree(s.changes[c]) ==>
          x !in s.changes[c].bits)
  }

  /** No reservation refers to c any more. */
  ghost predicate Unreferenced<R, C>(s: State<R, C>, c: C) {
    forall r :: r in s.reservations ==> s.reservations[r].allocations != Some(c) && s.reservations[r].deallocations != Some(c)
  }

  /** x is the first free element at or after the hint. */
  ghost predicate NextFree<R, C>(s: State<R, C>, x: nat) {
    && Findable(s, x)
    && s.firstFree <= x
    && forall y: nat :: s.firstFree <= y < x ==> !Findable(s, y)
  }

  ghost predicate Enabled<R, C>(s: State<R, C>, step: Step<R, C>)
    requires Ownership(s.changes, s.reservations)
  {
    match step
    case StepOpen(r) => r !in s.reservations
    case StepOpenAllocations(r, c) => r in s.reservations && s.reservations[r].allocations.None? && c !in s.changes
    case StepOpenDeallocations(r, c) => r in s.reservations && s.reservations[r].deallocations.None? && c !in s.changes
    case StepGrow(_) => true
    case StepReserve(r, n) => r in s.reservations && n <= Available(s)
    case StepCancel(r) => r in s.reservations && s.reservations[r].reserved <= s.reserved
    case StepAllocate(r, x) => CanAllocate(s, r) && Unspent(s, r) && NextFree(s, x)
    case StepFree(r, x) => BothOpen(s, r) && Unspent(s, r) && Freeable(s, r, x)
    case StepCommit(r) => BothOpen(s, r) && Unspent(s, r)
    case StepTake(r) => r in s.reservations
    case StepDrop(c) => c in s.changes && Unreferenced(s, c)
    case StepClose(r) => r in s.reservations && s.reservations[r].reserved == 0
  }

  ghost function Next<R, C>(s: State<R, C>, step: Step<R, C>): State<R, C>
    requires Ownership(s.changes, s.reservations) && Enabled(s, step)
  {
    match step
    case StepOpen(r) => OpenReservation(s, r)
    case StepOpenAllocations(r, c) => OpenAllocations(s, r, c)
    case StepOpenDeallocations(r, c) => OpenDeallocations(s, r, c)
    case StepGrow(extra) => Grow(s, extra)
    case StepReserve(r, n) => Reserve(s, r, n)
    case StepCancel(r) => Cancel(s, r)
    case StepAllocate(r, x) => Allocate(s, r, x)
    case StepFree(r, x) => Release(s, r, x)
    case StepCommit(r) => Commit(s, r)
    case StepTake(r) => TakeDeallocations(s, r)
    case StepDrop(c) => Drop(s, c)
    case StepClose(r) => CloseReservation(s, r)
  }

  // ---------------------------------------------------------------------------
  // One step at a time

  lemma SameBitmaps<R, C>(s: State<R, C>, t: State<R, C>)
    requires Bitmaps(s) && s.bitmap == t.bitmap && s.size == t.size && s.total == t.total
    requires s.used == t.used && s.changes == t.changes
    ensures Bitmaps(t)
  {
  }

  lemma OpenKeeps<R, C>(s: State<R, C>, r: R)
    requires Inv(s) && r !in s.reservations
    ensures Inv(OpenReservation(s, r))
  {
    hide Exclusive, FreesOwned, HeldBits, Bitmaps;
    var t := OpenReservation(s, r);
    PromisedSplit(t.reservations, r);
    assert t.reservations - {r} == s.reservations;
    assert Bitmaps(t) by { SameBitmaps(s, t); }
  }

  lemma OpenAllocationsKeeps<R, C>(s: State<R, C>, r: R, c: C)
    requires Inv(s) && r in s.reservations && c !in s.changes
    ensures Inv(OpenAllocations(s, r, c))
    ensures HeldBits(OpenAllocations(s, r, c).changes) == HeldBits(s.changes)
  {
    var v := Change(Allocation, {}, false);
    HeldAfterUpdate(s.changes, c, v);
    ExclusiveAfterUpdate(s.changes, c, v);
    FreesAfterUpdate(s.changes, s.bitmap, c, v);
    OwnershipAfterOpen(s.changes, s.reservations, r, c, Allocation);
    PromisedUpdate(s.reservations, r, s.reservations[r].(allocations := Some(c)));
  }

  lemma OpenDeallocationsKeeps<R, C>(s: State<R, C>, r: R, c: C)
    requires Inv(s) && r in s.reservations && c !in s.changes
    ensures Inv(OpenDeallocations(s, r, c))
    ensures HeldBits(OpenDeallocations(s, r, c).changes) == HeldBits(s.changes)
  {
    var v := Change(Deallocation, {}, false);
    HeldAfterUpdate(s.changes, c, v);
    ExclusiveAfterUpdate(s.changes, c, v);
    FreesAfterUpdate(s.changes, s.bitmap, c, v);
    OwnershipAfterOpen(s.changes, s.reservations, r, c, Deallocation);
    PromisedUpdate(s.reservations, r, s.reservations[r].(deallocations := Some(c)));
  }

  lemma GrowKeeps<R, C>(s: State<R, C>, extra: nat)
    requires Inv(s)
    ensures Inv(Grow(s, extra))
    ensures Available(Grow(s, extra)) == Available(s) + extra
  {
  }

  /**
   Reserve adds to the promise without looking again at what is available, so it keeps the
   allocator able to deliver exactly when the growth, if any, covered the shortfall.
   */
  lemma ReserveKeeps<R, C>(s: State<R, C>, r: R, n: nat)
    requires Inv(s) && r in s.reservations
    ensures Inv(Reserve(s, r, n)) <==> n <= Available(s)
    ensures Available(Reserve(s, r, n)) == Available(s) - n
  {
    hide Exclusive, FreesOwned, HeldBits, Promised;
    PromisedUpdate(s.reservations, r, s.reservations[r].(reserved := s.reservations[r].reserved + n));
  }

  lemma CancelKeeps<R, C>(s: State<R, C>, r: R)
    requires Inv(s) && r in s.reservations
    ensures s.reservations[r].reserved <= s.reserved
    ensures Inv(Cancel(s, r))
    ensures Available(Cancel(s, r)) == Available(s) + s.reservations[r].reserved
  {
    PromisedSplit(s.reservations, r);
    PromisedUpdate(s.reservations, r, s.reservations[r].(reserved := 0));
  }

  lemma TakeKeeps<R, C>(s: State<R, C>, r: R)
    requires Inv(s) && r in s.reservations
    ensures Inv(TakeDeallocations(s, r))
  {
    PromisedUpdate(s.reservations, r, s.reservations[r].(deallocations := None));
  }

  lemma CloseKeeps<R, C>(s: State<R, C>, r: R)
    requires Inv(s) && r in s.reservations && s.reservations[r].reserved == 0
    ensures Inv(CloseReservation(s, r))
  {
    PromisedSplit(s.reservations, r);
  }

  /** A promise is always backed by an element at or after an honest hint. */
  lemma ReservedAllocationFinds<R, C>(s: State<R, C>)
    requires Inv(s) && Hint(s) && s.reserved > 0
    ensures exists x: nat :: NextFree(s, x)
  {
    var taken := s.bitmap + HeldBits(s.changes);
    DisjointUnionSize(s.bitmap, HeldBits(s.changes));
    FreeElement(taken, s.size);
    var e: nat :| e < s.size && e !in taken;
    var candidates := Below(s.size) - taken;
    assert e in candidates;
    var x := Min(candidates);
    assert Findable(s, x);
    forall y: nat | s.firstFree <= y < x ensures !Findable(s, y) {
      assert y !in candidates;
    }
    assert NextFree(s, x);
  }

  lemma AllocateKeeps<R, C>(s: State<R, C>, r: R, x: nat)
    requires Inv(s) && CanAllocate(s, r) && Unspent(s, r) && Findable(s, x)
    ensures Inv(Allocate(s, r, x))
    ensures HeldBits(Allocate(s, r, x).changes) == HeldBits(s.changes) + {x}
    ensures Available(Allocate(s, r, x)) == Available(s)
  {
    hide Exclusive, FreesOwned, HeldBits, Promised, Apart;
    var c := s.reservations[r].allocations.value;
    var v := s.changes[c].(bits := s.changes[c].bits + {x});
    AllocateHolds(s.changes, c, x);
    FreesAfterUpdate(s.changes, s.bitmap, c, v);
    OwnershipAfterUpdate(s.changes, s.reservations, c, v);
    OwnershipAfterReserve(s.changes[c := v], s.reservations, r, s.reservations[r].reserved - 1);
    PromisedUpdate(s.reservations, r, s.reservations[r].(reserved := s.reservations[r].reserved - 1));
  }

  lemma AllocateHolds<C>(m: map<C, Change>, c: C, x: nat)
    requires Exclusive(m) && c in m && m[c].kind == Allocation && !m[c].committed && x !in HeldBits(m)
    ensures HeldBits(m[c := m[c].(bits := m[c].bits + {x})]) == HeldBits(m) + {x}
    ensures Exclusive(m[c := m[c].(bits := m[c].bits + {x})])
  {
    var v := m[c].(bits := m[c].bits + {x});
    HeldMember(m, c);
    HeldAfterUpdate(m, c, v);
    ExclusiveAfterUpdate(m, c, v);
    assert HeldBits(m) - m[c].Held() + v.Held() == HeldBits(m) + {x};
  }

  /**
   A reservation is good for one commit: an element allocated through a committed change is
   not held, so nothing stops it from being handed out again.
   */
  lemma AllocateHoldsIffUnspent<R, C>(s: State<R, C>, r: R, x: nat)
    requires Inv(s) && CanAllocate(s, r) && Findable(s, x)
    ensures Findable(Allocate(s, r, x), x) <==> s.changes[s.reservations[r].allocations.value].committed
  {
    var c := s.reservations[r].allocations.value;
    HeldAfterUpdate(s.changes, c, s.changes[c].(bits := s.changes[c].bits + {x}));
  }

  lemma FreeKeeps<R, C>(s: State<R, C>, r: R, x: nat)
    requires Inv(s) && BothOpen(s, r) && Unspent(s, r) && Freeable(s, r, x)
    ensures Inv(Release(s, r, x))
    ensures HeldBits(Release(s, r, x).changes) == HeldBits(s.changes) - (if PendingIn(s, r, x) then {x} else {})
  {
    var a, d := s.reservations[r].allocations.value, s.reservations[r].deallocations.value;
    if PendingIn(s, r, x) {
      var v := s.changes[a].(bits := s.changes[a].bits - {x});
      UndoHolds(s.changes, a, x);
      FreesAfterUpdate(s.changes, s.bitmap, a, v);
      OwnershipAfterUpdate(s.changes, s.reservations, a, v);
      SubsetSize(HeldBits(s.changes) - {x}, HeldBits(s.changes));
    } else {
      var v := s.changes[d].(bits := s.changes[d].bits + {x});
      HeldAfterUpdate(s.changes, d, v);
      ExclusiveAfterUpdate(s.changes, d, v);
      FreesAfterUpdate(s.changes, s.bitmap, d, v);
      OwnershipAfterUpdate(s.changes, s.reservations, d, v);
    }
  }

  lemma UndoHolds<C>(m: map<C, Change>, c: C, x: nat)
    requires Exclusive(m) && c in m && m[c].kind == Allocation && !m[c].committed && x in m[c].bits
    ensures HeldBits(m[c := m[c].(bits := m[c].bits - {x})]) == HeldBits(m) - {x}
    ensures Exclusive(m[c := m[c].(bits := m[c].bits - {x})])
  {
    var v := m[c].(bits := m[c].bits - {x});
    HeldMember(m, c);
    HeldAfterUpdate(m, c, v);
    ExclusiveAfterUpdate(m, c, v);
    assert HeldBits(m) - m[c].Held() + v.Held() == HeldBits(m) - {x};
  }

  /**
   Freeing a still-pending element below the hint does not lower the hint, so that is the
   one use of Free after which the hint is wrong.
   */
  lemma FreeKeepsHint<R, C>(s: State<R, C>, r: R, x: nat)
    requires Inv(s) && Hint(s) && BothOpen(s, r) && Unspent(s, r) && Freeable(s, r, x)
    ensures Hint(Release(s, r, x)) <==> !(PendingIn(s, r, x) && x < s.firstFree)
  {
    FreeKeeps(s, r, x);
    if PendingIn(s, r, x) && x < s.firstFree {
      HeldMember(s.changes, s.reservations[r].allocations.value);
      assert Findable(Release(s, r, x), x);
    } else {
      forall y: nat | y < s.firstFree ensures !Findable(Release(s, r, x), y) {
        assert !Findable(s, y);
      }
    }
  }

  /** A commit keeps the invariant and leaves as many elements available as before. */
  lemma CommitKeeps<R, C>(s: State<R, C>, r: R)
    requires Inv(s) && BothOpen(s, r) && Unspent(s, r)
    ensures Inv(Commit(s, r))
    ensures Available(Commit(s, r)) == Available(s)
  {
    var a, d := s.reservations[r].allocations.value, s.reservations[r].deallocations.value;
    var ab, db := s.changes[a].bits, s.changes[d].bits;
    if ab != {} || db != {} {
      hide Exclusive, FreesOwned, Ownership;
      var held := HeldBits(s.changes);
      CommitParts(s, r, a, d);
      CommitCounts(s.bitmap, held, ab, db);
      CommitTakes(s.bitmap, held, ab, db);
      CommitTotals(s, Commit(s, r), ab, db);
    }
  }

  /**
   What a commit does, element by element: what was pending is set, what was waiting to be freed is
   cleared, and every other bit is as it was. Both changes keep their elements and are committed,
   unless there was nothing to do; nothing else is touched.
   */
  lemma CommitApplies<R, C>(s: State<R, C>, r: R, x: nat)
    requires Inv(s) && BothOpen(s, r) && Unspent(s, r)
    ensures var t, a, d := Commit(s, r), s.reservations[r].allocations.value, s.reservations[r].deallocations.value;
            && (x in s.changes[a].bits ==> x !in s.bitmap && x in t.bitmap)
            && (x in s.changes[d].bits ==> x in s.bitmap && x !in t.bitmap)
            && (x !in s.changes[a].bits && x !in s.changes[d].bits ==> (x in t.bitmap <==> x in s.bitmap))
            && t.reservations == s.reservations && t.changes.Keys == s.changes.Keys
            && t.size == s.size && t.reserved == s.reserved && t.firstFree == s.firstFree
            && (forall c :: c in s.changes && c != a && c != d ==> t.changes[c] == s.changes[c])
            && t.changes[a].bits == s.changes[a].bits && t.changes[d].bits == s.changes[d].bits
            && t.changes[a].kind.Allocation? && t.changes[d].kind.Deallocation?
            && (t.changes[a].committed <==> !(s.changes[a].bits == {} && s.changes[d].bits == {}))
            && (t.changes[d].committed <==> !(s.changes[a].bits == {} && s.changes[d].bits == {}))
  {
    PendingApart(s, r);
    hide Inv, Unspent;
  }

  /** What is pending is clear, what waits to be freed is set, and each is in a change of its own. */
  lemma PendingApart<R, C>(s: State<R, C>, r: R)
    requires Inv(s) && BothOpen(s, r) && Unspent(s, r)
    ensures var a, d := s.reservations[r].allocations.value, s.reservations[r].deallocations.value;
            && a != d && s.changes[a].kind.Allocation? && s.changes[d].kind.Deallocation?
            && !s.changes[a].committed && !s.changes[d].committed
            && s.changes[a].bits !! s.bitmap && s.changes[d].bits <= s.bitmap
  {
    hide Exclusive, Promised, HeldBits;
    HeldMember(s.changes, s.reservations[r].allocations.value);
  }

  lemma CommitTotals<R, C>(s: State<R, C>, t: State<R, C>, ab: set<nat>, db: set<nat>)
    requires s.bitmap <= Below(s.size) && |s.bitmap| == s.used && HeldBits(s.changes) <= Below(s.size) - s.bitmap
    requires s.total == s.size && s.firstFree <= s.size && Fits(s)
    requires ab <= HeldBits(s.changes) && db <= s.bitmap
    requires |ab| + s.used >= |db|
    requires t == s.(bitmap := s.bitmap + ab - db, used := s.used + |ab| - |db|, changes := t.changes)
    requires HeldBits(t.changes) == HeldBits(s.changes) - ab + db
    requires Exclusive(t.changes) && FreesOwned(t.changes, t.bitmap) && Ownership(t.changes, t.reservations)
    ensures Inv(t) && Available(t) == Available(s)
  {
    CommitCounts(s.bitmap, HeldBits(s.changes), ab, db);
    CommitTakes(s.bitmap, HeldBits(s.changes), ab, db);
  }

  /** A commit moves elements between bitmap and held set without making any of them free. */
  lemma CommitFreesNothing<R, C>(s: State<R, C>, r: R)
    requires Inv(s) && BothOpen(s, r) && Unspent(s, r)
    ensures forall x: nat :: Findable(Commit(s, r), x) <==> Findable(s, x)
  {
    var a, d := s.reservations[r].allocations.value, s.reservations[r].deallocations.value;
    CommitParts(s, r, a, d);
    CommitTakes(s.bitmap, HeldBits(s.changes), s.changes[a].bits, s.changes[d].bits);
  }

  lemma CommitParts<R, C>(s: State<R, C>, r: R, a: C, d: C)
    requires Inv(s) && BothOpen(s, r) && Unspent(s, r)
    requires s.reservations[r].allocations == Some(a) && s.reservations[r].deallocations == Some(d)
    ensures s.changes[a].bits <= HeldBits(s.changes) && s.changes[d].bits <= s.bitmap
    ensures var n := s.changes[a := s.changes[a].(committed := true)][d := s.changes[d].(committed := true)];
            && HeldBits(n) == HeldBits(s.changes) - s.changes[a].bits + s.changes[d].bits
            && Exclusive(n)
            && FreesOwned(n, s.bitmap + s.changes[a].bits - s.changes[d].bits)
            && Ownership(n, s.reservations)
  {
    HeldMember(s.changes, a);
    CommitHolds(s.changes, a, d);
    CommitFrees(s.changes, s.bitmap, a, d);
    OwnershipAfterUpdate(s.changes, s.reservations, a, s.changes[a].(committed := true));
    OwnershipAfterUpdate(s.changes[a := s.changes[a].(committed := true)], s.reservations, d, s.changes[d].(committed := true));
  }

  lemma CommitTakes(bitmap: set<nat>, held: set<nat>, ab: set<nat>, db: set<nat>)
    requires ab <= held && db <= bitmap
    ensures bitmap + ab - db + (held - ab + db) == bitmap + held
    ensures bitmap !! held ==> bitmap + ab - db !! held - ab + db
  {
  }

  /** After a commit the allocations are no longer held and the deallocations are. */
  lemma CommitHolds<C>(m: map<C, Change>, a: C, d: C)
    requires Exclusive(m) && a in m && d in m
    requires m[a].kind == Allocation && !m[a].committed && PendingFree(m[d])
    requires m[d].bits !! HeldBits(m)
    ensures var n := m[a := m[a].(committed := true)][d := m[d].(committed := true)];
            Exclusive(n) && HeldBits(n) == HeldBits(m) - m[a].bits + m[d].bits
  {
    var av, dv := m[a].(committed := true), m[d].(committed := true);
    HeldAfterUpdate(m, a, av);
    ExclusiveAfterUpdate(m, a, av);
    HeldAfterUpdate(m[a := av], d, dv);
    ExclusiveAfterUpdate(m[a := av], d, dv);
  }

  lemma CommitFrees<C>(m: map<C, Change>, bitmap: set<nat>, a: C, d: C)
    requires FreesOwned(m, bitmap) && a in m && d in m && m[a].kind == Allocation && PendingFree(m[d])
    ensures FreesOwned(m[a := m[a].(committed := true)][d := m[d].(committed := true)], bitmap + m[a].bits - m[d].bits)
  {
  }

  lemma CommitCounts(bitmap: set<nat>, held: set<nat>, ab: set<nat>, db: set<nat>)
    requires bitmap !! held && ab <= held && db <= bitmap
    ensures |bitmap + ab - db| == |bitmap| + |ab| - |db|
    ensures |held - ab + db| == |held| - |ab| + |db|
  {
    DisjointUnionSize(bitmap, ab);
    DisjointUnionSize(bitmap + ab - db, db);
    assert bitmap + ab - db + db == bitmap + ab;
    DisjointUnionSize(held - ab, ab);
    assert held - ab + ab == held;
    DisjointUnionSize(held - ab, db);
  }

  lemma DropKeeps<R, C>(s: State<R, C>, c: C)
    requires Inv(s) && c in s.changes && Unreferenced(s, c)
    ensures Inv(Drop(s, c))
    ensures HeldBits(Drop(s, c).changes) == HeldBits(s.changes) - s.changes[c].Held()
    ensures Available(Drop(s, c)) == Available(s) + |s.changes[c].Held()|
  {
    HeldAfterRemove(s.changes, c);
    HeldMember(s.changes, c);
    var held, mine := HeldBits(s.changes), s.changes[c].Held();
    DisjointUnionSize(held - mine, mine);
    assert held - mine + mine == held;
    DropStructure(s.changes, s.bitmap, c);
    DropOwnership(s, c);
  }

  lemma DropStructure<C>(m: map<C, Change>, bitmap: set<nat>, c: C)
    requires Exclusive(m) && FreesOwned(m, bitmap)
    ensures Exclusive(m - {c}) && FreesOwned(m - {c}, bitmap)
  {
  }

  lemma DropOwnership<R, C>(s: State<R, C>, c: C)
    requires Ownership(s.changes, s.reservations) && Unreferenced(s, c)
    ensures Ownership(s.changes - {c}, s.reservations)
  {
  }

  /** Dropping a change lowers the hint far enough. */
  lemma DropKeepsHint<R, C>(s: State<R, C>, c: C)
    requires Exclusive(s.changes) && Hint(s) && c in s.changes
    ensures Hint(Drop(s, c))
  {
    HeldAfterRemove(s.changes, c);
    forall x: nat | x < Drop(s, c).firstFree ensures !Findable(Drop(s, c), x) {
      assert !Findable(s, x);
    }
  }

  // ---------------------------------------------------------------------------
  // Any step

  /** Every step of every reservation keeps the allocator's invariant. */
  lemma StepKeeps<R, C>(s: State<R, C>, step: Step<R, C>)
    requires Inv(s) && Enabled(s, step)
    ensures Inv(Next(s, step))
  {
    match step
    case StepOpen(r) => OpenKeeps(s, r);
    case StepOpenAllocations(r, c) => OpenAllocationsKeeps(s, r, c);
    case StepOpenDeallocations(r, c) => OpenDeallocationsKeeps(s, r, c);
    case StepGrow(extra) => GrowKeeps(s, extra);
    case StepReserve(r, n) => ReserveKeeps(s, r, n);
    case StepCancel(r) => CancelKeeps(s, r);
    case StepAllocate(r, x) => AllocateKeeps(s, r, x);
    case StepFree(r, x) => FreeKeeps(s, r, x);
    case StepCommit(r) => CommitKeeps(s, r);
    case StepTake(r) => TakeKeeps(s, r);
    case StepDrop(c) => DropKeeps(s, c);
    case StepClose(r) => CloseKeeps(s, r);
  }

  /** The step frees a still-pending element below the hint. */
  ghost predicate BreaksHint<R, C>(s: State<R, C>, step: Step<R, C>)
    requires Ownership(s.changes, s.reservations) && Enabled(s, step)
  {
    step.StepFree? && PendingIn(s, step.r, step.x) && step.x < s.firstFree
  }

  /** The hint survives exactly the steps that do not free a pending element below it. */
  lemma StepKeepsHint<R, C>(s: State<R, C>, step: Step<R, C>)
    requires Inv(s) && Hint(s) && Enabled(s, step)
    ensures Hint(Next(s, step)) <==> !BreaksHint(s, step)
  {
    match step
    case StepFree(r, x) => FreeKeepsHint(s, r, x);
    case StepDrop(c) => DropKeepsHint(s, c);
    case StepAllocate(r, x) => AllocateKeepsHint(s, r, x);
    case StepCommit(r) => CommitFreesNothing(s, r);
    case StepOpenAllocations(r, c) =>
      OpenAllocationsKeeps(s, r, c);
      SameHint(s, Next(s, step));
    case StepOpenDeallocations(r, c) =>
      OpenDeallocationsKeeps(s, r, c);
      SameHint(s, Next(s, step));
    case _ => SameHint(s, Next(s, step));
  }

  lemma SameHint<R, C>(s: State<R, C>, t: State<R, C>)
    requires Hint(s) && s.firstFree == t.firstFree && s.firstFree <= s.size <= t.size
    requires s.bitmap == t.bitmap && HeldBits(s.changes) == HeldBits(t.changes)
    ensures Hint(t)
  {
    forall x: nat | x < t.firstFree ensures !Findable(t, x) {
      assert !Findable(s, x);
    }
  }

  lemma AllocateKeepsHint<R, C>(s: State<R, C>, r: R, x: nat)
    requires Inv(s) && Hint(s) && CanAllocate(s, r) && Unspent(s, r) && NextFree(s, x)
    ensures Hint(Allocate(s, r, x))
  {
    AllocateHolds(s.changes, s.reservations[r].allocations.value, x);
    HintMoves(s, Allocate(s, r, x), x);
  }

  lemma HintMoves<R, C>(s: State<R, C>, t: State<R, C>, x: nat)
    requires Hint(s) && NextFree(s, x)
    requires s.bitmap == t.bitmap && HeldBits(t.changes) == HeldBits(s.changes) + {x}
    requires t.size == s.size && t.firstFree == x + 1
    ensures Hint(t)
  {
    forall y: nat | y < x + 1 ensures !Findable(t, y) {
      assert y < x ==> !Findable(s, y);
    }
  }

  /** The step lets go of x: it drops the change holding x, or frees x while still pending. */
  ghost predicate LetsGo<R, C>(s: State<R, C>, step: Step<R, C>, x: nat)
    requires Ownership(s.changes, s.reservations) && Enabled(s, step)
  {
    || (step.StepDrop? && x in s.changes[step.c].Held())
    || (step.StepFree? && step.x == x && PendingIn(s, step.r, x))
  }

  /** An element of the pool becomes free in exactly two ways. */
  lemma BecomesFree<R, C>(s: State<R, C>, step: Step<R, C>, x: nat)
    requires Inv(s) && Enabled(s, step) && x < s.size && !Findable(s, x)
    ensures Findable(Next(s, step), x) <==> LetsGo(s, step, x)
  {
    hide Exclusive, FreesOwned, HeldBits, Promised;
    match step
    case StepFree(r, y) =>
      FreeKeeps(s, r, y);
      HeldMember(s.changes, s.reservations[r].allocations.value);
    case StepDrop(c) =>
      DropKeeps(s, c);
      HeldMember(s.changes, c);
    case StepAllocate(r, y) => AllocateKeeps(s, r, y);
    case StepCommit(r) => CommitFreesNothing(s, r);
    case StepOpenAllocations(r, c) => OpenAllocationsKeeps(s, r, c);
    case StepOpenDeallocations(r, c) => OpenDeallocationsKeeps(s, r, c);
    case _ =>
  }

  // ---------------------------------------------------------------------------
  // Whole runs

  ghost predicate Run<R(!new), C(!new)>(states: seq<State<R, C>>, steps: seq<Step<R, C>>) {
    && |states| == |steps| + 1
    && Inv(states[0])
    && forall i :: 0 <= i < |steps| ==>
         Ownership(states[i].changes, states[i].reservations) && Enabled(states[i], steps[i]) && states[i + 1] == Next(states[i], steps[i])
  }

  lemma {:induction false} RunKeeps<R(!new), C(!new)>(states: seq<State<R, C>>, steps: seq<Step<R, C>>, i: nat)
    requires Run(states, steps) && i < |states|
    ensures Inv(states[i])
    ensures states[0].size <= states[i].size
  {
    if i > 0 {
      RunKeeps(states, steps, i - 1);
      StepKeeps(states[i - 1], steps[i - 1]);
    }
  }

  /** In a run that never frees a pending element below the hint, the hint stays honest. */
  lemma {:induction false} RunKeepsHint<R(!new), C(!new)>(states: seq<State<R, C>>, steps: seq<Step<R, C>>, i: nat)
    requires Run(states, steps) && Hint(states[0]) && i < |states|
    requires forall k :: 0 <= k < |steps| ==>
               Ownership(states[k].changes, states[k].reservations) && Enabled(states[k], steps[k]) && !BreaksHint(states[k], steps[k])
    ensures Hint(states[i])
  {
    if i > 0 {
      RunKeepsHint(states, steps, i - 1);
      RunKeeps(states, steps, i - 1);
      StepKeepsHint(states[i - 1], steps[i - 1]);
    }
  }

  /** Whoever holds a promise at any point of such a run finds an element. */
  lemma RunAllocationNeverFails<R(!new), C(!new)>(states: seq<State<R, C>>, steps: seq<Step<R, C>>, i: nat, r: R)
    requires Run(states, steps) && Hint(states[0]) && i < |states|
    requires forall k :: 0 <= k < |steps| ==>
               Ownership(states[k].changes, states[k].reservations) && Enabled(states[k], steps[k]) && !BreaksHint(states[k], steps[k])
    requires r in states[i].reservations && states[i].reservations[r].reserved > 0
    ensures exists x: nat :: NextFree(states[i], x)
  {
    RunKeeps(states, steps, i);
    RunKeepsHint(states, steps, i);
    PromisedSplit(states[i].reservations, r);
    ReservedAllocationFinds(states[i]);
  }

  /** Once handed out, an element is not handed out again until something lets go of it. */
  lemma {:induction false} NoDoubleUse<R(!new), C(!new)>(
    states: seq<State<R, C>>, steps: seq<Step<R, C>>, i: nat, j: nat, x: nat)
    requires Run(states, steps) && i < j < |steps|
    requires steps[i].StepAllocate? && steps[i].x == x
    requires forall k :: i < k < j ==>
               Ownership(states[k].changes, states[k].reservations) && Enabled(states[k], steps[k]) && !LetsGo(states[k], steps[k], x)
    ensures !Findable(states[j], x)
    ensures !(steps[j].StepAllocate? && steps[j].x == x)
  {
    if j == i + 1 {
      RunKeeps(states, steps, i);
      AllocateKeeps(states[i], steps[i].r, x);
    } else {
      NoDoubleUse(states, steps, i, j - 1, x);
      StaysTaken(states, steps, i, j - 1, x);
    }
  }

  lemma StaysTaken<R(!new), C(!new)>(states: seq<State<R, C>>, steps: seq<Step<R, C>>, i: nat, j: nat, x: nat)
    requires Run(states, steps) && i <= j < |steps| && x < states[i].size && !Findable(states[j], x)
    requires Ownership(states[j].changes, states[j].reservations) && Enabled(states[j], steps[j]) && !LetsGo(states[j], steps[j], x)
    ensures !Findable(states[j + 1], x)
  {
    InPool(states, steps, i, j, x);
    RunKeeps(states, steps, j);
    BecomesFree(states[j], steps[j], x);
  }

  lemma {:induction false} InPool<R(!new), C(!new)>(
    states: seq<State<R, C>>, steps: seq<Step<R, C>>, i: nat, j: nat, x: nat)
    requires Run(states, steps) && i <= j < |states| && x < states[i].size
    ensures x < states[j].size
  {
    if i < j {
      InPool(states, steps, i, j - 1, x);
    }
  }

  /**
   What a committed transaction freed stays held, and is never returned by Allocate, until
   that transaction's pending deallocations c are dropped.
   */
  lemma {:induction false} FreedStaysHeld<R(!new), C(!new)>(
    states: seq<State<R, C>>, steps: seq<Step<R, C>>, i: nat, j: nat, c: C, x: nat)
    requires Run(states, steps) && i <= j < |states|
    requires c in states[i].changes && states[i].changes[c].kind == Deallocation && states[i].changes[c].committed
    requires x in states[i].changes[c].bits
    requires forall k :: i <= k < j ==> steps[k] != StepDrop(c)
    ensures c in states[j].changes && states[j].changes[c] == states[i].changes[c]
    ensures !Findable(states[j], x) && x !in states[j].bitmap
    ensures j < |steps| ==> !(steps[j].StepAllocate? && steps[j].x == x)
  {
    hide Inv, Next, Findable;
    RunKeeps(states, steps, j);
    if i < j {
      FreedStaysHeld(states, steps, i, j - 1, c, x);
      RunStep(states, steps, j - 1);
      CommittedUntouched(states[j - 1], steps[j - 1], c);
    }
    CommittedIsHeld(states[j], c, x);
    if j < |steps| {
      RunStep(states, steps, j);
    }
  }

  lemma CommittedIsHeld<R, C>(s: State<R, C>, c: C, x: nat)
    requires Inv(s) && c in s.changes && s.changes[c].kind == Deallocation && s.changes[c].committed && x in s.changes[c].bits
    ensures !Findable(s, x) && x !in s.bitmap
  {
    HeldMember(s.changes, c);
  }

  /** A change that frees keeps what it has until it is dropped, and gets more only when its reservation frees an element. */
  lemma FreesGrow<R, C>(s: State<R, C>, step: Step<R, C>, c: C)
    requires Inv(s) && Enabled(s, step) && step != StepDrop(c)
    requires c in s.changes && s.changes[c].kind.Deallocation?
    ensures var t := Next(s, step);
            && c in t.changes && t.changes[c].kind.Deallocation? && s.changes[c].bits <= t.changes[c].bits
            && (forall x :: x in t.changes[c].bits && x !in s.changes[c].bits ==> Frees(s, step, c, x))
  {
    hide Inv, HeldBits, Available, NextFree, Drop, Unreferenced;
    OwnedInv(s);
    match step
    case StepFree(r, x) =>
    case StepCommit(r) =>
    case StepAllocate(r, x) =>
    case StepDrop(d) => DropsOnly(s, d);
    case _ =>
  }

  lemma DropsOnly<R, C>(s: State<R, C>, d: C)
    requires d in s.changes
    ensures Drop(s, d).changes == s.changes - {d}
  {
  }

  lemma OwnedInv<R, C>(s: State<R, C>)
    requires Inv(s)
    ensures Ownership(s.changes, s.reservations)
  {
  }

  /** The step frees x, in use, through c. */
  ghost predicate Frees<R, C>(s: State<R, C>, step: Step<R, C>, c: C, x: nat) {
    && step.StepFree? && step.x == x && step.r in s.reservations
    && s.reservations[step.r].deallocations == Some(c) && !PendingIn(s, step.r, x)
  }

  lemma FreeRecords<R, C>(s: State<R, C>, step: Step<R, C>, c: C, x: nat)
    requires Inv(s) && Enabled(s, step) && Frees(s, step, c, x)
    ensures c in s.changes && s.changes[c].kind.Deallocation? && !s.changes[c].committed && x in s.bitmap
    ensures c in Next(s, step).changes && Next(s, step).changes[c].kind.Deallocation? && x in Next(s, step).changes[c].bits
  {
    hide HeldBits, Exclusive, FreesOwned, Promised;
  }

  /** One step of a run. */
  lemma RunStep<R(!new), C(!new)>(states: seq<State<R, C>>, steps: seq<Step<R, C>>, i: nat)
    requires Run(states, steps) && i < |steps|
    ensures |states| == |steps| + 1 && Inv(states[i]) && Inv(states[i + 1]) && Ownership(states[i].changes, states[i].reservations)
    ensures Enabled(states[i], steps[i]) && states[i + 1] == Next(states[i], steps[i])
  {
    RunKeeps(states, steps, i);
    RunKeeps(states, steps, i + 1);
    hide Inv;
  }

  /** x was freed through c by one of the steps from i up to j. */
  ghost predicate FreedBetween<R(!new), C(!new)>(states: seq<State<R, C>>, steps: seq<Step<R, C>>, i: nat, j: nat, c: C, x: nat)
    requires j <= |steps| <= |states|
  {
    exists m :: i <= m < j && Frees(states[m], steps[m], c, x)
  }

  lemma JustOpened<R, C>(s: State<R, C>, step: Step<R, C>, c: C, x: nat)
    requires Ownership(s.changes, s.reservations) && Enabled(s, step) && step.StepOpenDeallocations? && step.c == c
    ensures c in Next(s, step).changes && Next(s, step).changes[c] == Change(Deallocation, {}, false) && !Frees(s, step, c, x)
  {
  }

  lemma FreesGrowExactly<R, C>(s: State<R, C>, step: Step<R, C>, c: C, x: nat)
    requires Inv(s) && Enabled(s, step) && step != StepDrop(c)
    requires c in s.changes && s.changes[c].kind.Deallocation?
    ensures c in Next(s, step).changes && Next(s, step).changes[c].kind.Deallocation?
    ensures x in Next(s, step).changes[c].bits <==> x in s.changes[c].bits || Frees(s, step, c, x)
  {
    FreesGrow(s, step, c);
    if Frees(s, step, c, x) {
      FreeRecords(s, step, c, x);
    }
    hide Inv, Next, Frees;
  }

  lemma OneStepMore<R(!new), C(!new)>(states: seq<State<R, C>>, steps: seq<Step<R, C>>, i: nat, j: nat, c: C, x: nat)
    requires i <= j < |steps| <= |states|
    ensures FreedBetween(states, steps, i, j + 1, c, x) <==>
            FreedBetween(states, steps, i, j, c, x) || Frees(states[j], steps[j], c, x)
  {
    hide Frees;
  }

  /** After j steps the change c, opened by step i, holds x exactly if x has been freed through it. */
  ghost predicate HoldsFreed<R(!new), C(!new)>(states: seq<State<R, C>>, steps: seq<Step<R, C>>, i: nat, j: nat, c: C, x: nat)
    requires j <= |steps| < |states|
  {
    && c in states[j].changes && states[j].changes[c].kind.Deallocation?
    && (x in states[j].changes[c].bits <==> FreedBetween(states, steps, i, j, c, x))
  }

  lemma HoldsFreedFirst<R(!new), C(!new)>(states: seq<State<R, C>>, steps: seq<Step<R, C>>, i: nat, c: C, x: nat)
    requires Run(states, steps) && i < |steps| && steps[i].StepOpenDeallocations? && steps[i].c == c
    ensures HoldsFreed(states, steps, i, i + 1, c, x)
  {
    hide Run, Inv, Ownership, Enabled, Next, Frees, FreedBetween;
    RunStep(states, steps, i);
    JustOpened(states[i], steps[i], c, x);
    OneStepMore(states, steps, i, i, c, x);
    assert !FreedBetween(states, steps, i, i, c, x) by { NoneBetween(states, steps, i, c, x); }
  }

  lemma NoneBetween<R(!new), C(!new)>(states: seq<State<R, C>>, steps: seq<Step<R, C>>, i: nat, c: C, x: nat)
    requires i <= |steps| <= |states|
    ensures !FreedBetween(states, steps, i, i, c, x)
  {
  }

  lemma HoldsFreedNext<R(!new), C(!new)>(states: seq<State<R, C>>, steps: seq<Step<R, C>>, i: nat, j: nat, c: C, x: nat)
    requires Run(states, steps) && i <= j < |steps| && HoldsFreed(states, steps, i, j, c, x) && steps[j] != StepDrop(c)
    ensures HoldsFreed(states, steps, i, j + 1, c, x)
  {
    hide Run, Inv, Ownership, Enabled, Next, Frees, FreedBetween;
    RunStep(states, steps, j);
    FreesGrowExactly(states[j], steps[j], c, x);
    OneStepMore(states, steps, i, j, c, x);
  }

  /** A change holds exactly what has been freed through it since it was opened. */
  lemma {:induction false} OnlyFreed<R(!new), C(!new)>(
    states: seq<State<R, C>>, steps: seq<Step<R, C>>, i: nat, j: nat, c: C, x: nat)
    requires Run(states, steps) && i < j <= |steps| < |states| && steps[i].StepOpenDeallocations? && steps[i].c == c
    requires forall m :: i <= m < j ==> steps[m] != StepDrop(c)
    ensures HoldsFreed(states, steps, i, j, c, x)
  {
    hide Run, HoldsFreed;
    if j == i + 1 {
      HoldsFreedFirst(states, steps, i, c, x);
    } else {
      OnlyFreed(states, steps, i, j - 1, c, x);
      HoldsFreedNext(states, steps, i, j - 1, c, x);
    }
  }

  /**
   The whole way of what is freed. A reservation opens its deallocations c, frees elements, commits,
   and c is dropped, with steps of any reservations in between. An element freed through c before
   the commit is in use until the commit clears its bit, held from then on until c is dropped, and
   free right afterwards; and nothing else comes free with it.
   */
  lemma FreedComesBack<R(!new), C(!new)>(
    states: seq<State<R, C>>, steps: seq<Step<R, C>>, o: nat, j: nat, k: nat, r: R, c: C, x: nat)
    requires Run(states, steps) && o < j < k < |steps|
    requires steps[o].StepOpenDeallocations? && steps[o].c == c
    requires steps[j] == StepCommit(r) && r in states[j].reservations && states[j].reservations[r].deallocations == Some(c)
    requires forall m :: o <= m < k ==> steps[m] != StepDrop(c)
    requires steps[k] == StepDrop(c) && FreedBetween(states, steps, o, j, c, x)
    ensures x in states[j].bitmap && x !in states[j + 1].bitmap
    ensures forall m :: j < m <= k ==> m < |states| && x !in states[m].bitmap && !Findable(states[m], x)
    ensures Findable(states[k + 1], x)
    ensures forall y :: Findable(states[k + 1], y) && !Findable(states[k], y) ==> FreedBetween(states, steps, o, j, c, y)
  {
    OnlyFreed(states, steps, o, j, c, x);
    RunKeeps(states, steps, j);
    CommitApplies(states[j], r, x);
    assert c in states[j + 1].changes && states[j + 1].changes[c].committed && x in states[j + 1].changes[c].bits;
    forall m | j < m <= k ensures m < |states| && x !in states[m].bitmap && !Findable(states[m], x) {
      FreedStaysHeld(states, steps, j + 1, m, c, x);
    }
    FreedStaysHeld(states, steps, j + 1, k, c, x);
    RunKeeps(states, steps, k);
    DropFrees(states[k], c, x);
    forall y | Findable(states[k + 1], y) && !Findable(states[k], y) ensures FreedBetween(states, steps, o, j, c, y) {
      DropFrees(states[k], c, y);
      OnlyFreed(states, steps, o, j, c, y);
    }
  }

  /** Dropping a committed change makes free exactly what it had freed. */
  lemma DropFrees<R, C>(s: State<R, C>, c: C, x: nat)
    requires Inv(s) && c in s.changes && Unreferenced(s, c) && s.changes[c].kind.Deallocation? && s.changes[c].committed
    ensures Findable(Drop(s, c), x) <==> Findable(s, x) || x in s.changes[c].bits
  {
    DropKeeps(s, c);
    HeldMember(s.changes, c);
  }

  /** The hint comes down just as far as it has to: to the least element that was held, if that is below it. */
  lemma DropHint<R, C>(s: State<R, C>, c: C)
    requires c in s.changes
    ensures var t := Drop(s, c);
            && t.firstFree <= s.firstFree && (forall x :: x in s.changes[c].Held() ==> t.firstFree <= x)
            && (t.firstFree < s.firstFree ==> t.firstFree in s.changes[c].Held())
  {
  }

  /** No step but its own drop touches a committed change. */
  lemma CommittedUntouched<R, C>(s: State<R, C>, step: Step<R, C>, c: C)
    requires Inv(s) && Enabled(s, step)
    requires c in s.changes && s.changes[c].committed && step != StepDrop(c)
    ensures c in Next(s, step).changes && Next(s, step).changes[c] == s.changes[c]
  {
    hide Inv, HeldBits, Available, NextFree, Drop, Unreferenced;
    OwnedInv(s);
    match step
    case StepFree(r, x) =>
    case StepCommit(r) =>
    case StepAllocate(r, x) =>
    case StepDrop(d) => DropsOnly(s, d);
    case _ =>
  }

  // ---------------------------------------------------------------------------
  // The hint really can go wrong

  /** Element 0 in use, elements 1 and 2 pending in the only reservation, nothing promised. */
  ghost function FullPool(): State<int, int> {
    State({0}, 3, 3, 1, 0, 3,
          map[0 := Change(Allocation, {1, 2}, false), 1 := Change(Deallocation, {}, false)],
          map[0 := Reservation(0, Some(0), Some(1))])
  }

  lemma FullPoolHeld()
    ensures HeldBits(FullPool().changes) == {1, 2}
    ensures Promised(FullPool().reservations) == 0
  {
    var m := FullPool().changes;
    assert m[0].Held() == {1, 2} && m[1].Held() == {};
    PromisedSplit(FullPool().reservations, 0);
  }

  lemma FullPoolChanges()
    ensures Exclusive(FullPool().changes) && FreesOwned(FullPool().changes, FullPool().bitmap)
    ensures Ownership(FullPool().changes, FullPool().reservations)
  {
  }

  lemma FullPoolInv()
    ensures Inv(FullPool()) && Hint(FullPool()) && Enabled(FullPool(), StepFree(0, 1))
  {
    hide HeldBits, Promised;
    FullPoolHeld();
    FullPoolChanges();
    hide Exclusive, FreesOwned, Ownership;
    assert Bitmaps(FullPool()) && Fits(FullPool());
  }

  /**
   Free one of the pending elements and promise it again: it is free, but the search that
   starts at the hint finds nothing.
   */
  lemma FreedPendingElementIsLost()
    ensures Inv(FullPool()) && Enabled(FullPool(), StepFree(0, 1))
    ensures var q := Release(FullPool(), 0, 1);
            && Inv(q) && Enabled(q, StepReserve(0, 1))
            && var s := Reserve(q, 0, 1);
               Inv(s) && s.reserved == 1 && Findable(s, 1) && forall x: nat :: !NextFree(s, x)
  {
    hide HeldBits, Promised, Exclusive, FreesOwned, Below;
    FullPoolInv();
    FreedPool();
    ReserveKeeps(Release(FullPool(), 0, 1), 0, 1);
  }

  lemma FreedPool()
    ensures BothOpen(FullPool(), 0)
    ensures Inv(Release(FullPool(), 0, 1)) && HeldBits(Release(FullPool(), 0, 1).changes) == {2}
  {
    FullPoolHeld();
    FullPoolInv();
    FreeKeeps(FullPool(), 0, 1);
    hide HeldBits, Promised, Inv;
  }

  // ---------------------------------------------------------------------------
  // Growth that is too small, and a reservation used after its commit

  /** The same pool after it has grown by three elements and one of them was promised. */
  ghost function WidePool(): State<int, int> {
    Reserve(Grow(FullPool(), 3), 0, 1)
  }

  lemma WidePoolInv()
    ensures Inv(WidePool()) && Available(WidePool()) == 2
  {
    hide HeldBits, Promised, Exclusive, FreesOwned, Inv;
    FullPoolInv();
    FullPoolHeld();
    assert |{1, 2}| == 2;
    GrowKeeps(FullPool(), 3);
    ReserveKeeps(Grow(FullPool(), 3), 0, 1);
  }

  lemma WidePoolFree()
    ensures Findable(WidePool(), 3) && WidePool().firstFree == 3
    ensures BothOpen(WidePool(), 0) && CanAllocate(WidePool(), 0)
  {
    FullPoolHeld();
    hide HeldBits;
  }

  /** Four are asked for where two are available; the pool grows by one and all four are promised. */
  lemma GrowthMayFallShort()
    ensures var s := Grow(WidePool(), 1);
            && 0 in s.reservations && Available(s) == 3 && Available(Reserve(s, 0, 4)) == -1
            && Inv(s) && !Inv(Reserve(s, 0, 4))
  {
    hide HeldBits, Promised, Exclusive, FreesOwned, Inv;
    WidePoolInv();
    GrowKeeps(WidePool(), 1);
    ReserveKeeps(Grow(WidePool(), 1), 0, 4);
  }

  lemma WidePoolUnspent()
    requires Ownership(WidePool().changes, WidePool().reservations)
    ensures BothOpen(WidePool(), 0) && Unspent(WidePool(), 0)
    ensures var s := Commit(WidePool(), 0);
            CanAllocate(s, 0) && s.firstFree == 3 && s.changes[s.reservations[0].allocations.value].committed
  {
    hide Ownership;
    assert {1, 2} != {};
  }

  /** After its commit a reservation still hands out the element promised to it, but the element stays free. */
  lemma SpentReservationHoldsNothing()
    ensures BothOpen(WidePool(), 0) && Inv(WidePool())
    ensures var s := Commit(WidePool(), 0);
            Inv(s) && CanAllocate(s, 0) && NextFree(s, 3) && Findable(Allocate(s, 0, 3), 3)
  {
    hide HeldBits, Promised, Exclusive, FreesOwned, Ownership, Findable, WidePool, Commit, CanAllocate, BothOpen;
    WidePoolInv();
    WidePoolFree();
    WidePoolUnspent();
    CommitKeeps(WidePool(), 0);
    CommitFreesNothing(WidePool(), 0);
    AllocateHoldsIffUnspent(Commit(WidePool(), 0), 0, 3);
  }
}
