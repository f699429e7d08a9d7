/**
 A transaction of the pointer tree and the files stands for a reservation of the block allocator:
 what is promised of the one is what the other delivers. Block 0 is marked in the bitmap from the
 start and is never handed out.
 */
module BlockReservations {
  import opened Wrappers
  import opened Sets
  import opened AllocatorSpec
  import opened AllocatorLaws
  import opened MinfsAllocator

  /** The fields of a VnodeMapper.Transaction. */
  datatype View = View(reserved: nat, inUse: set<nat>, freed: set<nat>)

  /** Set in the bitmap, or held by a pending change. */
  ghost function InUse<R, C>(s: State<R, C>): set<nat> {
    s.bitmap + HeldBits(s.changes)
  }

  ghost function Freed<R, C>(s: State<R, C>, r: R): set<nat>
    requires r in s.reservations
  {
    var d := s.reservations[r].deallocations;
    if d.Some? && d.value in s.changes then s.changes[d.value].bits else {}
  }

  ghost predicate StandsFor<R, C>(v: View, s: State<R, C>, r: R) {
    r in s.reservations && v == View(s.reservations[r].reserved, InUse(s), Freed(s, r)) && 0 in s.bitmap
  }

  /** What allocating leaves alone. */
  lemma AllocateLeaves<R, C>(s: State<R, C>, r: R, c: C, x: nat)
    requires r in s.reservations && CanAllocate(WithAllocations(s, r, c), r)
    ensures var t := AllocatorSpec.Allocate(WithAllocations(s, r, c), r, x);
            && r in t.reservations && t.bitmap == s.bitmap && s.reservations[r].reserved > 0
            && t.reservations[r].reserved == s.reservations[r].reserved - 1
            && t.reservations[r].deallocations == s.reservations[r].deallocations
  {
  }

  lemma AllocateStands<R, C>(s: State<R, C>, r: R, c: C, x: nat, v: View)
    requires Inv(s) && StandsFor(v, s, r) && Unspent(s, r) && NextFree(s, x)
    requires if s.reservations[r].allocations.None? then c !in s.changes else s.reservations[r].allocations == Some(c)
    requires CanAllocate(WithAllocations(s, r, c), r)
    ensures v.reserved > 0 && x != 0 && x !in v.inUse
    ensures StandsFor(View(v.reserved - 1, v.inUse + {x}, v.freed), AllocatorSpec.Allocate(WithAllocations(s, r, c), r, x), r)
  {
    hide HeldBits, Inv, Unspent, CanAllocate, WithAllocations, AllocatorSpec.Allocate;
    AllocateEffect(s, r, c, x);
    OwnDeallocations(s, r, c);
    AllocateLeaves(s, r, c, x);
  }

  /** A reservation's two changes are of different kinds, so they are two. */
  lemma OwnDeallocations<R, C>(s: State<R, C>, r: R, c: C)
    requires Inv(s) && r in s.reservations
    requires if s.reservations[r].allocations.None? then c !in s.changes else s.reservations[r].allocations == Some(c)
    ensures s.reservations[r].deallocations.Some? ==>
              s.reservations[r].deallocations.value in s.changes && s.reservations[r].deallocations != Some(c)
  {
  }

  /** With a unit in reserve and an honest hint the allocator does what Transaction.AllocateBlock promises. */
  method AllocateBlock(a: AllocatorReservation, ghost v: View) returns (block: nat)
    requires a.Live() && Hint(a.allocator.state) && Unspent(a.allocator.state, a) && a.reserved > 0
    requires StandsFor(v, a.allocator.state, a)
    modifies a, a.allocations, a.allocator
    ensures a.Live() && Hint(a.allocator.state) && Unspent(a.allocator.state, a)
    ensures v.reserved > 0 && block != 0 && block !in v.inUse
    ensures StandsFor(View(v.reserved - 1, v.inUse + {block}, v.freed), a.allocator.state, a)
  {
    hide Inv, Hint, Unspent, NextFree, StandsFor;
    ghost var before := a.allocator.state;
    block := a.Allocate();
    AllocateStands(before, a, a.allocations, block, v);
  }

  /** What freeing changes of the reservation itself. */
  lemma ReleaseFields<R, C>(m: State<R, C>, r: R, x: nat)
    requires BothOpen(m, r) && m.reservations[r].allocations != m.reservations[r].deallocations
    ensures var t := Release(m, r, x);
            && r in t.reservations && t.bitmap == m.bitmap && t.reservations == m.reservations
            && Freed(t, r) == Freed(m, r) + (if PendingIn(m, r, x) then {} else {x})
  {
  }

  lemma OpenedFields<R, C>(s: State<R, C>, r: R, a: C, d: C)
    requires r in s.reservations && Slots(s, r, a, d) && Ownership(s.changes, s.reservations)
    ensures var m := WithChanges(s, r, a, d);
            && r in m.reservations && m.bitmap == s.bitmap && m.reservations[r].reserved == s.reservations[r].reserved
            && Freed(m, r) == Freed(s, r)
  {
  }

  lemma ReleaseStands<R, C>(s: State<R, C>, r: R, a: C, d: C, x: nat, v: View)
    requires Inv(s) && StandsFor(v, s, r) && Unspent(s, r) && Freeable(s, r, x)
    requires Slots(s, r, a, d) && BothOpen(WithChanges(s, r, a, d), r)
    ensures var t := Release(WithChanges(s, r, a, d), r, x);
            if PendingIn(s, r, x)
            then StandsFor(View(v.reserved, v.inUse - {x}, v.freed), t, r)
            else StandsFor(View(v.reserved, v.inUse, v.freed + {x}), t, r)
  {
    var m := WithChanges(s, r, a, d);
    WithChangesKeeps(s, r, a, d);
    WithChangesFreeable(s, r, a, d, x);
    FreeKeeps(m, r, x);
    OpenedFields(s, r, a, d);
    OwnDeallocations(m, r, a);
    if PendingIn(s, r, x) {
      PendingIsHeld(s, r, x);
    }
    hide HeldBits, Inv, Unspent, Freeable, Slots, WithChanges, PendingIn, Release, StandsFor, Freed, BothOpen;
    ReleaseStep(s, m, r, x, v);
  }

  lemma ReleaseStep<R, C>(s: State<R, C>, m: State<R, C>, r: R, x: nat, v: View)
    requires StandsFor(v, s, r) && BothOpen(m, r) && m.reservations[r].allocations != m.reservations[r].deallocations
    requires m.bitmap == s.bitmap && m.reservations[r].reserved == s.reservations[r].reserved && Freed(m, r) == Freed(s, r)
    requires HeldBits(m.changes) == HeldBits(s.changes)
    requires HeldBits(Release(m, r, x).changes) == HeldBits(m.changes) - (if PendingIn(m, r, x) then {x} else {})
    requires PendingIn(m, r, x) ==> x !in s.bitmap
    ensures var t := Release(m, r, x);
            if PendingIn(m, r, x)
            then StandsFor(View(v.reserved, v.inUse - {x}, v.freed), t, r)
            else StandsFor(View(v.reserved, v.inUse, v.freed + {x}), t, r)
  {
    ReleaseFields(m, r, x);
    hide HeldBits, Freed, PendingIn, Release;
  }

  lemma PendingIsHeld<R, C>(s: State<R, C>, r: R, x: nat)
    requires Inv(s) && r in s.reservations && Unspent(s, r) && PendingIn(s, r, x)
    ensures x in HeldBits(s.changes) && x !in s.bitmap
  {
    HeldMember(s.changes, s.reservations[r].allocations.value);
  }

  /**
   Transaction.DeallocateBlock is what the allocator does with a block that was in use before the
   transaction; one that the transaction allocated itself is free again at once.
   */
  method DeallocateBlock(a: AllocatorReservation, block: nat, ghost v: View)
    requires a.Live() && Unspent(a.allocator.state, a) && Freeable(a.allocator.state, a, block)
    requires StandsFor(v, a.allocator.state, a)
    modifies a`allocations, a`deallocations, a.allocations, a.deallocations, a.allocator
    ensures a.Live() && Unspent(a.allocator.state, a) && a.reserved == old(a.reserved)
    ensures a.allocations != null && (a.allocations == old(a.allocations) || fresh(a.allocations))
    ensures Hint(old(a.allocator.state)) && !PendingIn(old(a.allocator.state), a, block) ==> Hint(a.allocator.state)
    ensures if PendingIn(old(a.allocator.state), a, block)
            then StandsFor(View(v.reserved, v.inUse - {block}, v.freed), a.allocator.state, a)
            else StandsFor(View(v.reserved, v.inUse, v.freed + {block}), a.allocator.state, a)
  {
    hide Inv, Hint, Unspent, Freeable, StandsFor;
    ghost var before := a.allocator.state;
    a.Deallocate(block);
    ReleaseStands(before, a, a.allocations, a.deallocations, block, v);
  }

  /** Transaction.SwapBlock: the old block was in use before the transaction, so it is never the one handed out. */
  method SwapBlock(a: AllocatorReservation, oldBlock: nat, ghost v: View) returns (block: nat)
    requires a.Live() && Hint(a.allocator.state) && Unspent(a.allocator.state, a) && a.reserved > 0
    requires oldBlock > 0 ==> Freeable(a.allocator.state, a, oldBlock) && !PendingIn(a.allocator.state, a, oldBlock)
    requires StandsFor(v, a.allocator.state, a)
    modifies a, a.allocations, a.deallocations, a.allocator
    ensures a.Live() && Hint(a.allocator.state) && Unspent(a.allocator.state, a)
    ensures v.reserved > 0 && block != 0 && block !in v.inUse
    ensures StandsFor(View(v.reserved - 1, v.inUse + {block}, v.freed + (if oldBlock > 0 then {oldBlock} else {})), a.allocator.state, a)
  {
    hide Inv, Hint, Unspent, Freeable, StandsFor, NextFree;
    ghost var w := v.(freed := v.freed + (if oldBlock > 0 then {oldBlock} else {}));
    assert v.freed + {} == v.freed;
    if oldBlock > 0 {
      DeallocateBlock(a, oldBlock, v);
    }
    block := AllocateBlock(a, w);
  }

  // ---------------------------------------------------------------------------
  // Committing, and the pool as a whole

  lemma CommitFields<R, C>(m: State<R, C>, r: R)
    requires BothOpen(m, r) && m.reservations[r].allocations != m.reservations[r].deallocations
    ensures var t := AllocatorSpec.Commit(m, r);
            && r in t.reservations && t.reservations == m.reservations && Freed(t, r) == Freed(m, r)
  {
  }

  lemma CommitKeepsInUse<R, C>(m: State<R, C>, r: R)
    requires Inv(m) && BothOpen(m, r) && Unspent(m, r)
    ensures InUse(AllocatorSpec.Commit(m, r)) == InUse(m)
    ensures 0 in m.bitmap && 0 !in Freed(m, r) ==> 0 in AllocatorSpec.Commit(m, r).bitmap
  {
    var a, d := m.reservations[r].allocations.value, m.reservations[r].deallocations.value;
    CommitParts(m, r, a, d);
    CommitTakes(m.bitmap, HeldBits(m.changes), m.changes[a].bits, m.changes[d].bits);
  }

  lemma CommitStands<R, C>(s: State<R, C>, r: R, a: C, d: C, v: View)
    requires Inv(s) && StandsFor(v, s, r) && Unspent(s, r) && 0 !in v.freed
    requires Slots(s, r, a, d) && BothOpen(WithChanges(s, r, a, d), r)
    ensures StandsFor(v, AllocatorSpec.Commit(WithChanges(s, r, a, d), r), r)
  {
    var m := WithChanges(s, r, a, d);
    WithChangesKeeps(s, r, a, d);
    OpenedFields(s, r, a, d);
    OwnDeallocations(m, r, a);
    CommitKeepsInUse(m, r);
    hide HeldBits, Inv, Unspent, Slots, WithChanges, AllocatorSpec.Commit, Freed, BothOpen;
    CommitFields(m, r);
  }

  /** Until the journal has the commit, what it freed stays in use, and nothing else becomes free either. */
  method Commit(a: AllocatorReservation, ghost v: View)
    requires a.Live() && Unspent(a.allocator.state, a) && StandsFor(v, a.allocator.state, a) && 0 !in v.freed
    modifies a`allocations, a`deallocations, a.allocations, a.deallocations, a.allocator
    ensures a.Live() && (Hint(old(a.allocator.state)) ==> Hint(a.allocator.state))
    ensures StandsFor(v, a.allocator.state, a)
    ensures Available(a.allocator.state) == Available(old(a.allocator.state))
  {
    hide Inv, Hint, Unspent, StandsFor;
    ghost var before := a.allocator.state;
    a.Commit();
    CommitStands(before, a, a.allocations, a.deallocations, v);
  }

  /** BlockPool.Reserve: after growing once the allocator does not look again. */
  lemma ReserveOnPool<R, C>(s: State<R, C>, r: R, n: nat, growth: Option<nat>)
    requires Inv(s) && r in s.reservations
    ensures r in Grown(s, n, growth).reservations
    ensures var t := AllocatorSpec.Reserve(Grown(s, n, growth), r, n);
            && InUse(t) == InUse(s) && r in t.reservations && t.reservations[r].reserved == s.reservations[r].reserved + n
            && Available(t) == Available(s) + (if n > Available(s) && growth.Some? then growth.value else 0) - n
  {
    GrownKeeps(s, n, growth);
    ReserveKeeps(Grown(s, n, growth), r, n);
  }

  /** What is left of a reservation goes back to the pool. */
  lemma RestGoesBack<R, C>(s: State<R, C>, r: R, v: View)
    requires Inv(s) && StandsFor(v, s, r)
    ensures s.reservations[r].reserved <= s.reserved
    ensures StandsFor(v.(reserved := 0), AllocatorSpec.Cancel(s, r), r)
    ensures Available(AllocatorSpec.Cancel(s, r)) == Available(s) + v.reserved
  {
    CancelKeeps(s, r);
  }

  /** Flushing the journal makes available what a commit freed, and it is in use no longer. */
  lemma JournalReleases<R, C>(s: State<R, C>, c: C)
    requires Inv(s) && c in s.changes && Unreferenced(s, c)
    requires s.changes[c].kind == Deallocation && s.changes[c].committed
    ensures Inv(Drop(s, c)) && InUse(Drop(s, c)) == InUse(s) - s.changes[c].bits
    ensures Available(Drop(s, c)) == Available(s) + |s.changes[c].bits|
  {
    DropKeeps(s, c);
    HeldMember(s.changes, c);
  }
}
