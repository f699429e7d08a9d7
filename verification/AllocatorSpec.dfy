/**
 The block/inode allocator as a value: one bitmap shared by any number of live
 reservations (named by R) and pending changes (named by C). Every step of the
 allocator is a function on this value; the classes in Allocator.dfy are proved to
 take exactly these steps.
 */
module AllocatorSpec {
  import opened Wrappers
  import opened Sets

  datatype Kind = Allocation | Deallocation

  datatype Change = Change(kind: Kind, bits: set<nat>, committed: bool) {
    /** Elements whose bitmap bit is clear but that must not be handed out. */
    function Held(): set<nat> {
      if committed == kind.Allocation? then {} else bits
    }
  }

  datatype Reservation<+C> = Reservation(reserved: nat, allocations: Option<C>, deallocations: Option<C>)

  datatype State<!R, !C> = State(
    bitmap: set<nat>,
    size: nat,
    total: nat,
    used: nat,
    reserved: nat,
    firstFree: nat,
    changes: map<C, Change>,
    reservations: map<R, Reservation<C>>)

  // ---------------------------------------------------------------------------
  // Sums and unions over the live reservations and changes

  /** Elements promised to all reservations together. */
  ghost function Promised<R, C>(m: map<R, Reservation<C>>): nat {
    if m == map[] then 0 else
      var r :| r in m;
      m[r].reserved + Promised(m - {r})
  }

  lemma {:induction false} PromisedSplit<R, C>(m: map<R, Reservation<C>>, r: R)
    requires r in m
    ensures Promised(m) == m[r].reserved + Promised(m - {r})
    decreases |m|
  {
    var q :| q in m && Promised(m) == m[q].reserved + Promised(m - {q});
    if q != r {
      PromisedSplit(m - {q}, r);
      PromisedSplit(m - {r}, q);
      assert m - {q} - {r} == m - {r} - {q};
    }
  }

  lemma PromisedUpdate<R, C>(m: map<R, Reservation<C>>, r: R, v: Reservation<C>)
    requires r in m
    ensures Promised(m[r := v]) == Promised(m) - m[r].reserved + v.reserved
  {
    PromisedSplit(m, r);
    PromisedSplit(m[r := v], r);
    assert m[r := v] - {r} == m - {r};
  }

  ghost function HeldBits<C>(changes: map<C, Change>): set<nat> {
    set c, x | c in changes && x in changes[c].Held() :: x
  }

  // ---------------------------------------------------------------------------
  // Invariants

  /** No element is held by two changes. */
  ghost predicate Exclusive<C>(changes: map<C, Change>) {
    forall c, d :: c in changes && d in changes && c != d ==> changes[c].Held() !! changes[d].Held()
  }

  ghost predicate PendingFree(c: Change) {
    c.kind.Deallocation? && !c.committed
  }

  /** Every element waiting to be freed is in use, and waits in one change only. */
  ghost predicate FreesOwned<C>(changes: map<C, Change>, bitmap: set<nat>) {
    && (forall c :: c in changes && PendingFree(changes[c]) ==> changes[c].bits <= bitmap)
    && (forall c, d :: c in changes && d in changes && c != d && PendingFree(changes[c]) && PendingFree(changes[d]) ==>
          changes[c].bits !! changes[d].bits)
  }

  ghost predicate Has<C>(changes: map<C, Change>, c: Option<C>, kind: Kind) {
    c.Some? ==> c.value in changes && changes[c.value].kind == kind
  }

  ghost predicate Apart<C>(c: Option<C>, d: Option<C>) {
    c.None? || c != d
  }

  /** Each reservation has its own changes, of the right kinds. */
  ghost predicate Ownership<R, C>(changes: map<C, Change>, rs: map<R, Reservation<C>>) {
    && (forall r :: r in rs ==> Has(changes, rs[r].allocations, Allocation) && Has(changes, rs[r].deallocations, Deallocation))
    && (forall r, q :: r in rs && q in rs && r != q ==>
          Apart(rs[r].allocations, rs[q].allocations) && Apart(rs[r].deallocations, rs[q].deallocations))
  }

  /** The bitmap, its count, and what is held on top of it agree. */
  ghost predicate Bitmaps<R, C>(s: State<R, C>) {
    && s.total == s.size
    && s.bitmap <= Below(s.size)
    && |s.bitmap| == s.used
    && HeldBits(s.changes) <= Below(s.size) - s.bitmap
    && Exclusive(s.changes)
    && FreesOwned(s.changes, s.bitmap)
  }

  /** Everything promised can still be delivered. */
  ghost predicate Fits<R, C>(s: State<R, C>) {
    && s.reserved == Promised(s.reservations)
    && s.used + s.reserved + |HeldBits(s.changes)| <= s.total
  }

  ghost predicate Inv<R, C>(s: State<R, C>) {
    && s.firstFree <= s.size
    && Bitmaps(s)
    && Fits(s)
    && Ownership(s.changes, s.reservations)
  }

  /** An element that Allocate may return. */
  ghost predicate Findable<R, C>(s: State<R, C>, x: nat) {
    x < s.size && x !in s.bitmap && x !in HeldBits(s.changes)
  }

  /** The first-free hint is honest: nothing below it is free. */
  ghost predicate Hint<R, C>(s: State<R, C>) {
    forall x: nat :: x < s.firstFree ==> !Findable(s, x)
  }

  /** What GetAvailable reports. */
  ghost function Available<R, C>(s: State<R, C>): int {
    s.total - s.used - s.reserved - |HeldBits(s.changes)|
  }

  /** The changes of r that are still open: a reservation is used for one commit. */
  ghost predicate Unspent<R, C>(s: State<R, C>, r: R)
    requires r in s.reservations && Ownership(s.changes, s.reservations)
  {
    && (s.reservations[r].allocations.Some? ==> !s.changes[s.reservations[r].allocations.value].committed)
    && (s.reservations[r].deallocations.Some? ==> !s.changes[s.reservations[r].deallocations.value].committed)
  }

  // ---------------------------------------------------------------------------
  // Steps

  function OpenReservation<R, C>(s: State<R, C>, r: R): State<R, C> {
    s.(reservations := s.reservations[r := Reservation(0, None, None)])
  }

  function OpenAllocations<R, C>(s: State<R, C>, r: R, c: C): State<R, C>
    requires r in s.reservations
  {
    s.(changes := s.changes[c := Change(Allocation, {}, false)],
       reservations := s.reservations[r := s.reservations[r].(allocations := Some(c))])
  }

  function OpenDeallocations<R, C>(s: State<R, C>, r: R, c: C): State<R, C>
    requires r in s.reservations
  {
    s.(changes := s.changes[c := Change(Deallocation, {}, false)],
       reservations := s.reservations[r := s.reservations[r].(deallocations := Some(c))])
  }

  /** The pool and its bitmap grow by one slice of `extra` elements. */
  function Grow<R, C>(s: State<R, C>, extra: nat): State<R, C> {
    s.(size := s.size + extra, total := s.total + extra)
  }

  function Reserve<R, C>(s: State<R, C>, r: R, n: nat): State<R, C>
    requires r in s.reservations
  {
    s.(reserved := s.reserved + n,
       reservations := s.reservations[r := s.reservations[r].(reserved := s.reservations[r].reserved + n)])
  }

  function Cancel<R, C>(s: State<R, C>, r: R): State<R, C>
    requires r in s.reservations && s.reservations[r].reserved <= s.reserved
  {
    s.(reserved := s.reserved - s.reservations[r].reserved,
       reservations := s.reservations[r := s.reservations[r].(reserved := 0)])
  }

  ghost predicate CanAllocate<R, C>(s: State<R, C>, r: R) {
    && r in s.reservations
    && s.reservations[r].reserved > 0
    && s.reserved > 0
    && s.reservations[r].allocations.Some?
    && s.reservations[r].allocations.value in s.changes
  }

  ghost function Allocate<R, C>(s: State<R, C>, r: R, x: nat): State<R, C>
    requires CanAllocate(s, r)
  {
    var c := s.reservations[r].allocations.value;
    s.(reserved := s.reserved - 1,
       firstFree := x + 1,
       changes := s.changes[c := s.changes[c].(bits := s.changes[c].bits + {x})],
       reservations := s.reservations[r := s.reservations[r].(reserved := s.reservations[r].reserved - 1)])
  }

  ghost predicate BothOpen<R, C>(s: State<R, C>, r: R) {
    && r in s.reservations
    && s.reservations[r].allocations.Some? && s.reservations[r].allocations.value in s.changes
    && s.reservations[r].deallocations.Some? && s.reservations[r].deallocations.value in s.changes
  }

  ghost function Release<R, C>(s: State<R, C>, r: R, x: nat): State<R, C>
    requires BothOpen(s, r)
  {
    var a, d := s.reservations[r].allocations.value, s.reservations[r].deallocations.value;
    if x in s.changes[a].bits then
      s.(changes := s.changes[a := s.changes[a].(bits := s.changes[a].bits - {x})])
    else
      s.(changes := s.changes[d := s.changes[d].(bits := s.changes[d].bits + {x})])
  }

  /** Apply both bitmaps, adjust the used count, and mark both changes committed. */
  ghost function Commit<R, C>(s: State<R, C>, r: R): State<R, C>
    requires BothOpen(s, r)
  {
    var a, d := s.reservations[r].allocations.value, s.reservations[r].deallocations.value;
    var ab, db := s.changes[a].bits, s.changes[d].bits;
    if ab == {} && db == {} then s else
      s.(bitmap := s.bitmap + ab - db,
         used := if |db| > |ab| + s.used then 0 else s.used + |ab| - |db|,
         changes := s.changes[a := s.changes[a].(committed := true)][d := s.changes[d].(committed := true)])
  }

  function TakeDeallocations<R, C>(s: State<R, C>, r: R): State<R, C>
    requires r in s.reservations
  {
    s.(reservations := s.reservations[r := s.reservations[r].(deallocations := None)])
  }

  /** A change goes away; the hint comes down to its first held element. */
  ghost function Drop<R, C>(s: State<R, C>, c: C): State<R, C>
    requires c in s.changes
  {
    var held := s.changes[c].Held();
    s.(firstFree := if held != {} && Min(held) < s.firstFree then Min(held) else s.firstFree,
       changes := s.changes - {c})
  }

  function CloseReservation<R, C>(s: State<R, C>, r: R): State<R, C> {
    s.(reservations := s.reservations - {r})
  }
}
