/**
 The allocator and its reservations as the mutable objects they are. The abstract value
 of the whole structure is the ghost field Allocator.state, which Linked() ties to the
 objects' own fields; each method is proved to take one of the steps of AllocatorSpec, so
 the laws over runs apply to these objects.
 */
module MinfsAllocator {
  import opened Wrappers
  import opened Sets
  import opened AllocatorSpec
  import opened AllocatorLaws

  class PendingChange {
    const kind: Kind
    var bits: set<nat>
    var committed: bool

    constructor (kind: Kind)
      ensures this.kind == kind && bits == {} && !committed
    {
      this.kind := kind;
      bits := {};
      committed := false;
    }

    ghost function View(): Change
      reads this
    {
      Change(kind, bits, committed)
    }

    function GetReservedCount(): (n: nat)
      reads this
      ensures n == |View().Held()|
    {
      if committed == kind.Allocation? then 0 else |bits|
    }

    function GetNextUnreserved(start: nat): (item: nat)
      reads this
      ensures start <= item && item !in View().Held()
      ensures forall x :: start <= x < item ==> x in View().Held()
    {
      if committed == kind.Allocation? then start else NextClear(bits, start)
    }
  }

  ghost function ToOption(c: PendingChange?): Option<PendingChange> {
    if c == null then None else Some(c)
  }

  ghost predicate Distinct<T>(s: seq<T>) {
    forall i, j :: 0 <= i < j < |s| ==> s[i] != s[j]
  }

  /** s lists the elements of keys, each once. */
  ghost predicate Lists<T>(s: seq<T>, keys: set<T>) {
    && (forall i :: 0 <= i < |s| ==> s[i] in keys)
    && (forall x :: x in keys ==> x in s)
    && Distinct(s)
  }

  lemma ListsAppend<T>(s: seq<T>, keys: set<T>, x: T)
    requires Lists(s, keys) && x !in keys
    ensures Lists(s + [x], keys + {x})
  {
  }

  lemma ListsRemove<T>(s: seq<T>, keys: set<T>, i: nat)
    requires Lists(s, keys) && i < |s|
    ensures Lists(s[..i] + s[i + 1..], keys - {s[i]})
  {
    var t := s[..i] + s[i + 1..];
    forall x | x in keys - {s[i]} ensures x in t {
      var k :| 0 <= k < |s| && s[k] == x;
      assert t[if k < i then k else k - 1] == x;
    }
  }

  class Allocator {
    var reserved: nat
    var firstFree: nat
    var size: nat
    var bitmap: set<nat>
    var total: nat
    var used: nat
    var pendingChanges: seq<PendingChange>
    ghost var state: State<AllocatorReservation, PendingChange>

    /** An allocator over a loaded bitmap, as Create leaves it. */
    constructor (total: nat, bitmap: set<nat>)
      requires bitmap <= Below(total)
      ensures Valid() && Hint(state)
      ensures state == State(bitmap, total, total, |bitmap|, 0, 0, map[], map[])
    {
      reserved := 0;
      firstFree := 0;
      size := total;
      this.total := total;
      this.bitmap := bitmap;
      used := |bitmap|;
      pendingChanges := [];
      state := State(bitmap, total, total, |bitmap|, 0, 0, map[], map[]);
      new;
      SubsetSize(bitmap, Below(total));
      hide Findable, Below;
    }

    /** The ghost value is what the objects hold. */
    ghost predicate Linked()
      reads this, pendingChanges, state.reservations.Keys
    {
      && state == State(bitmap, size, total, used, reserved, firstFree, state.changes, state.reservations)
      && Lists(pendingChanges, state.changes.Keys)
      && (forall c :: c in state.changes ==>
            c in pendingChanges && state.changes[c] == Change(c.kind, c.bits, c.committed))
      && (forall r :: r in state.reservations ==>
            r.allocator == this &&
            state.reservations[r] == Reservation(r.reserved, ToOption(r.allocations), ToOption(r.deallocations)))
    }

    ghost predicate Valid()
      reads this, pendingChanges, state.reservations.Keys
    {
      Linked() && Inv(state)
    }

    /** Cycles through the changes until none of them moves `start` any further. */
    method FindNextUnreserved(start: nat, ghost bound: nat) returns (r: nat)
      requires Linked()
      requires start <= bound < size && bound !in HeldBits(state.changes)
      ensures start <= r <= bound && r !in HeldBits(state.changes)
      ensures forall y :: start <= y < r ==> y in HeldBits(state.changes)
    {
      r := start;
      var n := |pendingChanges|;
      var iter, still := 0, 0;
      while still < n
        invariant start <= r <= bound
        invariant forall y :: start <= y < r ==> y in HeldBits(state.changes)
        invariant 0 <= still <= n && (n > 0 ==> 0 <= iter < n)
        invariant forall j :: 0 <= j < n && (if j < iter then iter - j else iter + n - j) <= still ==>
                    r !in pendingChanges[j].View().Held()
        decreases bound - r, n - still
      {
        var next := pendingChanges[iter].GetNextUnreserved(r);
        assert pendingChanges[iter] in pendingChanges;
        HeldMember(state.changes, pendingChanges[iter]);
        if next != r {
          still := 0;
          r := next;
        }
        iter := if iter + 1 == n then 0 else iter + 1;
        still := still + 1;
      }
    }

    /** Finds the first element at or after the hint that is neither set in the bitmap nor held. */
    method FindLocked(ghost target: nat) returns (index: nat)
      requires Linked() && NextFree(state, target)
      ensures index == target
    {
      var start := firstFree;
      index := size;
      while true
        invariant firstFree <= start <= target
        invariant index != size ==> index == start && index < size && index !in bitmap
        decreases target - start, if index == size then 1 else 0
      {
        start := FindNextUnreserved(start, target);
        if index != size && start == index {
          assert Findable(state, index);
          return;
        }
        index := NextClear(bitmap, start);
        assert index <= target;
        start := index;
      }
    }

    /** What is available once all promises and all held elements are set aside. */
    method GetAvailableLocked() returns (available: nat)
      requires Linked() && Exclusive(state.changes) && Fits(state)
      ensures available == Available(state)
    {
      var totalReserved := reserved;
      var i := 0;
      while i < |pendingChanges|
        invariant 0 <= i <= |pendingChanges|
        invariant totalReserved == reserved + |HeldBits(Prefix(i))|
      {
        HeldPrefix(i);
        totalReserved := totalReserved + pendingChanges[i].GetReservedCount();
        i := i + 1;
      }
      assert Prefix(i) == state.changes;
      available := total - used - totalReserved;
    }

    /** The abstract values of the first i changes. */
    ghost function Prefix(i: nat): map<PendingChange, Change>
      requires Linked() && i <= |pendingChanges|
      reads this, pendingChanges, state.reservations.Keys
    {
      map c | c in pendingChanges[..i] :: state.changes[c]
    }

    lemma HeldPrefix(i: nat)
      requires Linked() && Exclusive(state.changes) && i < |pendingChanges|
      ensures |HeldBits(Prefix(i + 1))| == |HeldBits(Prefix(i))| + |pendingChanges[i].View().Held()|
    {
      var m, c := Prefix(i), pendingChanges[i];
      assert Prefix(i + 1) == m[c := state.changes[c]];
      HeldAfterUpdate(m, c, state.changes[c]);
      assert HeldBits(m) !! c.View().Held();
      DisjointUnionSize(HeldBits(m), c.View().Held());
    }

    /** Lists a new change recording r's allocations. */
    method AddPendingAllocations(r: AllocatorReservation) returns (c: PendingChange)
      requires Linked() && r in state.reservations
      modifies r`allocations, this`pendingChanges, this`state
      ensures Linked() && fresh(c) && c !in old(state.changes)
      ensures r.allocations == c && state == OpenAllocations(old(state), r, c)
    {
      hide HeldBits, Lists, PendingChange.View;
      c := new PendingChange(Allocation);
      assert c !in state.changes;
      ListsAppend(pendingChanges, state.changes.Keys, c);
      pendingChanges := pendingChanges + [c];
      r.allocations := c;
      state := OpenAllocations(state, r, c);
      assert state.changes.Keys == old(state).changes.Keys + {c};
    }

    /** Lists a new change recording r's deallocations. */
    method AddPendingDeallocations(r: AllocatorReservation) returns (c: PendingChange)
      requires Linked() && r in state.reservations
      modifies r`deallocations, this`pendingChanges, this`state
      ensures Linked() && fresh(c) && c !in old(state.changes)
      ensures r.deallocations == c && state == OpenDeallocations(old(state), r, c)
    {
      hide HeldBits, Lists, PendingChange.View;
      c := new PendingChange(Deallocation);
      assert c !in state.changes;
      ListsAppend(pendingChanges, state.changes.Keys, c);
      pendingChanges := pendingChanges + [c];
      r.deallocations := c;
      state := OpenDeallocations(state, r, c);
      assert state.changes.Keys == old(state).changes.Keys + {c};
    }

    /**
     Promises `count` more elements to r, growing the pool by one slice (`growth`, None when
     the volume cannot be extended) if too few are available. The growth is not compared
     with the shortfall.
     */
    method Reserve(r: AllocatorReservation, count: nat, growth: Option<nat>) returns (ok: bool)
      requires Linked() && Exclusive(state.changes) && Fits(state) && r in state.reservations
      modifies r`reserved, this`reserved, this`size, this`total, this`state
      ensures Linked()
      ensures ok == (count <= Available(old(state)) || growth.Some?)
      ensures state == if ok then AllocatorSpec.Reserve(Grown(old(state), count, growth), r, count) else old(state)
    {
      var available := GetAvailableLocked();
      if available < count {
        if growth.None? {
          return false;
        }
        Extend(growth.value);
      }
      AddPromise(r, count);
      ok := true;
    }

    method Extend(growth: nat)
      requires Linked()
      modifies this`size, this`total, this`state
      ensures Linked() && state == Grow(old(state), growth)
    {
      size := size + growth;
      total := total + growth;
      state := Grow(state, growth);
    }

    method AddPromise(r: AllocatorReservation, count: nat)
      requires Linked() && r in state.reservations
      modifies r`reserved, this`reserved, this`state
      ensures Linked() && state == AllocatorSpec.Reserve(old(state), r, count)
    {
      reserved := reserved + count;
      r.reserved := r.reserved + count;
      state := AllocatorSpec.Reserve(state, r, count);
    }

    /** Gives back everything promised to r. */
    method Unreserve(r: AllocatorReservation)
      requires Linked() && r in state.reservations && r.reserved <= reserved
      modifies r`reserved, this`reserved, this`state
      ensures Linked() && state == Cancel(old(state), r) && r.reserved == 0
    {
      reserved := reserved - r.reserved;
      r.reserved := 0;
      state := Cancel(state, r);
    }

    /** Finds an element, records it in r's allocations and uses up one promise. */
    method Allocate(r: AllocatorReservation, ghost target: nat) returns (index: nat)
      requires Linked() && CanAllocate(state, r) && NextFree(state, target)
      modifies r`reserved, r.allocations, this`reserved, this`firstFree, this`state
      ensures Linked() && index == target
      ensures state == AllocatorSpec.Allocate(old(state), r, index)
    {
      hide HeldBits, Findable, NextFree, Lists;
      index := FindLocked(target);
      r.reserved := r.reserved - 1;
      r.allocations.bits := r.allocations.bits + {index};
      reserved := reserved - 1;
      firstFree := index + 1;
      state := AllocatorSpec.Allocate(state, r, index);
      assert state.changes.Keys == old(state).changes.Keys;
    }

    /** Undoes a pending allocation, or records a pending deallocation. */
    method Free(r: AllocatorReservation, index: nat)
      requires Linked() && BothOpen(state, r)
      modifies r.allocations, r.deallocations, this`state
      ensures Linked() && state == Release(old(state), r, index)
    {
      if index in r.allocations.bits {
        r.allocations.bits := r.allocations.bits - {index};
      } else {
        r.deallocations.bits := r.deallocations.bits + {index};
      }
      state := Release(state, r, index);
    }

    /** Moves r's pending bits into the bitmap and marks both changes committed. */
    method Commit(r: AllocatorReservation)
      requires Linked() && BothOpen(state, r) && r.allocations != r.deallocations
      requires |r.deallocations.bits| <= used + |r.allocations.bits|
      modifies r.allocations, r.deallocations, this`bitmap, this`used, this`state
      ensures Linked() && state == AllocatorSpec.Commit(old(state), r)
    {
      if r.allocations.bits == {} && r.deallocations.bits == {} {
        return;
      }
      PersistBits(r.allocations.bits, r.deallocations.bits);
      SetCommitted(r.allocations, r.deallocations);
    }

    /** Sets and clears bits and adjusts the used count by the difference. */
    method PersistBits(taken: set<nat>, freed: set<nat>)
      requires Linked() && |freed| <= used + |taken|
      modifies this`bitmap, this`used, this`state
      ensures Linked()
      ensures state == old(state).(bitmap := old(bitmap) + taken - freed, used := old(used) + |taken| - |freed|)
    {
      bitmap := bitmap + taken;
      bitmap := bitmap - freed;
      if |taken| > |freed| {
        used := used + (|taken| - |freed|);
      } else if |freed| > |taken| {
        used := used - (|freed| - |taken|);
      }
      state := state.(bitmap := bitmap, used := used);
    }

    method SetCommitted(a: PendingChange, d: PendingChange)
      requires Linked() && a in pendingChanges && d in pendingChanges && a != d
      modifies a`committed, d`committed, this`state
      ensures Linked()
      ensures state == old(state).(changes := old(state).changes[a := old(state).changes[a].(committed := true)]
                                                                [d := old(state).changes[d].(committed := true)])
    {
      a.committed := true;
      d.committed := true;
      state := state.(changes := state.changes[a := state.changes[a].(committed := true)]
                                              [d := state.changes[d].(committed := true)]);
    }

    /** Called when a change is destroyed: what it held may be found again. */
    method RemovePendingChange(change: PendingChange)
      requires Linked() && change in state.changes
      modifies this`firstFree, this`pendingChanges, this`state
      ensures Linked() && state == Drop(old(state), change)
    {
      hide HeldBits, Lists;
      var lowered := LoweredHint(change);
      var i := IndexOf(change);
      ListsRemove(pendingChanges, state.changes.Keys, i);
      assert state.changes.Keys - {change} == (state.changes - {change}).Keys;
      state := Drop(state, change);
      firstFree := lowered;
      pendingChanges := pendingChanges[..i] + pendingChanges[i + 1..];
    }

    /** The hint, or the first element the change holds if that comes earlier. */
    method LoweredHint(change: PendingChange) returns (hint: nat)
      ensures var held := change.View().Held();
              hint == if held != {} && Min(held) < firstFree then Min(held) else firstFree
    {
      hint := firstFree;
      if change.GetReservedCount() > 0 {
        ghost var held := change.View().Held();
        assert Min(held) in change.bits;
        var first: nat :| first in change.bits && forall x :: x in change.bits ==> first <= x;
        if first < hint {
          hint := first;
        }
      }
    }

    /** RemovePendingChange as it is used: nothing refers to the change any more. */
    method Discard(change: PendingChange)
      requires Valid() && change in state.changes && Unreferenced(state, change)
      modifies this`firstFree, this`pendingChanges, this`state
      ensures Valid() && state == Drop(old(state), change)
      ensures Hint(old(state)) ==> Hint(state)
    {
      hide Hint, HeldBits, FreesOwned, Lists;
      ghost var before := state;
      RemovePendingChange(change);
      DropKeeps(before, change);
      if Hint(before) {
        DropKeepsHint(before, change);
      }
    }

    method IndexOf(change: PendingChange) returns (i: nat)
      requires change in pendingChanges
      ensures i < |pendingChanges| && pendingChanges[i] == change
    {
      i := 0;
      while pendingChanges[i] != change
        invariant i < |pendingChanges|
        invariant exists k :: i <= k < |pendingChanges| && pendingChanges[k] == change
        decreases |pendingChanges| - i
      {
        i := i + 1;
      }
    }
  }

  /** The state once r has a change to record allocations in. */
  ghost function WithAllocations<R, C>(s: State<R, C>, r: R, c: C): State<R, C>
    requires r in s.reservations
  {
    if s.reservations[r].allocations.None? then OpenAllocations(s, r, c) else s
  }

  ghost function WithDeallocations<R, C>(s: State<R, C>, r: R, c: C): State<R, C>
    requires r in s.reservations
  {
    if s.reservations[r].deallocations.None? then OpenDeallocations(s, r, c) else s
  }

  ghost function WithChanges<R, C>(s: State<R, C>, r: R, a: C, d: C): State<R, C>
    requires r in s.reservations
  {
    WithDeallocations(WithAllocations(s, r, a), r, d)
  }

  /** a and d are r's changes, or the new ones about to become so. */
  ghost predicate Slots<R, C>(s: State<R, C>, r: R, a: C, d: C)
    requires r in s.reservations
  {
    && (if s.reservations[r].allocations.None? then a !in s.changes else s.reservations[r].allocations == Some(a))
    && (if s.reservations[r].deallocations.None? then d !in s.changes && d != a else s.reservations[r].deallocations == Some(d))
  }

  /** The pool after the growth that a request for `count` elements causes. */
  ghost function Grown<R, C>(s: State<R, C>, count: nat, growth: Option<nat>): State<R, C> {
    if count <= Available(s) || growth.None? then s else Grow(s, growth.value)
  }

  class AllocatorReservation {
    const allocator: Allocator
    var reserved: nat
    var allocations: PendingChange?
    var deallocations: PendingChange?

    constructor (allocator: Allocator)
      requires allocator.Valid()
      modifies allocator`state
      ensures this.allocator == allocator && Live()
      ensures allocator.state == OpenReservation(old(allocator.state), this)
    {
      this.allocator := allocator;
      reserved := 0;
      allocations := null;
      deallocations := null;
      new;
      OpenKeeps(allocator.state, this);
      allocator.state := OpenReservation(allocator.state, this);
    }

    ghost predicate Live()
      reads this, allocator, allocator.pendingChanges, allocator.state.reservations.Keys
    {
      this in allocator.state.reservations && allocator.Valid()
    }

    /** The change recording this reservation's allocations, created on first use. */
    method GetPendingAllocations() returns (c: PendingChange)
      requires this in allocator.state.reservations && allocator.Linked()
      modifies this`allocations, this`deallocations, allocator`pendingChanges, allocator`state
      ensures allocator.Linked() && c == allocations && deallocations == old(deallocations)
      ensures allocator.state == WithAllocations(old(allocator.state), this, c)
      ensures if old(allocations) == null then fresh(c) && c !in old(allocator.state).changes else c == old(allocations)
    {
      if allocations != null {
        return allocations;
      }
      c := allocator.AddPendingAllocations(this);
    }

    method GetPendingDeallocations() returns (c: PendingChange)
      requires this in allocator.state.reservations && allocator.Linked()
      modifies this`allocations, this`deallocations, allocator`pendingChanges, allocator`state
      ensures allocator.Linked() && c == deallocations && allocations == old(allocations)
      ensures allocator.state == WithDeallocations(old(allocator.state), this, c)
      ensures if old(deallocations) == null then fresh(c) && c !in old(allocator.state).changes else c == old(deallocations)
    {
      if deallocations != null {
        return deallocations;
      }
      c := allocator.AddPendingDeallocations(this);
    }

    /**
     Extends the promise. The invariant survives a successful call exactly when the pool,
     grown if it had to be, really has `count` elements available.
     */
    method ExtendReservation(count: nat, growth: Option<nat>) returns (ok: bool)
      requires Live()
      modifies this`reserved, allocator`reserved, allocator`size, allocator`total, allocator`state
      ensures ok == (count <= Available(old(allocator.state)) || growth.Some?)
      ensures allocator.state == if ok then AllocatorSpec.Reserve(Grown(old(allocator.state), count, growth), this, count)
                                 else old(allocator.state)
      ensures Live() <==> (ok ==> count <= Available(Grown(old(allocator.state), count, growth)))
      ensures reserved == old(reserved) + (if ok then count else 0)
      ensures allocator.reserved == old(allocator.reserved) + (if ok then count else 0)
      ensures allocator.total == old(allocator.total) +
              (if ok && count > Available(old(allocator.state)) then growth.value else 0)
    {
      ghost var before := allocator.state;
      ok := allocator.Reserve(this, count, growth);
      GrownKeeps(before, count, growth);
      ReserveKeeps(Grown(before, count, growth), this, count);
    }

    /** Takes one promised element. With an honest hint this never fails. */
    method Allocate() returns (index: nat)
      requires Live() && Hint(allocator.state) && Unspent(allocator.state, this)
      requires reserved > 0
      modifies this, allocations, allocator
      ensures Live() && Hint(allocator.state) && Unspent(allocator.state, this)
      ensures allocations != null && (allocations == old(allocations) || fresh(allocations)) && deallocations == old(deallocations)
      ensures NextFree(old(allocator.state), index)
      ensures CanAllocate(WithAllocations(old(allocator.state), this, allocations), this)
      ensures allocator.state == AllocatorSpec.Allocate(WithAllocations(old(allocator.state), this, allocations), this, index)
      ensures reserved == old(reserved) - 1 && allocator.reserved == old(allocator.reserved) - 1
      ensures allocations.bits == (if old(allocations) == null then {} else old(allocations.bits)) + {index}
      ensures allocator.bitmap == old(allocator.bitmap) && allocator.firstFree == index + 1
    {
      hide Inv, Hint, Unspent, NextFree;
      ghost var before := allocator.state;
      var c := GetPendingAllocations();
      ghost var target := AllocationTarget(before, this, c);
      index := allocator.Allocate(this, target);
      AllocateLaws(before, this, c, index);
    }

    /** Both changes, created on first use. */
    method GetPendingChanges()
      requires this in allocator.state.reservations && allocator.Linked()
      modifies this`allocations, this`deallocations, allocator`pendingChanges, allocator`state
      ensures allocator.Linked() && allocations != null && deallocations != null
      ensures old(allocations) == null || allocations == old(allocations)
      ensures old(deallocations) == null || deallocations == old(deallocations)
      ensures old(allocations) == null ==> fresh(allocations)
      ensures old(deallocations) == null ==> fresh(deallocations)
      ensures Slots(old(allocator.state), this, allocations, deallocations)
      ensures allocator.state == WithChanges(old(allocator.state), this, allocations, deallocations)
    {
      var a := GetPendingAllocations();
      var d := GetPendingDeallocations();
    }

    /** Frees an element: a pending one at once, one in use when the transaction commits. */
    method Deallocate(element: nat)
      requires Live() && Unspent(allocator.state, this) && Freeable(allocator.state, this, element)
      modifies this`allocations, this`deallocations, allocations, deallocations, allocator
      ensures Live() && Unspent(allocator.state, this) && reserved == old(reserved)
      ensures allocations != null && deallocations != null
      ensures old(allocations) == null || allocations == old(allocations)
      ensures old(deallocations) == null || deallocations == old(deallocations)
      ensures old(allocations) == null ==> fresh(allocations)
      ensures old(deallocations) == null ==> fresh(deallocations)
      ensures Slots(old(allocator.state), this, allocations, deallocations)
      ensures BothOpen(WithChanges(old(allocator.state), this, allocations, deallocations), this)
      ensures allocator.state == Release(WithChanges(old(allocator.state), this, allocations, deallocations), this, element)
      ensures allocator.bitmap == old(allocator.bitmap) && allocator.firstFree == old(allocator.firstFree)
      ensures var taken := if old(allocations) == null then {} else old(allocations.bits);
              var freed := if old(deallocations) == null then {} else old(deallocations.bits);
              if element in taken then allocations.bits == taken - {element} && deallocations.bits == freed
              else allocations.bits == taken && deallocations.bits == freed + {element}
      ensures Hint(old(allocator.state)) ==>
                (Hint(allocator.state) <==>
                  !(PendingIn(old(allocator.state), this, element) && element < old(allocator.state).firstFree))
    {
      hide Inv, Hint, Unspent, Freeable;
      ghost var before := allocator.state;
      GetPendingChanges();
      WithChangesKeeps(before, this, allocations, deallocations);
      OpenedBits(before, this, allocations, deallocations);
      ReleasedBits(allocator.state, this, element);
      allocator.Free(this, element);
      ReleaseLaws(before, this, allocations, deallocations, element);
    }

    /** Frees an in-use element, if there is one, and takes a promised element in its place. */
    method Swap(oldIndex: nat) returns (index: nat)
      requires Live() && Hint(allocator.state) && Unspent(allocator.state, this) && reserved > 0
      requires oldIndex > 0 ==> Freeable(allocator.state, this, oldIndex) && !PendingIn(allocator.state, this, oldIndex)
      modifies this, allocations, deallocations, allocator
      ensures Live() && Hint(allocator.state) && Unspent(allocator.state, this)
      ensures reserved == old(reserved) - 1 && allocator.reserved == old(allocator.reserved) - 1
      ensures NextFree(old(allocator.state), index) && allocator.firstFree == index + 1
      ensures allocator.bitmap == old(allocator.bitmap) && allocator.size == old(allocator.size)
      ensures allocations != null && allocations.bits == (if old(allocations) == null then {} else old(allocations.bits)) + {index}
      ensures oldIndex > 0 ==>
                deallocations != null &&
                deallocations.bits == (if old(deallocations) == null then {} else old(deallocations.bits)) + {oldIndex}
      ensures oldIndex == 0 ==> deallocations == old(deallocations)
      ensures HeldBits(allocator.state.changes) == HeldBits(old(allocator.state).changes) + {index}
    {
      hide Inv, Hint, Unspent, Freeable, NextFree, Exclusive, FreesOwned, HeldBits, Findable;
      ghost var before := allocator.state;
      if oldIndex > 0 {
        Deallocate(oldIndex);
        ReleaseEffect(before, this, allocations, deallocations, oldIndex);
      }
      ghost var middle := allocator.state;
      index := Allocate();
      NextFreeFindable(middle, index);
      AllocateEffect(middle, this, allocations, index);
      if oldIndex > 0 {
        SameNextFree(middle, before, index);
      }
    }

    /** Applies everything pending. A reservation is committed at most once. */
    method Commit()
      requires Live() && Unspent(allocator.state, this)
      modifies this`allocations, this`deallocations, allocations, deallocations, allocator
      ensures Live() && (Hint(old(allocator.state)) ==> Hint(allocator.state))
      ensures allocations != null && deallocations != null
      ensures Slots(old(allocator.state), this, allocations, deallocations)
      ensures BothOpen(WithChanges(old(allocator.state), this, allocations, deallocations), this)
      ensures allocator.state == AllocatorSpec.Commit(WithChanges(old(allocator.state), this, allocations, deallocations), this)
      ensures Available(allocator.state) == Available(old(allocator.state))
      ensures var taken := if old(allocations) == null then {} else old(allocations.bits);
              var freed := if old(deallocations) == null then {} else old(deallocations.bits);
              && allocations.bits == taken && deallocations.bits == freed
              && (forall x :: x in taken ==> x !in old(allocator.bitmap) && x in allocator.bitmap)
              && (forall x :: x in freed ==> x in old(allocator.bitmap) && x !in allocator.bitmap)
              && (forall x :: x !in taken && x !in freed ==> (x in allocator.bitmap <==> x in old(allocator.bitmap)))
              && (allocations.committed <==> taken != {} || freed != {})
              && (deallocations.committed <==> taken != {} || freed != {})
      ensures allocator.used == |allocator.bitmap| && allocator.size == old(allocator.size) && reserved == old(reserved)
    {
      hide Inv, Hint, Unspent, HeldBits;
      ghost var before := allocator.state;
      GetPendingChanges();
      WithChangesKeeps(before, this, allocations, deallocations);
      CommitBounds(allocator.state, this, allocations, deallocations);
      OpenedBits(before, this, allocations, deallocations);
      CommittedBits(allocator.state, this);
      allocator.Commit(this);
      CommitLaws(before, this, allocations, deallocations);
      CountIsExact(allocator.state);
    }

    /** Hands the pending deallocations to whoever keeps them until the journal is written. */
    method TakePendingDeallocations() returns (c: PendingChange?)
      requires Live()
      modifies this`deallocations, allocator`state
      ensures Live() && c == old(deallocations) && deallocations == null
      ensures allocator.state == TakeDeallocations(old(allocator.state), this)
    {
      hide Inv;
      c := deallocations;
      deallocations := null;
      TakeKeeps(allocator.state, this);
      allocator.state := TakeDeallocations(allocator.state, this);
    }

    /** The destructor: cancels the promise and drops both changes. */
    method Destroy()
      requires Live()
      modifies this, allocator
      ensures allocator.Valid() && this !in allocator.state.reservations
      ensures Hint(old(allocator.state)) ==> Hint(allocator.state)
      ensures allocator.state.bitmap == old(allocator.state).bitmap
      ensures allocator.reserved == old(allocator.reserved) - old(reserved)
      ensures allocator.state.reservations.Keys == old(allocator.state).reservations.Keys - {this}
      ensures forall c :: c in allocator.state.changes <==>
                          c in old(allocator.state).changes && c != old(allocations) && c != old(deallocations)
    {
      hide Inv;
      ghost var before := allocator.state;
      Cancel();
      CancelKeepsHint(before, this);
      Close();
      if allocations != null {
        allocator.Discard(allocations);
      }
      if deallocations != null {
        allocator.Discard(deallocations);
      }
    }

    method Close()
      requires Live() && reserved == 0
      modifies allocator`state
      ensures allocator.Valid() && allocator.state == CloseReservation(old(allocator.state), this)
      ensures this !in allocator.state.reservations
      ensures allocations != null ==> allocations in allocator.state.changes && Unreferenced(allocator.state, allocations)
      ensures deallocations != null ==> deallocations in allocator.state.changes && Unreferenced(allocator.state, deallocations)
      ensures allocations != null ==> allocations != deallocations
    {
      CloseKeeps(allocator.state, this);
      CloseOrphans(allocator.state, this);
      allocator.state := CloseReservation(allocator.state, this);
    }

    method Cancel()
      requires Live()
      modifies this`reserved, allocator`reserved, allocator`state
      ensures Live() && reserved == 0
      ensures allocator.state.reservations[this].reserved == 0
      ensures old(allocator.state).reservations[this].reserved <= old(allocator.state).reserved
      ensures allocator.state == AllocatorSpec.Cancel(old(allocator.state), this)
    {
      CancelKeeps(allocator.state, this);
      allocator.Unreserve(this);
    }
  }

  lemma GrownKeeps<R, C>(s: State<R, C>, count: nat, growth: Option<nat>)
    requires Inv(s)
    ensures Inv(Grown(s, count, growth)) && Grown(s, count, growth).reservations == s.reservations
  {
    if growth.Some? {
      GrowKeeps(s, growth.value);
    }
  }

  lemma WithAllocationsKeeps<R, C>(s: State<R, C>, r: R, c: C)
    requires Inv(s) && r in s.reservations && (s.reservations[r].allocations.None? ==> c !in s.changes)
    ensures Inv(WithAllocations(s, r, c))
    ensures HeldBits(WithAllocations(s, r, c).changes) == HeldBits(s.changes)
  {
    if s.reservations[r].allocations.None? {
      OpenAllocationsKeeps(s, r, c);
    }
  }

  lemma AllocationTarget<R, C>(s: State<R, C>, r: R, c: C) returns (x: nat)
    requires Inv(s) && Hint(s) && r in s.reservations && s.reservations[r].reserved > 0
    requires s.reservations[r].allocations.None? ==> c !in s.changes
    ensures NextFree(s, x)
    ensures NextFree(WithAllocations(s, r, c), x)
    ensures CanAllocate(WithAllocations(s, r, c), r)
  {
    PromisedSplit(s.reservations, r);
    ReservedAllocationFinds(s);
    x :| NextFree(s, x);
    WithAllocationsKeeps(s, r, c);
    SameNextFree(s, WithAllocations(s, r, c), x);
  }

  lemma SameNextFree<R, C>(s: State<R, C>, t: State<R, C>, x: nat)
    requires s.bitmap == t.bitmap && s.size == t.size && s.firstFree == t.firstFree
    requires HeldBits(s.changes) == HeldBits(t.changes)
    requires NextFree(s, x)
    ensures NextFree(t, x)
  {
    forall y: nat | t.firstFree <= y < x ensures !Findable(t, y) {
      assert !Findable(s, y);
    }
  }

  lemma AllocateLaws<R, C>(s: State<R, C>, r: R, c: C, x: nat)
    requires Inv(s) && Hint(s) && r in s.reservations && Unspent(s, r)
    requires s.reservations[r].allocations.None? ==> c !in s.changes
    requires CanAllocate(WithAllocations(s, r, c), r) && NextFree(s, x)
    ensures var t := AllocatorSpec.Allocate(WithAllocations(s, r, c), r, x);
            Inv(t) && Hint(t) && r in t.reservations && Unspent(t, r)
  {
    var m := WithAllocations(s, r, c);
    WithAllocationsKeeps(s, r, c);
    SameHint(s, m);
    SameNextFree(s, m, x);
    AllocateKeeps(m, r, x);
    AllocateKeepsHint(m, r, x);
  }

  /** Nothing changes for anyone when r gets its still empty changes. */
  lemma WithChangesKeeps<R, C>(s: State<R, C>, r: R, a: C, d: C)
    requires Inv(s) && r in s.reservations && Unspent(s, r)
    requires Slots(s, r, a, d)
    ensures var t := WithChanges(s, r, a, d);
            Inv(t) && BothOpen(t, r) && Unspent(t, r) && HeldBits(t.changes) == HeldBits(s.changes) &&
            t.reservations[r].allocations == Some(a) && t.reservations[r].deallocations == Some(d)
  {
    WithAllocationsKeeps(s, r, a);
    var m := WithAllocations(s, r, a);
    if s.reservations[r].deallocations.None? {
      OpenDeallocationsKeeps(m, r, d);
    }
  }

  lemma WithChangesFreeable<R, C>(s: State<R, C>, r: R, a: C, d: C, x: nat)
    requires r in s.reservations && Freeable(s, r, x)
    requires Slots(s, r, a, d)
    ensures Freeable(WithChanges(s, r, a, d), r, x)
    ensures PendingIn(WithChanges(s, r, a, d), r, x) == PendingIn(s, r, x)
  {
  }

  lemma ReleaseLaws<R, C>(s: State<R, C>, r: R, a: C, d: C, x: nat)
    requires Inv(s) && r in s.reservations && Unspent(s, r) && Freeable(s, r, x)
    requires Slots(s, r, a, d)
    requires BothOpen(WithChanges(s, r, a, d), r)
    ensures var t := Release(WithChanges(s, r, a, d), r, x);
            Inv(t) && r in t.reservations && Unspent(t, r) &&
            (Hint(s) ==> (Hint(t) <==> !(PendingIn(s, r, x) && x < s.firstFree)))
  {
    var m := WithChanges(s, r, a, d);
    WithChangesKeeps(s, r, a, d);
    WithChangesFreeable(s, r, a, d, x);
    FreeKeeps(m, r, x);
    if Hint(s) {
      SameHint(s, m);
      FreeKeepsHint(m, r, x);
    }
  }

  /** What freeing an in-use element leaves alone. */
  lemma ReleaseEffect<R, C>(s: State<R, C>, r: R, a: C, d: C, x: nat)
    requires Inv(s) && r in s.reservations && Unspent(s, r) && Freeable(s, r, x) && !PendingIn(s, r, x)
    requires Slots(s, r, a, d)
    requires BothOpen(WithChanges(s, r, a, d), r)
    ensures var t := Release(WithChanges(s, r, a, d), r, x);
            && t == s.(changes := t.changes, reservations := t.reservations)
            && HeldBits(t.changes) == HeldBits(s.changes)
            && a in t.changes && t.changes[a].bits == (if a in s.changes then s.changes[a].bits else {})
            && d in t.changes && t.changes[d].bits == (if d in s.changes then s.changes[d].bits else {}) + {x}
            && t.reservations[r].reserved == s.reservations[r].reserved
  {
    hide Exclusive, FreesOwned, HeldBits, Freeable, Promised;
    WithChangesKeeps(s, r, a, d);
    WithChangesFreeable(s, r, a, d, x);
    FreeKeeps(WithChanges(s, r, a, d), r, x);
  }

  lemma NextFreeFindable<R, C>(s: State<R, C>, x: nat)
    requires NextFree(s, x)
    ensures Findable(s, x)
  {
  }

  /** What allocating leaves alone. */
  lemma AllocateEffect<R, C>(s: State<R, C>, r: R, a: C, x: nat)
    requires Inv(s) && r in s.reservations && Unspent(s, r) && Findable(s, x)
    requires if s.reservations[r].allocations.None? then a !in s.changes else s.reservations[r].allocations == Some(a)
    requires CanAllocate(WithAllocations(s, r, a), r)
    ensures var t := AllocatorSpec.Allocate(WithAllocations(s, r, a), r, x);
            && HeldBits(t.changes) == HeldBits(s.changes) + {x}
            && a in t.changes && t.changes[a].bits == (if a in s.changes then s.changes[a].bits else {}) + {x}
            && (forall c :: c in s.changes && c != a ==> c in t.changes && t.changes[c] == s.changes[c])
  {
    WithAllocationsKeeps(s, r, a);
    AllocateKeeps(WithAllocations(s, r, a), r, x);
  }

  /** Changes just opened are empty, the others are as they were, and so is the bitmap. */
  lemma OpenedBits<R, C>(s: State<R, C>, r: R, a: C, d: C)
    requires Inv(s) && r in s.reservations && Slots(s, r, a, d)
    ensures var m := WithChanges(s, r, a, d);
            && m.bitmap == s.bitmap && m.size == s.size && a in m.changes && d in m.changes
            && m.changes[a].bits == (if s.reservations[r].allocations.None? then {} else s.changes[a].bits)
            && m.changes[d].bits == (if s.reservations[r].deallocations.None? then {} else s.changes[d].bits)
  {
    hide HeldBits, Promised, Exclusive, FreesOwned;
  }

  lemma ReleasedBits<R, C>(m: State<R, C>, r: R, x: nat)
    requires Inv(m) && BothOpen(m, r)
    ensures var t, a, d := Release(m, r, x), m.reservations[r].allocations.value, m.reservations[r].deallocations.value;
            && a in t.changes && d in t.changes && t.bitmap == m.bitmap && t.firstFree == m.firstFree
            && if x in m.changes[a].bits
               then t.changes[a].bits == m.changes[a].bits - {x} && t.changes[d].bits == m.changes[d].bits
               else t.changes[a].bits == m.changes[a].bits && t.changes[d].bits == m.changes[d].bits + {x}
  {
    hide HeldBits, Promised, Exclusive, FreesOwned;
  }

  /** CommitApplies, for all elements. */
  lemma CommittedBits<R, C>(s: State<R, C>, r: R)
    requires Inv(s) && BothOpen(s, r) && Unspent(s, r)
    ensures var t, a, d := AllocatorSpec.Commit(s, r), s.reservations[r].allocations.value, s.reservations[r].deallocations.value;
            && (forall x :: x in s.changes[a].bits ==> x !in s.bitmap && x in t.bitmap)
            && (forall x :: x in s.changes[d].bits ==> x in s.bitmap && x !in t.bitmap)
            && (forall x :: x !in s.changes[a].bits && x !in s.changes[d].bits ==> (x in t.bitmap <==> x in s.bitmap))
            && t.size == s.size && a in t.changes && d in t.changes
            && t.changes[a].bits == s.changes[a].bits && t.changes[d].bits == s.changes[d].bits
            && (t.changes[a].committed <==> !(s.changes[a].bits == {} && s.changes[d].bits == {}))
            && (t.changes[d].committed <==> !(s.changes[a].bits == {} && s.changes[d].bits == {}))
            && r in t.reservations && t.reservations[r].reserved == s.reservations[r].reserved
  {
    var t, a, d := AllocatorSpec.Commit(s, r), s.reservations[r].allocations.value, s.reservations[r].deallocations.value;
    forall x ensures
        && (x in s.changes[a].bits ==> x !in s.bitmap && x in t.bitmap)
        && (x in s.changes[d].bits ==> x in s.bitmap && x !in t.bitmap)
        && (x !in s.changes[a].bits && x !in s.changes[d].bits ==> (x in t.bitmap <==> x in s.bitmap))
    {
      CommitApplies(s, r, x);
    }
    CommitApplies(s, r, 0);
    hide Inv, Unspent, AllocatorSpec.Commit;
  }

  lemma CountIsExact<R, C>(s: State<R, C>)
    requires Inv(s)
    ensures s.used == |s.bitmap|
  {
  }

  lemma CommitBounds<R, C>(s: State<R, C>, r: R, a: C, d: C)
    requires Inv(s) && BothOpen(s, r) && Unspent(s, r)
    requires s.reservations[r].allocations == Some(a) && s.reservations[r].deallocations == Some(d)
    ensures a != d && |s.changes[d].bits| <= s.used
  {
    SubsetSize(s.changes[d].bits, s.bitmap);
  }

  lemma CommitLaws<R, C>(s: State<R, C>, r: R, a: C, d: C)
    requires Inv(s) && r in s.reservations && Unspent(s, r)
    requires Slots(s, r, a, d)
    requires BothOpen(WithChanges(s, r, a, d), r)
    ensures var t := AllocatorSpec.Commit(WithChanges(s, r, a, d), r);
            && Inv(t) && r in t.reservations && Available(t) == Available(s)
            && (Hint(s) ==> Hint(t))
  {
    var m := WithChanges(s, r, a, d);
    WithChangesKeeps(s, r, a, d);
    CommitKeeps(m, r);
    if Hint(s) {
      SameHint(s, m);
      StepKeepsHint(m, StepCommit(r));
    }
  }

  lemma CancelKeepsHint<R, C>(s: State<R, C>, r: R)
    requires Inv(s) && r in s.reservations && s.reservations[r].reserved <= s.reserved
    ensures Hint(s) ==> Hint(CloseReservation(Cancel(s, r), r))
  {
    if Hint(s) {
      SameHint(s, CloseReservation(Cancel(s, r), r));
    }
  }

  lemma CloseOrphans<R, C>(s: State<R, C>, r: R)
    requires Ownership(s.changes, s.reservations) && r in s.reservations
    ensures var t := CloseReservation(s, r);
            && (s.reservations[r].allocations.Some? ==> Unreferenced(t, s.reservations[r].allocations.value))
            && (s.reservations[r].deallocations.Some? ==> Unreferenced(t, s.reservations[r].deallocations.value))
            && (s.reservations[r].allocations.Some? ==> s.reservations[r].allocations != s.reservations[r].deallocations)
  {
  }
}
