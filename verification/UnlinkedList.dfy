/** Inodes that have lost their last name while open, on a doubly linked list through their own fields. */
module UnlinkedList {

  /** The two list fields of an inode; 0 is no inode. */
  datatype Links = Links(last: nat, next: nat)

  /** Head and tail as in the superblock, and the list fields of all inodes. */
  datatype State = State(head: nat, tail: nat, inodes: map<nat, Links>)

  ghost predicate Distinct(members: seq<nat>) {
    forall i, j :: 0 <= i < j < |members| ==> members[i] != members[j]
  }

  function Before(members: seq<nat>, i: nat): nat
    requires i <= |members|
  {
    if i == 0 then 0 else members[i - 1]
  }

  function After(members: seq<nat>, i: nat): nat
    requires i < |members|
  {
    if i + 1 == |members| then 0 else members[i + 1]
  }

  /** The list is `members`, in order, read from either end. */
  ghost predicate ListOf(s: State, members: seq<nat>) {
    && Distinct(members) && 0 !in members
    && s.head == (if members == [] then 0 else members[0])
    && s.tail == Before(members, |members|)
    && (forall i :: 0 <= i < |members| ==>
          members[i] in s.inodes && s.inodes[members[i]] == Links(Before(members, i), After(members, i)))
  }

  lemma AfterZero(members: seq<nat>, i: nat)
    requires 0 !in members && i < |members|
    ensures After(members, i) == 0 <==> i + 1 == |members|
    ensures Before(members, i) == 0 <==> i == 0
  {
    assert i + 1 < |members| ==> members[i + 1] in members;
    assert i > 0 ==> members[i - 1] in members;
  }

  function Suffix(members: seq<nat>, k: nat): seq<nat>
    requires k <= |members|
  {
    members[k..]
  }

  /** There is only one list that a state can stand for. */
  lemma ListUnique(s: State, a: seq<nat>, b: seq<nat>)
    requires ListOf(s, a) && ListOf(s, b)
    ensures a == b
  {
    if |a| <= |b| {
      SameLength(s, a, b);
    } else {
      SameLength(s, b, a);
    }
    SamePrefix(s, a, b, |a|);
  }

  lemma HeadZero(s: State, members: seq<nat>)
    requires ListOf(s, members)
    ensures s.head == 0 <==> members == []
    ensures s.tail == 0 <==> members == []
  {
    assert members == [] || (members[0] in members && members[|members| - 1] in members);
  }

  lemma SameLength(s: State, a: seq<nat>, b: seq<nat>)
    requires ListOf(s, a) && ListOf(s, b) && |a| <= |b|
    ensures |a| == |b|
  {
    HeadZero(s, a);
    HeadZero(s, b);
    if a != [] {
      SamePrefix(s, a, b, |a|);
      AfterZero(a, |a| - 1);
      AfterZero(b, |a| - 1);
      assert s.inodes[a[|a| - 1]].next == After(a, |a| - 1);
      assert s.inodes[b[|a| - 1]].next == After(b, |a| - 1);
    }
  }

  lemma {:induction false} SamePrefix(s: State, a: seq<nat>, b: seq<nat>, k: nat)
    requires ListOf(s, a) && ListOf(s, b) && k <= |a| && k <= |b|
    ensures forall i :: 0 <= i < k ==> a[i] == b[i]
  {
    if k > 0 {
      SamePrefix(s, a, b, k - 1);
      if k > 1 {
        assert s.inodes[a[k - 2]].next == After(a, k - 2) == a[k - 1];
        assert s.inodes[b[k - 2]].next == After(b, k - 2) == b[k - 1];
      }
    }
  }

  // ---------------------------------------------------------------------------
  // The operations as functions on the state

  /** Only the fields that must change are written: the new member keeps its own next, and its last if it is the first. */
  function Add(s: State, ino: nat): State
    requires ino in s.inodes && (s.tail != 0 ==> s.tail in s.inodes)
  {
    if s.tail == 0 then s.(head := ino, tail := ino)
    else
      var linked := s.inodes[s.tail := s.inodes[s.tail].(next := ino)];
      State(s.head, ino, linked[ino := linked[ino].(last := s.tail)])
  }

  function Remove(s: State, ino: nat): State
    requires ino in s.inodes
    requires s.inodes[ino].last != 0 ==> s.inodes[ino].last in s.inodes
    requires s.inodes[ino].next != 0 ==> s.inodes[ino].next in s.inodes
  {
    var vn := s.inodes[ino];
    var t := if vn.last == 0 then s.(head := vn.next)
             else s.(inodes := s.inodes[vn.last := s.inodes[vn.last].(next := vn.next)]);
    if vn.next == 0 then t.(tail := vn.last)
    else t.(inodes := t.inodes[vn.next := t.inodes[vn.next].(last := vn.last)])
  }

  /**
   Appending works exactly when the inode's own list fields are clear where Add leaves them
   alone, as they are in an inode fresh from the allocator.
   */
  lemma AddAppends(s: State, members: seq<nat>, ino: nat)
    requires ListOf(s, members) && ino != 0 && ino !in members && ino in s.inodes
    ensures s.tail != 0 ==> s.tail in s.inodes
    ensures ListOf(Add(s, ino), members + [ino]) <==> s.inodes[ino].next == 0 && (members == [] ==> s.inodes[ino].last == 0)
  {
    var k, all := |members|, members + [ino];
    HeadZero(s, members);
    if members != [] {
      TailIs(s, members);
    }
    AppendNeighbours(members, ino);
    var t := Add(s, ino);
    if s.inodes[ino].next == 0 && (members == [] ==> s.inodes[ino].last == 0) {
      forall i | 0 <= i < |all| ensures all[i] in t.inodes && t.inodes[all[i]] == Links(Before(all, i), After(all, i)) {
        if i < k {
          assert s.inodes[members[i]] == Links(Before(members, i), After(members, i));
        }
      }
    }
    hide Before, After;
    assert t.inodes[ino].next == s.inodes[ino].next && (members == [] ==> t.inodes[ino].last == s.inodes[ino].last);
    assert ListOf(t, all) ==> t.inodes[all[k]] == Links(Before(all, k), After(all, k));
  }

  /** An inode with a next of its own, put on the empty list, is not a list of one. */
  lemma LeftoverNextBreaksTheList()
    ensures var s := State(0, 0, map[5 := Links(0, 7), 7 := Links(0, 0)]);
            ListOf(s, []) && !ListOf(Add(s, 5), [5])
  {
    AddAppends(State(0, 0, map[5 := Links(0, 7), 7 := Links(0, 0)]), [], 5);
    assert [] + [5] == [5];
  }

  lemma TailIs(s: State, members: seq<nat>)
    requires ListOf(s, members) && members != []
    ensures s.tail == members[|members| - 1] && s.tail in s.inodes
  {
  }

  lemma AppendNeighbours(members: seq<nat>, ino: nat)
    requires Distinct(members) && 0 !in members && ino != 0 && ino !in members
    ensures var all := members + [ino];
            && Distinct(all) && 0 !in all
            && (forall i :: 0 <= i < |members| ==>
                  all[i] == members[i] && all[i] != ino && Before(all, i) == Before(members, i) &&
                  After(all, i) == if i + 1 == |members| then ino else After(members, i))
            && all[|members|] == ino && After(all, |members|) == 0 && Before(all, |members|) == Before(members, |members|)
            && Before(all, |all|) == ino
  {
  }

  /** Taking out the member at position k joins its neighbours. */
  lemma RemoveTakesOut(s: State, members: seq<nat>, k: nat)
    requires ListOf(s, members) && k < |members|
    ensures var ino := members[k];
            && ino in s.inodes
            && (s.inodes[ino].last != 0 ==> s.inodes[ino].last in s.inodes)
            && (s.inodes[ino].next != 0 ==> s.inodes[ino].next in s.inodes)
            && ListOf(Remove(s, ino), members[..k] + members[k + 1..])
            && Remove(s, ino).inodes.Keys == s.inodes.Keys
  {
    var ino, rest := members[k], members[..k] + members[k + 1..];
    AfterZero(members, k);
    RemoveFields(s, members, k);
    var t := Remove(s, ino);
    hide Remove;
    forall i | 0 <= i < |rest| ensures rest[i] in t.inodes && t.inodes[rest[i]] == Links(Before(rest, i), After(rest, i)) {
      RestNeighbours(members, k, i);
      var m := if i < k then i else i + 1;
      assert t.inodes[members[m]] == Links(if m == k + 1 then Before(members, k) else Before(members, m),
                                           if m + 1 == k then After(members, k) else After(members, m));
    }
    RestList(members, k);
  }

  /** What Remove does to each member's fields, and to head and tail. */
  lemma RemoveFields(s: State, members: seq<nat>, k: nat)
    requires ListOf(s, members) && k < |members|
    ensures var ino := members[k];
            && ino in s.inodes
            && (s.inodes[ino].last != 0 ==> s.inodes[ino].last in s.inodes)
            && (s.inodes[ino].next != 0 ==> s.inodes[ino].next in s.inodes)
            && var t := Remove(s, ino);
               && t.inodes.Keys == s.inodes.Keys
               && t.head == (if k == 0 then After(members, k) else s.head)
               && t.tail == (if k + 1 == |members| then Before(members, k) else s.tail)
               && forall m :: 0 <= m < |members| && m != k ==>
                    members[m] in t.inodes &&
                    t.inodes[members[m]] == Links(if m == k + 1 then Before(members, k) else Before(members, m),
                                                  if m + 1 == k then After(members, k) else After(members, m))
  {
    var ino, prev, next := members[k], Before(members, k), After(members, k);
    AfterZero(members, k);
    assert s.inodes[ino] == Links(prev, next);
    assert k == 0 || (prev == members[k - 1] && prev in s.inodes);
    assert k + 1 == |members| || (next == members[k + 1] && next in s.inodes);
    var t := Remove(s, ino);
    forall m | 0 <= m < |members| && m != k
      ensures members[m] in t.inodes &&
              t.inodes[members[m]] == Links(if m == k + 1 then prev else Before(members, m),
                                            if m + 1 == k then next else After(members, m))
    {
      IsNeighbour(members, k, m);
      RemoveField(s, ino, members[m]);
      assert s.inodes[members[m]] == Links(Before(members, m), After(members, m));
    }
  }

  lemma IsNeighbour(members: seq<nat>, k: nat, m: nat)
    requires Distinct(members) && 0 !in members && k < |members| && m < |members| && m != k
    ensures members[m] != members[k] && members[m] != 0
    ensures members[m] == Before(members, k) <==> m + 1 == k
    ensures members[m] == After(members, k) <==> m == k + 1
    ensures m + 1 == k ==> Before(members, k) != After(members, k)
    ensures m == k + 1 ==> Before(members, k) != After(members, k)
  {
    assert members[m] in members;
  }

  lemma RemoveField(s: State, ino: nat, j: nat)
    requires ino in s.inodes && j in s.inodes && j != ino && j != 0
    requires s.inodes[ino].last != 0 ==> s.inodes[ino].last in s.inodes
    requires s.inodes[ino].next != 0 ==> s.inodes[ino].next in s.inodes
    requires j == s.inodes[ino].last || j == s.inodes[ino].next ==> s.inodes[ino].last != s.inodes[ino].next
    ensures var vn, t := s.inodes[ino], Remove(s, ino);
            && j in t.inodes
            && t.inodes[j] == Links(if j == vn.next then vn.last else s.inodes[j].last,
                                    if j == vn.last then vn.next else s.inodes[j].next)
  {
  }

  /** Neighbours in the list without its k-th member. */
  lemma RestNeighbours(members: seq<nat>, k: nat, i: nat)
    requires k < |members| && i + 1 < |members|
    ensures var rest, m := members[..k] + members[k + 1..], if i < k then i else i + 1;
            && rest[i] == members[m]
            && Before(rest, i) == (if m == k + 1 then Before(members, k) else Before(members, m))
            && After(rest, i) == (if m + 1 == k then After(members, k) else After(members, m))
  {
  }

  lemma RestList(members: seq<nat>, k: nat)
    requires Distinct(members) && 0 !in members && k < |members|
    ensures var rest := members[..k] + members[k + 1..];
            && Distinct(rest) && 0 !in rest
            && (if rest == [] then 0 else rest[0]) == (if k == 0 then After(members, k) else members[0])
            && Before(rest, |rest|) == (if k + 1 == |members| then Before(members, k) else Before(members, |members|))
  {
  }

  class Minfs {
    var state: State
    /** Inodes given back, in order. */
    var freed: seq<nat>
    ghost var members: seq<nat>

    ghost predicate Valid()
      reads this
    {
      ListOf(state, members)
    }

    /** Puts an inode that has just lost its last link on the list. */
    method AddUnlinked(ino: nat)
      requires Valid() && ino != 0 && ino !in members && ino in state.inodes && state.inodes[ino] == Links(0, 0)
      modifies this`state, this`members
      ensures Valid() && members == old(members) + [ino] && state == Add(old(state), ino)
    {
      AddAppends(state, members, ino);
      members := members + [ino];
      if state.tail == 0 {
        state := state.(head := ino, tail := ino);
      } else {
        var last := state.tail;
        state := state.(inodes := state.inodes[last := state.inodes[last].(next := ino)]);
        state := state.(inodes := state.inodes[ino := state.inodes[ino].(last := last)]);
        state := state.(tail := ino);
      }
    }

    /** Takes a closed inode off the list, wherever in it. */
    method RemoveUnlinked(ino: nat, ghost k: nat)
      requires Valid() && k < |members| && members[k] == ino
      modifies this`state, this`members
      ensures Valid() && members == old(members)[..k] + old(members)[k + 1..]
    {
      RemoveTakesOut(state, members, k);
      var vn := state.inodes[ino];
      ghost var rest := members[..k] + members[k + 1..];
      if vn.last == 0 {
        assert state.head == ino;
        state := state.(head := vn.next);
      } else {
        state := state.(inodes := state.inodes[vn.last := state.inodes[vn.last].(next := vn.next)]);
      }
      if vn.next == 0 {
        assert state.tail == ino;
        state := state.(tail := vn.last);
      } else {
        state := state.(inodes := state.inodes[vn.next := state.inodes[vn.next].(last := vn.last)]);
      }
      members := rest;
    }

    /**
     Frees everything on the list after a mount, one transaction per inode. `commits` are the
     states that reached the device: whichever is the last, the list is whole.
     */
    method PurgeUnlinked() returns (ghost commits: seq<State>)
      requires Valid()
      modifies this
      ensures Valid() && members == [] && state.head == 0 && state.tail == 0
      ensures freed == old(freed) + old(members)
      ensures |commits| == |old(members)|
      ensures forall i :: 0 <= i < |commits| ==> ListOf(commits[i], Suffix(old(members), i + 1))
    {
      hide ListOf, After, Before, Suffix;
      HeadZero(state, members);
      commits := [];
      var lastIno, nextIno := 0, state.head;
      ghost var all, given, k := members, freed, 0;
      if nextIno == 0 {
        return;
      }
      NoSuffix(all);
      HeadIs(state, members);
      while true
        invariant 0 <= k < |all| && members == Suffix(all, k) && |members| == |all| - k && Valid()
        invariant nextIno == members[0] && state.head == nextIno
        invariant freed == given + all[..k] && |commits| == k
        invariant forall i :: 0 <= i < k ==> ListOf(commits[i], Suffix(all, i + 1))
        decreases |all| - k
      {
        freed := freed + [nextIno];
        lastIno := nextIno;
        NextSuffix(all, k);
        PurgeFirst(state, members);
        nextIno := state.inodes[lastIno].next;
        state := state.(head := nextIno);
        if nextIno == 0 {
          assert state.tail == lastIno;
          state := state.(tail := 0);
        } else {
          assert state.inodes[nextIno].last == lastIno;
          state := state.(inodes := state.inodes[nextIno := state.inodes[nextIno].(last := 0)]);
        }
        members := members[1..];
        k := k + 1;
        commits := commits + [state];
        if nextIno == 0 {
          break;
        }
      }
      AllSuffix(all, k);
      EmptyList(state);
    }
  }

  lemma HeadIs(s: State, members: seq<nat>)
    requires ListOf(s, members) && members != []
    ensures s.head == members[0]
  {
  }

  lemma EmptyList(s: State)
    requires ListOf(s, [])
    ensures s.head == 0 && s.tail == 0
  {
  }

  lemma NoSuffix(all: seq<nat>)
    ensures Suffix(all, 0) == all && all[..0] == []
  {
  }

  lemma AllSuffix(all: seq<nat>, k: nat)
    requires k == |all|
    ensures all[..k] == all && Suffix(all, k) == []
  {
  }

  lemma NextSuffix(all: seq<nat>, k: nat)
    requires k < |all|
    ensures Suffix(all, k)[1..] == Suffix(all, k + 1) && all[..k + 1] == all[..k] + [all[k]] && Suffix(all, k)[0] == all[k]
    ensures |Suffix(all, k)| == |all| - k
  {
  }

  /** Freeing the first member and making the second the head. */
  lemma PurgeFirst(s: State, members: seq<nat>)
    requires ListOf(s, members) && members != []
    ensures members[0] in s.inodes
    ensures var next := s.inodes[members[0]].next;
            && (next == 0 <==> |members| == 1) && (next != 0 ==> next == members[1] && next in s.inodes)
            && (next == 0 ==> s.tail == members[0])
            && (next != 0 ==> s.inodes[next].last == members[0])
            && ListOf(if next == 0 then s.(head := 0, tail := 0)
                      else State(next, s.tail, s.inodes[next := s.inodes[next].(last := 0)]), members[1..])
  {
    var next, rest := s.inodes[members[0]].next, members[1..];
    AfterZero(members, 0);
    assert next == After(members, 0);
    assert forall i :: 0 <= i < |rest| ==> rest[i] == members[i + 1];
    if next != 0 {
      assert s.inodes[members[1]] == Links(Before(members, 1), After(members, 1));
      var t := State(next, s.tail, s.inodes[next := s.inodes[next].(last := 0)]);
      forall i | 0 <= i < |rest| ensures rest[i] in t.inodes && t.inodes[rest[i]] == Links(Before(rest, i), After(rest, i)) {
        assert s.inodes[members[i + 1]] == Links(Before(members, i + 1), After(members, i + 1));
      }
    }
  }
}
