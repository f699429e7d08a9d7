/**
 The checker refuses nothing it need not: if some state of the checker would be acceptance, the walk
 does not stop short of it, and comes to the same findings.
 */
module FsckComplete {
  import opened Sets
  import opened PointerTree
  import opened BlocksShrink
  import opened DirectoryRecords
  import opened FsckSpec
  import opened FsckLaws
  import opened FsckAccepts
  import List = UnlinkedList

  /** Only the root and inodes that are on the unlinked list have been turned to. */
  ghost predicate OnTop(c: Checked, listed: seq<nat>) {
    forall k :: (0, k) in c.calls ==> k == 0 || k in listed
  }

  /** What the walk has come to so far is what it comes to in w. */
  ghost predicate Within(img: Image, c: Checked, w: Checked, i: nat) {
    i in w.inodes && (IsDir(img, i) && i in c.met ==> i in w.met && w.met[i].site == c.met[i].site)
  }

  // ---------------------------------------------------------------------------
  // The walk stays inside the accepted findings

  lemma CallFacts(img: Image, c: Checked, s: Site)
    requires CheckerInv(img, c, {}) && s in c.calls
    ensures s.0 != 0 ==> s.0 in c.inodes && OnChain(img, s)
    ensures Target(img, s) in c.inodes && Target(img, s) != 0
  {
    hide InodesInv, BlocksInv, FilesInv, LinksInv, MetInv, FlagInv, OnChain, Target;
    assert GoodCall(img, c.inodes, s);
  }

  lemma MetFacts(img: Image, c: Checked, i: nat)
    requires CheckerInv(img, c, {})
    ensures i in c.met <==> i in c.inodes && i != 0
    ensures i in c.met ==> MetBefore(img, c, i)
  {
    hide InodesInv, BlocksInv, FilesInv, LinksInv, CallsInv, FlagInv, MetBefore;
  }

  /** A record that is reached in a directory of w is among the entries w has followed. */
  lemma RecordFollowed(img: Image, w: Checked, listed: seq<nat>, s: Site)
    requires Accepted(img, w, listed) && OnChain(img, s) && InUse(w, s.0)
    ensures s in w.calls && Target(img, s) in w.inodes && s.0 in w.visits && s in SitesOf(img, s.0, w.visits[s.0].offs)
  {
    IsInv(img, w, listed);
    hide Accepted;
    ChainOfDir(img, w, listed, s.0);
    var contents, all := img.inodes[s.0].contents, w.visits[s.0].offs;
    var offs :| Chained(contents, offs) && s.1 in offs;
    hide Readable, Chained, RecordAt;
    WholeChain(contents, all, offs, MayEnd(img, s.0, ParentDir(w, s.0)));
    assert s.1 in all;
    assert s == (s.0, s.1) && s in SitesOf(img, s.0, all);
    CallFacts(img, w, s);
  }

  lemma IsInv(img: Image, w: Checked, listed: seq<nat>)
    requires Accepted(img, w, listed)
    ensures CheckerInv(img, w, {})
  {
    hide CheckerInv, Complete;
  }

  lemma ChainOfDir(img: Image, w: Checked, listed: seq<nat>, d: nat)
    requires Accepted(img, w, listed) && InUse(w, d) && IsDir(img, d)
    ensures d in w.met && d in w.visits && w.visits[d].parent == ParentDir(w, d)
    ensures ChainOf(img.inodes[d].contents, w.visits[d].offs, MayEnd(img, d, ParentDir(w, d)))
    ensures forall off :: (d, off) in w.calls <==> (d, off) in SitesOf(img, d, w.visits[d].offs)
    ensures DirSound(img, d, ParentDir(w, d), w.visits[d].offs)
  {
    hide InodesInv, BlocksInv, FilesInv, LinksInv, CallsInv, MetInv, FlagInv, DirSound, ChainOf, SitesOf, MemberMet;
    assert Complete(img, w, d);
  }

  /** The inodes turned to that w has turned to as well. */
  lemma TopFollowed(img: Image, w: Checked, listed: seq<nat>, k: nat)
    requires Accepted(img, w, listed) && (k == 0 || k in listed)
    ensures (0, k) in w.calls && Target(img, (0, k)) == (if k == 0 then 1 else k) && InUse(w, Target(img, (0, k)))
    ensures var i := Target(img, (0, k)); i in w.met && (IsDir(img, i) ==> w.met[i].site == (0, k))
  {
    RootIsMet(img, w, listed);
    hide CheckerInv, Complete;
    if k in listed {
      assert MemberMet(img, w, k);
    }
  }

  /** A directory is come to along the same entry. */
  lemma SameFirst(img: Image, c: Checked, w: Checked, listed: seq<nat>, i: nat)
    requires CheckerInv(img, c, {}) && Accepted(img, w, listed) && i in c.met && IsDir(img, i)
    requires var s := c.met[i].site; s.0 != 0 && s.0 in c.met && Within(img, c, w, s.0) && s in w.calls
    requires OnChain(img, c.met[i].site)
    ensures i in w.met && w.met[i].site == c.met[i].site
  {
    var s := c.met[i].site;
    var p := s.0;
    IsInv(img, w, listed);
    MetFacts(img, c, i);
    MetFacts(img, c, p);
    MetFacts(img, w, p);
    CallFacts(img, w, s);
    MetFacts(img, w, i);
    if NamedSite(img, s) {
      NameIsFirst(img, w, s);
    } else {
      RecordFollowed(img, w, listed, s);
      DotsOfDir(img, w, listed, s);
      hide Accepted, CheckerInv;
      UpIsBefore(img, c, w, i);
    }
  }

  lemma NameIsFirst(img: Image, w: Checked, s: Site)
    requires CheckerInv(img, w, {}) && s in w.calls && NamedSite(img, s) && IsDir(img, Target(img, s))
    ensures Target(img, s) in w.met && w.met[Target(img, s)].site == s
  {
    hide InodesInv, BlocksInv, FilesInv, LinksInv, CallsInv, FlagInv, MetBefore;
    assert FirstName(img, w, s);
  }

  /** Where an entry named "." or ".." leads in w. */
  lemma DotsOfDir(img: Image, w: Checked, listed: seq<nat>, s: Site)
    requires Accepted(img, w, listed) && s in w.calls && s.0 != 0 && InUse(w, s.0) && IsDir(img, s.0) && !NamedSite(img, s)
    ensures s.0 in w.met && (Target(img, s) == s.0 || Target(img, s) == ParentDir(w, s.0))
  {
    hide Accepted;
    ChainOfDir(img, w, listed, s.0);
    var all := w.visits[s.0].offs;
    assert s == (s.0, s.1) && s in SitesOf(img, s.0, all);
    hide SitesOf, ChainOf;
    assert LiveNamed(img, s.0, s.1, ".") || LiveNamed(img, s.0, s.1, "..");
  }

  /** Nothing is met along an entry that leads to its own directory, or to that one's parent. */
  lemma UpIsBefore(img: Image, c: Checked, w: Checked, i: nat)
    requires i in c.met && MetBefore(img, c, i) && i != 0
    requires var p := c.met[i].site.0;
             && p != 0 && p in c.met && MetBefore(img, c, p) && p in w.met && w.met[p].site == c.met[p].site
    ensures var p := c.met[i].site.0; i != p && i != ParentDir(w, p)
  {
  }

  lemma {:induction false} MetWithin(img: Image, c: Checked, w: Checked, listed: seq<nat>, i: nat)
    requires CheckerInv(img, c, {}) && OnTop(c, listed) && Accepted(img, w, listed) && i in c.met
    ensures Within(img, c, w, i)
    decreases c.met[i].rank
  {
    MetFacts(img, c, i);
    var s := c.met[i].site;
    if s.0 == 0 {
      assert s == (0, s.1);
      TopFollowed(img, w, listed, s.1);
    } else {
      CallFacts(img, c, s);
      MetWithin(img, c, w, listed, s.0);
      RecordFollowed(img, w, listed, s);
      if IsDir(img, i) {
        SameFirst(img, c, w, listed, i);
      }
    }
  }

  lemma CallsWithin(img: Image, c: Checked, w: Checked, listed: seq<nat>, s: Site)
    requires CheckerInv(img, c, {}) && OnTop(c, listed) && Accepted(img, w, listed)
    requires s in c.calls || (s.0 != 0 && s.0 in c.inodes && OnChain(img, s)) || (s.0 == 0 && (s.1 == 0 || s.1 in listed))
    ensures s in w.calls && Target(img, s) in w.inodes && Target(img, s) != 0
  {
    IsInv(img, w, listed);
    if s.0 == 0 {
      assert s == (0, s.1);
      TopFollowed(img, w, listed, s.1);
    } else {
      if s in c.calls {
        CallFacts(img, c, s);
      }
      MetFacts(img, c, s.0);
      MetWithin(img, c, w, listed, s.0);
      RecordFollowed(img, w, listed, s);
      CallFacts(img, w, s);
    }
  }

  // ---------------------------------------------------------------------------
  // It does not stop

  lemma NotOther(img: Image, w: Checked, i: nat)
    requires CheckerInv(img, w, {}) && InUse(w, i)
    ensures i < |img.inodes| && img.inodes[i].magic != MagicOther
  {
    hide BlocksInv, FilesInv, LinksInv, CallsInv, MetInv, FlagInv;
  }

  lemma NoBadEntry(img: Image, c: Checked, w: Checked, listed: seq<nat>, s: Site)
    requires CheckerInv(img, c, {}) && OnTop(c, listed) && Accepted(img, w, listed)
    requires s.0 == 0 ==> s.1 == 0 || s.1 in listed
    ensures !BadEntry(img, c, s)
  {
    if BadEntry(img, c, s) {
      CallsWithin(img, c, w, listed, s);
      IsInv(img, w, listed);
      var i := Target(img, s);
      NotOther(img, w, i);
      MetFacts(img, c, i);
      MetWithin(img, c, w, listed, i);
      if s.0 == 0 {
        assert s == (0, s.1);
        TopFollowed(img, w, listed, s.1);
      } else {
        NameIsFirst(img, w, s);
      }
      assert false;
    }
  }

  lemma NoBadRecord(img: Image, c: Checked, w: Checked, listed: seq<nat>, d: nat, offs: seq<nat>)
    requires CheckerInv(img, c, {}) && OnTop(c, listed) && Accepted(img, w, listed)
    ensures !BadRecord(img, c, d, offs)
  {
    if BadRecord(img, c, d, offs) {
      MetWithin(img, c, w, listed, d);
      MetFacts(img, c, d);
      hide CheckerInv;
      ChainOfDir(img, w, listed, d);
      hide Accepted;
      RestReadable(img.inodes[d].contents, w.visits[d].offs, offs, MayEnd(img, d, ParentDir(w, d)));
      assert false;
    }
  }

  /** A chain that is not the whole one goes on with a record that can be read. */
  lemma RestReadable(c: Contents, all: seq<nat>, offs: seq<nat>, unlinked: bool)
    requires ChainOf(c, all, unlinked) && Chained(c, offs)
    ensures ChainOf(c, offs, unlinked) || (NextOff(c, offs) >= 0 && Readable(c, NextOff(c, offs)))
  {
    hide Readable;
    WholeChain(c, all, offs, unlinked);
    if |offs| == |all| {
      assert offs == all;
    } else {
      var n := |offs|;
      assert offs == all[..n];
      if n > 0 {
        assert Follows(c, all, n);
      }
      assert NextOff(c, offs) == all[n] && Readable(c, all[n]);
    }
  }

  lemma RootDirKnown(img: Image, w: Checked)
    requires UsedDir(img, w, 1)
    ensures IsDir(img, 1)
  {
  }

  lemma NotStopped(img: Image, c: Checked, w: Checked, listed: seq<nat>, s: Site)
    requires OnTop(c, listed) && Accepted(img, w, listed) && (s.0 == 0 && (s.1 == 0 || s.1 in listed))
    ensures !Stopped(img, c, s)
  {
    hide BadEntry, BadRecord, Accepted, CheckerInv, OnTop, IsDir;
    RootIsMet(img, w, listed);
    RootDirKnown(img, w);
    if Stopped(img, c, s) {
      NoBadEntry(img, c, w, listed, s);
      forall r: Site ensures r.0 != 0 ==> !BadEntry(img, c, r) {
        if r.0 != 0 {
          NoBadEntry(img, c, w, listed, r);
        }
      }
      forall d, offs ensures !BadRecord(img, c, d, offs) {
        NoBadRecord(img, c, w, listed, d, offs);
      }
    }
  }

  // ---------------------------------------------------------------------------
  // The list is followed to its end

  /** The members so far are the first ones. */
  lemma {:induction false} ListIsPrefix(img: Image, members: seq<nat>, last: nat, next: nat, listed: seq<nat>, n: nat)
    requires ListSoFar(img, members, last, next) && List.ListOf(ListState(img), listed) && n <= |members|
    ensures n <= |listed| && members[..n] == listed[..n]
  {
    hide ListSoFar, List.ListOf, ListState;
    if n > 0 {
      ListIsPrefix(img, members, last, next, listed, n - 1);
      NextListed(img, members, last, next, listed, n - 1);
    }
  }

  lemma NextListed(img: Image, members: seq<nat>, last: nat, next: nat, listed: seq<nat>, n: nat)
    requires ListSoFar(img, members, last, next) && List.ListOf(ListState(img), listed)
    requires n < |members| && n <= |listed| && members[..n] == listed[..n]
    ensures n < |listed| && members[n] == listed[n]
  {
    assert members[n] in members && members[n] != 0;
    if n == 0 {
      assert ListState(img).head == members[0];
    } else {
      assert members[n - 1] == members[..n][n - 1] == listed[n - 1];
      assert LinkedAt(img, members, n - 1);
      assert ListState(img).inodes[listed[n - 1]] == List.Links(List.Before(listed, n - 1), List.After(listed, n - 1));
    }
  }

  /** And what comes next is what comes next in the list. */
  lemma NextIs(img: Image, members: seq<nat>, last: nat, next: nat, listed: seq<nat>)
    requires ListSoFar(img, members, last, next) && List.ListOf(ListState(img), listed)
    ensures |members| <= |listed| && members == listed[..|members|] && last == List.Before(listed, |members|)
    ensures next == if |members| < |listed| then listed[|members|] else 0
  {
    var n := |members|;
    ListIsPrefix(img, members, last, next, listed, n);
    assert members[..n] == members;
    if n > 0 {
      assert members[n - 1] == listed[n - 1] && members[n - 1] in members;
      assert ListState(img).inodes[listed[n - 1]] == List.Links(List.Before(listed, n - 1), List.After(listed, n - 1));
    }
  }

  lemma NoListFault(img: Image, c: Checked, members: seq<nat>, w: Checked, listed: seq<nat>)
    requires Accepted(img, w, listed)
    ensures !ListFault(img, c, members)
  {
    IsListed(img, w, listed);
    hide Stopped, ListSoFar, LinkedAt, ListState, List.ListOf;
    forall last, next ensures !(ListSoFar(img, members, last, next) &&
                                (if next == 0 then img.tail != last else MemberRefused(img, c, members, last, next)))
    {
      if ListSoFar(img, members, last, next) {
        NextIs(img, members, last, next, listed);
        NextIsFine(img, c, members, last, next, w, listed);
      }
    }
  }

  lemma IsListed(img: Image, w: Checked, listed: seq<nat>)
    requires Accepted(img, w, listed)
    ensures List.ListOf(ListState(img), listed)
  {
    hide Settled, List.ListOf, ListState;
  }

  lemma NextIsFine(img: Image, c: Checked, members: seq<nat>, last: nat, next: nat, w: Checked, listed: seq<nat>)
    requires Accepted(img, w, listed) && List.ListOf(ListState(img), listed)
    requires |members| <= |listed| && members == listed[..|members|] && last == List.Before(listed, |members|)
    requires next == if |members| < |listed| then listed[|members|] else 0
    ensures if next == 0 then img.tail == last else !MemberRefused(img, c, members, last, next)
  {
    hide Accepted, CheckerInv, ListState, List.ListOf, Stopped, InUse;
    var n := |members|;
    TailIsLast(img, listed);
    if n < |listed| {
      ListedMember(img, w, listed, n);
      IsInv(img, w, listed);
      NotOther(img, w, next);
      if Tops(c.calls) <= SetOf(members) + {0, next} {
        forall k | (0, k) in c.calls ensures k == 0 || k in listed {
          assert k in Tops(c.calls);
          assert k in members ==> k in listed;
        }
        NotStopped(img, c, w, listed, (0, next));
      }
    }
  }

  lemma TailIsLast(img: Image, listed: seq<nat>)
    requires List.ListOf(ListState(img), listed)
    ensures img.tail == List.Before(listed, |listed|) && 0 !in listed
  {
  }

  lemma ListedMember(img: Image, w: Checked, listed: seq<nat>, n: nat)
    requires Accepted(img, w, listed) && List.ListOf(ListState(img), listed) && n < |listed|
    ensures var k := listed[n];
            && k in listed && 0 < k < |img.inodes| && InUse(w, k) && img.inodes[k].links == 0
            && img.inodes[k].last == List.Before(listed, n)
  {
    hide CheckerInv, Complete;
    assert listed[n] in listed;
    assert MemberMet(img, w, listed[n]);
  }

  // ---------------------------------------------------------------------------
  // The findings are the same

  lemma {:induction false} MetBack(img: Image, c: Checked, w: Checked, listed: seq<nat>, i: nat)
    requires Settled(img, c, listed) && Accepted(img, w, listed) && i in w.met
    ensures i in c.inodes
    decreases w.met[i].rank
  {
    IsInv(img, w, listed);
    MetFacts(img, w, i);
    var s := w.met[i].site;
    if s.0 == 0 {
      assert s == (0, s.1);
      TopBack(img, c, w, listed, s.1);
    } else {
      CallFacts(img, w, s);
      MetFacts(img, w, s.0);
      MetBack(img, c, w, listed, s.0);
      RecordBack(img, c, listed, s);
    }
  }

  lemma TopBack(img: Image, c: Checked, w: Checked, listed: seq<nat>, k: nat)
    requires Settled(img, c, listed) && Accepted(img, w, listed) && (0, k) in w.calls
    ensures (0, k) in c.calls && Target(img, (0, k)) in c.inodes && (k == 0 || k in listed)
  {
    hide CheckerInv, Complete, MemberMet;
    assert (0, k) in c.calls;
    SettledInv(img, c, listed);
    CallFacts(img, c, (0, k));
  }

  lemma SettledInv(img: Image, c: Checked, listed: seq<nat>)
    requires Settled(img, c, listed)
    ensures CheckerInv(img, c, {}) && OnTop(c, listed)
  {
    hide CheckerInv, Complete, MemberMet;
  }

  /** A record that is reached in a directory that is done with has been followed. */
  lemma RecordBack(img: Image, c: Checked, listed: seq<nat>, s: Site)
    requires Settled(img, c, listed) && OnChain(img, s) && InUse(c, s.0)
    ensures s in c.calls && Target(img, s) in c.inodes
  {
    DoneWith(img, c, listed, s.0);
    SettledInv(img, c, listed);
    hide Settled;
    var contents, all := img.inodes[s.0].contents, c.visits[s.0].offs;
    var offs :| Chained(contents, offs) && s.1 in offs;
    hide Readable, Chained, RecordAt;
    WholeChain(contents, all, offs, MayEnd(img, s.0, c.visits[s.0].parent));
    assert s.1 in all;
    assert s == (s.0, s.1) && s in SitesOf(img, s.0, all);
    CallFacts(img, c, s);
  }

  lemma DoneWith(img: Image, c: Checked, listed: seq<nat>, d: nat)
    requires Settled(img, c, listed) && InUse(c, d) && IsDir(img, d)
    ensures d in c.visits && ChainOf(img.inodes[d].contents, c.visits[d].offs, MayEnd(img, d, c.visits[d].parent))
    ensures forall off :: (d, off) in c.calls <==> (d, off) in SitesOf(img, d, c.visits[d].offs)
  {
    hide CheckerInv, MemberMet, DirSound, ChainOf, SitesOf;
    assert Complete(img, c, d);
  }

  lemma SameWalk(img: Image, c: Checked, w: Checked, listed: seq<nat>)
    requires Settled(img, c, listed) && Accepted(img, w, listed)
    ensures c.calls == w.calls && c.inodes - {0} == w.inodes - {0}
    ensures forall i :: i in c.met ==> Within(img, c, w, i)
  {
    hide Accepted, Settled, CheckerInv, MetBefore, OnChain, Target;
    SettledInv(img, c, listed);
    IsInv(img, w, listed);
    forall i | i in c.met ensures Within(img, c, w, i) {
      MetWithin(img, c, w, listed, i);
    }
    forall i ensures i in c.inodes - {0} <==> i in w.inodes - {0} {
      MetFacts(img, c, i);
      MetFacts(img, w, i);
      if i in w.met {
        MetBack(img, c, w, listed, i);
      }
    }
    forall s ensures s in c.calls <==> s in w.calls {
      if s in c.calls {
        CallsWithin(img, c, w, listed, s);
      }
      if s in w.calls {
        CallFacts(img, w, s);
        if s.0 == 0 {
          assert s == (0, s.1);
          TopBack(img, c, w, listed, s.1);
        } else {
          assert s.0 in w.inodes - {0};
          RecordBack(img, c, listed, s);
        }
      }
    }
  }

  lemma SameOwners(img: Image, c: Checked, w: Checked)
    requires CheckerInv(img, c, {}) && CheckerInv(img, w, {}) && c.inodes - {0} == w.inodes - {0}
    ensures c.owners == w.owners
  {
    hide CheckerInv, BlockAt;
    forall o ensures (o in c.owners <==> o in w.owners) && (o in c.owners ==> c.owners[o] == w.owners[o]) {
      OwnersAre(img, c, o);
      OwnersAre(img, w, o);
      assert InUse(c, o.ino) <==> o.ino in c.inodes - {0};
      assert InUse(w, o.ino) <==> o.ino in w.inodes - {0};
    }
  }

  /** None of the inodes met has a blemish, so the flag was not lowered. */
  lemma StillConforming(img: Image, c: Checked, w: Checked, listed: seq<nat>)
    requires Settled(img, c, listed) && Accepted(img, w, listed)
    ensures c.conforming && !Blemish(img, c)
  {
    hide Accepted, Settled, CheckerInv, Within;
    SettledInv(img, c, listed);
    IsInv(img, w, listed);
    SameWalk(img, c, w, listed);
    SameOwners(img, c, w);
    AcceptedIsUnblemished(img, w, listed);
    hide BlemishAt;
    forall i | i in c.inodes ensures !BlemishAt(img, c, i) {
      MetFacts(img, c, i);
      SameBlemish(img, c, w, i);
    }
    FlagFact(img, c);
  }

  lemma SameBlemish(img: Image, c: Checked, w: Checked, i: nat)
    requires CheckerInv(img, c, {}) && CheckerInv(img, w, {}) && i in c.inodes && c.inodes - {0} == w.inodes - {0}
    requires i in c.met ==> Within(img, c, w, i)
    requires !Blemish(img, w)
    ensures !BlemishAt(img, c, i)
  {
    MetFacts(img, c, i);
    MetFacts(img, w, i);
    hide CheckerInv, InodeSound, DirBlemish, IsDir, Fresh;
    assert i != 0 ==> i in w.inodes - {0} && !BlemishAt(img, w, i);
  }

  lemma FlagFact(img: Image, c: Checked)
    requires CheckerInv(img, c, {})
    ensures c.conforming || Blemish(img, c)
  {
    hide InodesInv, BlocksInv, FilesInv, LinksInv, CallsInv, MetInv, Blemish;
  }

  /** The counts and the marks are those of w. */
  lemma SameCounts(img: Image, c: Checked, w: Checked, listed: seq<nat>)
    requires Settled(img, c, listed) && Accepted(img, w, listed)
    ensures c.inodes == w.inodes && c.blocks == w.blocks && c.allocBlocks == w.allocBlocks && c.allocInodes == w.allocInodes
  {
    hide Accepted, Settled, CheckerInv, Within, Blemish, ValidValues;
    SettledInv(img, c, listed);
    IsInv(img, w, listed);
    SameWalk(img, c, w, listed);
    SameOwners(img, c, w);
    StillConforming(img, c, w, listed);
    IsConforming(img, w, listed);
    CountFacts(img, c);
    CountFacts(img, w);
    assert c.inodes == (c.inodes - {0}) + {0} && w.inodes == (w.inodes - {0}) + {0};
  }

  lemma IsConforming(img: Image, w: Checked, listed: seq<nat>)
    requires Accepted(img, w, listed)
    ensures w.conforming
  {
    hide Settled;
  }

  lemma CountFacts(img: Image, c: Checked)
    requires CheckerInv(img, c, {}) && c.conforming
    ensures 0 in c.inodes && c.blocks == {0} + ValidValues(img, c.owners) && c.allocBlocks == |c.blocks| && c.allocInodes == |c.inodes|
  {
    hide FilesInv, LinksInv, CallsInv, MetInv, FlagInv, Fresh, ValidValues;
  }

  // ---------------------------------------------------------------------------
  // The tallies of unlinked inodes

  /** Since the root had been done with, no entry has been followed: only members of the list were turned to. */
  ghost predicate Quiet(a: Checked, c: Checked) {
    forall s :: s in c.calls && s !in a.calls ==> s.0 == 0
  }

  /** From a, when the root had been done with, to c, when the members had been turned to. */
  ghost predicate Tallied(img: Image, a: Checked, c: Checked, members: seq<nat>) {
    && a.calls <= c.calls && a.inodes <= c.inodes
    && (forall s :: s in c.calls ==> s in a.calls || s.0 == 0 || s.0 !in a.inodes)
    && (Quiet(a, c) ==> forall k :: k in members ==> k in c.unlinked && c.unlinked[k] == -1 - |CallsTo(img, a.calls, k)|)
  }

  lemma NothingTallied(img: Image, a: Checked)
    ensures Tallied(img, a, a, [])
  {
  }

  lemma OneTallied(img: Image, a: Checked, c: Checked, b: Checked, members: seq<nat>, ino: nat)
    requires Tallied(img, a, c, members) && Settled(img, a, []) && Settled(img, c, members) && ino !in members
    requires 0 < ino < |img.inodes| == |c.links| && img.inodes[ino].links == 0
    requires Grown(img, Overwritten(img, c, ino), b, {(0, ino)})
    ensures Tallied(img, a, b, members + [ino])
  {
    hide Settled, Grown, CallsTo, Quiet;
    var o := Overwritten(img, c, ino);
    GrownCalls(img, o, b, {(0, ino)});
    LaterQuiet(a, c, b);
    if Quiet(a, b) {
      TurnedTo(img, c, members, ino);
      QuietCalls(img, a, c, members, ino);
      forall k | k in members + [ino] ensures k in b.unlinked && b.unlinked[k] == -1 - |CallsTo(img, a.calls, k)| {
        assert k != ino ==> k in members;
      }
    }
  }

  lemma LaterQuiet(a: Checked, c: Checked, b: Checked)
    requires c.calls <= b.calls
    ensures Quiet(a, b) ==> Quiet(a, c)
  {
  }

  lemma TurnedTo(img: Image, c: Checked, members: seq<nat>, ino: nat)
    requires Settled(img, c, members) && 0 < ino < |img.inodes| == |c.links| && img.inodes[ino].links == 0
    ensures Overwritten(img, c, ino).unlinked == c.unlinked[ino := -1 - |CallsTo(img, c.calls, ino)|]
  {
    hide Settled, CallsTo;
  }

  lemma GrownCalls(img: Image, a: Checked, b: Checked, own: set<Site>)
    requires Grown(img, a, b, own)
    ensures a.calls <= b.calls && a.inodes <= b.inodes && b.unlinked == a.unlinked
    ensures forall s :: s in b.calls ==> s in a.calls || s in own || s.0 in b.inodes - a.inodes
  {
    hide Complete;
  }

  /** While it is quiet an inode not yet turned to has been called by no more entries. */
  lemma QuietCalls(img: Image, a: Checked, c: Checked, members: seq<nat>, ino: nat)
    requires a.calls <= c.calls && Quiet(a, c) && Settled(img, c, members) && Settled(img, a, []) && ino !in members && ino != 0
    ensures CallsTo(img, c.calls, ino) == CallsTo(img, a.calls, ino)
  {
    hide CheckerInv, Complete, MemberMet;
    forall s | s in CallsTo(img, c.calls, ino) ensures s in a.calls {
      assert s in a.calls || s == (0, s.1);
    }
  }

  /** A directory with an entry had been met before the list was followed. */
  lemma {:induction false} EarlyDirectory(img: Image, a: Checked, c: Checked, w: Checked, listed: seq<nat>, s: Site)
    requires Settled(img, a, []) && Settled(img, c, listed) && Accepted(img, w, listed) && Tallied(img, a, c, listed)
    requires s in c.calls && s.0 != 0 && s.0 in c.met
    ensures s.0 in a.inodes
    decreases c.met[s.0].rank
  {
    hide Accepted, Settled, CheckerInv, Tallied, Entry, Target, OnChain;
    SettledInv(img, c, listed);
    SettledInv(img, a, []);
    SameWalk(img, c, w, listed);
    var d := s.0;
    MetFacts(img, c, d);
    CallFacts(img, c, s);
    ChainIsDir(img, s);
    EntriesFollowed(img, w, listed, s);
    NotListed(img, w, listed, s);
    if d == 1 {
      RootEarly(img, a);
    } else {
      DirectoryHasOneName(img, w, listed, d);
      var r := w.met[d].site;
      EntriesFollowed(img, w, listed, r);
      SameSite(img, c, w, d);
      MetFacts(img, c, r.0);
      RankOf(img, c, d);
      EarlyDirectory(img, a, c, w, listed, r);
      EarlyCall(img, a, c, listed, r);
      CallFacts(img, a, r);
    }
  }

  lemma ChainIsDir(img: Image, s: Site)
    requires OnChain(img, s)
    ensures IsDir(img, s.0)
  {
  }

  lemma SameSite(img: Image, c: Checked, w: Checked, d: nat)
    requires d in c.met && Within(img, c, w, d) && IsDir(img, d)
    ensures d in w.met && w.met[d].site == c.met[d].site
  {
  }

  lemma RankOf(img: Image, c: Checked, d: nat)
    requires d in c.met && MetBefore(img, c, d)
    ensures c.met[d].site.0 != 0 ==> c.met[d].site.0 in c.met && c.met[c.met[d].site.0].rank < c.met[d].rank
  {
  }

  lemma EarlyCall(img: Image, a: Checked, c: Checked, members: seq<nat>, s: Site)
    requires Tallied(img, a, c, members) && s in c.calls && s.0 != 0 && s.0 in a.inodes
    ensures s in a.calls
  {
    hide CallsTo, Quiet;
  }

  lemma RootEarly(img: Image, a: Checked)
    requires Settled(img, a, [])
    ensures 1 in a.inodes
  {
    hide Complete, MemberMet, InodesInv, BlocksInv, FilesInv, LinksInv, CallsInv, FlagInv;
  }

  /** A directory on the list has no entries. */
  lemma NotListed(img: Image, w: Checked, listed: seq<nat>, s: Site)
    requires Accepted(img, w, listed) && Entry(img, w, s)
    ensures UsedDir(img, w, s.0) && s.0 !in listed
  {
    hide Accepted, SitesOf;
    InSites(img, w, s);
    if s.0 in listed {
      ListedHasNoLinks(img, w, listed, s.0);
      DirFacts(img, w, listed, s.0);
    }
  }

  lemma InSites(img: Image, w: Checked, s: Site)
    requires Entry(img, w, s)
    ensures s in SitesOf(img, s.0, w.visits[s.0].offs)
  {
    assert s == (s.0, s.1);
  }

  lemma ListedHasNoLinks(img: Image, w: Checked, listed: seq<nat>, k: nat)
    requires Accepted(img, w, listed) && k in listed
    ensures k < |img.inodes| && img.inodes[k].links == 0
  {
    hide CheckerInv, Complete;
    assert MemberMet(img, w, k);
  }

  lemma IsQuiet(img: Image, a: Checked, c: Checked, w: Checked, listed: seq<nat>)
    requires Settled(img, a, []) && Settled(img, c, listed) && Accepted(img, w, listed) && Tallied(img, a, c, listed)
    ensures Quiet(a, c)
  {
    hide Accepted, Settled, CheckerInv, Tallied, Target, OnChain;
    SettledInv(img, c, listed);
    forall s | s in c.calls && s !in a.calls ensures s.0 == 0 {
      if s.0 != 0 {
        CallFacts(img, c, s);
        MetFacts(img, c, s.0);
        EarlyDirectory(img, a, c, w, listed, s);
        EarlyCall(img, a, c, listed, s);
      }
    }
  }

  /** So the tally of a member comes out even. */
  lemma MemberIsEven(img: Image, a: Checked, c: Checked, w: Checked, listed: seq<nat>, k: nat)
    requires Settled(img, a, []) && Settled(img, c, listed) && Accepted(img, w, listed) && Tallied(img, a, c, listed)
    requires k in listed
    ensures 0 < k < |img.inodes| == |c.links| && c.links[k - 1] == 0
  {
    hide Accepted, CheckerInv, Complete;
    IsQuiet(img, a, c, w, listed);
    assert MemberMet(img, c, k);
    MemberCalls(img, a, c, listed, k);
    TallyOf(img, c, k);
  }

  lemma MemberCalls(img: Image, a: Checked, c: Checked, members: seq<nat>, k: nat)
    requires a.calls <= c.calls && Quiet(a, c) && Settled(img, c, members) && Settled(img, a, []) && k in members && k != 0
    ensures |CallsTo(img, c.calls, k)| == |CallsTo(img, a.calls, k)| + 1
  {
    hide CheckerInv, Complete, MemberMet;
    forall s ensures s in CallsTo(img, c.calls, k) <==> s in CallsTo(img, a.calls, k) || s == (0, k) {
      assert s.0 == 0 ==> s == (0, s.1);
    }
    assert CallsTo(img, c.calls, k) == CallsTo(img, a.calls, k) + {(0, k)};
    assert (0, k) !in a.calls;
  }

  lemma TallyOf(img: Image, c: Checked, i: nat)
    requires CheckerInv(img, c, {}) && 0 < i < |img.inodes|
    ensures |c.links| == |img.inodes| && (|c.links| > 1 ==> c.links[|c.links| - 1] == 0)
    ensures c.links[i - 1] == Offset(c, i) + |CallsTo(img, c.calls, i)| - (if i in c.inodes then img.inodes[i].links else 0)
  {
    hide InodesInv, BlocksInv, FilesInv, CallsInv, MetInv, FlagInv, CallsTo;
  }

  /** And that of every other inode is the one of w. */
  lemma AllEven(img: Image, a: Checked, c: Checked, w: Checked, listed: seq<nat>)
    requires Settled(img, a, []) && Settled(img, c, listed) && Accepted(img, w, listed) && Tallied(img, a, c, listed)
    ensures forall n :: 0 <= n < |c.links| ==> c.links[n] == 0
  {
    hide Accepted, Settled, CheckerInv, Tallied, CallsTo, Offset;
    SettledInv(img, c, listed);
    IsInv(img, w, listed);
    RootIsMet(img, w, listed);
    RootDirKnown(img, w);
    TallyOf(img, c, 1);
    forall n | 0 <= n < |c.links| ensures c.links[n] == 0 {
      if n + 1 < |img.inodes| {
        if n + 1 in listed {
          MemberIsEven(img, a, c, w, listed, n + 1);
        } else {
          TallyOf(img, c, n + 1);
          TallyOf(img, w, n + 1);
          SameTally(img, c, w, listed, n + 1);
        }
      }
    }
  }

  lemma SameTally(img: Image, c: Checked, w: Checked, listed: seq<nat>, i: nat)
    requires Settled(img, c, listed) && Accepted(img, w, listed) && i !in listed && 0 < i < |img.inodes| && |w.links| == |img.inodes|
    ensures Offset(c, i) == Offset(w, i) && c.calls == w.calls && (i in c.inodes <==> i in w.inodes) && w.links[i - 1] == 0
  {
    SameWalk(img, c, w, listed);
    assert i in c.inodes - {0} <==> i in w.inodes - {0};
    hide CheckerInv, Complete, MemberMet;
    assert i !in c.unlinked.Keys && i !in w.unlinked.Keys;
  }

  // ---------------------------------------------------------------------------
  // The verdict

  /** With the same findings nothing is left to find fault with. */
  lemma NothingWrong(img: Image, a: Checked, c: Checked, members: seq<nat>, w: Checked, listed: seq<nat>)
    requires Accepted(img, w, listed)
    requires Settled(img, a, []) && Settled(img, c, members) && List.ListOf(ListState(img), members) && Tallied(img, a, c, members)
    ensures Accepted(img, c, members)
  {
    hide Accepted, Settled, Blemish, List.ListOf, ListState, Tallied;
    IsListed(img, w, listed);
    List.ListUnique(ListState(img), members, listed);
    StillConforming(img, c, w, listed);
    SameCounts(img, c, w, listed);
    AllEven(img, a, c, w, listed);
    FindingsAccepted(img, c, members, w);
  }

  lemma FindingsAccepted(img: Image, c: Checked, members: seq<nat>, w: Checked)
    requires Accepted(img, w, members) && Settled(img, c, members) && c.conforming && (forall n :: 0 <= n < |c.links| ==> c.links[n] == 0)
    requires c.inodes == w.inodes && c.blocks == w.blocks && c.allocBlocks == w.allocBlocks && c.allocInodes == w.allocInodes
    ensures Accepted(img, c, members)
  {
    hide Settled, List.ListOf, ListState;
  }

  /** There are findings that amount to acceptance. */
  ghost predicate Acceptable(img: Image) {
    exists found, listed :: Accepted(img, found, listed)
  }

  lemma IsAcceptable(img: Image, c: Checked, members: seq<nat>)
    requires Accepted(img, c, members)
    ensures Acceptable(img)
  {
    hide Accepted;
  }

  /** On an acceptable image the walk does not stop at the root. */
  lemma RootStopped(img: Image, a: Checked, c: Checked)
    requires a.calls == {} && Stopped(img, c, (0, 0)) && Tops(c.calls) <= Tops(a.calls) + {0}
    ensures !Acceptable(img)
  {
    hide Accepted, Stopped;
    forall k | (0, k) in c.calls ensures k == 0 {
      assert k in Tops(c.calls);
    }
    if w, listed :| Accepted(img, w, listed) {
      NotStopped(img, c, w, listed, (0, 0));
    }
  }

  lemma ListStopped(img: Image, c: Checked, members: seq<nat>)
    requires ListFault(img, c, members)
    ensures !Acceptable(img)
  {
    hide Accepted, ListFault;
    if w, listed :| Accepted(img, w, listed) {
      NoListFault(img, c, members, w, listed);
    }
  }

  lemma AcceptableIsAccepted(img: Image, a: Checked, c: Checked, members: seq<nat>)
    requires Settled(img, a, []) && Settled(img, c, members) && List.ListOf(ListState(img), members) && Tallied(img, a, c, members)
    ensures Acceptable(img) ==> Accepted(img, c, members)
  {
    hide Accepted, Settled, Tallied, List.ListOf, ListState;
    if w, listed :| Accepted(img, w, listed) {
      NothingWrong(img, a, c, members, w, listed);
    }
  }
}
