/**
 The checker and the namespace agree: from an accepted image one reads a consistent tree of
 directories, with the link and entry counts that creating, linking, renaming and unlinking keep.
 */
module FsckNamespace {
  import opened Sets
  import opened DirectoryRecords
  import opened FsckSpec
  import opened FsckAccepts
  import opened NamespaceSpec

  ghost function NameAt(img: Image, s: Site): string
    requires s.0 < |img.inodes|
  {
    RecordAt(img.inodes[s.0].contents, s.1).name
  }

  /** A live record under an ordinary name. */
  ghost predicate Named(img: Image, c: Checked, s: Site) {
    Entry(img, c, s) && NamedSite(img, s)
  }

  ghost function NamedEntries(img: Image, c: Checked): set<Site> {
    set s | s in c.calls && Named(img, c, s)
  }

  ghost function Key(img: Image, s: Site): (nat, string) {
    (s.0, if s.0 < |img.inodes| then NameAt(img, s) else "")
  }

  /** No directory has two records under one ordinary name. The checker does not look for this. */
  ghost predicate DistinctNames(img: Image, c: Checked) {
    forall s, r :: Named(img, c, s) && Named(img, c, r) && Key(img, s) == Key(img, r) ==> s == r
  }

  /** No name is left to an inode on the unlinked list. The checker cannot tell, having lost the tally. */
  ghost predicate UnlinkedHaveNoNames(img: Image, c: Checked, members: seq<nat>) {
    forall s :: Named(img, c, s) ==> Target(img, s) !in members
  }

  ghost function KeysOf(img: Image, c: Checked): set<(nat, string)> {
    set s | s in NamedEntries(img, c) :: Key(img, s)
  }

  ghost function SiteOf(img: Image, c: Checked, e: (nat, string)): (s: Site)
    requires e in KeysOf(img, c)
    ensures s in NamedEntries(img, c) && Key(img, s) == e
  {
    var s :| s in NamedEntries(img, c) && Key(img, s) == e;
    s
  }

  ghost function EntriesOf(img: Image, c: Checked): Entries {
    map e | e in KeysOf(img, c) :: Target(img, SiteOf(img, c, e))
  }

  ghost function NodeOf(img: Image, c: Checked, i: nat): Node
    requires i in c.met && i < |img.inodes|
  {
    var inode := img.inodes[i];
    Node(if IsDir(img, i) then DirKind else FileKind, inode.links, inode.dirents, ParentDir(c, i))
  }

  ghost function FsOf(img: Image, c: Checked, members: seq<nat>): Fs
  {
    Fs(map i | i in c.met && i < |img.inodes| && i !in members :: NodeOf(img, c, i), EntriesOf(img, c))
  }

  ghost function ShapeOf(img: Image, c: Checked): Shape {
    Shape(map i | i in c.met :: c.met[i].rank, map i | i in c.met :: Key(img, c.met[i].site).1)
  }

  /** What the lemmas below assume: an accepted image with a linked root, and the two things the checker does not see to. */
  ghost predicate Premise(img: Image, c: Checked, members: seq<nat>) {
    && Accepted(img, c, members) && 1 < |img.inodes| && img.inodes[1].links > 0
    && DistinctNames(img, c) && UnlinkedHaveNoNames(img, c, members)
  }

  // ---------------------------------------------------------------------------
  // Entries

  ghost predicate MetIsInUse(img: Image, c: Checked) {
    forall i: nat :: (i in c.met <==> InUse(c, i)) && (InUse(c, i) ==> i < |img.inodes|)
  }

  lemma Facts(img: Image, c: Checked, members: seq<nat>)
    requires Accepted(img, c, members)
    ensures MetIsInUse(img, c)
  {
    hide BlocksInv, FilesInv, LinksInv, CallsInv, Complete, MemberMet, MetBefore;
  }

  lemma EntryFacts(img: Image, c: Checked, members: seq<nat>, s: Site)
    requires Accepted(img, c, members) && Entry(img, c, s)
    ensures s in c.calls && UsedDir(img, c, s.0) && s.0 !in members && InUse(c, Target(img, s))
    ensures s.0 in c.visits && s in SitesOf(img, s.0, c.visits[s.0].offs)
  {
    Facts(img, c, members);
    EntriesFollowed(img, c, members, s);
    hide Accepted;
    DirFacts(img, c, members, s.0);
    assert s == (s.0, s.1);
    assert s in SitesOf(img, s.0, c.visits[s.0].offs);
    if s.0 in members {
      NoLinksNoEntries(img, c, members, s.0);
    }
  }

  /** A directory without links is empty. */
  lemma NoLinksNoEntries(img: Image, c: Checked, members: seq<nat>, d: nat)
    requires Accepted(img, c, members) && UsedDir(img, c, d) && (d in members || img.inodes[d].links == 0)
    ensures d in c.visits && SitesOf(img, d, c.visits[d].offs) == {}
  {
    MemberLinks(img, c, members, d);
    hide Accepted, SitesOf;
    DirFacts(img, c, members, d);
  }

  lemma MemberLinks(img: Image, c: Checked, members: seq<nat>, k: nat)
    requires Accepted(img, c, members)
    ensures k in members ==> k < |img.inodes| && img.inodes[k].links == 0
  {
    hide CheckerInv, Complete;
    if k in members {
      assert MemberMet(img, c, k);
    }
  }

  /** The checker also accepts a root without links, but exactly when the root is empty. */
  lemma RootLinkedUnlessEmpty(img: Image, c: Checked, members: seq<nat>)
    requires Accepted(img, c, members)
    ensures 1 < |img.inodes| && 1 in c.visits
    ensures img.inodes[1].links == 0 <==> SitesOf(img, 1, c.visits[1].offs) == {}
  {
    RootIsMet(img, c, members);
    hide Accepted;
    DirFacts(img, c, members, 1);
    if img.inodes[1].links == 0 {
      NoLinksNoEntries(img, c, members, 1);
    } else {
      var off :| off in c.visits[1].offs && LiveNamed(img, 1, off, ".");
      assert (1, off) in SitesOf(img, 1, c.visits[1].offs);
    }
  }

  /** What an entry named "." or ".." leads to. */
  lemma DotsLead(img: Image, c: Checked, members: seq<nat>, s: Site)
    requires Accepted(img, c, members) && Entry(img, c, s) && !NamedSite(img, s)
    ensures s.0 in c.met && s.0 < |img.inodes|
    ensures NameAt(img, s) == "." ==> Target(img, s) == s.0
    ensures NameAt(img, s) == ".." ==> Target(img, s) == ParentDir(c, s.0)
    ensures NameAt(img, s) == "." || NameAt(img, s) == ".."
  {
    EntryFacts(img, c, members, s);
    hide Accepted, SitesOf;
    DirFacts(img, c, members, s.0);
    assert LiveNamed(img, s.0, s.1, NameAt(img, s));
  }

  lemma LinkedTargets(img: Image, c: Checked, members: seq<nat>, s: Site)
    requires Premise(img, c, members) && Entry(img, c, s)
    ensures var i := Target(img, s); i < |img.inodes| && (i !in members ==> img.inodes[i].links > 0)
  {
    hide Accepted, Entry, Target;
    EntryFacts(img, c, members, s);
    Facts(img, c, members);
    var i := Target(img, s);
    if i !in members {
      LinkCountExact(img, c, members, i);
      assert s in EntriesTo(img, c, i);
    }
  }

  /** A directory in use has links unless it is on the unlinked list. */
  lemma LinkedDirs(img: Image, c: Checked, members: seq<nat>, d: nat)
    requires Premise(img, c, members) && UsedDir(img, c, d) && d !in members
    ensures d < |img.inodes| && img.inodes[d].links > 0
  {
    hide Accepted, Entry, Target;
    Facts(img, c, members);
    if d != 1 {
      DirectoryHasOneName(img, c, members, d);
      LinkedTargets(img, c, members, c.met[d].site);
    }
  }

  lemma InEntries(img: Image, c: Checked, members: seq<nat>, s: Site)
    requires Premise(img, c, members) && Named(img, c, s)
    ensures Key(img, s) in EntriesOf(img, c) && EntriesOf(img, c)[Key(img, s)] == Target(img, s) && s in NamedEntries(img, c)
  {
    hide Accepted, Target, Key, Entry, NamedSite;
    EntryFacts(img, c, members, s);
    assert s in NamedEntries(img, c);
    assert Key(img, s) in KeysOf(img, c);
    assert SiteOf(img, c, Key(img, s)) == s;
  }

  lemma OutOfEntries(img: Image, c: Checked, e: (nat, string)) returns (s: Site)
    requires e in EntriesOf(img, c)
    ensures Named(img, c, s) && Key(img, s) == e && Target(img, s) == EntriesOf(img, c)[e]
  {
    hide Target, Key, Named;
    s := SiteOf(img, c, e);
  }

  // ---------------------------------------------------------------------------
  // Rooted, Bound, OneParent, Ranked

  lemma NodesAre(img: Image, c: Checked, members: seq<nat>, i: nat)
    requires Accepted(img, c, members)
    ensures var fs := FsOf(img, c, members);
            && (i in fs.nodes <==> InUse(c, i) && i !in members)
            && (i in fs.nodes ==> i in c.met && i < |img.inodes| && fs.nodes[i] == NodeOf(img, c, i))
            && (i in DirSet(fs) <==> UsedDir(img, c, i) && i !in members)
  {
    hide Accepted, EntriesOf, IsDir;
    Facts(img, c, members);
  }

  lemma NodesOf(img: Image, c: Checked, members: seq<nat>, i: nat)
    requires Premise(img, c, members)
    ensures var fs := FsOf(img, c, members);
            && (i in fs.nodes <==> InUse(c, i) && i !in members)
            && (i in fs.nodes ==> i in c.met && i < |img.inodes| && fs.nodes[i] == NodeOf(img, c, i))
            && (LinkedDir(fs, i) <==> UsedDir(img, c, i) && i !in members)
            && (i in DirSet(fs) <==> UsedDir(img, c, i) && i !in members)
  {
    hide Accepted, EntriesOf, IsDir, DistinctNames, UnlinkedHaveNoNames, FsOf, DirSet;
    NodesAre(img, c, members, i);
    if UsedDir(img, c, i) && i !in members {
      LinkedDirs(img, c, members, i);
    }
  }

  lemma RootedAndBound(img: Image, c: Checked, members: seq<nat>)
    requires Premise(img, c, members)
    ensures Rooted(FsOf(img, c, members)) && Bound(FsOf(img, c, members))
  {
    hide Accepted, Entry, Target, Key, EntriesOf, NamedEntries, NamedSite, UsedDir, LinkedDir;
    var fs := FsOf(img, c, members);
    RootIsMet(img, c, members);
    MetFrom(img, c, members, 1);
    NodesOf(img, c, members, 1);
    assert Rooted(fs);
    forall e | e in fs.entries
      ensures LinkedDir(fs, e.0) && Linked(fs, fs.entries[e]) && fs.entries[e] != ROOT_INO
    {
      var s := OutOfEntries(img, c, e);
      EntryFacts(img, c, members, s);
      KeyIs(img, s);
      NodesOf(img, c, members, s.0);
      NodesOf(img, c, members, Target(img, s));
      LinkedTargets(img, c, members, s);
      OthersHaveNoName(img, c, members, 1, s);
    }
  }

  lemma KeyIs(img: Image, s: Site)
    ensures Key(img, s).0 == s.0 && (s.0 < |img.inodes| ==> Key(img, s).1 == NameAt(img, s))
  {
  }

  lemma TreeOfDirectories(img: Image, c: Checked, members: seq<nat>)
    requires Premise(img, c, members)
    ensures OneParent(FsOf(img, c, members), ShapeOf(img, c)) && Ranked(FsOf(img, c, members), ShapeOf(img, c))
  {
    hide Accepted, Entry, Target, Key, EntriesOf, NamedEntries, NamedSite, UsedDir, LinkedDir;
    var fs, shape := FsOf(img, c, members), ShapeOf(img, c);
    forall d | LinkedDir(fs, d) ensures RankedAt(fs, shape, d) && (d != ROOT_INO ==> Home(fs, shape, d)) {
      NodesOf(img, c, members, d);
      if d != 1 {
        HomeIs(img, c, members, d);
      }
    }
    forall e | e in fs.entries ensures OnlyName(fs, shape, e) {
      var s := OutOfEntries(img, c, e);
      NodesOf(img, c, members, fs.entries[e]);
      if LinkedDir(fs, fs.entries[e]) {
        var d := fs.entries[e];
        if d == 1 {
          OthersHaveNoName(img, c, members, 1, s);
        } else {
          HomeIs(img, c, members, d);
          DirectoryHasOneName(img, c, members, d);
        }
      }
    }
  }

  lemma HomeIs(img: Image, c: Checked, members: seq<nat>, d: nat)
    requires Premise(img, c, members) && UsedDir(img, c, d) && d != 1 && d !in members
    ensures var fs, shape := FsOf(img, c, members), ShapeOf(img, c);
            Home(fs, shape, d) && RankedAt(fs, shape, d)
    ensures d in c.met && Key(img, c.met[d].site) == (ParentDir(c, d), ShapeOf(img, c).nameOf[d])
  {
    hide Accepted, Entry, Target, Key, EntriesOf, NamedEntries, NamedSite, UsedDir, LinkedDir;
    NodesOf(img, c, members, d);
    DirectoryHasOneName(img, c, members, d);
    MetFrom(img, c, members, d);
    MetByName(img, c, members, d);
    InEntries(img, c, members, c.met[d].site);
    KeyIs(img, c.met[d].site);
    NodesOf(img, c, members, ParentDir(c, d));
  }

  // ---------------------------------------------------------------------------
  // Counted

  ghost function NamedTo(img: Image, c: Checked, i: nat): set<Site> {
    set s | s in NamedEntries(img, c) && Target(img, s) == i
  }

  ghost function NamedIn(img: Image, c: Checked, d: nat): set<Site> {
    set s | s in NamedEntries(img, c) && s.0 == d
  }

  /** Sites and their keys are as many. */
  lemma KeysCount(img: Image, c: Checked, sites: set<Site>, keys: set<(nat, string)>)
    requires DistinctNames(img, c) && sites <= NamedEntries(img, c)
    requires forall e :: e in keys <==> exists s :: s in sites && Key(img, s) == e
    ensures |keys| == |sites|
  {
    hide Key, Named, Target;
    var m := map s | s in sites :: Key(img, s);
    assert m.Keys == sites;
    forall e ensures e in keys <==> exists s :: s in m && m[s] == e {
      if e in keys {
        var s :| s in sites && Key(img, s) == e;
        assert s in m && m[s] == e;
      }
    }
    InjectiveSize(m, keys);
  }

  lemma NamesCount(img: Image, c: Checked, members: seq<nat>, i: nat)
    requires Premise(img, c, members)
    ensures |NamesOf(EntriesOf(img, c), i)| == |NamedTo(img, c, i)|
  {
    hide Accepted, Key, Named, Target, EntriesOf;
    var entries := EntriesOf(img, c);
    forall e ensures e in NamesOf(entries, i) <==> exists s :: s in NamedTo(img, c, i) && Key(img, s) == e {
      if e in NamesOf(entries, i) {
        var s := OutOfEntries(img, c, e);
        InEntries(img, c, members, s);
        assert s in NamedTo(img, c, i);
      }
      forall s | s in NamedTo(img, c, i) && Key(img, s) == e ensures e in NamesOf(entries, i) {
        InEntries(img, c, members, s);
      }
    }
    KeysCount(img, c, NamedTo(img, c, i), NamesOf(entries, i));
  }

  lemma EntriesCount(img: Image, c: Checked, members: seq<nat>, d: nat)
    requires Premise(img, c, members)
    ensures |EntriesIn(EntriesOf(img, c), d)| == |NamedIn(img, c, d)|
  {
    hide Accepted, Key, Named, Target, EntriesOf;
    var entries := EntriesOf(img, c);
    forall e ensures e in EntriesIn(entries, d) <==> exists s :: s in NamedIn(img, c, d) && Key(img, s) == e {
      if e in EntriesIn(entries, d) {
        var s := OutOfEntries(img, c, e);
        InEntries(img, c, members, s);
        KeyIs(img, s);
        assert s in NamedIn(img, c, d);
      }
      forall s | s in NamedIn(img, c, d) && Key(img, s) == e ensures e in EntriesIn(entries, d) {
        InEntries(img, c, members, s);
        KeyIs(img, s);
      }
    }
    KeysCount(img, c, NamedIn(img, c, d), EntriesIn(entries, d));
  }

  /** The directories whose ".." leads to d, but for the root. */
  ghost function Kids(img: Image, c: Checked, d: nat): set<nat> {
    set k | k in c.met && UsedDir(img, c, k) && k != 1 && ParentDir(c, k) == d
  }

  lemma KidsCount(img: Image, c: Checked, members: seq<nat>, d: nat)
    requires Premise(img, c, members) && d != 0
    ensures |Children(EntriesOf(img, c), DirSet(FsOf(img, c, members)), d)| == |Kids(img, c, d)|
  {
    hide Accepted, Key, Named, NamedSite, Entry, Target, EntriesOf, UsedDir, DirSet, FsOf, DistinctNames, ParentDir;
    var kids, children := Kids(img, c, d), Children(EntriesOf(img, c), DirSet(FsOf(img, c, members)), d);
    var m := map k | k in kids :: Key(img, c.met[k].site);
    assert m.Keys == kids;
    forall k | k in kids ensures m[k] in children && EntriesOf(img, c)[m[k]] == k {
      KidIsChild(img, c, members, d, k);
    }
    forall e | e in children ensures exists k :: k in m && m[k] == e {
      ChildIsKid(img, c, members, d, e);
    }
    InjectiveSize(m, children);
  }

  lemma KidIsChild(img: Image, c: Checked, members: seq<nat>, d: nat, k: nat)
    requires Premise(img, c, members) && d != 0 && k in Kids(img, c, d)
    ensures k in c.met
    ensures var e := Key(img, c.met[k].site);
            e in Children(EntriesOf(img, c), DirSet(FsOf(img, c, members)), d) && EntriesOf(img, c)[e] == k
  {
    hide Accepted, Key, NamedSite, Entry, Target, EntriesOf, DirSet, FsOf, DistinctNames, NamedEntries;
    MetFrom(img, c, members, k);
    DirectoryHasOneName(img, c, members, k);
    MetByName(img, c, members, k);
    InEntries(img, c, members, c.met[k].site);
    KeyIs(img, c.met[k].site);
    NodesOf(img, c, members, k);
  }

  lemma ChildIsKid(img: Image, c: Checked, members: seq<nat>, d: nat, e: (nat, string))
    requires Premise(img, c, members) && d != 0
    requires e in Children(EntriesOf(img, c), DirSet(FsOf(img, c, members)), d)
    ensures var k := EntriesOf(img, c)[e]; k in Kids(img, c, d) && k in c.met && Key(img, c.met[k].site) == e
  {
    hide Accepted, Key, NamedSite, Entry, Target, EntriesOf, UsedDir, DirSet, FsOf, DistinctNames, NamedEntries;
    var s := OutOfEntries(img, c, e);
    var k := EntriesOf(img, c)[e];
    NodesOf(img, c, members, k);
    KeyIs(img, s);
    if k == 1 {
      OthersHaveNoName(img, c, members, 1, s);
    } else {
      DirectoryHasOneName(img, c, members, k);
    }
  }

  /** The entries named "." or ".." that lead to i. */
  ghost function DotsTo(img: Image, c: Checked, i: nat, name: string): set<Site> {
    set s | s in EntriesTo(img, c, i) && s.0 < |img.inodes| && NameAt(img, s) == name
  }

  lemma DotCount(img: Image, c: Checked, members: seq<nat>, d: nat)
    requires Premise(img, c, members) && UsedDir(img, c, d) && d !in members
    ensures |DotsTo(img, c, d, ".")| == 1
  {
    hide Accepted, Premise, SitesOf;
    LinkedDirs(img, c, members, d);
    IsAccepted(img, c, members);
    DirFacts(img, c, members, d);
    Facts(img, c, members);
    var off :| off in c.visits[d].offs && LiveNamed(img, d, off, ".");
    EntriesFollowed(img, c, members, (d, off));
    assert (d, off) in DotsTo(img, c, d, ".");
    forall s | s in DotsTo(img, c, d, ".") ensures s == (d, off) {
      DotsLead(img, c, members, s);
      assert LiveNamed(img, d, s.1, ".");
    }
    assert DotsTo(img, c, d, ".") == {(d, off)};
  }

  lemma IsAccepted(img: Image, c: Checked, members: seq<nat>)
    requires Premise(img, c, members)
    ensures Accepted(img, c, members)
  {
  }

  lemma DotdotCount(img: Image, c: Checked, members: seq<nat>, d: nat)
    requires Premise(img, c, members) && UsedDir(img, c, d)
    ensures |DotsTo(img, c, d, "..")| == |Kids(img, c, d)| + (if d == 1 then 1 else 0)
  {
    hide Accepted, Premise, SitesOf, Entry, Target, EntriesTo, UsedDir;
    IsAccepted(img, c, members);
    var dots := DotsTo(img, c, d, "..");
    var from := Kids(img, c, d) + (if d == 1 then {1} else {});
    var m := map s: Site | s in dots :: s.0;
    assert m.Keys == dots;
    forall s | s in dots ensures s.0 in from {
      DotdotFrom(img, c, members, d, s);
    }
    forall k | k in from ensures exists s :: s in m && m[s] == k {
      var s := DotdotOf(img, c, members, d, k);
    }
    forall s, r | s in dots && r in dots && s != r ensures s.0 != r.0 {
      if s.0 == r.0 {
        OneDotdot(img, c, members, d, s, r);
      }
    }
    InjectiveSize(m, from);
    assert 1 !in Kids(img, c, d);
  }

  lemma DotdotFrom(img: Image, c: Checked, members: seq<nat>, d: nat, s: Site)
    requires Premise(img, c, members) && UsedDir(img, c, d) && s in DotsTo(img, c, d, "..")
    ensures s.0 in Kids(img, c, d) || (d == 1 && s.0 == 1)
  {
    hide Accepted, SitesOf, Target;
    DotsLead(img, c, members, s);
    EntryFacts(img, c, members, s);
    RootIsMet(img, c, members);
  }

  lemma DotdotOf(img: Image, c: Checked, members: seq<nat>, d: nat, k: nat) returns (s: Site)
    requires Premise(img, c, members) && UsedDir(img, c, d) && (k in Kids(img, c, d) || (d == 1 && k == 1))
    ensures s in DotsTo(img, c, d, "..") && s.0 == k
  {
    hide Accepted, SitesOf;
    RootIsMet(img, c, members);
    MetFrom(img, c, members, k);
    LinkedDirs(img, c, members, k);
    DirFacts(img, c, members, k);
    Facts(img, c, members);
    var off :| off in c.visits[k].offs && LiveNamed(img, k, off, "..");
    s := (k, off);
    EntriesFollowed(img, c, members, s);
  }

  lemma OneDotdot(img: Image, c: Checked, members: seq<nat>, d: nat, s: Site, r: Site)
    requires Premise(img, c, members) && s in DotsTo(img, c, d, "..") && r in DotsTo(img, c, d, "..") && s.0 == r.0
    ensures s == r
  {
    hide Accepted, SitesOf;
    EntryFacts(img, c, members, s);
    DirFacts(img, c, members, s.0);
    assert LiveNamed(img, s.0, s.1, "..") && LiveNamed(img, s.0, r.1, "..");
  }

  /** All entries that lead to i: ".", ".." and names. */
  lemma EntriesSplit(img: Image, c: Checked, members: seq<nat>, i: nat)
    requires Accepted(img, c, members)
    ensures |EntriesTo(img, c, i)| == |DotsTo(img, c, i, ".")| + |DotsTo(img, c, i, "..")| + |NamedTo(img, c, i)|
  {
    hide Accepted, Entry, Target;
    var all, dot, dotdot, named := EntriesTo(img, c, i), DotsTo(img, c, i, "."), DotsTo(img, c, i, ".."), NamedTo(img, c, i);
    forall s ensures s in all <==> s in dot || s in dotdot || s in named {
      if s in all {
        EntryFacts(img, c, members, s);
        if !NamedSite(img, s) {
          DotsLead(img, c, members, s);
        }
      }
    }
    assert all == dot + dotdot + named;
    forall s | s in named ensures s !in dot && s !in dotdot {
    }
    DisjointUnionSize(dot, dotdot);
    DisjointUnionSize(dot + dotdot, named);
  }

  /** A file has as many links as names. */
  lemma FileCounted(img: Image, c: Checked, members: seq<nat>, i: nat)
    requires Premise(img, c, members) && InUse(c, i) && !IsDir(img, i) && i !in members
    ensures i < |img.inodes| && img.inodes[i].links == |NamesOf(EntriesOf(img, c), i)|
  {
    hide Accepted, Entry, Target, EntriesOf, EntriesTo, NamedTo, DistinctNames;
    LinkCountExact(img, c, members, i);
    EntriesSplit(img, c, members, i);
    NamesCount(img, c, members, i);
    NoDotsToFiles(img, c, members, i);
    assert DotsTo(img, c, i, ".") == {} && DotsTo(img, c, i, "..") == {};
  }

  lemma NoDotsToFiles(img: Image, c: Checked, members: seq<nat>, i: nat)
    requires Premise(img, c, members) && !IsDir(img, i)
    ensures forall s :: s !in DotsTo(img, c, i, ".") && s !in DotsTo(img, c, i, "..")
  {
    hide Accepted, Target, IsDir, UnlinkedHaveNoNames, DistinctNames, EntriesTo;
    forall s ensures s !in DotsTo(img, c, i, ".") && s !in DotsTo(img, c, i, "..") {
      if s in EntriesTo(img, c, i) && s.0 < |img.inodes| && (NameAt(img, s) == "." || NameAt(img, s) == "..") {
        IsEntry(img, c, i, s);
        DotsLead(img, c, members, s);
        EntryFacts(img, c, members, s);
        if s.0 != 1 {
          DirectoryHasOneName(img, c, members, s.0);
        } else {
          RootIsMet(img, c, members);
        }
      }
    }
  }

  lemma IsEntry(img: Image, c: Checked, i: nat, s: Site)
    requires s in EntriesTo(img, c, i)
    ensures Entry(img, c, s) && Target(img, s) == i
  {
  }

  /** A directory has two links and one for each directory in it, and two entries and one for each name in it. */
  lemma DirCounted(img: Image, c: Checked, members: seq<nat>, d: nat)
    requires Premise(img, c, members) && UsedDir(img, c, d) && d !in members
    ensures d < |img.inodes|
    ensures img.inodes[d].links == 2 + |Children(EntriesOf(img, c), DirSet(FsOf(img, c, members)), d)|
    ensures img.inodes[d].dirents == 2 + |EntriesIn(EntriesOf(img, c), d)|
  {
    hide Accepted, Entry, Target, EntriesOf, EntriesTo, NamedTo, NamedIn, DistinctNames, DotsTo, Kids, DirSet, FsOf, SitesOf;
    LinkedDirs(img, c, members, d);
    LinkCountExact(img, c, members, d);
    EntriesSplit(img, c, members, d);
    DotCount(img, c, members, d);
    DotdotCount(img, c, members, d);
    KidsCount(img, c, members, d);
    NameCount(img, c, members, d);
    EntriesCount(img, c, members, d);
    DirentsCount(img, c, members, d);
  }

  lemma NameCount(img: Image, c: Checked, members: seq<nat>, d: nat)
    requires Premise(img, c, members) && UsedDir(img, c, d) && d !in members
    ensures |NamedTo(img, c, d)| == if d == 1 then 0 else 1
  {
    hide Accepted, Entry, Target, EntriesOf, DistinctNames, NamedSite, UsedDir;
    if d == 1 {
      forall s | s in NamedTo(img, c, d) ensures false {
        OthersHaveNoName(img, c, members, d, s);
      }
      assert NamedTo(img, c, d) == {};
    } else {
      DirectoryHasOneName(img, c, members, d);
      MetFrom(img, c, members, d);
      MetByName(img, c, members, d);
      InEntries(img, c, members, c.met[d].site);
      assert NamedTo(img, c, d) == {c.met[d].site};
    }
  }

  lemma DirentsCount(img: Image, c: Checked, members: seq<nat>, d: nat)
    requires Accepted(img, c, members) && UsedDir(img, c, d) && img.inodes[d].links > 0
    ensures img.inodes[d].dirents == 2 + |NamedIn(img, c, d)|
  {
    hide Accepted, SitesOf, NamedEntries;
    DirFacts(img, c, members, d);
    Facts(img, c, members);
    var offs := c.visits[d].offs;
    var o :| o in offs && LiveNamed(img, d, o, ".");
    var p :| p in offs && LiveNamed(img, d, p, "..");
    var named := NamedIn(img, c, d);
    forall s ensures s in SitesOf(img, d, offs) <==> s == (d, o) || s == (d, p) || s in named {
      SiteSplit(img, c, members, d, s, o, p);
    }
    assert SitesOf(img, d, offs) == {(d, o), (d, p)} + named;
    forall s | s in named ensures s != (d, o) && s != (d, p) {
      IsNamedIn(img, c, d, s);
    }
    DisjointUnionSize({(d, o), (d, p)}, named);
  }

  lemma IsNamedIn(img: Image, c: Checked, d: nat, s: Site)
    requires s in NamedIn(img, c, d)
    ensures s.0 == d && Named(img, c, s)
  {
    hide Named;
  }

  lemma SiteSplit(img: Image, c: Checked, members: seq<nat>, d: nat, s: Site, o: nat, p: nat)
    requires Accepted(img, c, members) && UsedDir(img, c, d) && d in c.visits
    requires o in c.visits[d].offs && LiveNamed(img, d, o, ".") && p in c.visits[d].offs && LiveNamed(img, d, p, "..")
    ensures s in SitesOf(img, d, c.visits[d].offs) <==> s == (d, o) || s == (d, p) || s in NamedIn(img, c, d)
  {
    hide Accepted;
    DirFacts(img, c, members, d);
    Facts(img, c, members);
    EntriesFollowed(img, c, members, s);
    var offs := c.visits[d].offs;
    if s in SitesOf(img, d, offs) {
      assert s == (d, s.1) && LiveNamed(img, d, s.1, NameAt(img, s));
    }
  }

  // ---------------------------------------------------------------------------
  // The theorem

  /** Names being distinct and the unlinked inodes nameless, an accepted image with a linked root is a consistent namespace. */
  lemma AcceptedIsConsistent(img: Image, c: Checked, members: seq<nat>)
    requires Premise(img, c, members)
    ensures Consistent(FsOf(img, c, members), ShapeOf(img, c))
  {
    hide Accepted, EntriesOf, DirSet, DistinctNames, UnlinkedHaveNoNames, NamesOf, Children, EntriesIn, Rooted, Bound, OneParent, Ranked;
    RootedAndBound(img, c, members);
    TreeOfDirectories(img, c, members);
    var fs := FsOf(img, c, members);
    forall i | i in fs.nodes ensures CountedAt(fs, i) {
      NodesOf(img, c, members, i);
      if IsDir(img, i) {
        DirCounted(img, c, members, i);
      } else {
        FileCounted(img, c, members, i);
      }
    }
  }

  // ---------------------------------------------------------------------------
  // And only then

  /** Two records under one name would make a directory's map smaller than its count of entries. */
  lemma ClashLosesEntries(img: Image, c: Checked, d: nat, s: Site, r: Site)
    requires s in NamedIn(img, c, d) && r in NamedIn(img, c, d) && s != r && Key(img, s) == Key(img, r)
    ensures |EntriesIn(EntriesOf(img, c), d)| < |NamedIn(img, c, d)|
  {
    hide Key, Named, Target;
    var keys := EntriesIn(EntriesOf(img, c), d);
    var m := map e | e in keys :: SiteOf(img, c, e);
    assert m.Keys == keys;
    var found := set e | e in keys :: SiteOf(img, c, e);
    forall e | e in keys ensures m[e] in NamedIn(img, c, d) && Key(img, m[e]) == e {
      KeyIs(img, m[e]);
    }
    assert forall x :: x in found <==> exists e :: e in m && m[e] == x;
    InjectiveSize(m, found);
    var kept := SiteOf(img, c, Key(img, s)) by {
      assert Key(img, s) in KeysOf(img, c);
    }
    var lost := if kept == s then r else s;
    assert lost !in found;
    SubsetSize(found, NamedIn(img, c, d) - {lost});
  }

  lemma DistinctIfConsistent(img: Image, c: Checked, members: seq<nat>)
    requires Accepted(img, c, members) && Consistent(FsOf(img, c, members), ShapeOf(img, c))
    ensures DistinctNames(img, c)
  {
    hide Accepted, Named, Key, EntriesOf, NamedIn, SitesOf, Rooted, Bound, OneParent, Ranked;
    var fs := FsOf(img, c, members);
    forall s, r | Named(img, c, s) && Named(img, c, r) && Key(img, s) == Key(img, r) && s != r ensures false {
      NamedFacts(img, c, members, s);
      NamedFacts(img, c, members, r);
      KeyIs(img, s);
      KeyIs(img, r);
      var d := s.0;
      NodesAre(img, c, members, d);
      assert CountedAt(fs, d);
      DirentsCount(img, c, members, d);
      ClashLosesEntries(img, c, d, s, r);
    }
  }

  lemma NamedFacts(img: Image, c: Checked, members: seq<nat>, s: Site)
    requires Accepted(img, c, members) && Named(img, c, s)
    ensures s in NamedIn(img, c, s.0) && UsedDir(img, c, s.0) && s.0 !in members && img.inodes[s.0].links > 0
  {
    EntryFacts(img, c, members, s);
    hide Accepted, Target, NamedSite, SitesOf;
    if img.inodes[s.0].links == 0 {
      NoLinksNoEntries(img, c, members, s.0);
    }
  }

  lemma NamelessIfConsistent(img: Image, c: Checked, members: seq<nat>)
    requires Accepted(img, c, members) && Consistent(FsOf(img, c, members), ShapeOf(img, c)) && DistinctNames(img, c)
    ensures UnlinkedHaveNoNames(img, c, members)
  {
    hide Accepted, Named, Key, Target, OneParent, Ranked, Counted, Rooted;
    var fs := FsOf(img, c, members);
    forall s | Named(img, c, s) ensures Target(img, s) !in members {
      NamedFacts(img, c, members, s);
      assert Key(img, s) in KeysOf(img, c);
      assert SiteOf(img, c, Key(img, s)) == s;
      assert Key(img, s) in fs.entries && fs.entries[Key(img, s)] == Target(img, s);
      NodesAre(img, c, members, Target(img, s));
    }
  }

  /**
   For an accepted image: it is a consistent namespace if and only if the root has links, no
   directory has two equal names, and no unlinked inode has a name.
   */
  lemma ConsistentIff(img: Image, c: Checked, members: seq<nat>)
    requires Accepted(img, c, members)
    ensures 1 < |img.inodes|
    ensures Consistent(FsOf(img, c, members), ShapeOf(img, c)) <==>
            img.inodes[1].links > 0 && DistinctNames(img, c) && UnlinkedHaveNoNames(img, c, members)
  {
    hide Accepted, Consistent, DistinctNames, UnlinkedHaveNoNames, FsOf, ShapeOf;
    RootLinkedUnlessEmpty(img, c, members);
    if img.inodes[1].links > 0 && DistinctNames(img, c) && UnlinkedHaveNoNames(img, c, members) {
      AcceptedIsConsistent(img, c, members);
    }
    if Consistent(FsOf(img, c, members), ShapeOf(img, c)) {
      LinkedIfConsistent(img, c, members);
      DistinctIfConsistent(img, c, members);
      NamelessIfConsistent(img, c, members);
    }
  }

  lemma LinkedIfConsistent(img: Image, c: Checked, members: seq<nat>)
    requires Accepted(img, c, members) && Consistent(FsOf(img, c, members), ShapeOf(img, c)) && 1 < |img.inodes|
    ensures img.inodes[1].links > 0
  {
    hide Accepted, Bound, OneParent, Ranked, Counted, EntriesOf;
    NodesAre(img, c, members, 1);
  }
}
