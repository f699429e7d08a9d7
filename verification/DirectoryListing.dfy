/**
 Whole listings of a directory that is changed between the calls: an entry that stays is returned
 by exactly one call, exactly once.
 */
module DirectoryListing {
  import opened Wrappers
  import opened DirectoryRecords
  import opened MinfsDirectory

  /** What one call of Readdir did: the part of the range it covered, and what it returned. */
  datatype Call = Call(from: nat, to: nat, offsets: seq<nat>, entries: seq<Entry>)

  /** The directory after a step; `call` if the step was a call of Readdir, which changes nothing. */
  datatype Event = Event(contents: Contents, layout: Layout, call: Option<Call>)

  function Last(events: seq<Event>): Event
    requires events != []
  {
    events[|events| - 1]
  }

  function Front(events: seq<Event>): seq<Event>
    requires events != []
  {
    events[..|events| - 1]
  }

  /** Where the next call of a listing goes on. */
  function CookieAfter(events: seq<Event>): nat {
    if events == [] then 0 else if Last(events).call.Some? then Last(events).call.value.to else CookieAfter(Front(events))
  }

  /** The directory is well formed, and a call returned what lies in the part it covered. */
  ghost predicate GoodEvent(e: Event) {
    && WellFormed(e.contents, e.layout)
    && (e.call.Some? ==>
          && e.call.value.from <= e.call.value.to
          && Covers(e.contents, e.layout, e.call.value.from, e.call.value.to, e.call.value.offsets, e.call.value.entries))
  }

  /** Entries stay where they are from step to step, and each call goes on where the one before it stopped. */
  ghost predicate Run(events: seq<Event>) {
    events != [] ==>
      && Run(Front(events)) && GoodEvent(Last(events))
      && (Front(events) != [] ==> Kept(Last(Front(events)).layout, Last(events).layout))
      && (Last(events).call.Some? ==>
            Recovers(Last(events).layout.bounds, CookieAfter(Front(events)), Last(events).call.value.from))
  }

  /** The name is there after every step. */
  ghost predicate Stays(events: seq<Event>, name: string) {
    forall i :: 0 <= i < |events| ==> name in events[i].layout.at
  }

  /** The j-th entry returned by the i-th step has this name. */
  ghost predicate ReturnedAt(events: seq<Event>, name: string, i: nat, j: nat) {
    i < |events| && events[i].call.Some? && j < |events[i].call.value.entries| && events[i].call.value.entries[j].name == name
  }

  /** It was returned at step i as its j-th entry, with the inode it then led to, and nowhere else. */
  ghost predicate ReturnedOnlyAt(events: seq<Event>, name: string, i: nat, j: nat) {
    && ReturnedAt(events, name, i, j)
    && WellFormed(events[i].contents, events[i].layout) && name in events[i].layout.at
    && (var b := Names(events[i].contents, events[i].layout)[name]; events[i].call.value.entries[j] == Entry(name, b.ino, b.kind))
    && forall k, l :: ReturnedAt(events, name, k, l) ==> k == i && l == j
  }

  // ---------------------------------------------------------------------------
  // One call

  /** A call returns a name exactly if its record lies in the part covered, and then once. */
  lemma CallReturns(e: Event, name: string) returns (j: nat)
    requires GoodEvent(e) && e.call.Some? && name in e.layout.at && name != ".."
    ensures var c, p := e.call.value, e.layout.at[name];
            && (c.from <= p < c.to ==>
                  && j < |c.entries|
                  && (var b := Names(e.contents, e.layout)[name]; c.entries[j] == Entry(name, b.ino, b.kind))
                  && forall l :: 0 <= l < |c.entries| && c.entries[l].name == name ==> l == j)
            && (!(c.from <= p < c.to) ==> forall l :: 0 <= l < |c.entries| ==> c.entries[l].name != name)
  {
    hide Tiling, Coalesced;
    var c, p := e.call.value, e.layout.at[name];
    NamedAt(e.contents, e.layout, p, name);
    InFileAll(e.contents, e.layout);
    hide Indexed;
    j := 0;
    if c.from <= p < c.to {
      assert p in c.offsets;
      j :| 0 <= j < |c.offsets| && c.offsets[j] == p;
    }
    forall l | 0 <= l < |c.entries| && c.entries[l].name == name ensures c.offsets[l] == p && c.from <= p < c.to {
      NamedAt(e.contents, e.layout, c.offsets[l], name);
    }
    assert forall l :: 0 <= l < |c.entries| && c.entries[l].name == name && l != j && c.from <= p < c.to ==>
      c.offsets[l] == c.offsets[j];
  }

  // ---------------------------------------------------------------------------
  // All calls

  lemma {:induction false} SamePlace(events: seq<Event>, name: string)
    requires Run(events) && Stays(events, name) && events != []
    ensures Last(events).layout.at[name] == events[0].layout.at[name]
  {
    hide GoodEvent, Recovers;
    var front := Front(events);
    if front != [] {
      SamePlace(front, name);
      assert name in Last(front).layout.at && name in Last(events).layout.at;
      assert front[0] == events[0];
    }
  }

  ghost predicate NotReturned(events: seq<Event>, name: string) {
    forall k, l :: !ReturnedAt(events, name, k, l)
  }

  lemma ReturnedMore(events: seq<Event>, name: string, k: nat, l: nat)
    requires events != []
    ensures k < |events| - 1 ==> (ReturnedAt(events, name, k, l) <==> ReturnedAt(Front(events), name, k, l))
    ensures k == |events| - 1 ==>
              (ReturnedAt(events, name, k, l) <==>
                Last(events).call.Some? && l < |Last(events).call.value.entries| && Last(events).call.value.entries[l].name == name)
    ensures k >= |events| ==> !ReturnedAt(events, name, k, l)
  {
  }

  /** So far a name that stays has been returned once if its record lies before the cookie, and not at all otherwise. */
  lemma {:induction false} ReturnedSoFar(events: seq<Event>, name: string, p: nat) returns (i: nat, j: nat)
    requires Run(events) && Stays(events, name) && name != ".." && (events != [] ==> p == events[0].layout.at[name])
    ensures events != [] ==>
              if p < CookieAfter(events) then ReturnedOnlyAt(events, name, i, j) else NotReturned(events, name)
    ensures events == [] ==> NotReturned(events, name)
    decreases |events|
  {
    hide Recovers, Kept, Names, WellFormed;
    i, j := 0, 0;
    if events != [] {
      var front, e := Front(events), Last(events);
      assert forall k :: 0 <= k < |front| ==> front[k] == events[k];
      SamePlace(events, name);
      var i0, j0 := ReturnedSoFar(front, name, p);
      GoodNames(e, name);
      if e.call.Some? {
        CallGoesOn(events, name);
        var j1 := CallReturns(e, name);
        hide GoodEvent;
        i, j := if p < CookieAfter(front) then i0 else |events| - 1, if p < CookieAfter(front) then j0 else j1;
      } else {
        i, j := i0, j0;
      }
      hide GoodEvent;
      forall k: nat, l: nat ensures ReturnedAt(events, name, k, l) ==> p < CookieAfter(events) && k == i && l == j {
        ReturnedMore(events, name, k, l);
        assert k < |front| && ReturnedAt(front, name, k, l) ==> p < CookieAfter(front);
      }
      if p < CookieAfter(events) {
        ReturnedMore(events, name, i, j);
      }
    }
  }

  lemma GoodNames(e: Event, name: string)
    requires GoodEvent(e) && name in e.layout.at
    ensures WellFormed(e.contents, e.layout) && e.layout.at[name] in e.layout.bounds
  {
    hide Tiling, Coalesced;
  }

  /** A record before the cookie stays out of the next call, and one at or after it is not passed over. */
  lemma CallGoesOn(events: seq<Event>, name: string)
    requires Run(events) && events != [] && Last(events).call.Some? && name in Last(events).layout.at
    ensures var c, p := Last(events).call.value, Last(events).layout.at[name];
            && (p < CookieAfter(Front(events)) <==> p < c.from) && c.from <= c.to && CookieAfter(events) == c.to
  {
    hide Covers, Kept, WellFormed;
    GoodNames(Last(events), name);
  }

  /**
   A full listing, with whatever changes in between: a name other than ".." that stays throughout is
   returned by exactly one call, exactly once, with the inode it led to at the time.
   */
  lemma ListedExactlyOnce(events: seq<Event>, name: string) returns (i: nat, j: nat)
    requires Run(events) && CookieAfter(events) == MAX_DIRECTORY && Stays(events, name) && name != ".."
    ensures ReturnedOnlyAt(events, name, i, j)
  {
    i, j := 0, 0;
    if events != [] {
      var p := events[0].layout.at[name];
      SamePlace(events, name);
      PlaceInRange(Last(events), name);
      i, j := ReturnedSoFar(events, name, p);
    }
  }

  lemma PlaceInRange(e: Event, name: string)
    requires WellFormed(e.contents, e.layout) && name in e.layout.at
    ensures e.layout.at[name] < MAX_DIRECTORY
  {
    hide Coalesced, Good, DirentSize;
    NextBound(e.contents, e.layout.bounds, e.layout.at[name]);
  }

  // ---------------------------------------------------------------------------
  // Such a run, made by the directory's own operations

  /** What clients do with one directory while one of them lists it. */
  datatype Request =
    | ReadOn(limit: nat)
    | AddEntry(name: string, ino: nat, kind: Kind)
    | DropEntry(name: string, isDirectory: bool)
    | PointEntry(name: string, ino: nat)

  lemma RunMore(events: seq<Event>, e: Event)
    requires Run(events) && GoodEvent(e) && (events != [] ==> Kept(Last(events).layout, e.layout))
    requires e.call.Some? ==> Recovers(e.layout.bounds, CookieAfter(events), e.call.value.from)
    ensures Run(events + [e]) && CookieAfter(events + [e]) == if e.call.Some? then e.call.value.to else CookieAfter(events)
  {
    hide GoodEvent, Kept, Recovers;
    assert Front(events + [e]) == events && Last(events + [e]) == e;
  }

  lemma KeptSame(l: Layout)
    ensures Kept(l, l)
  {
  }

  /** Readdir, AppendDirent, UnlinkChild and UpdateInode in any order make a run. */
  method Serve(dir: Directory, requests: seq<Request>) returns (ghost events: seq<Event>, cookie: Cookie)
    requires dir.Valid()
    modifies dir
    ensures dir.Valid() && Run(events) && cookie.off == CookieAfter(events) && |events| == |requests|
    ensures forall i :: 0 <= i < |requests| ==> (requests[i].ReadOn? <==> events[i].call.Some?)
  {
    hide WellFormed, Covers, Recovers, Kept, Run, CookieAfter, GoodEvent, Names, Previous;
    events, cookie := [], Cookie(0, dir.seqNum);
    EmptyRun();
    ghost var layout := dir.layout;
    var n := 0;
    while n < |requests|
      invariant 0 <= n <= |requests| && |events| == n && dir.Valid()
      invariant Run(events) && cookie.off == CookieAfter(events) && cookie.off <= MAX_DIRECTORY
      invariant events != [] ==> Last(events).layout == dir.layout
      invariant cookie.seqno <= dir.seqNum && (cookie.seqno == dir.seqNum ==> cookie.off == 0 || At(dir.layout.bounds, cookie.off))
      invariant forall i :: 0 <= i < n ==> (requests[i].ReadOn? <==> events[i].call.Some?)
    {
      ghost var call, before: Layout := None, dir.layout;
      match requests[n] {
        case ReadOn(limit) =>
          var r, next;
          ghost var from, offsets;
          r, next, from, offsets := dir.Readdir(cookie, limit);
          cookie := next;
          call := Some(Call(from, next.off, offsets, r.value));
          KeptSame(before);
        case AddEntry(name, ino, kind) =>
          AddIfPossible(dir, name, ino, kind);
        case DropEntry(name, isDirectory) =>
          DropIfThere(dir, name, isDirectory);
        case PointEntry(name, ino) =>
          KeptSame(before);
          if ino != 0 {
            var r := dir.UpdateInode(name, ino);
          }
      }
      ghost var e := Event(dir.contents, dir.layout, call);
      GoodStep(e);
      RunMore(events, e);
      events := events + [e];
      n := n + 1;
    }
  }

  lemma EmptyRun()
    ensures Run([]) && CookieAfter([]) == 0
  {
  }

  lemma GoodStep(e: Event)
    requires WellFormed(e.contents, e.layout)
    requires e.call.Some? ==>
               && e.call.value.from <= e.call.value.to
               && Covers(e.contents, e.layout, e.call.value.from, e.call.value.to, e.call.value.offsets, e.call.value.entries)
    ensures GoodEvent(e)
  {
    hide WellFormed, Covers;
  }

  method AddIfPossible(dir: Directory, name: string, ino: nat, kind: Kind)
    requires dir.Valid()
    modifies dir
    ensures dir.Valid() && Kept(old(dir.layout), dir.layout) && dir.seqNum >= old(dir.seqNum)
    ensures dir.seqNum == old(dir.seqNum) ==> dir.layout == old(dir.layout)
  {
    hide WellFormed, Names, Previous, Kept;
    KeptSame(dir.layout);
    var found := dir.FindName(name);
    if found == Ok(None) && 1 <= |name| <= MAX_NAME && ino != 0 {
      var space := dir.FindSpace(DirentSize(|name|));
      if space.Ok? && space.value.Some? {
        var r := dir.AppendDirent(space.value.value, name, ino, kind);
      }
    }
  }

  method DropIfThere(dir: Directory, name: string, isDirectory: bool)
    requires dir.Valid()
    modifies dir
    ensures dir.Valid() && Kept(old(dir.layout), dir.layout) && dir.seqNum >= old(dir.seqNum)
    ensures dir.seqNum == old(dir.seqNum) ==> dir.layout == old(dir.layout)
  {
    hide Names, Previous, Kept, Tiling, Coalesced;
    KeptSame(dir.layout);
    var found := dir.FindName(name);
    if found.Ok? && found.value.Some? {
      var r := dir.UnlinkChild(found.value.value.off, found.value.value.offPrev, isDirectory);
    }
  }
}
