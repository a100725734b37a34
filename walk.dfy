/** The recursive file discovery `walkDir` of package ingest, over an in-memory directory tree. */
module Walk {

  /** What `filepath.Match(pattern, name)` returns: a verdict, or `ErrBadPattern`. */
  datatype MatchResult = Matched(yes: bool) | BadPattern

  /** The result of `ioutil.ReadDir` on a directory: an error, or its entries in listing order. */
  datatype Listing = Unreadable | Entries(entries: seq<Entry>)

  /** A directory entry: anything that is not a directory (`IsDir()` false), or a directory with its listing. */
  datatype Entry = File(name: string) | Dir(name: string, listing: Listing)

  /** What a walk pushed on the file channel, and whether it ended in a panic. */
  datatype Outcome = Outcome(emitted: seq<string>, panicked: bool)

  /** `filepath.Join(dir, name)`, as a plain concatenation with a separator: a path below `dir`
      that ends in `name`. */
  function JoinPath(dir: string, name: string): (r: string)
    ensures Below(dir, r) && r[|dir| + 1..] == name
  {
    dir + "/" + name
  }

  /** `p` names something inside the directory `dir`. */
  predicate Below(dir: string, p: string)
  {
    |dir| < |p| && p[..|dir| + 1] == dir + "/"
  }

  /** What lies below a subdirectory of `dir` lies below `dir`. */
  lemma BelowJoin(dir: string, name: string, ps: seq<string>)
    requires forall p :: p in ps ==> Below(JoinPath(dir, name), p)
    ensures forall p :: p in ps ==> Below(dir, p)
  {
    forall p | p in ps
      ensures Below(dir, p)
    {
      var sub := JoinPath(dir, name);
      assert p[..|dir| + 1] == p[..|sub| + 1][..|dir| + 1] == sub[..|dir| + 1];
    }
  }

  /** Running `rest` after a part that emitted `out` without panicking. */
  function After(out: seq<string>, rest: Outcome): Outcome
  {
    Outcome(out + rest.emitted, rest.panicked)
  }

  /** The walk of the directory at `path` whose listing is `l`: every path it emits lies below `path`,
      and an unreadable directory panics. */
  function WalkListing(path: string, pattern: string, matcher: (string, string) -> MatchResult, l: Listing): (r: Outcome)
    ensures forall p :: p in r.emitted ==> Below(path, p)
    ensures l.Unreadable? ==> r.panicked
    decreases l
  {
    match l
    case Unreadable => Outcome([], true)
    case Entries(es) => WalkEntries(path, pattern, matcher, es)
  }

  /** The walk of one entry of the directory at `path`: a file entry yields at most its own path. */
  function WalkEntry(path: string, pattern: string, matcher: (string, string) -> MatchResult, e: Entry): (r: Outcome)
    ensures forall p :: p in r.emitted ==> Below(path, p)
    ensures e.File? ==> r.emitted == [] || r.emitted == [JoinPath(path, e.name)]
    decreases e
  {
    match e
    case Dir(name, l) =>
      var r := WalkListing(JoinPath(path, name), pattern, matcher, l);
      BelowJoin(path, name, r.emitted);
      r
    case File(name) =>
      match matcher(pattern, name)
      case BadPattern => Outcome([], true)
      case Matched(yes) => Outcome(if yes then [JoinPath(path, name)] else [], false)
  }

  /** The walk of the entries `es` of the directory at `path`, in order; a panic stops everything.
      Every path it emits lies below `path`. */
  function WalkEntries(path: string, pattern: string, matcher: (string, string) -> MatchResult, es: seq<Entry>): (r: Outcome)
    ensures forall p :: p in r.emitted ==> Below(path, p)
    ensures es == [] ==> r == Outcome([], false)
    decreases es
  {
    if es == [] then Outcome([], false)
    else
      var first := WalkEntry(path, pattern, matcher, es[0]);
      if first.panicked then first else After(first.emitted, WalkEntries(path, pattern, matcher, es[1..]))
  }

  /** Emitting `a` and then `b` before the rest is emitting `a + b` before it. */
  lemma AfterAfter(a: seq<string>, b: seq<string>, rest: Outcome)
    ensures After(a, After(b, rest)) == After(a + b, rest)
  {
    assert a + (b + rest.emitted) == (a + b) + rest.emitted;
  }

  /** Unfolding the walk of the entries from index `i` on. */
  lemma WalkEntriesFrom(path: string, pattern: string, matcher: (string, string) -> MatchResult, es: seq<Entry>, i: nat)
    requires i < |es|
    ensures var first := WalkEntry(path, pattern, matcher, es[i]);
            WalkEntries(path, pattern, matcher, es[i..])
            == if first.panicked then first else After(first.emitted, WalkEntries(path, pattern, matcher, es[i + 1..]))
  {
    assert es[i..][0] == es[i] && es[i..][1..] == es[i + 1..];
  }

  /** `walkDir(path, pattern, ch)`: the paths it sends on `ch`, in order, and whether it panics. */
  method WalkDir(path: string, pattern: string, matcher: (string, string) -> MatchResult, l: Listing)
    returns (emitted: seq<string>, panicked: bool)
    ensures Outcome(emitted, panicked) == WalkListing(path, pattern, matcher, l)
    decreases l
  {
    if l.Unreadable? {
      // Go: log, then panic(err)
      return [], true;
    }
    var files := l.entries;
    emitted, panicked := [], false;
    var i := 0;
    while i < |files|
      invariant 0 <= i <= |files|
      invariant WalkEntries(path, pattern, matcher, files) == After(emitted, WalkEntries(path, pattern, matcher, files[i..]))
    {
      WalkEntriesFrom(path, pattern, matcher, files, i);
      ghost var later := WalkEntries(path, pattern, matcher, files[i + 1..]);
      var file := files[i];
      var fullpath := JoinPath(path, file.name);
      if file.Dir? {
        var sub, subPanicked := WalkDir(fullpath, pattern, matcher, file.listing);
        if subPanicked {
          return emitted + sub, true;
        }
        AfterAfter(emitted, sub, later);
        emitted := emitted + sub;
      } else {
        var m := matcher(pattern, file.name);
        if m.BadPattern? {
          // Go: panic(err)
          return emitted, true;
        }
        if m.yes {
          AfterAfter(emitted, [fullpath], later);
          emitted := emitted + [fullpath];
        } else {
          AfterAfter(emitted, [], later);
        }
      }
      i := i + 1;
    }
    assert files[i..] == [];
  }

  /** Depth-first order: walking `a + b` walks all of `a`, subdirectories included, before anything of `b`,
      and does not reach `b` at all if `a` panics. */
  lemma {:induction false} WalkEntriesAppend(path: string, pattern: string, matcher: (string, string) -> MatchResult,
                                             a: seq<Entry>, b: seq<Entry>)
    ensures var ra := WalkEntries(path, pattern, matcher, a);
            WalkEntries(path, pattern, matcher, a + b)
            == if ra.panicked then ra else After(ra.emitted, WalkEntries(path, pattern, matcher, b))
    decreases a
  {
    if a == [] {
      assert a + b == b;
    } else {
      assert (a + b)[0] == a[0] && (a + b)[1..] == a[1..] + b;
      WalkEntriesAppend(path, pattern, matcher, a[1..], b);
    }
  }

  /** One step of the walk seen from the outside: a directory that cannot be read, or a non-directory
      entry with its directory, in the order the walk meets them. */
  datatype Event = CannotRead(dir: string) | Reached(dir: string, name: string)

  /** The events of a depth-first traversal of the directory at `path`. Directories are not events. */
  function Events(path: string, l: Listing): seq<Event>
    decreases l
  {
    match l
    case Unreadable => [CannotRead(path)]
    case Entries(es) => EntriesEvents(path, es)
  }

  function EntryEvents(path: string, e: Entry): seq<Event>
    decreases e
  {
    match e
    case Dir(name, l) => Events(JoinPath(path, name), l)
    case File(name) => [Reached(path, name)]
  }

  function EntriesEvents(path: string, es: seq<Entry>): seq<Event>
    decreases es
  {
    if es == [] then [] else EntryEvents(path, es[0]) + EntriesEvents(path, es[1..])
  }

  /** Whether an event stops the walk: an unreadable directory, or a name the pattern cannot be matched against. */
  predicate Fails(pattern: string, matcher: (string, string) -> MatchResult, ev: Event)
  {
    ev.CannotRead? || matcher(pattern, ev.name).BadPattern?
  }

  /** The paths emitted for events that are matching non-directory entries. */
  function MatchingPaths(pattern: string, matcher: (string, string) -> MatchResult, evs: seq<Event>): seq<string>
  {
    if evs == [] then []
    else
      (if evs[0].Reached? && matcher(pattern, evs[0].name) == Matched(true)
       then [JoinPath(evs[0].dir, evs[0].name)] else [])
      + MatchingPaths(pattern, matcher, evs[1..])
  }

  /** The events up to the first one that stops the walk. */
  function PrefixBeforeFailure(pattern: string, matcher: (string, string) -> MatchResult, evs: seq<Event>): (p: nat)
    ensures p <= |evs|
    ensures forall k :: 0 <= k < p ==> !Fails(pattern, matcher, evs[k])
    ensures p < |evs| ==> Fails(pattern, matcher, evs[p])
  {
    if evs == [] || Fails(pattern, matcher, evs[0]) then 0
    else 1 + PrefixBeforeFailure(pattern, matcher, evs[1..])
  }

  /** A linear scan of the events: emit matching paths, stop at the first failure. */
  function Scan(pattern: string, matcher: (string, string) -> MatchResult, evs: seq<Event>): Outcome
  {
    var p := PrefixBeforeFailure(pattern, matcher, evs);
    Outcome(MatchingPaths(pattern, matcher, evs[..p]), p < |evs|)
  }

  lemma {:induction false} MatchingPathsAppend(pattern: string, matcher: (string, string) -> MatchResult,
                                               a: seq<Event>, b: seq<Event>)
    ensures MatchingPaths(pattern, matcher, a + b) == MatchingPaths(pattern, matcher, a) + MatchingPaths(pattern, matcher, b)
    decreases a
  {
    if a == [] {
      assert a + b == b;
    } else {
      assert (a + b)[0] == a[0] && (a + b)[1..] == a[1..] + b;
      MatchingPathsAppend(pattern, matcher, a[1..], b);
    }
  }

  /** The first failure of a concatenation is the first failure of its first part, if it has one. */
  lemma {:induction false} PrefixAppend(pattern: string, matcher: (string, string) -> MatchResult, a: seq<Event>, b: seq<Event>)
    ensures var pa := PrefixBeforeFailure(pattern, matcher, a);
            PrefixBeforeFailure(pattern, matcher, a + b) == if pa < |a| then pa else |a| + PrefixBeforeFailure(pattern, matcher, b)
    decreases a
  {
    if a == [] {
      assert a + b == b;
    } else {
      assert (a + b)[0] == a[0] && (a + b)[1..] == a[1..] + b;
      PrefixAppend(pattern, matcher, a[1..], b);
    }
  }

  /** Scanning a concatenation: scan the first part, and go on with the second only if the first did not fail. */
  lemma ScanAppend(pattern: string, matcher: (string, string) -> MatchResult, a: seq<Event>, b: seq<Event>)
    ensures var ra := Scan(pattern, matcher, a);
            Scan(pattern, matcher, a + b) == if ra.panicked then ra else After(ra.emitted, Scan(pattern, matcher, b))
  {
    PrefixAppend(pattern, matcher, a, b);
    var pa := PrefixBeforeFailure(pattern, matcher, a);
    var pb := PrefixBeforeFailure(pattern, matcher, b);
    if pa < |a| {
      assert (a + b)[..pa] == a[..pa];
    } else {
      assert a[..pa] == a;
      assert (a + b)[..|a| + pb] == a + b[..pb];
      MatchingPathsAppend(pattern, matcher, a, b[..pb]);
    }
  }

  /** The walk is the depth-first traversal followed by the scan: the recursion and the panics it
      propagates amount to emitting the matching non-directory entries in traversal order up to
      the first unreadable directory or bad pattern. */
  lemma {:induction false} WalkIsScan(path: string, pattern: string, matcher: (string, string) -> MatchResult, l: Listing)
    ensures WalkListing(path, pattern, matcher, l) == Scan(pattern, matcher, Events(path, l))
    decreases l
  {
    match l
    case Unreadable =>
    case Entries(es) => WalkEntriesIsScan(path, pattern, matcher, es);
  }

  lemma {:induction false} WalkEntryIsScan(path: string, pattern: string, matcher: (string, string) -> MatchResult, e: Entry)
    ensures WalkEntry(path, pattern, matcher, e) == Scan(pattern, matcher, EntryEvents(path, e))
    decreases e
  {
    match e
    case Dir(name, l) => WalkIsScan(JoinPath(path, name), pattern, matcher, l);
    case File(name) =>
      var evs := [Reached(path, name)];
      assert evs[1..] == [];
      if !Fails(pattern, matcher, evs[0]) {
        assert PrefixBeforeFailure(pattern, matcher, evs) == 1;
        assert evs[..1] == evs;
        assert MatchingPaths(pattern, matcher, evs)
               == (if matcher(pattern, name) == Matched(true) then [JoinPath(path, name)] else []) + [];
      }
  }

  lemma {:induction false} WalkEntriesIsScan(path: string, pattern: string, matcher: (string, string) -> MatchResult, es: seq<Entry>)
    ensures WalkEntries(path, pattern, matcher, es) == Scan(pattern, matcher, EntriesEvents(path, es))
    decreases es
  {
    if es != [] {
      WalkEntryIsScan(path, pattern, matcher, es[0]);
      WalkEntriesIsScan(path, pattern, matcher, es[1..]);
      ScanAppend(pattern, matcher, EntryEvents(path, es[0]), EntriesEvents(path, es[1..]));
    }
  }

  /** What the walk emits: exactly the paths of the matching non-directory entries met before the first
      failure, in traversal order, each as the join of its directory and its base name; it panics exactly
      when some event is a failure, and the name handed to the matcher is the base name, never the path. */
  lemma WalkEmitsMatchingFiles(path: string, pattern: string, matcher: (string, string) -> MatchResult, l: Listing)
    ensures var evs := Events(path, l);
            var p := PrefixBeforeFailure(pattern, matcher, evs);
            && WalkListing(path, pattern, matcher, l).emitted == MatchingPaths(pattern, matcher, evs[..p])
            && (WalkListing(path, pattern, matcher, l).panicked <==> exists k :: 0 <= k < |evs| && Fails(pattern, matcher, evs[k]))
  {
    WalkIsScan(path, pattern, matcher, l);
  }

  /** Every emitted path is the path of a non-directory entry whose base name matched the pattern. */
  lemma {:induction false} MatchingPathsSound(pattern: string, matcher: (string, string) -> MatchResult, evs: seq<Event>, q: string)
    requires q in MatchingPaths(pattern, matcher, evs)
    ensures exists k :: 0 <= k < |evs| && evs[k].Reached? && matcher(pattern, evs[k].name) == Matched(true)
                        && q == JoinPath(evs[k].dir, evs[k].name)
  {
    if evs[0].Reached? && matcher(pattern, evs[0].name) == Matched(true) && q == JoinPath(evs[0].dir, evs[0].name) {
    } else {
      MatchingPathsSound(pattern, matcher, evs[1..], q);
      var k :| 0 <= k < |evs[1..]| && evs[1..][k].Reached? && matcher(pattern, evs[1..][k].name) == Matched(true)
               && q == JoinPath(evs[1..][k].dir, evs[1..][k].name);
      assert evs[k + 1] == evs[1..][k];
    }
  }

  /** A bad pattern is fatal only once a non-directory entry is reached: if the pattern is bad for every
      name, every readable tree walks without a panic exactly when it holds no non-directory entry,
      and nothing is ever emitted. */
  lemma BadPatternFailsAtFirstFile(path: string, pattern: string, matcher: (string, string) -> MatchResult, l: Listing)
    requires forall name :: matcher(pattern, name) == BadPattern
    ensures WalkListing(path, pattern, matcher, l).emitted == []
    ensures WalkListing(path, pattern, matcher, l).panicked <==> Events(path, l) != []
  {
    var evs := Events(path, l);
    WalkIsScan(path, pattern, matcher, l);
    var p := PrefixBeforeFailure(pattern, matcher, evs);
    assert p == 0;
    assert evs[..p] == [];
    if evs != [] {
      assert Fails(pattern, matcher, evs[0]);
    }
  }
}
