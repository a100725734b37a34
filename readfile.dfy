/** The per-document loop of `ReadFile` in package ingest: the suggestion buffer, the zero-score
    fix, the byte counters and the hand-off to the indexing workers. */
module ReadFile {
  import opened GoInt
  import opened Index
  import ReadDir

  // ---------------------------------------------------------------------------------------------
  // Lower-casing (ASCII letters only)

  /** `unicode.ToLower` restricted to ASCII: an upper-case letter becomes its lower-case letter. */
  function LowerChar(c: char): (r: char)
    ensures !('A' <= r <= 'Z')
    ensures !('A' <= c <= 'Z') ==> r == c
    ensures 'A' <= c <= 'Z' ==> 'a' <= r <= 'z' && r as int - c as int == 'a' as int - 'A' as int
  {
    if 'A' <= c <= 'Z' then (c as int + 32) as char else c
  }

  /** `strings.ToLower`: the result has no upper-case ASCII letter, and every other character,
      including every non-ASCII one, is kept. */
  function ToLower(s: string): (r: string)
    ensures |r| == |s|
    ensures forall k :: 0 <= k < |r| ==> !('A' <= r[k] <= 'Z')
    ensures forall k :: 0 <= k < |s| && !('A' <= s[k] <= 'Z') ==> r[k] == s[k]
    ensures forall k :: 0 <= k < |s| && 'A' <= s[k] <= 'Z' ==> r[k] as int == s[k] as int + 32
  {
    if s == [] then [] else [LowerChar(s[0])] + ToLower(s[1..])
  }

  /** Lower-casing twice is lower-casing once. */
  lemma ToLowerIdempotent(s: string)
    ensures ToLower(ToLower(s)) == ToLower(s)
  {
    var r := ToLower(s);
    assert forall k :: 0 <= k < |r| ==> ToLower(r)[k] == r[k];
  }

  // ---------------------------------------------------------------------------------------------
  // Byte accounting

  /** What one property adds to `dt` and `totalDt`: the lengths of the value and the key when the
      value is a string, nothing otherwise. */
  function Contribution(k: string, v: Value): (r: nat)
    ensures r == 0 <==> !v.Str? || (v.s == "" && k == "")
    ensures v.Str? ==> |k| <= r && |v.s| <= r
  {
    if v.Str? then |v.s| + |k| else 0
  }

  /** The bytes of a property map: the contributions of all its properties, so at least that of
      any one of them. */
  ghost function PropBytes(m: map<string, Value>): (r: nat)
    ensures forall k :: k in m ==> Contribution(k, m[k]) <= r
    decreases |m|
  {
    if m == map[] then 0
    else
      var k :| k in m;
      var rest := m - {k};
      assert forall k' :: k' in m && k' != k ==> k' in rest && rest[k'] == m[k'];
      Contribution(k, m[k]) + PropBytes(rest)
  }

  /** The sum does not depend on the order in which the properties are taken: any property can be
      taken first. */
  lemma {:induction false} PropBytesRemove(m: map<string, Value>, k: string)
    requires k in m
    ensures PropBytes(m) == Contribution(k, m[k]) + PropBytes(m - {k})
    decreases |m|
  {
    var k' :| k' in m && PropBytes(m) == Contribution(k', m[k']) + PropBytes(m - {k'});
    if k' != k {
      var m1, m2 := m - {k'}, m - {k};
      PropBytesRemove(m1, k);
      PropBytesRemove(m2, k');
      assert m1 - {k} == m2 - {k'};
    }
  }

  /** A map without string values has no bytes. */
  lemma {:induction false} PropBytesNoStrings(m: map<string, Value>)
    requires forall k :: k in m ==> !m[k].Str?
    ensures PropBytes(m) == 0
    decreases |m|
  {
    if m != map[] {
      var k :| k in m;
      PropBytesRemove(m, k);
      PropBytesNoStrings(m - {k});
    }
  }

  /** The bytes of a sequence of documents. */
  ghost function BytesOf(ds: seq<Document>): nat
  {
    if ds == [] then 0 else BytesOf(ds[..|ds| - 1]) + PropBytes(ds[|ds| - 1].properties)
  }

  /** The bytes of two stretches of documents add up. */
  lemma {:induction false} BytesOfConcat(xs: seq<Document>, ys: seq<Document>)
    ensures BytesOf(xs + ys) == BytesOf(xs) + BytesOf(ys)
  {
    if ys != [] {
      var ys' := ys[..|ys| - 1];
      BytesOfConcat(xs, ys');
      assert (xs + ys)[..|xs + ys| - 1] == xs + ys';
    } else {
      assert xs + ys == xs;
    }
  }

  /** The `for k, v := range doc.Properties` loop: `dt` and `totalDt` both grow by the bytes of the
      properties, whatever order the map is walked in. */
  method AddPropertyBytes(props: map<string, Value>, dt: int, totalDt: int) returns (dt': int, totalDt': int)
    ensures dt' == dt + PropBytes(props)
    ensures totalDt' == totalDt + PropBytes(props)
  {
    dt', totalDt' := dt, totalDt;
    var rest := props;
    while rest != map[]
      invariant dt' + PropBytes(rest) == dt + PropBytes(props)
      invariant totalDt' + PropBytes(rest) == totalDt + PropBytes(props)
      decreases |rest|
    {
      var k :| k in rest;
      var v := rest[k];
      PropBytesRemove(rest, k);
      if v.Str? {
        dt' := dt' + |v.s| + |k|;
        totalDt' := totalDt' + |v.s| + |k|;
      }
      rest := rest - {k};
    }
  }

  // ---------------------------------------------------------------------------------------------
  // The documents

  /** A document whose suggestion is recorded: a positive score while an autocompleter is set,
      and a string `title`. */
  predicate Eligible(d: Document, hasAc: bool): (b: bool)
    ensures b ==> "title" in d.properties && d.properties["title"].Str? && SuggestionFor(d).score > 0.0
  {
    d.score > 0.0 && hasAc && "title" in d.properties && d.properties["title"].Str?
  }

  /** A document on which the type assertion `doc.Properties["title"].(string)` panics: a positive
      score while an autocompleter is set, and a `title` that is missing or not a string. */
  predicate Panics(d: Document, hasAc: bool): (b: bool)
    ensures b <==> d.score > 0.0 && hasAc && !Eligible(d, hasAc)
  {
    d.score > 0.0 && hasAc && !("title" in d.properties && d.properties["title"].Str?)
  }

  /** The suggestion recorded for an eligible document: its lower-cased title and its score. */
  function SuggestionFor(d: Document): (r: Suggestion)
    requires "title" in d.properties && d.properties["title"].Str?
    ensures r.score == d.score && |r.term| == |d.properties["title"].s|
    ensures forall k :: 0 <= k < |r.term| ==> !('A' <= r.term[k] <= 'Z')
  {
    Suggestion(ToLower(d.properties["title"].s), d.score)
  }

  /** The suggestions recorded for the documents `ds`, in order. */
  function Suggestions(ds: seq<Document>, hasAc: bool): (r: seq<Suggestion>)
    ensures |r| <= |ds|
    ensures !hasAc ==> r == []
  {
    if ds == [] then []
    else
      var d := ds[|ds| - 1];
      Suggestions(ds[..|ds| - 1], hasAc) + if Eligible(d, hasAc) then [SuggestionFor(d)] else []
  }

  /** Suggestions come only from eligible documents, carry their positive score, and there are
      none without an autocompleter. */
  lemma {:induction false} SuggestionsFromEligible(ds: seq<Document>, hasAc: bool)
    ensures |Suggestions(ds, hasAc)| <= |ds|
    ensures !hasAc ==> Suggestions(ds, hasAc) == []
    ensures forall s :: s in Suggestions(ds, hasAc) ==>
              s.score > 0.0 && exists d :: d in ds && Eligible(d, hasAc) && s == SuggestionFor(d)
  {
    if ds != [] {
      var init, d := ds[..|ds| - 1], ds[|ds| - 1];
      SuggestionsFromEligible(init, hasAc);
      forall s | s in Suggestions(ds, hasAc)
        ensures s.score > 0.0 && exists d :: d in ds && Eligible(d, hasAc) && s == SuggestionFor(d)
      {
        if s in Suggestions(init, hasAc) {
          var d' :| d' in init && Eligible(d', hasAc) && s == SuggestionFor(d');
          assert d' in ds;
        } else {
          assert d in ds;
        }
      }
    }
  }

  /** The document as forwarded on `doch`: a score of exactly 0 becomes 0.0000001. */
  function Fix(d: Document): (r: Document)
    ensures r.id == d.id && r.properties == d.properties
    ensures r.score != 0.0
    ensures d.score != 0.0 ==> r.score == d.score
  {
    if d.score == 0.0 then d.(score := 0.0000001) else d
  }

  /** The documents `ds`, each passed through `Fix`. */
  function FixAll(ds: seq<Document>): (r: seq<Document>)
    ensures |r| == |ds|
  {
    if ds == [] then [] else FixAll(ds[..|ds| - 1]) + [Fix(ds[|ds| - 1])]
  }

  /** Forwarding keeps every document and its order, its identifier and properties, and changes
      its score only from 0 to 0.0000001. */
  lemma {:induction false} FixAllAt(ds: seq<Document>, k: nat)
    requires k < |ds|
    ensures FixAll(ds)[k].id == ds[k].id && FixAll(ds)[k].properties == ds[k].properties
    ensures ds[k].score == 0.0 ==> FixAll(ds)[k].score == 0.0000001
    ensures ds[k].score != 0.0 ==> FixAll(ds)[k].score == ds[k].score
    ensures FixAll(ds)[k].score != 0.0
  {
    if k < |ds| - 1 {
      FixAllAt(ds[..|ds| - 1], k);
    }
  }

  /** How many documents are handled before the first panic: the position of the first panicking
      document, or all of them. */
  function FirstPanic(ds: seq<Document>, hasAc: bool): (p: nat)
    ensures p <= |ds|
    ensures p < |ds| ==> Panics(ds[p], hasAc)
  {
    if ds == [] then 0 else if Panics(ds[0], hasAc) then 0 else 1 + FirstPanic(ds[1..], hasAc)
  }

  /** No document before the first panicking one panics. */
  lemma {:induction false} FirstPanicIsFirst(ds: seq<Document>, hasAc: bool, k: nat)
    requires k < FirstPanic(ds, hasAc)
    ensures !Panics(ds[k], hasAc)
  {
    if k > 0 {
      FirstPanicIsFirst(ds[1..], hasAc, k - 1);
    }
  }

  // ---------------------------------------------------------------------------------------------
  // The suggestion buffer

  /** `x % c` for a non-negative `x`, by repeated subtraction: the position of the cursor after
      `x` steps that wrap from `c - 1` to 0. */
  function Rem(x: nat, c: nat): (r: nat)
    requires c >= 1
    ensures r < c
  {
    if x < c then x else Rem(x - c, c)
  }

  /** One more step moves the cursor to the next slot, or back to 0 from the last one. */
  lemma {:induction false} RemNext(x: nat, c: nat)
    requires c >= 1
    ensures Rem(x + 1, c) == if Rem(x, c) + 1 == c then 0 else Rem(x, c) + 1
  {
    if x >= c {
      RemNext(x - c, c);
    }
  }

  /** The cursor is the remainder of Go's `%`. */
  lemma {:induction false} RemIsMod(x: nat, c: nat)
    requires c >= 1
    ensures Rem(x, c) == x % c
  {
    if x < c {
      ModUnique(x, c, 0, x);
    } else {
      RemIsMod(x - c, c);
      var q, r := (x - c) / c, (x - c) % c;
      assert x - c == q * c + r;
      assert x == (q + 1) * c + r;
      ModUnique(x, c, q + 1, r);
    }
  }

  /** The contents of `terms` (length `2 * chunk`) after the suggestions `rs` were written in order
      at the cursor that wraps from `chunk - 1` to 0. */
  function Buffer(rs: seq<Suggestion>, chunk: int): (b: seq<Suggestion>)
    requires chunk >= 1
    ensures |b| == 2 * chunk
  {
    if rs == [] then seq(2 * chunk, _ => ZeroSuggestion)
    else
      var init := rs[..|rs| - 1];
      Buffer(init, chunk)[Rem(|init|, chunk) := rs[|rs| - 1]]
  }

  /** The upper half of the buffer is never written, and neither is a slot no suggestion has reached. */
  lemma {:induction false} BufferUnwritten(rs: seq<Suggestion>, chunk: int, p: nat)
    requires chunk >= 1 && p < 2 * chunk
    requires p >= chunk || p >= |rs|
    ensures Buffer(rs, chunk)[p] == ZeroSuggestion
  {
    if rs != [] {
      var init := rs[..|rs| - 1];
      BufferUnwritten(init, chunk, p);
    }
  }

  /** Each of the last `chunk` suggestions is still in the buffer, at the slot its position maps to. */
  lemma {:induction false} BufferLatest(rs: seq<Suggestion>, chunk: int, t: nat)
    requires chunk >= 1 && t < |rs| <= t + chunk
    ensures Buffer(rs, chunk)[t % chunk] == rs[t]
  {
    var init := rs[..|rs| - 1];
    RemIsMod(t, chunk);
    RemIsMod(|init|, chunk);
    if t < |init| {
      BufferLatest(init, chunk, t);
      DistinctResidues(|init|, t, chunk);
    }
  }

  /** Writing one more suggestion puts it at the cursor. */
  lemma BufferNext(rs: seq<Suggestion>, s: Suggestion, chunk: int)
    requires chunk >= 1
    ensures Buffer(rs + [s], chunk) == Buffer(rs, chunk)[Rem(|rs|, chunk) := s]
  {
    assert (rs + [s])[..|rs|] == rs;
  }

  // ---------------------------------------------------------------------------------------------
  // The loop

  /** A document before the first panicking one, that does not panic itself, is not the last one handled. */
  lemma NotYetPanicked(docs: seq<Document>, hasAc: bool, i: nat)
    requires i <= FirstPanic(docs, hasAc) && i < |docs| && !Panics(docs[i], hasAc)
    ensures i < FirstPanic(docs, hasAc)
  {
  }

  /** A panicking document at or before the first panicking one is the first one. */
  lemma PanickedFirst(docs: seq<Document>, hasAc: bool, i: nat)
    requires i <= FirstPanic(docs, hasAc) && i < |docs| && Panics(docs[i], hasAc)
    ensures i == FirstPanic(docs, hasAc)
  {
    if i < FirstPanic(docs, hasAc) {
      FirstPanicIsFirst(docs, hasAc, i);
    }
  }

  /** The documents forwarded so far. */
  ghost predicate Forwarding(docs: seq<Document>, i: nat, forwarded: seq<Document>)
  {
    i <= |docs| && forwarded == FixAll(docs[..i])
  }

  /** The suggestions recorded so far and the cursor into the buffer. */
  ghost predicate Recording(docs: seq<Document>, chunk: int, hasAc: bool, i: nat, recorded: seq<Suggestion>, nterms: int)
  {
    chunk >= 1 && i <= |docs| && recorded == Suggestions(docs[..i], hasAc) && nterms == Rem(|recorded|, chunk)
  }

  /** The counters: `n` documents and `dt` bytes since the last report, `totalDt` bytes in all. */
  ghost predicate Counting(docs: seq<Document>, chunk: int, i: nat, n: int, dt: int, totalDt: int)
  {
    && chunk >= 1 && i <= |docs| && 0 <= n <= i && n == Rem(i, chunk)
    && dt == BytesOf(docs[i - n..i]) && totalDt == BytesOf(docs[..i])
  }

  lemma ForwardStep(docs: seq<Document>, i: nat, forwarded: seq<Document>, doc: Document, forwarded': seq<Document>)
    requires Forwarding(docs, i, forwarded) && i < |docs|
    requires doc == Fix(docs[i])
    requires forwarded' == forwarded + [doc]
    ensures Forwarding(docs, i + 1, forwarded')
  {
    assert docs[..i + 1][..i] == docs[..i];
    assert forwarded'[..|forwarded'| - 1] == forwarded;
  }

  lemma RecordStep(docs: seq<Document>, chunk: int, hasAc: bool, i: nat, recorded: seq<Suggestion>, nterms: int,
                   recorded': seq<Suggestion>, nterms': int)
    requires Recording(docs, chunk, hasAc, i, recorded, nterms) && i < |docs|
    requires recorded' == recorded + (if Eligible(docs[i], hasAc) then [SuggestionFor(docs[i])] else [])
    requires nterms' == Rem(|recorded'|, chunk)
    ensures Recording(docs, chunk, hasAc, i + 1, recorded', nterms')
  {
    assert docs[..i + 1][..i] == docs[..i];
  }

  /** The `if doc.Score > 0 && ac != nil` block: the lower-cased title and the score of the document
      go into `terms` at the cursor, which then moves on and wraps from `chunk` to 0. A missing or
      non-string title panics (the type assertion) before anything changes. `recorded` are the
      suggestions written so far, which the buffer reflects. */
  method RecordSuggestion(terms: array<Suggestion>, chunk: int, hasAc: bool, doc: Document, nterms: int,
                          ghost recorded: seq<Suggestion>)
    returns (nterms': int, ghost recorded': seq<Suggestion>, panicked: bool)
    requires chunk >= 1 && terms.Length == 2 * chunk
    requires terms[..] == Buffer(recorded, chunk) && nterms == Rem(|recorded|, chunk)
    modifies terms
    ensures panicked <==> Panics(doc, hasAc)
    ensures panicked ==> terms[..] == Buffer(recorded, chunk) && nterms' == nterms && recorded' == recorded
    ensures !panicked ==> recorded' == recorded + if Eligible(doc, hasAc) then [SuggestionFor(doc)] else []
    ensures !panicked ==> terms[..] == Buffer(recorded', chunk) && nterms' == Rem(|recorded'|, chunk)
  {
    nterms', recorded', panicked := nterms, recorded, false;
    if doc.score > 0.0 && hasAc {
      if !("title" in doc.properties && doc.properties["title"].Str?) {
        // Go: interface conversion panic
        panicked := true;
        return;
      }
      var s := Suggestion(ToLower(doc.properties["title"].s), doc.score);
      ghost var b0 := terms[..];
      terms[nterms'] := s;
      assert terms[..] == b0[nterms := s];
      BufferNext(recorded, s, chunk);
      recorded' := recorded + [s];
      RemNext(|recorded|, chunk);
      nterms' := nterms' + 1;
      if nterms' == chunk {
        nterms' := 0;
      }
    }
  }

  lemma CountStep(docs: seq<Document>, chunk: int, i: nat, n: int, dt: int, totalDt: int,
                  n': int, dt': int, totalDt': int)
    requires Counting(docs, chunk, i, n, dt, totalDt) && i < |docs|
    requires totalDt' == totalDt + PropBytes(docs[i].properties)
    requires Rem(i + 1, chunk) == 0 ==> n' == 0 && dt' == 0
    requires Rem(i + 1, chunk) != 0 ==> n' == n + 1 && dt' == dt + PropBytes(docs[i].properties)
    ensures Counting(docs, chunk, i + 1, n', dt', totalDt')
  {
    RemNext(i, chunk);
    BytesOfSnoc(docs, 0, i);
    assert docs[0..i] == docs[..i] && docs[0..i + 1] == docs[..i + 1];
    if Rem(i + 1, chunk) != 0 {
      BytesOfSnoc(docs, i - n, i);
    } else {
      assert docs[i + 1..i + 1] == [];
    }
  }

  /** The bytes of a slice grow by those of the document appended at its end. */
  lemma BytesOfSnoc(ds: seq<Document>, lo: nat, hi: nat)
    requires lo <= hi < |ds|
    ensures BytesOf(ds[lo..hi + 1]) == BytesOf(ds[lo..hi]) + PropBytes(ds[hi].properties)
  {
    var w := ds[lo..hi + 1];
    assert w[..|w| - 1] == ds[lo..hi];
  }

  /** What has been read since the last report is part of what has been read. */
  lemma WindowWithinTotal(docs: seq<Document>, chunk: int, i: nat, n: int, dt: int, totalDt: int)
    requires Counting(docs, chunk, i, n, dt, totalDt)
    ensures 0 <= dt <= totalDt
  {
    assert docs[..i] == docs[..i - n] + docs[i - n..i];
    BytesOfConcat(docs[..i - n], docs[i - n..i]);
  }

  /** What the state says when the loop stops, at the end of the documents or at a panic. */
  lemma Finish(docs: seq<Document>, chunk: int, hasAc: bool, i: nat, forwarded: seq<Document>,
               recorded: seq<Suggestion>, nterms: int, n: int, dt: int, totalDt: int)
    requires i <= FirstPanic(docs, hasAc) && (i == |docs| || Panics(docs[i], hasAc))
    requires Forwarding(docs, i, forwarded)
    requires Recording(docs, chunk, hasAc, i, recorded, nterms)
    requires Counting(docs, chunk, i, n, dt, totalDt)
    ensures i == FirstPanic(docs, hasAc)
    ensures forwarded == FixAll(docs[..i])
    ensures recorded == Suggestions(docs[..i], hasAc)
    ensures 0 <= nterms < chunk && nterms == |recorded| % chunk
    ensures 0 <= n <= i && n == i % chunk
    ensures dt == BytesOf(docs[i - n..i]) && totalDt == BytesOf(docs[..i]) && 0 <= dt <= totalDt
    ensures n == 0 ==> dt == 0
  {
    assert docs[i..i] == [];
    if i < |docs| {
      PanickedFirst(docs, hasAc, i);
    }
    WindowWithinTotal(docs, chunk, i, n, dt, totalDt);
    RemIsMod(i, chunk);
    RemIsMod(|recorded|, chunk);
  }

  /** The 200 workers reading `doch`: each document with a non-empty `Id` is indexed, the others
      are dropped. With the workers run one after the other, the documents are indexed in the order
      they were forwarded. */
  method IndexingWorkers(doch: seq<Document>) returns (indexed: seq<Document>)
    ensures indexed == ReadDir.Indexable(doch)
  {
    indexed := [];
    var j := 0;
    while j < |doch|
      invariant 0 <= j <= |doch| && indexed == ReadDir.Indexable(doch[..j])
    {
      var doc := doch[j];
      if doc.id != "" {
        indexed := indexed + [doc];
      }
      assert doch[..j + 1][..j] == doch[..j];
      j := j + 1;
    }
    assert doch[..j] == doch;
  }

  /** One turn of `for doc := range ch`: the suggestion block, the score fix, the byte counts, the
      increments of `i` and `n`, the send on `doch` and the report every `chunk` documents, which
      resets `n` and `dt`. The turn starts in the state the loop has after the first `i` documents
      and ends in the state after `i + 1`, unless the title type assertion panics, which happens
      before anything changes. */
  method HandleDocument(docs: seq<Document>, chunk: int, hasAc: bool, terms: array<Suggestion>,
                        i: nat, nterms: int, n: int, dt: int, totalDt: int,
                        forwarded: seq<Document>, ghost recorded: seq<Suggestion>)
    returns (i': nat, nterms': int, n': int, dt': int, totalDt': int,
             forwarded': seq<Document>, ghost recorded': seq<Suggestion>, panicked: bool)
    requires i < |docs| && i <= FirstPanic(docs, hasAc)
    requires Forwarding(docs, i, forwarded)
    requires Recording(docs, chunk, hasAc, i, recorded, nterms)
    requires Counting(docs, chunk, i, n, dt, totalDt)
    requires terms.Length == 2 * chunk && terms[..] == Buffer(recorded, chunk)
    modifies terms
    ensures terms[..] == Buffer(recorded', chunk)
    ensures panicked <==> Panics(docs[i], hasAc)
    ensures panicked ==> i' == i && nterms' == nterms && n' == n && dt' == dt && totalDt' == totalDt
    ensures panicked ==> forwarded' == forwarded && recorded' == recorded
    ensures !panicked ==> i' == i + 1 && i' <= FirstPanic(docs, hasAc)
    ensures !panicked ==> Forwarding(docs, i', forwarded')
    ensures !panicked ==> Recording(docs, chunk, hasAc, i', recorded', nterms')
    ensures !panicked ==> Counting(docs, chunk, i', n', dt', totalDt')
  {
    i', n', dt', totalDt', forwarded' := i, n, dt, totalDt, forwarded;
    var doc := docs[i];
    nterms', recorded', panicked := RecordSuggestion(terms, chunk, hasAc, doc, nterms, recorded);
    if panicked {
      return;
    }
    NotYetPanicked(docs, hasAc, i);
    RecordStep(docs, chunk, hasAc, i, recorded, nterms, recorded', nterms');
    if doc.score == 0.0 {
      doc := doc.(score := 0.0000001);
    }
    dt', totalDt' := AddPropertyBytes(doc.properties, dt', totalDt');
    i', n' := i' + 1, n' + 1;
    forwarded' := forwarded' + [doc];
    ForwardStep(docs, i, forwarded, doc, forwarded');
    RemIsMod(i', chunk);
    if i' % chunk == 0 {
      n', dt' := 0, 0;
    }
    CountStep(docs, chunk, i, n, dt, totalDt, n', dt', totalDt');
  }

  /** The loop `for doc := range ch` of `ReadFile`, over the documents `docs` the reader delivers,
      with `hasAc` saying whether an autocompleter was passed. It returns the documents forwarded on
      `doch` and those the indexing workers index, the buffer `terms` and its cursor `nterms`, and
      the counters `i`, `n`, `dt` and `totalDt`. A panic of the title type assertion stops the run
      before the document that caused it; everything before it is handled. The panic leaves
      `ReadFile` before `close(doch)` and `wg.Wait()`, so the workers are only waited for, and their
      indexing only reported, when there is no panic. */
  method ReadFileLoop(docs: seq<Document>, chunk: int, hasAc: bool)
    returns (forwarded: seq<Document>, indexed: seq<Document>, terms: seq<Suggestion>, nterms: int,
             i: nat, n: int, dt: int, totalDt: int, panicked: bool)
    requires chunk >= 1
    ensures i == FirstPanic(docs, hasAc)
    ensures panicked <==> i < |docs|
    ensures forwarded == FixAll(docs[..i])
    ensures !panicked ==> indexed == ReadDir.Indexable(forwarded)
    ensures panicked ==> indexed == []
    ensures terms == Buffer(Suggestions(docs[..i], hasAc), chunk)
    ensures 0 <= nterms < chunk && nterms == |Suggestions(docs[..i], hasAc)| % chunk
    ensures 0 <= n <= i && n == i % chunk
    ensures dt == BytesOf(docs[i - n..i]) && totalDt == BytesOf(docs[..i]) && 0 <= dt <= totalDt
    ensures n == 0 ==> dt == 0
  {
    var buf := new Suggestion[chunk * 2](_ => ZeroSuggestion);
    assert buf[..] == Buffer([], chunk);
    nterms, i, n, dt, totalDt := 0, 0, 0, 0, 0;
    forwarded := [];
    panicked := false;
    ghost var recorded: seq<Suggestion> := [];
    assert docs[..0] == [] && docs[0..0] == [];
    while i < |docs| && !panicked
      invariant i <= FirstPanic(docs, hasAc)
      invariant panicked ==> i < |docs| && Panics(docs[i], hasAc)
      invariant Forwarding(docs, i, forwarded)
      invariant Recording(docs, chunk, hasAc, i, recorded, nterms)
      invariant Counting(docs, chunk, i, n, dt, totalDt)
      invariant buf.Length == 2 * chunk && buf[..] == Buffer(recorded, chunk)
      decreases |docs| - i, if panicked then 0 else 1
    {
      i, nterms, n, dt, totalDt, forwarded, recorded, panicked :=
        HandleDocument(docs, chunk, hasAc, buf, i, nterms, n, dt, totalDt, forwarded, recorded);
    }
    terms := buf[..];
    Finish(docs, chunk, hasAc, i, forwarded, recorded, nterms, n, dt, totalDt);
    indexed := [];
    if !panicked {
      indexed := IndexingWorkers(forwarded);
    }
  }
}
