/** The accounting of `ReadDir` in package ingest: the indexing workers' filter and the windowed
    `Stats` loop that consumes their latencies. */
module ReadDir {
  import opened GoInt
  import opened Index

  /** The positions, in order, of the documents with a non-empty `Id`. */
  function Positions(docs: seq<Document>): (ps: seq<nat>)
    ensures |ps| <= |docs|
    ensures forall k :: 0 <= k < |ps| ==> ps[k] < |docs|
  {
    if docs == [] then []
    else Positions(docs[..|docs| - 1]) + if docs[|docs| - 1].id != "" then [|docs| - 1] else []
  }

  /** The documents the indexing workers hand to `idx.Index`: those with a non-empty `Id`, in order.
      There are no more of them than documents, and each has a non-empty `Id`. */
  function Indexable(docs: seq<Document>): (r: seq<Document>)
    ensures |r| <= |docs|
    ensures forall d :: d in r ==> d.id != ""
  {
    if docs == [] then []
    else Indexable(docs[..|docs| - 1]) + if docs[|docs| - 1].id != "" then [docs[|docs| - 1]] else []
  }

  /** `Positions` lists exactly the non-empty-`Id` documents. */
  lemma {:induction false} PositionsMembers(docs: seq<Document>)
    ensures forall j :: 0 <= j < |docs| ==> (docs[j].id != "" <==> j in Positions(docs))
  {
    if docs != [] {
      var init := docs[..|docs| - 1];
      PositionsMembers(init);
      assert forall j :: 0 <= j < |init| ==> init[j] == docs[j];
    }
  }

  /** `Positions` is strictly increasing, so it lists each document at most once. */
  lemma {:induction false} PositionsIncreasing(docs: seq<Document>)
    ensures forall a, b :: 0 <= a < b < |Positions(docs)| ==> Positions(docs)[a] < Positions(docs)[b]
  {
    if docs != [] {
      PositionsIncreasing(docs[..|docs| - 1]);
    }
  }

  /** `Indexable` is the documents at `Positions`. */
  lemma {:induction false} IndexableAtPositions(docs: seq<Document>)
    ensures |Indexable(docs)| == |Positions(docs)|
    ensures forall k :: 0 <= k < |Indexable(docs)| ==> Indexable(docs)[k] == docs[Positions(docs)[k]]
  {
    if docs != [] {
      var init, last := docs[..|docs| - 1], docs[|docs| - 1];
      IndexableAtPositions(init);
      var xs, ps := Indexable(init), Positions(init);
      var tail, ptail := if last.id != "" then [last] else [], if last.id != "" then [|docs| - 1] else [];
      assert Indexable(docs) == xs + tail;
      assert Positions(docs) == ps + ptail;
      forall k | 0 <= k < |Indexable(docs)| ensures Indexable(docs)[k] == docs[Positions(docs)[k]] {
        if k < |xs| {
          assert Indexable(docs)[k] == xs[k] == init[ps[k]];
          assert Positions(docs)[k] == ps[k];
        }
      }
    }
  }

  /** Looking at one more document extends `Indexable` and `Positions` by it, if its `Id` is set. */
  lemma PositionsNext(docs: seq<Document>, j: nat)
    requires j < |docs|
    ensures Indexable(docs[..j + 1]) == Indexable(docs[..j]) + if docs[j].id != "" then [docs[j]] else []
    ensures Positions(docs[..j + 1]) == Positions(docs[..j]) + if docs[j].id != "" then [j] else []
  {
    assert docs[..j + 1][..j] == docs[..j];
  }

  /** One document handled by the worker keeps the loop's description of what it indexed. */
  lemma IndexStep(docs: seq<Document>, measured: seq<Int64>, j: nat,
                  calls: seq<Document>, latencies: seq<Int64>, ps: seq<nat>,
                  calls': seq<Document>, latencies': seq<Int64>, ps': seq<nat>)
    requires |measured| == |docs| && j < |docs|
    requires calls == Indexable(docs[..j]) && ps == Positions(docs[..j]) && |latencies| == |calls| == |ps|
    requires forall k :: 0 <= k < |ps| ==> ps[k] < |docs| && latencies[k] == measured[ps[k]]
    requires docs[j].id != "" ==> calls' == calls + [docs[j]] && latencies' == latencies + [measured[j]] && ps' == ps + [j]
    requires docs[j].id == "" ==> calls' == calls && latencies' == latencies && ps' == ps
    ensures calls' == Indexable(docs[..j + 1]) && ps' == Positions(docs[..j + 1]) && |latencies'| == |calls'| == |ps'|
    ensures forall k :: 0 <= k < |ps'| ==> ps'[k] < |docs| && latencies'[k] == measured[ps'[k]]
  {
    PositionsNext(docs, j);
  }

  /** The indexing worker pool of `ReadDir`, one document at a time: `measured[k]` is the time the
      `idx.Index` call for `docs[k]` took. It returns the documents indexed and the latencies sent on
      `countch`: one of each per document with a non-empty `Id`, none for the others, whatever the
      index call returned. */
  method IndexWorker(docs: seq<Document>, measured: seq<Int64>) returns (calls: seq<Document>, latencies: seq<Int64>)
    requires |measured| == |docs|
    ensures calls == Indexable(docs)
    ensures |latencies| == |calls| == |Positions(docs)|
    ensures forall k :: 0 <= k < |calls| ==>
              calls[k] == docs[Positions(docs)[k]] && latencies[k] == measured[Positions(docs)[k]]
    ensures forall d :: d in calls ==> d.id != ""
  {
    calls, latencies := [], [];
    var j := 0;
    ghost var ps: seq<nat> := [];
    while j < |docs|
      invariant 0 <= j <= |docs|
      invariant calls == Indexable(docs[..j])
      invariant ps == Positions(docs[..j]) && |latencies| == |calls| == |ps|
      invariant forall k :: 0 <= k < |ps| ==> ps[k] < |docs| && latencies[k] == measured[ps[k]]
    {
      var doc := docs[j];
      ghost var calls0, latencies0, ps0 := calls, latencies, ps;
      if doc.id != "" {
        // idx.Index([doc], opts): its error is discarded
        calls := calls + [doc];
        latencies := latencies + [measured[j]];
        ps := ps + [j];
      }
      IndexStep(docs, measured, j, calls0, latencies0, ps0, calls, latencies, ps);
      j := j + 1;
    }
    assert docs[..j] == docs;
    IndexDone(docs, measured, calls, latencies, ps);
  }

  /** Once every document is handled, the worker's description of its calls is the contract of `IndexWorker`. */
  lemma IndexDone(docs: seq<Document>, measured: seq<Int64>, calls: seq<Document>, latencies: seq<Int64>, ps: seq<nat>)
    requires |measured| == |docs|
    requires calls == Indexable(docs) && ps == Positions(docs) && |latencies| == |calls| == |ps|
    requires forall k :: 0 <= k < |ps| ==> ps[k] < |docs| && latencies[k] == measured[ps[k]]
    ensures forall k :: 0 <= k < |calls| ==>
              calls[k] == docs[Positions(docs)[k]] && latencies[k] == measured[Positions(docs)[k]]
  {
    IndexableAtPositions(docs);
  }

  /** A `Stats` snapshot; `CurrentWindowDuration` and `CurrentWindowRate` are wall-clock figures and are not modelled. */
  datatype Stats = Stats(totalDocs: nat, currentWindowDocs: nat, currentWindowLatency: Int64)

  /** The steps, in order, at which the elapsed-window oracle says the window is over. */
  function EmitSteps(elapsed: seq<bool>): (es: seq<nat>)
    ensures forall k :: 0 <= k < |es| ==> es[k] < |elapsed|
  {
    if elapsed == [] then []
    else EmitSteps(elapsed[..|elapsed| - 1]) + if elapsed[|elapsed| - 1] then [|elapsed| - 1] else []
  }

  /** The steps are listed in increasing order. */
  lemma {:induction false} EmitStepsIncreasing(elapsed: seq<bool>)
    ensures forall a, b :: 0 <= a < b < |EmitSteps(elapsed)| ==> EmitSteps(elapsed)[a] < EmitSteps(elapsed)[b]
  {
    if elapsed != [] {
      EmitStepsIncreasing(elapsed[..|elapsed| - 1]);
    }
  }

  /** The first step of window `k`. */
  function WindowStart(es: seq<nat>, k: nat): nat
    requires k <= |es|
  {
    if k == 0 then 0 else es[k - 1] + 1
  }

  /** The sum of latencies, unbounded. */
  function Sum(xs: seq<Int64>): int
  {
    if xs == [] then 0 else Sum(xs[..|xs| - 1]) + xs[|xs| - 1]
  }

  /** The sum of the window counts of a sequence of snapshots. */
  function WindowDocsSum(ss: seq<Stats>): nat
  {
    if ss == [] then 0 else WindowDocsSum(ss[..|ss| - 1]) + ss[|ss| - 1].currentWindowDocs
  }

  /** The snapshot of the window of steps `start..end` (inclusive): the cumulative count at its end, its
      own count, and its latency sum in int64 arithmetic divided by one more than that count. */
  function Snapshot(rtts: seq<Int64>, start: nat, end: nat): (r: Stats)
    ensures start <= end + 1 <= |rtts| ==> r.totalDocs == end + 1 && r.currentWindowDocs == end + 1 - start
    ensures start <= end + 1 <= |rtts| ==>
              var w, d := Wrap64(Sum(rtts[start..end + 1])), 1 + r.currentWindowDocs;
              (w >= 0 ==> r.currentWindowLatency * d <= w < r.currentWindowLatency * d + d) &&
              (w < 0 ==> r.currentWindowLatency * d - d < w <= r.currentWindowLatency * d)
  {
    if start <= end + 1 <= |rtts| then
      Stats(end + 1, end + 1 - start, Quo(Wrap64(Sum(rtts[start..end + 1])), 1 + (end + 1 - start)))
    else Stats(0, 0, 0)
  }

  /** The snapshots of the windows ending at the steps `es`. */
  function ReportsOf(rtts: seq<Int64>, es: seq<nat>): (ss: seq<Stats>)
    ensures |ss| == |es|
  {
    if es == [] then []
    else ReportsOf(rtts, es[..|es| - 1]) + [Snapshot(rtts, WindowStart(es, |es| - 1), es[|es| - 1])]
  }

  /** The `k`-th snapshot is that of the `k`-th window. */
  lemma {:induction false} ReportsOfAt(rtts: seq<Int64>, es: seq<nat>, k: nat)
    requires k < |es|
    ensures ReportsOf(rtts, es)[k] == Snapshot(rtts, WindowStart(es, k), es[k])
  {
    var init := es[..|es| - 1];
    if k < |es| - 1 {
      ReportsOfAt(rtts, init, k);
      assert init[k] == es[k];
      assert WindowStart(init, k) == WindowStart(es, k);
    }
  }

  /** With the windows ending at the steps `es`: one snapshot per window, holding the cumulative count at
      its end, its own count, and its latency sum (int64) divided by one more than that count; `stt`
      and `totalLatency` hold the window still open, and the last snapshot's latency. */
  ghost predicate WindowsReported(rtts: seq<Int64>, es: seq<nat>, reports: seq<Stats>, stt: Stats, totalLatency: Int64)
  {
    && |reports| == |es|
    && (forall k :: 0 <= k < |es| ==>
          WindowStart(es, k) <= es[k] < |rtts| && reports[k] == Snapshot(rtts, WindowStart(es, k), es[k]))
    && WindowStart(es, |es|) <= |rtts|
    && stt.currentWindowDocs == |rtts| - WindowStart(es, |es|)
    && totalLatency == Wrap64(Sum(rtts[WindowStart(es, |es|)..]))
    && stt.currentWindowLatency == if |es| == 0 then 0 else reports[|es| - 1].currentWindowLatency
  }

  /** The state of the stats loop after `j` latencies: the windows closed so far end at the steps `es`
      where the oracle fired, each with its snapshot; `stt` counts all `j` documents and the open window's;
      `totalLatency` is the open window's latency sum in int64 arithmetic. */
  ghost predicate LoopState(rtts: seq<Int64>, elapsed: seq<bool>, hasOutput: bool, j: nat, es: seq<nat>,
                            reports: seq<Stats>, sent: seq<Stats>, stt: Stats, totalLatency: Int64)
  {
    && Counted(rtts, elapsed, j, es, stt, totalLatency)
    && Recorded(rtts, hasOutput, es, reports, sent, stt)
  }

  /** The counters after `j` latencies, the windows closed so far ending at the steps `es`. */
  ghost predicate Counted(rtts: seq<Int64>, elapsed: seq<bool>, j: nat, es: seq<nat>, stt: Stats, totalLatency: Int64)
  {
    && j <= |rtts| && |elapsed| == |rtts|
    && es == EmitSteps(elapsed[..j])
    && stt.totalDocs == j
    && WindowStart(es, |es|) <= j
    && stt.currentWindowDocs == j - WindowStart(es, |es|)
    && totalLatency == Wrap64(Sum(rtts[WindowStart(es, |es|)..j]))
  }

  /** The snapshots of the windows closed so far, as taken and as sent. */
  ghost predicate Recorded(rtts: seq<Int64>, hasOutput: bool, es: seq<nat>, reports: seq<Stats>, sent: seq<Stats>, stt: Stats)
  {
    && reports == ReportsOf(rtts, es)
    && stt.currentWindowLatency == (if |es| == 0 then 0 else reports[|es| - 1].currentWindowLatency)
    && WindowDocsSum(reports) + stt.currentWindowDocs == stt.totalDocs
    && sent == (if hasOutput then reports else [])
  }

  /** Before the first latency everything is zero. */
  lemma Start(rtts: seq<Int64>, elapsed: seq<bool>, hasOutput: bool)
    requires |elapsed| == |rtts|
    ensures LoopState(rtts, elapsed, hasOutput, 0, [], [], [], Stats(0, 0, 0), 0)
  {
    assert elapsed[..0] == [];
    assert rtts[0..0] == [];
  }

  /** Receiving latency `j` adds it to the counters and the open window's sum. */
  lemma Receive(rtts: seq<Int64>, elapsed: seq<bool>, j: nat, es: seq<nat>, totalLatency: Int64)
    requires j < |rtts| && |elapsed| == |rtts|
    requires es == EmitSteps(elapsed[..j])
    requires WindowStart(es, |es|) <= j
    requires totalLatency == Wrap64(Sum(rtts[WindowStart(es, |es|)..j]))
    ensures EmitSteps(elapsed[..j + 1]) == es + if elapsed[j] then [j] else []
    ensures Add64(totalLatency, rtts[j]) == Wrap64(Sum(rtts[WindowStart(es, |es|)..j + 1]))
  {
    assert elapsed[..j + 1][..j] == elapsed[..j] && elapsed[..j + 1][j] == elapsed[j];
    var start := WindowStart(es, |es|);
    var window := rtts[start..j + 1];
    assert window[..|window| - 1] == rtts[start..j] && window[|window| - 1] == rtts[j];
    Wrap64Add(Sum(rtts[start..j]), rtts[j]);
  }

  /** A latency that arrives before the window is over only counts. */
  lemma StepQuiet(rtts: seq<Int64>, elapsed: seq<bool>, hasOutput: bool, j: nat, es: seq<nat>,
                  reports: seq<Stats>, sent: seq<Stats>, stt: Stats, totalLatency: Int64,
                  stt': Stats, totalLatency': Int64)
    requires LoopState(rtts, elapsed, hasOutput, j, es, reports, sent, stt, totalLatency)
    requires j < |rtts| && !elapsed[j]
    requires stt' == stt.(totalDocs := stt.totalDocs + 1, currentWindowDocs := stt.currentWindowDocs + 1)
    requires totalLatency' == Add64(totalLatency, rtts[j])
    ensures LoopState(rtts, elapsed, hasOutput, j + 1, es, reports, sent, stt', totalLatency')
  {
    Receive(rtts, elapsed, j, es, totalLatency);
  }

  /** A latency that arrives after the window is over counts, closes the window with a snapshot,
      and resets the window counters. */
  lemma StepEmit(rtts: seq<Int64>, elapsed: seq<bool>, hasOutput: bool, j: nat, es: seq<nat>,
                 reports: seq<Stats>, sent: seq<Stats>, stt: Stats, totalLatency: Int64,
                 snapshot: Stats, es': seq<nat>, reports': seq<Stats>, sent': seq<Stats>, stt': Stats, totalLatency': Int64)
    requires LoopState(rtts, elapsed, hasOutput, j, es, reports, sent, stt, totalLatency)
    requires j < |rtts| && elapsed[j]
    requires snapshot == Stats(stt.totalDocs + 1, stt.currentWindowDocs + 1,
                               Quo(Add64(totalLatency, rtts[j]), 1 + (stt.currentWindowDocs + 1)))
    requires es' == es + [j] && reports' == reports + [snapshot]
    requires sent' == if hasOutput then sent + [snapshot] else sent
    requires stt' == snapshot.(currentWindowDocs := 0) && totalLatency' == 0
    ensures LoopState(rtts, elapsed, hasOutput, j + 1, es', reports', sent', stt', totalLatency')
  {
    Receive(rtts, elapsed, j, es, totalLatency);
    var start := WindowStart(es, |es|);
    var docs, latency := stt.currentWindowDocs + 1, Add64(totalLatency, rtts[j]);
    EmitCounted(rtts, elapsed, j, es, stt, snapshot, es', stt', totalLatency');
    EmitSnapshot(rtts, start, j, docs, latency, snapshot);
    ReportsOfSnoc(rtts, es, j);
    WindowDocsSumSnoc(reports, snapshot);
  }

  /** The counters after a window closes: a fresh window starts at the next step. */
  lemma EmitCounted(rtts: seq<Int64>, elapsed: seq<bool>, j: nat, es: seq<nat>, stt: Stats,
                    snapshot: Stats, es': seq<nat>, stt': Stats, totalLatency': Int64)
    requires j < |rtts| && |elapsed| == |rtts| && elapsed[j]
    requires EmitSteps(elapsed[..j + 1]) == es + [j] && es' == es + [j]
    requires snapshot.totalDocs == stt.totalDocs + 1 && stt.totalDocs == j
    requires stt' == snapshot.(currentWindowDocs := 0) && totalLatency' == 0
    ensures Counted(rtts, elapsed, j + 1, es', stt', totalLatency')
  {
    assert rtts[j + 1..j + 1] == [];
  }

  /** The snapshot taken at step `j` of the window that started at `start`. */
  lemma EmitSnapshot(rtts: seq<Int64>, start: nat, j: nat, docs: nat, latency: Int64, snapshot: Stats)
    requires start <= j < |rtts| && docs == j + 1 - start
    requires latency == Wrap64(Sum(rtts[start..j + 1]))
    requires snapshot == Stats(j + 1, docs, Quo(latency, 1 + docs))
    ensures snapshot == Snapshot(rtts, start, j)
  {
  }

  /** Closing one more window appends its snapshot. */
  lemma ReportsOfSnoc(rtts: seq<Int64>, es: seq<nat>, j: nat)
    ensures WindowStart(es + [j], |es| + 1) == j + 1
    ensures ReportsOf(rtts, es + [j]) == ReportsOf(rtts, es) + [Snapshot(rtts, WindowStart(es, |es|), j)]
  {
    var es' := es + [j];
    assert es'[..|es|] == es;
    assert WindowStart(es', |es|) == WindowStart(es, |es|);
  }

  /** One more snapshot adds its window count. */
  lemma WindowDocsSumSnoc(ss: seq<Stats>, s: Stats)
    ensures WindowDocsSum(ss + [s]) == WindowDocsSum(ss) + s.currentWindowDocs
  {
    assert (ss + [s])[..|ss|] == ss;
  }

  /** Increasing window ends below `n` delimit windows that lie within the first `n` steps, and
      `ReportsOf` holds one snapshot per window. */
  lemma ReportsOfWindows(rtts: seq<Int64>, es: seq<nat>)
    requires forall a, b :: 0 <= a < b < |es| ==> es[a] < es[b]
    requires forall k :: 0 <= k < |es| ==> es[k] < |rtts|
    ensures forall k :: 0 <= k < |es| ==>
              WindowStart(es, k) <= es[k] < |rtts| && ReportsOf(rtts, es)[k] == Snapshot(rtts, WindowStart(es, k), es[k])
  {
    forall k | 0 <= k < |es|
      ensures WindowStart(es, k) <= es[k] < |rtts| && ReportsOf(rtts, es)[k] == Snapshot(rtts, WindowStart(es, k), es[k])
    {
      ReportsOfAt(rtts, es, k);
      if k > 0 {
        assert es[k - 1] < es[k];
      }
    }
  }

  /** Once every latency is consumed, the state describes every window. */
  lemma Finish(rtts: seq<Int64>, elapsed: seq<bool>, hasOutput: bool, es: seq<nat>,
               reports: seq<Stats>, sent: seq<Stats>, stt: Stats, totalLatency: Int64)
    requires LoopState(rtts, elapsed, hasOutput, |rtts|, es, reports, sent, stt, totalLatency)
    ensures WindowsReported(rtts, EmitSteps(elapsed), reports, stt, totalLatency)
  {
    assert elapsed[..|rtts|] == elapsed;
    assert es == EmitSteps(elapsed);
    EmitStepsIncreasing(elapsed);
    assert forall a, b :: 0 <= a < b < |es| ==> es[a] < es[b];
    CloseWindows(rtts, es, reports, stt, totalLatency);
  }

  /** The state after the last step, in terms of the window ends alone. */
  lemma CloseWindows(rtts: seq<Int64>, es: seq<nat>, reports: seq<Stats>, stt: Stats, totalLatency: Int64)
    requires forall a, b :: 0 <= a < b < |es| ==> es[a] < es[b]
    requires forall k :: 0 <= k < |es| ==> es[k] < |rtts|
    requires reports == ReportsOf(rtts, es)
    requires WindowStart(es, |es|) <= |rtts| && stt.currentWindowDocs == |rtts| - WindowStart(es, |es|)
    requires totalLatency == Wrap64(Sum(rtts[WindowStart(es, |es|)..|rtts|]))
    requires stt.currentWindowLatency == if |es| == 0 then 0 else reports[|es| - 1].currentWindowLatency
    ensures WindowsReported(rtts, es, reports, stt, totalLatency)
  {
    assert rtts[WindowStart(es, |es|)..|rtts|] == rtts[WindowStart(es, |es|)..];
    ReportsOfWindows(rtts, es);
  }

  /** The snapshots the stats loop reports: each window holds at least one document, and the
      cumulative counts strictly increase up to the final count. */
  lemma ReportedShape(rtts: seq<Int64>, elapsed: seq<bool>, reports: seq<Stats>, stt: Stats, totalLatency: Int64)
    requires WindowsReported(rtts, EmitSteps(elapsed), reports, stt, totalLatency)
    ensures forall k :: 0 <= k < |reports| ==> reports[k].currentWindowDocs >= 1
    ensures forall k :: 0 <= k < |reports| ==> reports[k].totalDocs <= |rtts|
    ensures forall a, b :: 0 <= a < b < |reports| ==> reports[a].totalDocs < reports[b].totalDocs
  {
    var es := EmitSteps(elapsed);
    EmitStepsIncreasing(elapsed);
    forall k | 0 <= k < |reports|
      ensures reports[k].totalDocs == es[k] + 1 && reports[k].currentWindowDocs == es[k] + 1 - WindowStart(es, k)
    {
      assert reports[k] == Snapshot(rtts, WindowStart(es, k), es[k]);
    }
    forall a, b | 0 <= a < b < |reports| ensures reports[a].totalDocs < reports[b].totalDocs {
      assert es[a] < es[b];
    }
  }

  /** One turn of `for rtt := range countch`, for the `j`-th latency: count it, add it to the
      window's latency, and when the window is over take a snapshot, print and send it, and
      reset the window. */
  method HandleLatency(rtts: seq<Int64>, elapsed: seq<bool>, hasOutput: bool, j: nat,
                       reports: seq<Stats>, sent: seq<Stats>, stt: Stats, totalLatency: Int64, ghost es: seq<nat>)
    returns (reports': seq<Stats>, sent': seq<Stats>, stt': Stats, totalLatency': Int64, ghost es': seq<nat>)
    requires j < |rtts|
    requires LoopState(rtts, elapsed, hasOutput, j, es, reports, sent, stt, totalLatency)
    ensures LoopState(rtts, elapsed, hasOutput, j + 1, es', reports', sent', stt', totalLatency')
  {
    var rtt := rtts[j];
    stt' := stt.(totalDocs := stt.totalDocs + 1, currentWindowDocs := stt.currentWindowDocs + 1);
    totalLatency' := Add64(totalLatency, rtt);
    reports', sent', es' := reports, sent, es;
    if elapsed[j] {
      stt' := stt'.(currentWindowLatency := Quo(totalLatency', 1 + stt'.currentWindowDocs));
      reports' := reports' + [stt'];
      sent' := if hasOutput then sent' + [stt'] else sent';
      ghost var snapshot := stt';
      stt' := stt'.(currentWindowDocs := 0);
      totalLatency' := 0;
      es' := es' + [j];
      StepEmit(rtts, elapsed, hasOutput, j, es, reports, sent, stt, totalLatency,
               snapshot, es', reports', sent', stt', totalLatency');
    } else {
      StepQuiet(rtts, elapsed, hasOutput, j, es, reports, sent, stt, totalLatency, stt', totalLatency');
    }
  }

  /** The `for rtt := range countch` loop of `ReadDir` over the first `|rtts|` latencies received.
      `elapsed[k]` says whether more than 200ms had passed since the window started when the k-th
      latency arrived. `reports` are the snapshots taken (and printed), `sent` those delivered on
      the `stats` channel, which exists when `hasOutput`; `stt` and `totalLatency` are the loop's
      state after the last latency. */
  method StatsLoop(rtts: seq<Int64>, elapsed: seq<bool>, hasOutput: bool)
    returns (reports: seq<Stats>, sent: seq<Stats>, stt: Stats, totalLatency: Int64)
    requires |elapsed| == |rtts|
    ensures WindowsReported(rtts, EmitSteps(elapsed), reports, stt, totalLatency)
    ensures stt.totalDocs == |rtts|
    ensures WindowDocsSum(reports) + stt.currentWindowDocs == stt.totalDocs
    ensures sent == if hasOutput then reports else []
  {
    stt := Stats(0, 0, 0);
    totalLatency := 0;
    reports, sent := [], [];
    var j := 0;
    ghost var es: seq<nat> := [];
    Start(rtts, elapsed, hasOutput);
    while j < |rtts|
      invariant LoopState(rtts, elapsed, hasOutput, j, es, reports, sent, stt, totalLatency)
    {
      reports, sent, stt, totalLatency, es := HandleLatency(rtts, elapsed, hasOutput, j, reports, sent, stt, totalLatency, es);
      j := j + 1;
    }
    Finish(rtts, elapsed, hasOutput, es, reports, sent, stt, totalLatency);
  }

  /** The accounting of one `ReadDir` run over a finite stream of documents: the workers index the
      documents with a non-empty `Id` and the stats loop consumes their latencies. `elapsed[k]` is the
      window oracle for the k-th latency. The cumulative count is the number of documents indexed, and
      it splits into the windows already reported plus the window still open. */
  method Accounting(docs: seq<Document>, measured: seq<Int64>, elapsed: seq<bool>, hasOutput: bool)
    returns (reports: seq<Stats>, stt: Stats)
    requires |measured| == |docs| && |elapsed| == |docs|
    ensures stt.totalDocs == |Indexable(docs)|
    ensures WindowDocsSum(reports) + stt.currentWindowDocs == |Indexable(docs)|
    ensures forall k :: 0 <= k < |reports| ==> 1 <= reports[k].currentWindowDocs && reports[k].totalDocs <= |Indexable(docs)|
  {
    var calls, latencies := IndexWorker(docs, measured);
    var sent, totalLatency;
    reports, sent, stt, totalLatency := StatsLoop(latencies, elapsed[..|latencies|], hasOutput);
    ReportedShape(latencies, elapsed[..|latencies|], reports, stt, totalLatency);
  }
}
