/**
 * svs/old-analyze.py for one run: the same ingestion as svs/analyze.py but
 * with SEND_SYNC_INT counted per log-file node, the receive delays grouped
 * by publisher into TIMINGS, and one summary row per publisher (`succ`,
 * `max`, `sync_ints`) followed by the AVG row.
 */
module OldAnalyze {
  import opened Results
  import opened LogRows
  import Analyze

  // ----- ingestion with per-node SYNC_INTS (lines 50-73) -----

  /** `SYNC_INTS[name]` of a `defaultdict(int)`: 0 for a name never counted. */
  function Get(m: map<string, nat>, name: string): nat {
    if name in m then m[name] else 0
  }

  /** The SEND_SYNC_INT rows of one file. */
  function FileSyncInts(f: LogFile): nat {
    SyncIntCount(ParseAll(f.rows))
  }

  /** What one file adds to SYNC_INTS: its count, under its node name. */
  datatype FileCount = FileCount(node: string, count: nat)

  function CountOf(f: LogFile): FileCount {
    FileCount(NodeName(f.path), FileSyncInts(f))
  }

  function Counts(files: seq<LogFile>): (cs: seq<FileCount>)
    ensures |cs| == |files|
    decreases |files|
  {
    if |files| == 0 then [] else Counts(files[..|files| - 1]) + [CountOf(files[|files| - 1])]
  }

  /** The counts added up by node, in order. */
  function Tally(cs: seq<FileCount>): map<string, nat>
    decreases |cs|
  {
    if |cs| == 0 then map[]
    else
      var m := Tally(cs[..|cs| - 1]);
      var c := cs[|cs| - 1];
      m[c.node := Get(m, c.node) + c.count]
  }

  /** SYNC_INTS after the files `files`. */
  function CountByNode(files: seq<LogFile>): map<string, nat> {
    Tally(Counts(files))
  }

  lemma TallyStep(cs: seq<FileCount>, c: FileCount)
    ensures Tally(cs + [c]) == Tally(cs)[c.node := Get(Tally(cs), c.node) + c.count]
  {
    assert (cs + [c])[..|cs|] == cs;
  }

  /** Adding a file's count to the tally so far is the tally with that file. */
  lemma TallyKeeps(m: map<string, nat>, cs: seq<FileCount>, node: string, count: nat)
    requires m == Tally(cs)
    ensures m[node := Get(m, node) + count] == Tally(cs + [FileCount(node, count)])
  {
    assert (cs + [FileCount(node, count)])[..|cs|] == cs;
  }

  lemma CountsStep(files: seq<LogFile>, f: nat)
    requires f < |files|
    ensures Counts(files[..f + 1]) == Counts(files[..f]) + [CountOf(files[f])]
  {
    assert files[..f + 1][..f] == files[..f];
  }

  /** The reference count: the SEND_SYNC_INT rows of every file whose node name is `name`. */
  function SyncIntsOf(files: seq<LogFile>, name: string): nat
    decreases |files|
  {
    if |files| == 0 then 0
    else
      var f := files[|files| - 1];
      SyncIntsOf(files[..|files| - 1], name) + (if NodeName(f.path) == name then FileSyncInts(f) else 0)
  }

  /** `SYNC_INTS[node]` counts exactly the SEND_SYNC_INT rows of the logs named `node`. */
  lemma {:induction false} CountByNodeIsSyncIntsOf(files: seq<LogFile>, name: string)
    ensures Get(CountByNode(files), name) == SyncIntsOf(files, name)
    decreases |files|
  {
    if |files| > 0 {
      CountByNodeIsSyncIntsOf(files[..|files| - 1], name);
      TallyStep(Counts(files[..|files| - 1]), CountOf(files[|files| - 1]));
    }
  }

  /** A node without a log file of its name has `sync_ints` 0. */
  lemma {:induction false} SyncIntsOfAbsent(files: seq<LogFile>, name: string)
    requires forall k :: 0 <= k < |files| ==> NodeName(files[k].path) != name
    ensures Get(CountByNode(files), name) == 0
    decreases |files|
  {
    CountByNodeIsSyncIntsOf(files, name);
    AbsentCountsNothing(files, name);
  }

  lemma {:induction false} AbsentCountsNothing(files: seq<LogFile>, name: string)
    requires forall k :: 0 <= k < |files| ==> NodeName(files[k].path) != name
    ensures SyncIntsOf(files, name) == 0
    decreases |files|
  {
    if |files| > 0 {
      var init := files[..|files| - 1];
      assert forall k :: 0 <= k < |init| ==> init[k] == files[k];
      AbsentCountsNothing(init, name);
      assert NodeName(files[|files| - 1].path) != name;
    }
  }

  /** PUBLISHES/RECIEVES, and SYNC_INTS by node, after all logs are read. */
  datatype Ingested = Ingested(tables: Tables, syncInts: map<string, nat>)

  function IngestByNode(files: seq<LogFile>): Result<Ingested, Failure> {
    match AbsorbAll(Empty, Records(files))
    case Err(e) => Err(e)
    case Ok(tb) => Ok(Ingested(tb, CountByNode(files)))
  }

  /** Both scripts read PUBLISHES and RECIEVES alike; only the sync-interest counter differs. */
  lemma IngestAgrees(files: seq<LogFile>)
    ensures IngestByNode(files).Ok? <==> Analyze.Ingest(files).Ok?
    ensures IngestByNode(files).Err? ==> IngestByNode(files).error == Analyze.Ingest(files).error
    ensures IngestByNode(files).Ok? ==> IngestByNode(files).value.tables == Analyze.Ingest(files).value.tables
  {
  }

  /** The loops of lines 55-73. */
  method IngestLogsByNode(files: seq<LogFile>) returns (res: Result<Ingested, Failure>)
    ensures res == IngestByNode(files)
  {
    var tables := Empty;
    var syncInts: map<string, nat> := map[];
    ghost var counted: seq<FileCount> := [];
    for f := 0 to |files|
      invariant AbsorbAll(Empty, Records(files[..f])) == Ok(tables)
      invariant counted == Counts(files[..f])
      invariant syncInts == Tally(counted)
    {
      var before := Records(files[..f]);
      var recs := ParseAll(files[f].rows);
      assert files[..f + 1][..f] == files[..f];
      assert Records(files[..f + 1]) == before + recs;
      AbsorbAppend(Empty, before, recs);
      var nodename := NodeName(files[f].path);
      var next, count := AbsorbFile(tables, files[f].rows);
      if next.Err? {
        Analyze.FileFailureStops(files, f);
        return Err(next.error);
      }
      tables := next.value;
      assert FileCount(nodename, count) == CountOf(files[f]);
      CountsStep(files, f);
      TallyKeeps(syncInts, counted, nodename, count);
      syncInts := syncInts[nodename := Get(syncInts, nodename) + count];
      counted := counted + [FileCount(nodename, count)];
    }
    assert files[..|files|] == files;
    res := Ok(Ingested(tables, syncInts));
  }

  // ----- TIMINGS (lines 75-90) -----

  /** TIMINGS, with `order` its keys in insertion order. */
  datatype Grouped = Grouped(timings: map<string, seq<int>>, order: seq<string>)

  function GetSeq(m: map<string, seq<int>>, p: string): seq<int> {
    if p in m then m[p] else []
  }

  /** The loop over RECIEVES' keys `keys`, as a fold. */
  function Group(tb: Tables, keys: seq<string>): Result<Grouped, Failure>
    requires forall k :: 0 <= k < |keys| ==> keys[k] in tb.receives
    decreases |keys|
  {
    if |keys| == 0 then Ok(Grouped(map[], []))
    else
      match Group(tb, keys[..|keys| - 1])
      case Err(e) => Err(e)
      case Ok(acc) =>
        var msg := keys[|keys| - 1];
        if msg !in tb.publishes then Err(NeverPublished(msg))
        else
          match Publisher(msg)
          case None => Err(IndexError)
          case Some(p) =>
            var ds := Deltas(tb.receives[msg].times, tb.publishes[msg]);
            Ok(Grouped(acc.timings[p := GetSeq(acc.timings, p) + ds], AddOnce(acc.order, p)))
  }

  /**
   * The grouping fails exactly when the flat pass of svs/analyze.py fails,
   * with the same failure, and TIMINGS' keys are that pass's
   * PUBLISHING_NODES, in the same order.
   */
  lemma {:induction false} GroupAgreesWithCollect(tb: Tables, keys: seq<string>)
    requires forall k :: 0 <= k < |keys| ==> keys[k] in tb.receives
    ensures Group(tb, keys).Ok? <==> Analyze.Collect(tb, keys).Ok?
    ensures Group(tb, keys).Err? ==> Group(tb, keys).error == Analyze.Collect(tb, keys).error
    ensures Group(tb, keys).Ok? ==> Group(tb, keys).value.order == Analyze.Collect(tb, keys).value.publishers
    decreases |keys|
  {
    if |keys| > 0 {
      GroupAgreesWithCollect(tb, keys[..|keys| - 1]);
    }
  }

  /**
   * TIMINGS' keys, and so the rows of the DELTAS CSV, come in first-seen
   * order: a publisher listed earlier is named by an earlier key of RECIEVES.
   */
  lemma GroupFirstSeen(tb: Tables, keys: seq<string>)
    requires forall k :: 0 <= k < |keys| ==> keys[k] in tb.receives
    requires Group(tb, keys).Ok?
    ensures forall i, j :: 0 <= i < j < |Group(tb, keys).value.order| ==>
      Analyze.FirstNaming(keys, Group(tb, keys).value.order[i]) < Analyze.FirstNaming(keys, Group(tb, keys).value.order[j])
  {
    GroupAgreesWithCollect(tb, keys);
    Analyze.CollectFirstSeen(tb, keys);
  }

  /** TIMINGS' keys are listed once each, exactly as they are in the dictionary. */
  lemma {:induction false} GroupKeys(tb: Tables, keys: seq<string>)
    requires forall k :: 0 <= k < |keys| ==> keys[k] in tb.receives
    requires Group(tb, keys).Ok?
    ensures NoDup(Group(tb, keys).value.order)
    ensures forall p :: p in Group(tb, keys).value.timings <==> p in Group(tb, keys).value.order
    decreases |keys|
  {
    if |keys| > 0 {
      GroupKeys(tb, keys[..|keys| - 1]);
    }
  }

  /** The reference: `p`'s message deltas, concatenated in RECIEVES' order. */
  function DeltasOf(tb: Tables, keys: seq<string>, p: string): seq<int>
    requires forall k :: 0 <= k < |keys| ==> keys[k] in tb.receives
    decreases |keys|
  {
    if |keys| == 0 then []
    else
      var msg := keys[|keys| - 1];
      DeltasOf(tb, keys[..|keys| - 1], p)
        + (if msg in tb.publishes && Publisher(msg) == Some(p)
           then Deltas(tb.receives[msg].times, tb.publishes[msg]) else [])
  }

  /** `TIMINGS[p]` is the concatenation of the deltas of `p`'s messages. */
  lemma {:induction false} GroupIsDeltasOf(tb: Tables, keys: seq<string>, p: string)
    requires forall k :: 0 <= k < |keys| ==> keys[k] in tb.receives
    requires Group(tb, keys).Ok?
    ensures GetSeq(Group(tb, keys).value.timings, p) == DeltasOf(tb, keys, p)
    decreases |keys|
  {
    if |keys| > 0 {
      GroupIsDeltasOf(tb, keys[..|keys| - 1], p);
    }
  }

  /** Every publisher in TIMINGS has at least one delta, since every message was received at least once. */
  lemma {:induction false} GroupNonEmpty(tb: Tables, keys: seq<string>)
    requires Wellformed(tb) && forall k :: 0 <= k < |keys| ==> keys[k] in tb.receives
    requires Group(tb, keys).Ok?
    ensures forall p :: p in Group(tb, keys).value.timings ==> |Group(tb, keys).value.timings[p]| > 0
    decreases |keys|
  {
    if |keys| > 0 {
      GroupNonEmpty(tb, keys[..|keys| - 1]);
    }
  }

  /** The summed lengths of the groups of `order`. */
  function SumLengths(m: map<string, seq<int>>, order: seq<string>): nat
    decreases |order|
  {
    if |order| == 0 then 0 else SumLengths(m, order[..|order| - 1]) + |GetSeq(m, order[|order| - 1])|
  }

  /** Replacing the group of a publisher listed once changes the sum by the difference in lengths. */
  lemma {:induction false} SumLengthsUpdate(m: map<string, seq<int>>, order: seq<string>, p: string, v: seq<int>)
    requires NoDup(order)
    ensures p in order ==> SumLengths(m[p := v], order) + |GetSeq(m, p)| == SumLengths(m, order) + |v|
    ensures p !in order ==> SumLengths(m[p := v], order) == SumLengths(m, order)
    decreases |order|
  {
    if |order| > 0 {
      var init := order[..|order| - 1];
      assert p in order ==> p in init || p == order[|order| - 1];
      assert p == order[|order| - 1] ==> p !in init;
      SumLengthsUpdate(m, init, p, v);
    }
  }

  /** Summed over the publishers, the groups hold one delta per receive record of the messages. */
  lemma {:induction false} GroupTotals(tb: Tables, keys: seq<string>)
    requires forall k :: 0 <= k < |keys| ==> keys[k] in tb.receives
    requires Group(tb, keys).Ok?
    ensures SumLengths(Group(tb, keys).value.timings, Group(tb, keys).value.order) == TotalOver(tb.receives, keys)
    decreases |keys|
  {
    if |keys| > 0 {
      var init := keys[..|keys| - 1];
      GroupTotals(tb, init);
      GroupKeys(tb, init);
      var msg := keys[|keys| - 1];
      AddToGroup(Group(tb, init).value, Publisher(msg).value, Deltas(tb.receives[msg].times, tb.publishes[msg]));
    }
  }

  /** Adding `ds` to the group of `p` adds `|ds|` to the summed lengths. */
  lemma AddToGroup(g: Grouped, p: string, ds: seq<int>)
    requires NoDup(g.order) && forall q :: q in g.timings <==> q in g.order
    ensures SumLengths(g.timings[p := GetSeq(g.timings, p) + ds], AddOnce(g.order, p)) == SumLengths(g.timings, g.order) + |ds|
  {
    var v := GetSeq(g.timings, p) + ds;
    SumLengthsUpdate(g.timings, g.order, p, v);
    if p !in g.order {
      var order := AddOnce(g.order, p);
      assert order == g.order + [p] && order[..|order| - 1] == g.order;
      assert p !in g.timings;
    }
  }

  /** One more attributable key extends its publisher's group by its deltas. */
  lemma GroupSnoc(tb: Tables, keys: seq<string>, msg: string, acc: Grouped)
    requires forall k :: 0 <= k < |keys| ==> keys[k] in tb.receives
    requires msg in tb.receives && Group(tb, keys) == Ok(acc)
    requires msg in tb.publishes && Publisher(msg).Some?
    ensures Group(tb, keys + [msg]) == Ok(Grouped(
      acc.timings[Publisher(msg).value := GetSeq(acc.timings, Publisher(msg).value)
        + Deltas(tb.receives[msg].times, tb.publishes[msg])],
      AddOnce(acc.order, Publisher(msg).value)))
  {
    assert (keys + [msg])[..|keys|] == keys;
  }

  /** A failure at key `i` is the failure of the whole grouping. */
  lemma GroupFailureStops(tb: Tables, i: nat)
    requires Wellformed(tb) && i < |tb.order|
    requires Group(tb, tb.order[..i]).Ok? && !Attributable(tb, tb.order[i])
    ensures Group(tb, tb.order)
      == Err(if tb.order[i] !in tb.publishes then NeverPublished(tb.order[i]) else IndexError)
  {
    GroupAgreesWithCollect(tb, tb.order[..i]);
    GroupAgreesWithCollect(tb, tb.order);
    Analyze.FirstFailureStops(tb, i);
  }

  /** The `i`-th key of RECIEVES, when attributable, extends the grouping of the keys before it. */
  lemma GroupNext(tb: Tables, i: nat, acc: Grouped)
    requires Wellformed(tb) && i < |tb.order| && Group(tb, tb.order[..i]) == Ok(acc)
    requires tb.order[i] in tb.publishes && Publisher(tb.order[i]).Some?
    ensures Group(tb, tb.order[..i + 1]) == Ok(Grouped(
      acc.timings[Publisher(tb.order[i]).value := GetSeq(acc.timings, Publisher(tb.order[i]).value)
        + Deltas(tb.receives[tb.order[i]].times, tb.publishes[tb.order[i]])],
      AddOnce(acc.order, Publisher(tb.order[i]).value)))
  {
    TakeSnoc(tb.order, i);
    GroupSnoc(tb, tb.order[..i], tb.order[i], acc);
  }

  /** The loop of lines 77-90 over RECIEVES in insertion order. */
  method GroupTimings(tb: Tables) returns (res: Result<Grouped, Failure>)
    requires Wellformed(tb)
    ensures res == Group(tb, tb.order)
  {
    var timings: map<string, seq<int>> := map[];
    var order: seq<string> := [];
    for i := 0 to |tb.order|
      invariant Group(tb, tb.order[..i]) == Ok(Grouped(timings, order))
    {
      var msg := tb.order[i];
      if msg !in tb.publishes {
        GroupFailureStops(tb, i);
        return Err(NeverPublished(msg));
      }
      var pubtime := tb.publishes[msg];
      var recvTimes := tb.receives[msg].times;
      var deltas := Deltas(recvTimes, pubtime);
      var publisher := Publisher(msg);
      if publisher.None? {
        GroupFailureStops(tb, i);
        return Err(IndexError);
      }
      GroupNext(tb, i, Grouped(timings, order));
      var p := publisher.value;
      order := AddOnce(order, p);
      timings := timings[p := GetSeq(timings, p) + deltas];
    }
    assert tb.order[..|tb.order|] == tb.order;
    res := Ok(Grouped(timings, order));
  }

  // ----- DELTAS and the AVG row (lines 92-125) -----

  /** Python's `max` over a non-empty list. */
  function MaxOf(ds: seq<int>): (m: int)
    requires |ds| > 0
    ensures forall k :: 0 <= k < |ds| ==> ds[k] <= m
    ensures exists k :: 0 <= k < |ds| && ds[k] == m
    decreases |ds|
  {
    if |ds| == 1 then ds[0]
    else
      var m := MaxOf(ds[..|ds| - 1]);
      assert forall k :: 0 <= k < |ds| - 1 ==> ds[..|ds| - 1][k] == ds[k];
      if ds[|ds| - 1] > m then ds[|ds| - 1] else m
  }

  /** The integer columns of one DELTAS row. */
  datatype NodeSummary = NodeSummary(node: string, succ: nat, max: int, syncInts: nat)

  /** Every publisher in `order` has a non-empty group. */
  predicate Summarizable(g: Grouped) {
    forall k :: 0 <= k < |g.order| ==> g.order[k] in g.timings && |g.timings[g.order[k]]| > 0
  }

  /** The loop of lines 93-108, one row per key of TIMINGS, in its order. */
  method Summaries(g: Grouped, syncInts: map<string, nat>) returns (rows: seq<NodeSummary>)
    requires Summarizable(g)
    ensures |rows| == |g.order|
    ensures forall k :: 0 <= k < |rows| ==> rows[k].node == g.order[k]
    ensures forall k :: 0 <= k < |rows| ==> rows[k].succ == |g.timings[g.order[k]]|
    ensures forall k :: 0 <= k < |rows| ==> rows[k].max == MaxOf(g.timings[g.order[k]])
    ensures forall k :: 0 <= k < |rows| ==> rows[k].syncInts == Get(syncInts, g.order[k])
  {
    rows := [];
    for i := 0 to |g.order|
      invariant |rows| == i
      invariant forall k :: 0 <= k < i ==> rows[k].node == g.order[k]
      invariant forall k :: 0 <= k < i ==> rows[k].succ == |g.timings[g.order[k]]|
      invariant forall k :: 0 <= k < i ==> rows[k].max == MaxOf(g.timings[g.order[k]])
      invariant forall k :: 0 <= k < i ==> rows[k].syncInts == Get(syncInts, g.order[k])
    {
      var node := g.order[i];
      var deltas := g.timings[node];
      rows := rows + [NodeSummary(node, |deltas|, MaxOf(deltas), Get(syncInts, node))];
    }
  }

  /** The grouping of a well-formed run can always be summarized. */
  lemma GroupSummarizable(tb: Tables)
    requires Wellformed(tb) && Group(tb, tb.order).Ok?
    ensures Summarizable(Group(tb, tb.order).value)
  {
    GroupKeys(tb, tb.order);
    GroupNonEmpty(tb, tb.order);
  }

  function SumSucc(rows: seq<NodeSummary>): nat
    decreases |rows|
  {
    if |rows| == 0 then 0 else SumSucc(rows[..|rows| - 1]) + rows[|rows| - 1].succ
  }

  /** `sum(T_SUCC)` is the summed length of the groups. */
  lemma {:induction false} SumSuccIsSumLengths(g: Grouped, rows: seq<NodeSummary>, n: nat)
    requires n <= |rows| == |g.order| && Summarizable(g)
    requires forall k :: 0 <= k < |rows| ==> rows[k].succ == |g.timings[g.order[k]]|
    ensures SumSucc(rows[..n]) == SumLengths(g.timings, g.order[..n])
    decreases n
  {
    if n > 0 {
      SumSuccIsSumLengths(g, rows, n - 1);
      assert rows[..n][..n - 1] == rows[..n - 1];
      assert g.order[..n][..n - 1] == g.order[..n - 1];
    }
  }

  /**
   * The `succ` column summed over the publishers is the number of receive
   * records in RECIEVES: no receive is lost or counted twice.
   */
  lemma SuccTotal(tb: Tables, rows: seq<NodeSummary>)
    requires Wellformed(tb) && Group(tb, tb.order).Ok?
    requires Summarizable(Group(tb, tb.order).value)
    requires |rows| == |Group(tb, tb.order).value.order|
    requires forall k :: 0 <= k < |rows| ==>
      rows[k].succ == |Group(tb, tb.order).value.timings[Group(tb, tb.order).value.order[k]]|
    ensures SumSucc(rows) == TotalReceived(tb)
  {
    var g := Group(tb, tb.order).value;
    SumSuccIsSumLengths(g, rows, |rows|);
    assert rows[..|rows|] == rows && g.order[..|rows|] == g.order;
    GroupTotals(tb, tb.order);
  }

  /** `sum(T_SUCC) / len(T_SUCC)` of the AVG row, as numerator and denominator. */
  datatype Average = Average(total: nat, count: nat)

  function AverageSucc(rows: seq<NodeSummary>): (r: Result<Average, Failure>)
    ensures r.Err? <==> |rows| == 0
    ensures r.Err? ==> r.error == ZeroDivision
    ensures r.Ok? ==> r.value.count == |rows| > 0
  {
    if |rows| == 0 then Err(ZeroDivision) else Ok(Average(SumSucc(rows), |rows|))
  }

  /** The AVG row divides by zero exactly when no message of the run was received. */
  lemma AverageFailsWithoutReceives(tb: Tables)
    requires Wellformed(tb) && Group(tb, tb.order).Ok?
    ensures |Group(tb, tb.order).value.order| == 0 <==> |tb.order| == 0
  {
    if |tb.order| > 0 {
      GroupAgreesWithCollect(tb, tb.order);
      var p := Analyze.CollectLast(tb, tb.order);
    }
  }
}
