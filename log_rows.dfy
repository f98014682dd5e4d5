/**
 * The log ingestion shared by svs/analyze.py and svs/old-analyze.py: each
 * row's message is split at "::", classified by the tag in its first field,
 * and folded into the dictionaries PUBLISHES (message -> publish time, the
 * last write winning) and RECIEVES (message -> receiving nodes and times in
 * row order, keys in first-insertion order).  Rows arrive already converted:
 * an integer millisecond time and the message text.
 */
module LogRows {
  import opened Strings
  import opened Results
  import opened LogFormat

  /** One CSV row: `ti` (milliseconds since the epoch) and the message `m`. */
  datatype Row = Row(t: int, m: string)

  /**
   * A row as the loop body sees it: the fields of `row['m'].split('::')`
   * and whether the first one contains each of the three tags.
   */
  datatype Record = Record(t: int, fields: seq<string>, publish: bool, receive: bool, syncInt: bool)

  /** Lines 53-57 of analyze.py (61-65 of old-analyze.py): splitting and tag tests. */
  function Parse(r: Row): (rec: Record)
    ensures |rec.fields| >= 1 && rec.t == r.t
    ensures Join(rec.fields, Sep) == r.m
    ensures forall k :: 0 <= k < |rec.fields| ==> !Occurs(rec.fields[k], Sep)
  {
    SplitFacts(r.m, Sep);
    var fs := Split(r.m, Sep);
    Record(r.t, fs, Contains(fs[0], PublTag), Contains(fs[0], RecvMsgTag), Contains(fs[0], SyncIntTag))
  }

  /** The records of `rows`, in order. */
  function ParseAll(rows: seq<Row>): (recs: seq<Record>)
    ensures |recs| == |rows|
    decreases |rows|
  {
    if |rows| == 0 then [] else ParseAll(rows[..|rows| - 1]) + [Parse(rows[|rows| - 1])]
  }

  /** A publish or receive record without a third field: `m[2]` raises IndexError. */
  predicate Truncated(r: Record) {
    (r.publish || r.receive) && |r.fields| < 3
  }

  /** A publish record for message `key`. */
  predicate PublishOf(r: Record, key: string) {
    r.publish && |r.fields| >= 3 && r.fields[2] == key
  }

  /** A receive record for message `key`. */
  predicate ReceiveOf(r: Record, key: string) {
    r.receive && |r.fields| >= 3 && r.fields[2] == key
  }

  /** Why an analysis run stops: an uncaught Python exception or the explicit `exit(1)`. */
  datatype Failure =
    | IndexError
      /** `print(msg, 'was received and never published :)'); exit(1)` */
    | NeverPublished(msg: string)
    | KeyError(key: string)
    | TypeError
    | ZeroDivision

  /** `RECIEVES[msg]`: `{'nodes': [...], 'times': [...]}`. */
  datatype Received = Received(nodes: seq<string>, times: seq<int>)

  /** PUBLISHES and RECIEVES; `order` is RECIEVES' key order (Python dicts keep insertion order). */
  datatype Tables = Tables(publishes: map<string, int>, receives: map<string, Received>, order: seq<string>)

  const Empty := Tables(map[], map[], [])

  predicate NoDup(xs: seq<string>) {
    forall i, j :: 0 <= i < j < |xs| ==> xs[i] != xs[j]
  }

  /** The first `i + 1` elements are the first `i` and then the `i`-th. */
  lemma TakeSnoc<T>(s: seq<T>, i: nat)
    requires i < |s|
    ensures s[..i + 1] == s[..i] + [s[i]]
  {
  }

  /** RECIEVES' keys are listed once each, and every entry has as many nodes as times, at least one. */
  ghost predicate Wellformed(tb: Tables) {
    && (forall key :: key in tb.receives <==> key in tb.order)
    && NoDup(tb.order)
    && (forall key :: key in tb.receives ==> |tb.receives[key].nodes| == |tb.receives[key].times|)
    && (forall key :: key in tb.receives ==> |tb.receives[key].times| > 0)
  }

  /** Lines 60-63: the entry created on first sight, then the node and the time appended. */
  function AddReceive(tb: Tables, key: string, node: string, t: int): Tables {
    if key in tb.receives then
      var prev := tb.receives[key];
      tb.(receives := tb.receives[key := Received(prev.nodes + [node], prev.times + [t])])
    else
      tb.(receives := tb.receives[key := Received([node], [t])], order := tb.order + [key])
  }

  /** One row of the ingestion loop. */
  function Absorb(tb: Tables, r: Record): (res: Result<Tables, Failure>)
    ensures res.Err? <==> Truncated(r)
    ensures res.Err? ==> res.error == IndexError
    ensures res.Ok? && r.publish ==> r.fields[2] in res.value.publishes && res.value.publishes[r.fields[2]] == r.t
    ensures res.Ok? ==> forall k :: k in res.value.publishes <==> k in tb.publishes || (r.publish && k == r.fields[2])
    ensures res.Ok? ==> forall k :: k in tb.publishes && !(r.publish && k == r.fields[2]) ==> res.value.publishes[k] == tb.publishes[k]
    ensures res.Ok? ==> |tb.order| <= |res.value.order| && res.value.order[..|tb.order|] == tb.order
    ensures res.Ok? && !r.receive ==> res.value.receives == tb.receives && res.value.order == tb.order
    ensures res.Ok? && r.receive ==> r.fields[2] in res.value.receives
  {
    if Truncated(r) then Err(IndexError)
    else
      var fs := r.fields;
      var published := if r.publish then tb.(publishes := tb.publishes[fs[2] := r.t]) else tb;
      Ok(if r.receive then AddReceive(published, fs[2], fs[1], r.t) else published)
  }

  /** The rows, in order, folded into `tb`; the first failing row stops the run. */
  function AbsorbAll(tb: Tables, rows: seq<Record>): (res: Result<Tables, Failure>)
    ensures res.Err? ==> res.error == IndexError
    ensures res.Ok? ==> |tb.order| <= |res.value.order| && res.value.order[..|tb.order|] == tb.order
    decreases |rows|
  {
    if |rows| == 0 then Ok(tb)
    else
      match AbsorbAll(tb, rows[..|rows| - 1])
      case Err(e) => Err(e)
      case Ok(prev) => Absorb(prev, rows[|rows| - 1])
  }

  function Then(res: Result<Tables, Failure>, rows: seq<Record>): Result<Tables, Failure> {
    match res
    case Err(e) => Err(e)
    case Ok(tb) => AbsorbAll(tb, rows)
  }

  /** Ingesting `a` and then `b` is ingesting `a + b`: files are read one after another. */
  lemma {:induction false} AbsorbAppend(tb: Tables, a: seq<Record>, b: seq<Record>)
    ensures AbsorbAll(tb, a + b) == Then(AbsorbAll(tb, a), b)
    decreases |b|
  {
    if |b| == 0 {
      assert a + b == a;
    } else {
      assert (a + b)[..|a + b| - 1] == a + b[..|b| - 1];
      AbsorbAppend(tb, a, b[..|b| - 1]);
    }
  }

  /** Ingestion fails exactly when some row is a truncated publish or receive record, and then with IndexError. */
  lemma {:induction false} AbsorbFailsIff(tb: Tables, rows: seq<Record>)
    ensures AbsorbAll(tb, rows).Err? <==> exists i :: 0 <= i < |rows| && Truncated(rows[i])
    ensures AbsorbAll(tb, rows).Err? ==> AbsorbAll(tb, rows).error == IndexError
    decreases |rows|
  {
    if |rows| > 0 {
      var init := rows[..|rows| - 1];
      AbsorbFailsIff(tb, init);
      if exists i :: 0 <= i < |init| && Truncated(init[i]) {
        var i :| 0 <= i < |init| && Truncated(init[i]);
        assert Truncated(rows[i]);
      }
      if exists i :: 0 <= i < |rows| && Truncated(rows[i]) {
        var i :| 0 <= i < |rows| && Truncated(rows[i]);
        if i < |init| {
          assert Truncated(init[i]);
        }
      }
    }
  }

  /** A message is in PUBLISHES exactly when it was there before or some row published it. */
  lemma {:induction false} PublishedIff(tb: Tables, rows: seq<Record>, key: string)
    requires AbsorbAll(tb, rows).Ok?
    ensures key in AbsorbAll(tb, rows).value.publishes
      <==> key in tb.publishes || exists i :: 0 <= i < |rows| && PublishOf(rows[i], key)
    decreases |rows|
  {
    if |rows| > 0 {
      var init := rows[..|rows| - 1];
      PublishedIff(tb, init, key);
      if exists i :: 0 <= i < |init| && PublishOf(init[i], key) {
        var i :| 0 <= i < |init| && PublishOf(init[i], key);
        assert PublishOf(rows[i], key);
      }
      if exists i :: 0 <= i < |rows| && PublishOf(rows[i], key) {
        var i :| 0 <= i < |rows| && PublishOf(rows[i], key);
        if i < |init| {
          assert PublishOf(init[i], key);
        }
      }
    }
  }

  /** The time PUBLISHES keeps for a message is that of its last publish row. */
  lemma {:induction false} LastPublishWins(tb: Tables, rows: seq<Record>, i: int, key: string)
    requires AbsorbAll(tb, rows).Ok?
    requires 0 <= i < |rows| && PublishOf(rows[i], key)
    requires forall j :: i < j < |rows| ==> !PublishOf(rows[j], key)
    ensures key in AbsorbAll(tb, rows).value.publishes
    ensures AbsorbAll(tb, rows).value.publishes[key] == rows[i].t
    decreases |rows|
  {
    var init := rows[..|rows| - 1];
    if i < |rows| - 1 {
      assert PublishOf(init[i], key);
      LastPublishWins(tb, init, i, key);
    }
  }

  /** The times of the receive rows for `key`, in row order. */
  function ReceiveTimes(rows: seq<Record>, key: string): seq<int>
    decreases |rows|
  {
    if |rows| == 0 then []
    else
      var last := rows[|rows| - 1];
      ReceiveTimes(rows[..|rows| - 1], key) + (if ReceiveOf(last, key) then [last.t] else [])
  }

  /** The receiving nodes (`m[1]`) of the receive rows for `key`, in row order. */
  function ReceiveNodes(rows: seq<Record>, key: string): seq<string>
    decreases |rows|
  {
    if |rows| == 0 then []
    else
      var last := rows[|rows| - 1];
      ReceiveNodes(rows[..|rows| - 1], key) + (if ReceiveOf(last, key) then [last.fields[1]] else [])
  }

  /**
   * RECIEVES holds a message exactly when some row received it, and then
   * its nodes and times are those of the receive rows, in row order.
   */
  lemma {:induction false} ReceivesInRowOrder(rows: seq<Record>, key: string)
    requires AbsorbAll(Empty, rows).Ok?
    ensures |ReceiveNodes(rows, key)| == |ReceiveTimes(rows, key)|
    ensures key in AbsorbAll(Empty, rows).value.receives <==> |ReceiveTimes(rows, key)| > 0
    ensures key in AbsorbAll(Empty, rows).value.receives ==>
      AbsorbAll(Empty, rows).value.receives[key] == Received(ReceiveNodes(rows, key), ReceiveTimes(rows, key))
    decreases |rows|
  {
    if |rows| > 0 {
      var init := rows[..|rows| - 1];
      ReceivesInRowOrder(init, key);
      var prev := AbsorbAll(Empty, init).value;
      var last := rows[|rows| - 1];
      assert AbsorbAll(Empty, rows) == Absorb(prev, last);
      var published := if last.publish then prev.(publishes := prev.publishes[last.fields[2] := last.t]) else prev;
      assert published.receives == prev.receives;
    }
  }

  /** Appending a receive keeps the tables well formed. */
  lemma AddReceiveKeepsWellformed(tb: Tables, key: string, node: string, t: int)
    requires Wellformed(tb)
    ensures Wellformed(AddReceive(tb, key, node, t))
  {
    var res := AddReceive(tb, key, node, t);
    if key !in tb.receives {
      forall i, j | 0 <= i < j < |res.order| ensures res.order[i] != res.order[j] {
        if j == |tb.order| {
          assert res.order[i] == tb.order[i];
        }
      }
    }
  }

  /** Each row keeps the tables well formed. */
  lemma AbsorbKeepsWellformed(tb: Tables, r: Record)
    requires Wellformed(tb) && Absorb(tb, r).Ok?
    ensures Wellformed(Absorb(tb, r).value)
  {
    if r.receive {
      var published := if r.publish then tb.(publishes := tb.publishes[r.fields[2] := r.t]) else tb;
      AddReceiveKeepsWellformed(published, r.fields[2], r.fields[1], r.t);
    }
  }

  lemma {:induction false} AbsorbAllKeepsWellformed(tb: Tables, rows: seq<Record>)
    requires Wellformed(tb) && AbsorbAll(tb, rows).Ok?
    ensures Wellformed(AbsorbAll(tb, rows).value)
    decreases |rows|
  {
    if |rows| > 0 {
      AbsorbAllKeepsWellformed(tb, rows[..|rows| - 1]);
      AbsorbKeepsWellformed(AbsorbAll(tb, rows[..|rows| - 1]).value, rows[|rows| - 1]);
    }
  }

  /** The number of receive records over the messages `keys`. */
  function TotalOver(receives: map<string, Received>, keys: seq<string>): nat
    requires forall k :: 0 <= k < |keys| ==> keys[k] in receives
    decreases |keys|
  {
    if |keys| == 0 then 0
    else TotalOver(receives, keys[..|keys| - 1]) + |receives[keys[|keys| - 1]].times|
  }

  /** `len([x for k in RECIEVES for x in RECIEVES[k]['times']])`. */
  function TotalReceived(tb: Tables): nat
    requires Wellformed(tb)
  {
    TotalOver(tb.receives, tb.order)
  }

  /** The number of receive rows. */
  function ReceiveCount(rows: seq<Record>): nat
    decreases |rows|
  {
    if |rows| == 0 then 0
    else ReceiveCount(rows[..|rows| - 1]) + (if rows[|rows| - 1].receive then 1 else 0)
  }

  /** Replacing the entry of a key listed once changes the total by the difference in lengths. */
  lemma {:induction false} TotalOverUpdate(receives: map<string, Received>, keys: seq<string>, key: string, v: Received)
    requires forall k :: 0 <= k < |keys| ==> keys[k] in receives
    requires NoDup(keys) && key in receives
    ensures key in keys ==>
      TotalOver(receives[key := v], keys) + |receives[key].times| == TotalOver(receives, keys) + |v.times|
    ensures key !in keys ==> TotalOver(receives[key := v], keys) == TotalOver(receives, keys)
    decreases |keys|
  {
    if |keys| > 0 {
      var init := keys[..|keys| - 1];
      assert key in keys ==> key in init || key == keys[|keys| - 1];
      assert key == keys[|keys| - 1] ==> key !in init;
      TotalOverUpdate(receives, init, key, v);
    }
  }

  /** A key not listed does not affect the total. */
  lemma {:induction false} TotalOverFresh(receives: map<string, Received>, keys: seq<string>, key: string, v: Received)
    requires forall k :: 0 <= k < |keys| ==> keys[k] in receives
    requires key !in keys
    ensures TotalOver(receives[key := v], keys) == TotalOver(receives, keys)
    decreases |keys|
  {
    if |keys| > 0 {
      TotalOverFresh(receives, keys[..|keys| - 1], key, v);
    }
  }

  /** Appending a receive adds exactly one record to the total. */
  lemma AddReceiveCounts(tb: Tables, key: string, node: string, t: int)
    requires Wellformed(tb)
    ensures Wellformed(AddReceive(tb, key, node, t))
    ensures TotalReceived(AddReceive(tb, key, node, t)) == TotalReceived(tb) + 1
  {
    AddReceiveKeepsWellformed(tb, key, node, t);
    if key in tb.receives {
      var prev := tb.receives[key];
      TotalOverUpdate(tb.receives, tb.order, key, Received(prev.nodes + [node], prev.times + [t]));
    } else {
      TotalOverFresh(tb.receives, tb.order, key, Received([node], [t]));
      var res := AddReceive(tb, key, node, t);
      assert res.order[..|res.order| - 1] == tb.order;
    }
  }

  /** Each receive row adds exactly one record to the total. */
  lemma AbsorbCounts(tb: Tables, r: Record)
    requires Wellformed(tb) && Absorb(tb, r).Ok?
    ensures Wellformed(Absorb(tb, r).value)
    ensures TotalReceived(Absorb(tb, r).value) == TotalReceived(tb) + (if r.receive then 1 else 0)
  {
    AbsorbKeepsWellformed(tb, r);
    if r.receive {
      var published := if r.publish then tb.(publishes := tb.publishes[r.fields[2] := r.t]) else tb;
      AddReceiveCounts(published, r.fields[2], r.fields[1], r.t);
    }
  }

  /** After ingestion, RECIEVES holds exactly one record per receive row. */
  lemma {:induction false} TotalMatchesRows(rows: seq<Record>)
    requires AbsorbAll(Empty, rows).Ok?
    ensures Wellformed(AbsorbAll(Empty, rows).value)
    ensures TotalReceived(AbsorbAll(Empty, rows).value) == ReceiveCount(rows)
    decreases |rows|
  {
    if |rows| > 0 {
      TotalMatchesRows(rows[..|rows| - 1]);
      AbsorbCounts(AbsorbAll(Empty, rows[..|rows| - 1]).value, rows[|rows| - 1]);
    }
  }

  /** The number of SEND_SYNC_INT rows. */
  function SyncIntCount(rows: seq<Record>): nat
    decreases |rows|
  {
    if |rows| == 0 then 0
    else SyncIntCount(rows[..|rows| - 1]) + (if rows[|rows| - 1].syncInt then 1 else 0)
  }

  lemma {:induction false} SyncIntCountAppend(a: seq<Record>, b: seq<Record>)
    ensures SyncIntCount(a + b) == SyncIntCount(a) + SyncIntCount(b)
    decreases |b|
  {
    if |b| == 0 {
      assert a + b == a;
    } else {
      assert (a + b)[..|a + b| - 1] == a + b[..|b| - 1];
      SyncIntCountAppend(a, b[..|b| - 1]);
    }
  }

  lemma {:induction false} ParseAllAppend(a: seq<Row>, b: seq<Row>)
    ensures ParseAll(a + b) == ParseAll(a) + ParseAll(b)
    decreases |b|
  {
    if |b| == 0 {
      assert a + b == a;
    } else {
      assert (a + b)[..|a + b| - 1] == a + b[..|b| - 1];
      ParseAllAppend(a, b[..|b| - 1]);
    }
  }

  /** Once a prefix of the records fails, the rest are never looked at. */
  lemma FailureStops(tb: Tables, recs: seq<Record>, n: nat)
    requires n <= |recs| && AbsorbAll(tb, recs[..n]).Err?
    ensures AbsorbAll(tb, recs) == AbsorbAll(tb, recs[..n])
  {
    assert recs[..n] + recs[n..] == recs;
    AbsorbAppend(tb, recs[..n], recs[n..]);
  }

  /** One `*.log` file of a run: its path and its rows. */
  datatype LogFile = LogFile(path: string, rows: seq<Row>)

  /** `logfile.split('/')[-1].split('.')[0]`. */
  function NodeName(path: string): string {
    var parts := Split(path, "/");
    Split(parts[|parts| - 1], ".")[0]
  }

  /** A log file `dir/base.ext` belongs to node `base` when `base` has no "/" or ".". */
  lemma NodeNameOfPath(dir: string, base: string, ext: string)
    requires Avoids(base, '/') && Avoids(base, '.') && Avoids(ext, '/')
    ensures NodeName(dir + "/" + (base + "." + ext)) == base
  {
    var file := base + "." + ext;
    assert Avoids(file, '/') by {
      forall k | 0 <= k < |file| ensures file[k] != '/' {
        if k > |base| { assert file[k] == ext[k - |base| - 1]; }
      }
    }
    SplitLastPiece(dir, file, "/");
    assert file == base + ("." + ext);
    SplitFirstPiece(base, "." + ext, ".");
  }

  /** The rows of all files, in the order `glob` lists them. */
  function AllRows(files: seq<LogFile>): seq<Row>
    decreases |files|
  {
    if |files| == 0 then [] else AllRows(files[..|files| - 1]) + files[|files| - 1].rows
  }

  /** The records of all files, file by file. */
  function Records(files: seq<LogFile>): seq<Record>
    decreases |files|
  {
    if |files| == 0 then [] else Records(files[..|files| - 1]) + ParseAll(files[|files| - 1].rows)
  }

  /** Reading the files one by one parses the same records as reading all their rows at once. */
  lemma {:induction false} RecordsAreParsedRows(files: seq<LogFile>)
    ensures Records(files) == ParseAll(AllRows(files))
    decreases |files|
  {
    if |files| > 0 {
      RecordsAreParsedRows(files[..|files| - 1]);
      ParseAllAppend(AllRows(files[..|files| - 1]), files[|files| - 1].rows);
    }
  }

  /** `m = row['message'].split('::')` for each row of one file, in order. */
  method ParseRows(rows: seq<Row>) returns (recs: seq<Record>)
    ensures recs == ParseAll(rows)
  {
    recs := [];
    for i := 0 to |rows|
      invariant recs == ParseAll(rows[..i])
    {
      assert rows[..i + 1][..i] == rows[..i];
      recs := recs + [Parse(rows[i])];
    }
    assert rows[..|rows|] == rows;
  }

  /**
   * The row loop over one file (analyze.py:52-65, old-analyze.py:60-73):
   * the tables after its rows, and how many of them were SEND_SYNC_INT.
   */
  method AbsorbFile(tb: Tables, rows: seq<Row>) returns (res: Result<Tables, Failure>, syncInts: nat)
    ensures res == AbsorbAll(tb, ParseAll(rows))
    ensures res.Ok? ==> syncInts == SyncIntCount(ParseAll(rows))
  {
    var recs := ParseRows(rows);
    res, syncInts := AbsorbRecords(tb, recs);
  }

  /** The body of the row loop, over already-split records. */
  method AbsorbRecords(tb: Tables, recs: seq<Record>) returns (res: Result<Tables, Failure>, syncInts: nat)
    ensures res == AbsorbAll(tb, recs)
    ensures res.Ok? ==> syncInts == SyncIntCount(recs)
  {
    var tables := tb;
    syncInts := 0;
    for i := 0 to |recs|
      invariant AbsorbAll(tb, recs[..i]) == Ok(tables)
      invariant syncInts == SyncIntCount(recs[..i])
    {
      var r := recs[i];
      assert recs[..i + 1][..i] == recs[..i];
      var next := Absorb(tables, r);
      if next.Err? {
        FailureStops(tb, recs, i + 1);
        return next, syncInts;
      }
      tables := next.value;
      if r.syncInt {
        syncInts := syncInts + 1;
      }
    }
    assert recs[..|recs|] == recs;
    res := Ok(tables);
  }

  // ----- attribution, shared by both scripts' second pass -----

  /** `msg.split('/')[3]`, or None where that raises IndexError. */
  function Publisher(msg: string): Option<string> {
    var parts := Split(msg, "/");
    if |parts| >= 4 then Some(parts[3]) else None
  }

  /** The publisher is a piece of `split('/')`, so it holds no "/". */
  lemma PublisherHasNoSlash(msg: string)
    ensures Publisher(msg).Some? ==> !Occurs(Publisher(msg).value, "/")
  {
    SplitFacts(msg, "/");
  }

  /** For `a/b/c/p`, followed by nothing or by "/" and anything, the publisher is `p`. */
  lemma PublisherOfPath(a: string, b: string, c: string, p: string, rest: string)
    requires Avoids(a, '/') && Avoids(b, '/') && Avoids(c, '/') && Avoids(p, '/')
    requires rest == [] || rest[0] == '/'
    ensures Publisher(a + "/" + (b + "/" + (c + "/" + (p + rest)))) == Some(p)
  {
    var s3 := c + "/" + (p + rest);
    var s2 := b + "/" + s3;
    SplitFirstPiece(p, rest, "/");
    PieceAfterSlash(c, p + rest, 0, p);
    PieceAfterSlash(b, s3, 1, p);
    PieceAfterSlash(a, s2, 2, p);
  }

  /** A "/"-free piece put in front moves every piece of the split one place on. */
  lemma PieceAfterSlash(head: string, t: string, k: nat, piece: string)
    requires Avoids(head, '/') && k < |Split(t, "/")| && Split(t, "/")[k] == piece
    ensures k + 1 < |Split(head + "/" + t, "/")| && Split(head + "/" + t, "/")[k + 1] == piece
  {
    SplitAfterHead(head, t, "/");
  }

  /** A received message both scripts can attribute: it was published and names a publisher. */
  predicate Attributable(tb: Tables, msg: string) {
    msg in tb.publishes && Publisher(msg).Some?
  }

  /** `[x - pubtime for x in recv_times]`. */
  function Deltas(times: seq<int>, pubtime: int): (ds: seq<int>)
    ensures |ds| == |times|
    ensures forall k :: 0 <= k < |ds| ==> ds[k] == times[k] - pubtime
    decreases |times|
  {
    if |times| == 0 then [] else Deltas(times[..|times| - 1], pubtime) + [times[|times| - 1] - pubtime]
  }

  /** `if x not in xs: xs.append(x)`. */
  function AddOnce(xs: seq<string>, x: string): (r: seq<string>)
    ensures x in r && |r| >= |xs| && r[..|xs|] == xs
    ensures forall y :: y in r <==> y in xs || y == x
    ensures NoDup(xs) ==> NoDup(r)
  {
    if x in xs then xs else xs + [x]
  }
}
