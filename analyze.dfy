/**
 * svs/analyze.py for one run: ingest every node's log, check that every
 * received message was published, collect the receive delays and the
 * publishing nodes, and difference the NFD status reports taken at the
 * start and at the end of the run.
 */
module Analyze {
  import opened Strings
  import opened Results
  import opened LogRows

  // ----- ingestion (lines 40-65) -----

  /** RECIEVES/PUBLISHES and the run-wide SYNC_INTS counter after all logs are read. */
  datatype Ingested = Ingested(tables: Tables, syncInts: nat)

  function Ingest(files: seq<LogFile>): Result<Ingested, Failure> {
    var recs := Records(files);
    match AbsorbAll(Empty, recs)
    case Err(e) => Err(e)
    case Ok(tb) => Ok(Ingested(tb, SyncIntCount(recs)))
  }

  /** A failure in the file at index `f` is the failure of the whole ingestion. */
  lemma {:induction false} FileFailureStops(files: seq<LogFile>, f: nat)
    requires f < |files| && AbsorbAll(Empty, Records(files[..f + 1])).Err?
    ensures AbsorbAll(Empty, Records(files)) == AbsorbAll(Empty, Records(files[..f + 1]))
    decreases |files|
  {
    if f + 1 == |files| {
      assert files[..f + 1] == files;
    } else {
      var init := files[..|files| - 1];
      assert init[..f + 1] == files[..f + 1];
      FileFailureStops(init, f);
      AbsorbAppend(Empty, Records(init), ParseAll(files[|files| - 1].rows));
    }
  }

  /** The loops of lines 45-65: every file's rows, in order, into the shared tables and the counter. */
  method IngestLogs(files: seq<LogFile>) returns (res: Result<Ingested, Failure>)
    ensures res == Ingest(files)
  {
    var tables := Empty;
    var syncInts := 0;
    for f := 0 to |files|
      invariant AbsorbAll(Empty, Records(files[..f])) == Ok(tables)
      invariant syncInts == SyncIntCount(Records(files[..f]))
    {
      var before := Records(files[..f]);
      var recs := ParseAll(files[f].rows);
      assert files[..f + 1][..f] == files[..f];
      assert Records(files[..f + 1]) == before + recs;
      AbsorbAppend(Empty, before, recs);
      var next, count := AbsorbFile(tables, files[f].rows);
      if next.Err? {
        FileFailureStops(files, f);
        return Err(next.error);
      }
      SyncIntCountAppend(before, recs);
      tables := next.value;
      syncInts := syncInts + count;
    }
    assert files[..|files|] == files;
    res := Ok(Ingested(tables, syncInts));
  }

  /** Each SEND_SYNC_INT row of any log raises SYNC_INTS by one, from 0. */
  lemma SyncIntsCountRows(files: seq<LogFile>)
    requires Ingest(files).Ok?
    ensures Ingest(files).value.syncInts == SyncIntCount(ParseAll(AllRows(files)))
    ensures Wellformed(Ingest(files).value.tables)
    ensures TotalReceived(Ingest(files).value.tables) == ReceiveCount(ParseAll(AllRows(files)))
  {
    RecordsAreParsedRows(files);
    TotalMatchesRows(Records(files));
  }

  // ----- the timing pass (lines 67-80) -----

  /** What a run adds to TIMING_DATA, and PUBLISHING_NODES. */
  datatype Timings = Timings(deltas: seq<int>, publishers: seq<string>)

  /** The loop over RECIEVES' keys `keys`, as a fold. */
  function Collect(tb: Tables, keys: seq<string>): Result<Timings, Failure>
    requires forall k :: 0 <= k < |keys| ==> keys[k] in tb.receives
    decreases |keys|
  {
    if |keys| == 0 then Ok(Timings([], []))
    else
      match Collect(tb, keys[..|keys| - 1])
      case Err(e) => Err(e)
      case Ok(acc) =>
        var msg := keys[|keys| - 1];
        if msg !in tb.publishes then Err(NeverPublished(msg))
        else
          match Publisher(msg)
          case None => Err(IndexError)
          case Some(p) =>
            Ok(Timings(acc.deltas + Deltas(tb.receives[msg].times, tb.publishes[msg]), AddOnce(acc.publishers, p)))
  }

  /** Every one of `keys` is attributable, checked from the last key back. */
  predicate AllAttributable(tb: Tables, keys: seq<string>)
    decreases |keys|
  {
    |keys| == 0 || (AllAttributable(tb, keys[..|keys| - 1]) && Attributable(tb, keys[|keys| - 1]))
  }

  lemma {:induction false} AllAttributableIff(tb: Tables, keys: seq<string>)
    ensures AllAttributable(tb, keys) <==> forall k :: 0 <= k < |keys| ==> Attributable(tb, keys[k])
    decreases |keys|
  {
    if |keys| > 0 {
      AllAttributableIff(tb, keys[..|keys| - 1]);
      assert forall k :: 0 <= k < |keys| - 1 ==> keys[..|keys| - 1][k] == keys[k];
    }
  }

  lemma {:induction false} CollectOkWhenAllAttributable(tb: Tables, keys: seq<string>)
    requires forall k :: 0 <= k < |keys| ==> keys[k] in tb.receives
    ensures Collect(tb, keys).Ok? <==> AllAttributable(tb, keys)
    decreases |keys|
  {
    if |keys| > 0 {
      CollectOkWhenAllAttributable(tb, keys[..|keys| - 1]);
    }
  }

  /** The pass succeeds exactly when every received message is attributable. */
  lemma CollectOkIff(tb: Tables, keys: seq<string>)
    requires forall k :: 0 <= k < |keys| ==> keys[k] in tb.receives
    ensures Collect(tb, keys).Ok? <==> forall k :: 0 <= k < |keys| ==> Attributable(tb, keys[k])
  {
    CollectOkWhenAllAttributable(tb, keys);
    AllAttributableIff(tb, keys);
  }

  /**
   * The first message that cannot be attributed decides the failure: the
   * `exit(1)` when it was never published, otherwise the IndexError of
   * `msg.split('/')[3]`.
   */
  lemma {:induction false} FirstUnattributable(tb: Tables, keys: seq<string>, i: nat)
    requires forall k :: 0 <= k < |keys| ==> keys[k] in tb.receives
    requires i < |keys| && !Attributable(tb, keys[i])
    requires forall j :: 0 <= j < i ==> Attributable(tb, keys[j])
    ensures Collect(tb, keys) == Err(if keys[i] !in tb.publishes then NeverPublished(keys[i]) else IndexError)
    decreases |keys|
  {
    if i < |keys| - 1 {
      FirstUnattributable(tb, keys[..|keys| - 1], i);
    } else {
      CollectOkIff(tb, keys[..i]);
      assert forall j :: 0 <= j < i ==> keys[..i][j] == keys[j];
    }
  }

  /** TIMING_DATA grows by one delta per receive record of the messages. */
  lemma {:induction false} CollectCounts(tb: Tables, keys: seq<string>)
    requires forall k :: 0 <= k < |keys| ==> keys[k] in tb.receives
    requires Collect(tb, keys).Ok?
    ensures |Collect(tb, keys).value.deltas| == TotalOver(tb.receives, keys)
    decreases |keys|
  {
    if |keys| > 0 {
      CollectCounts(tb, keys[..|keys| - 1]);
    }
  }

  /** PUBLISHING_NODES lists each publisher at most once. */
  lemma {:induction false} CollectPublishersOnce(tb: Tables, keys: seq<string>)
    requires forall k :: 0 <= k < |keys| ==> keys[k] in tb.receives
    requires Collect(tb, keys).Ok?
    ensures NoDup(Collect(tb, keys).value.publishers)
    decreases |keys|
  {
    if |keys| > 0 {
      CollectPublishersOnce(tb, keys[..|keys| - 1]);
    }
  }

  /** Some one of `keys` names publisher `p`. */
  predicate NamesPublisher(keys: seq<string>, p: string)
    decreases |keys|
  {
    |keys| > 0 && (NamesPublisher(keys[..|keys| - 1], p) || Publisher(keys[|keys| - 1]) == Some(p))
  }

  lemma {:induction false} NamesPublisherIff(keys: seq<string>, p: string)
    ensures NamesPublisher(keys, p) <==> exists k :: 0 <= k < |keys| && Publisher(keys[k]) == Some(p)
    decreases |keys|
  {
    if |keys| > 0 {
      var init := keys[..|keys| - 1];
      NamesPublisherIff(init, p);
      if exists k :: 0 <= k < |keys| - 1 && Publisher(keys[k]) == Some(p) {
        var k :| 0 <= k < |keys| - 1 && Publisher(keys[k]) == Some(p);
        assert init[k] == keys[k];
      }
      if exists k :: 0 <= k < |init| && Publisher(init[k]) == Some(p) {
        var k :| 0 <= k < |init| && Publisher(init[k]) == Some(p);
        assert init[k] == keys[k];
      }
    }
  }

  lemma {:induction false} CollectNamesPublishers(tb: Tables, keys: seq<string>, p: string)
    requires forall k :: 0 <= k < |keys| ==> keys[k] in tb.receives
    requires Collect(tb, keys).Ok?
    ensures p in Collect(tb, keys).value.publishers <==> NamesPublisher(keys, p)
    decreases |keys|
  {
    if |keys| > 0 {
      CollectNamesPublishers(tb, keys[..|keys| - 1], p);
    }
  }

  /** PUBLISHING_NODES holds exactly the publishers of the received messages. */
  lemma CollectPublishers(tb: Tables, keys: seq<string>, p: string)
    requires forall k :: 0 <= k < |keys| ==> keys[k] in tb.receives
    requires Collect(tb, keys).Ok?
    ensures p in Collect(tb, keys).value.publishers <==> exists k :: 0 <= k < |keys| && Publisher(keys[k]) == Some(p)
  {
    CollectNamesPublishers(tb, keys, p);
    NamesPublisherIff(keys, p);
  }

  /** The publisher each of `keys` names, in order. */
  function Publishers(keys: seq<string>): (r: seq<Option<string>>)
    ensures |r| == |keys| && forall k :: 0 <= k < |keys| ==> r[k] == Publisher(keys[k])
    decreases |keys|
  {
    if |keys| == 0 then [] else Publishers(keys[..|keys| - 1]) + [Publisher(keys[|keys| - 1])]
  }

  /** The first index of `xs` holding `Some(p)`, or `|xs|` when none does. */
  function FirstIndex(xs: seq<Option<string>>, p: string): (n: nat)
    ensures n <= |xs|
    ensures n < |xs| ==> xs[n] == Some(p)
    ensures forall k :: 0 <= k < n ==> xs[k] != Some(p)
    decreases |xs|
  {
    if |xs| == 0 then 0
    else if xs[0] == Some(p) then 0
    else 1 + FirstIndex(xs[1..], p)
  }

  /** The three facts of `FirstIndex`'s contract single out its value. */
  lemma FirstIndexUnique(xs: seq<Option<string>>, p: string, n: nat)
    requires n <= |xs| && (n < |xs| ==> xs[n] == Some(p))
    requires forall k :: 0 <= k < n ==> xs[k] != Some(p)
    ensures FirstIndex(xs, p) == n
  {
  }

  /** The index of the first of `keys` that names publisher `p`, or `|keys|` when none does. */
  function FirstNaming(keys: seq<string>, p: string): (n: nat)
    ensures n <= |keys|
    ensures n < |keys| ==> Publisher(keys[n]) == Some(p)
    ensures forall k :: 0 <= k < n ==> Publisher(keys[k]) != Some(p)
  {
    FirstIndex(Publishers(keys), p)
  }

  /** Publishers of `ps` each occur in `xs`, in the order of their first occurrence. */
  predicate FirstSeenOrder(xs: seq<Option<string>>, ps: seq<string>) {
    && (forall i :: 0 <= i < |ps| ==> FirstIndex(xs, ps[i]) < |xs|)
    && (forall i, j :: 0 <= i < j < |ps| ==> FirstIndex(xs, ps[i]) < FirstIndex(xs, ps[j]))
  }

  /** An entry appended after the first occurrence of `q` leaves that index alone. */
  lemma FirstIndexExtend(xs: seq<Option<string>>, x: Option<string>, q: string)
    requires FirstIndex(xs, q) < |xs|
    ensures FirstIndex(xs + [x], q) == FirstIndex(xs, q)
  {
    FirstIndexUnique(xs + [x], q, FirstIndex(xs, q));
  }

  /** Appending an entry keeps a list in first-seen order. */
  lemma FirstSeenKeep(xs: seq<Option<string>>, x: Option<string>, ps: seq<string>)
    requires FirstSeenOrder(xs, ps)
    ensures FirstSeenOrder(xs + [x], ps)
    ensures forall i :: 0 <= i < |ps| ==> FirstIndex(xs + [x], ps[i]) < |xs|
  {
    forall i | 0 <= i < |ps|
      ensures FirstIndex(xs + [x], ps[i]) == FirstIndex(xs, ps[i])
    {
      FirstIndexExtend(xs, x, ps[i]);
    }
  }

  /** Every publisher of `ps + [p]` occurs in `xs`. */
  lemma FirstSeenAppendNamed(xs: seq<Option<string>>, ps: seq<string>, p: string)
    requires forall i :: 0 <= i < |ps| ==> FirstIndex(xs, ps[i]) < |xs|
    requires FirstIndex(xs, p) < |xs|
    ensures forall i :: 0 <= i < |ps + [p]| ==> FirstIndex(xs, (ps + [p])[i]) < |xs|
  {
    forall i | 0 <= i < |ps + [p]|
      ensures FirstIndex(xs, (ps + [p])[i]) < |xs|
    {
      if i < |ps| { assert (ps + [p])[i] == ps[i]; }
    }
  }

  /** A publisher first occurring after all of `ps` goes last in first-seen order. */
  lemma FirstSeenAppendOrdered(xs: seq<Option<string>>, ps: seq<string>, p: string, bound: nat)
    requires forall i, j :: 0 <= i < j < |ps| ==> FirstIndex(xs, ps[i]) < FirstIndex(xs, ps[j])
    requires forall i :: 0 <= i < |ps| ==> FirstIndex(xs, ps[i]) < bound
    requires FirstIndex(xs, p) == bound
    ensures forall i, j :: 0 <= i < j < |ps + [p]| ==>
      FirstIndex(xs, (ps + [p])[i]) < FirstIndex(xs, (ps + [p])[j])
  {
    forall i, j | 0 <= i < j < |ps + [p]|
      ensures FirstIndex(xs, (ps + [p])[i]) < FirstIndex(xs, (ps + [p])[j])
    {
      assert (ps + [p])[i] == ps[i];
      if j < |ps| { assert (ps + [p])[j] == ps[j]; }
    }
  }

  /** One more entry, `Some(p)`, keeps the list that `AddOnce` extends in first-seen order. */
  lemma FirstSeenStep(xs: seq<Option<string>>, p: string, ps: seq<string>)
    requires FirstSeenOrder(xs, ps)
    requires p !in ps ==> FirstIndex(xs, p) == |xs|
    ensures FirstSeenOrder(xs + [Some(p)], AddOnce(ps, p))
  {
    FirstSeenKeep(xs, Some(p), ps);
    if p !in ps {
      FirstIndexUnique(xs + [Some(p)], p, |xs|);
      FirstSeenAppendNamed(xs + [Some(p)], ps, p);
      FirstSeenAppendOrdered(xs + [Some(p)], ps, p, |xs|);
      assert AddOnce(ps, p) == ps + [p];
    }
  }

  lemma {:induction false} CollectInFirstSeenOrder(tb: Tables, keys: seq<string>)
    requires forall k :: 0 <= k < |keys| ==> keys[k] in tb.receives
    requires Collect(tb, keys).Ok?
    ensures FirstSeenOrder(Publishers(keys), Collect(tb, keys).value.publishers)
    decreases |keys|
  {
    if |keys| > 0 {
      CollectInFirstSeenOrder(tb, keys[..|keys| - 1]);
      FirstSeenExtend(tb, keys);
    }
  }

  /** The last key of RECIEVES keeps PUBLISHING_NODES in first-seen order. */
  lemma FirstSeenExtend(tb: Tables, keys: seq<string>)
    requires |keys| > 0 && forall k :: 0 <= k < |keys| ==> keys[k] in tb.receives
    requires Collect(tb, keys).Ok?
    requires FirstSeenOrder(Publishers(keys[..|keys| - 1]), Collect(tb, keys[..|keys| - 1]).value.publishers)
    ensures FirstSeenOrder(Publishers(keys), Collect(tb, keys).value.publishers)
  {
    var init := keys[..|keys| - 1];
    var ps := Collect(tb, init).value.publishers;
    var p := CollectLast(tb, keys);
    PublishersLast(keys);
    if p !in ps {
      CollectNamesPublishers(tb, init, p);
      NamesPublisherIff(init, p);
      NotNamedAtEnd(init, p);
    }
    FirstSeenStep(Publishers(init), p, ps);
  }

  /** A successful `Collect` adds the last key's publisher `p` with `AddOnce`. */
  lemma CollectLast(tb: Tables, keys: seq<string>) returns (p: string)
    requires |keys| > 0 && forall k :: 0 <= k < |keys| ==> keys[k] in tb.receives
    requires Collect(tb, keys).Ok?
    ensures Publisher(keys[|keys| - 1]) == Some(p)
    ensures Collect(tb, keys).value.publishers == AddOnce(Collect(tb, keys[..|keys| - 1]).value.publishers, p)
  {
    p := Publisher(keys[|keys| - 1]).value;
  }

  lemma PublishersLast(keys: seq<string>)
    requires |keys| > 0
    ensures Publishers(keys) == Publishers(keys[..|keys| - 1]) + [Publisher(keys[|keys| - 1])]
  {
  }

  /** A publisher none of `keys` names has no first index before the end. */
  lemma NotNamedAtEnd(keys: seq<string>, p: string)
    requires !exists k :: 0 <= k < |keys| && Publisher(keys[k]) == Some(p)
    ensures FirstIndex(Publishers(keys), p) == |keys|
  {
  }

  /**
   * PUBLISHING_NODES is in first-seen order: of two publishers, the one
   * listed first is named by an earlier key of RECIEVES.
   */
  lemma CollectFirstSeen(tb: Tables, keys: seq<string>)
    requires forall k :: 0 <= k < |keys| ==> keys[k] in tb.receives
    requires Collect(tb, keys).Ok?
    ensures forall i :: 0 <= i < |Collect(tb, keys).value.publishers| ==>
      FirstNaming(keys, Collect(tb, keys).value.publishers[i]) < |keys|
    ensures forall i, j :: 0 <= i < j < |Collect(tb, keys).value.publishers| ==>
      FirstNaming(keys, Collect(tb, keys).value.publishers[i]) < FirstNaming(keys, Collect(tb, keys).value.publishers[j])
  {
    CollectInFirstSeenOrder(tb, keys);
  }

  /** The loop of lines 67-80 over RECIEVES in insertion order. */
  method CollectTimings(tb: Tables) returns (res: Result<Timings, Failure>)
    requires Wellformed(tb)
    ensures res == Collect(tb, tb.order)
  {
    var deltas: seq<int> := [];
    var publishers: seq<string> := [];
    for i := 0 to |tb.order|
      invariant Collect(tb, tb.order[..i]) == Ok(Timings(deltas, publishers))
    {
      var msg := tb.order[i];
      if msg !in tb.publishes {
        FirstFailureStops(tb, i);
        return Err(NeverPublished(msg));
      }
      var pubtime := tb.publishes[msg];
      var recvTimes := tb.receives[msg].times;
      var ds := Deltas(recvTimes, pubtime);
      var publisher := Publisher(msg);
      if publisher.None? {
        FirstFailureStops(tb, i);
        return Err(IndexError);
      }
      CollectStep(tb, i, Timings(deltas, publishers));
      publishers := AddOnce(publishers, publisher.value);
      deltas := deltas + ds;
    }
    assert tb.order[..|tb.order|] == tb.order;
    res := Ok(Timings(deltas, publishers));
  }

  /** One more attributable key extends the timings by its deltas and its publisher. */
  lemma CollectStep(tb: Tables, i: nat, acc: Timings)
    requires Wellformed(tb) && i < |tb.order|
    requires Collect(tb, tb.order[..i]) == Ok(acc)
    requires tb.order[i] in tb.publishes && Publisher(tb.order[i]).Some?
    ensures Collect(tb, tb.order[..i + 1])
      == Ok(Timings(acc.deltas + Deltas(tb.receives[tb.order[i]].times, tb.publishes[tb.order[i]]),
                    AddOnce(acc.publishers, Publisher(tb.order[i]).value)))
  {
    assert tb.order[..i + 1][..i] == tb.order[..i];
  }

  /** A failure at key `i` is the failure of the whole pass. */
  lemma {:induction false} FirstFailureStops(tb: Tables, i: nat)
    requires Wellformed(tb) && i < |tb.order|
    requires Collect(tb, tb.order[..i]).Ok? && !Attributable(tb, tb.order[i])
    ensures Collect(tb, tb.order)
      == Err(if tb.order[i] !in tb.publishes then NeverPublished(tb.order[i]) else IndexError)
  {
    CollectOkIff(tb, tb.order[..i]);
    assert forall j :: 0 <= j < i ==> tb.order[..i][j] == tb.order[j];
    FirstUnattributable(tb, tb.order, i);
  }

  // ----- the per-run figures (lines 82-84) -----

  /** The integer operands of the ratios SYNC_INT_DATA, SUCCESS_DATA and NUM_PUBLISHED_DATA for one run. */
  datatype RunFigures = RunFigures(syncInts: nat, received: nat, published: nat)

  /** Lines 82-84: both ratios divide by `len(PUBLISHES)`, so a run without publishes stops. */
  function Figures(ing: Ingested): (r: Result<RunFigures, Failure>)
    requires Wellformed(ing.tables)
    ensures r.Err? <==> |ing.tables.publishes| == 0
    ensures r.Err? ==> r.error == ZeroDivision
    ensures r.Ok? ==> r.value.published == |ing.tables.publishes| > 0
    ensures r.Ok? ==> r.value.syncInts == ing.syncInts && r.value.received == TotalReceived(ing.tables)
  {
    if |ing.tables.publishes| == 0 then Err(ZeroDivision)
    else Ok(RunFigures(ing.syncInts, TotalReceived(ing.tables), |ing.tables.publishes|))
  }

  // ----- status reports (lines 86-115) -----

  /** A status value: `int(v[1])` when that parses, else the text itself. */
  datatype Value = IntValue(n: int) | StrValue(s: string)

  /** What one line of a status file does in `read_status_file`. */
  datatype StatusLine = Stop | Skip | Entry(key: string, value: Value)

  lemma EqualsSurvivesStrip(line: string)
    requires Contains(line, "=")
    ensures |Split(Strip(line), "=")| >= 2
  {
    CharOccurs(line, '=');
    assert "=" == ['='];
    StripKeeps(line, '=');
    CharOccurs(Strip(line), '=');
    SplitFacts(Strip(line), "=");
  }

  /** Lines 96-105 for one line. */
  function ClassifyLine(line: string): (r: StatusLine)
    ensures r.Stop? <==> Contains(line, "Channels")
    ensures r.Skip? <==> !Contains(line, "Channels") && !Contains(line, "=")
  {
    if Contains(line, "Channels") then Stop
    else if !Contains(line, "=") then Skip
    else
      EqualsSurvivesStrip(line);
      var v := Split(Strip(line), "=");
      Entry(v[0], FieldValue(v[1]))
  }

  /** Lines 102-105: `int(v[1])` when that parses, the text itself when it raises ValueError. */
  function FieldValue(field: string): (r: Value)
    ensures r.IntValue? <==> ParseInt(field).Some?
    ensures r.IntValue? ==> ParseInt(field) == Some(r.n)
    ensures r.StrValue? ==> r.s == field
  {
    match ParseInt(field)
    case Some(n) => IntValue(n)
    case None => StrValue(field)
  }

  /**
   * A line that strips to `key=mid`, followed by nothing or by a further
   * "=" and anything, is the entry of `key` valued by `int()` of the second
   * field `mid` when that parses and by `mid` otherwise: the text after a
   * second "=" is dropped.
   */
  lemma KeyValueLine(line: string, key: string, mid: string, tail: string)
    requires !Contains(line, "Channels") && Strip(line) == key + "=" + (mid + tail)
    requires Avoids(key, '=') && Avoids(mid, '=') && (tail == [] || tail[0] == '=')
    ensures ClassifyLine(line) == Entry(key, FieldValue(mid))
  {
    StrippedEquals(line, key, mid + tail);
    EqualsFields(Strip(line), key, mid, tail);
    ClassifyByFields(line, key, mid);
  }

  /** A line with an "=" and no "Channels" is the entry of its first two fields. */
  lemma ClassifyByFields(line: string, key: string, mid: string)
    requires !Contains(line, "Channels") && Contains(line, "=")
    requires |Split(Strip(line), "=")| >= 2 && Split(Strip(line), "=")[0] == key && Split(Strip(line), "=")[1] == mid
    ensures ClassifyLine(line) == Entry(key, FieldValue(mid))
  {
  }

  /** An "=" of the stripped line is an "=" of the line. */
  lemma StrippedEquals(line: string, key: string, rest: string)
    requires Strip(line) == key + "=" + rest
    ensures Contains(line, "=")
  {
    CharOccurs(Strip(line), '=');
    assert Strip(line)[|key|] == '=';
    assert "=" == ['='];
    var i, j :| StripBounds(line, Strip(line), i, j);
    assert line[i + |key|] == '=';
    CharOccurs(line, '=');
  }

  /** `t.split('=')` of `key=mid` plus a tail that is empty or starts a new field. */
  lemma EqualsFields(t: string, key: string, mid: string, tail: string)
    requires t == key + "=" + (mid + tail)
    requires Avoids(key, '=') && Avoids(mid, '=') && (tail == [] || tail[0] == '=')
    ensures |Split(t, "=")| >= 2 && Split(t, "=")[0] == key && Split(t, "=")[1] == mid
  {
    SplitAfterHead(key, mid + tail, "=");
    SplitFirstPiece(mid, tail, "=");
  }

  /** The key of an entry is the text before the first "=" of the stripped line. */
  lemma EntryKeyBeforeFirstEquals(line: string)
    requires ClassifyLine(line).Entry?
    ensures !Occurs(ClassifyLine(line).key, "=")
    ensures exists rest :: Strip(line) == ClassifyLine(line).key + "=" + rest
  {
    var t := Strip(line);
    var key := ClassifyLine(line).key;
    EntryKeyIsFirstPiece(line);
    FirstPieceBeforeEquals(t);
    var rest := Join(Split(t, "=")[1..], "=");
    assert t == key + "=" + rest;
  }

  lemma EntryKeyIsFirstPiece(line: string)
    requires ClassifyLine(line).Entry?
    ensures |Split(Strip(line), "=")| >= 2
    ensures ClassifyLine(line).key == Split(Strip(line), "=")[0]
  {
    EqualsSurvivesStrip(line);
  }

  lemma FirstPieceBeforeEquals(t: string)
    requires |Split(t, "=")| >= 2
    ensures !Occurs(Split(t, "=")[0], "=")
    ensures t == Split(t, "=")[0] + "=" + Join(Split(t, "=")[1..], "=")
  {
    SplitFacts(t, "=");
  }

  function ClassifyAll(lines: seq<string>): (r: seq<StatusLine>)
    ensures |r| == |lines|
    decreases |lines|
  {
    if |lines| == 0 then [] else ClassifyAll(lines[..|lines| - 1]) + [ClassifyLine(lines[|lines| - 1])]
  }

  /** The index of the first Stop line, or the length when there is none. */
  function Cutoff(ls: seq<StatusLine>): (n: nat)
    ensures n <= |ls|
    ensures forall k :: 0 <= k < n ==> !ls[k].Stop?
    ensures n < |ls| ==> ls[n].Stop?
    decreases |ls|
  {
    if |ls| == 0 then 0
    else if ls[0].Stop? then 0
    else 1 + Cutoff(ls[1..])
  }

  /** The dictionary the entries of `ls` build, later keys overwriting earlier ones. */
  function Entries(ls: seq<StatusLine>): map<string, Value>
    decreases |ls|
  {
    if |ls| == 0 then map[]
    else
      var m := Entries(ls[..|ls| - 1]);
      match ls[|ls| - 1]
      case Entry(k, v) => m[k := v]
      case _ => m
  }

  /** A key is in the dictionary exactly when some line is an entry for it. */
  lemma {:induction false} EntriesKeys(ls: seq<StatusLine>, key: string)
    ensures key in Entries(ls) <==> exists i :: 0 <= i < |ls| && ls[i].Entry? && ls[i].key == key
    decreases |ls|
  {
    if |ls| > 0 {
      var init := ls[..|ls| - 1];
      EntriesKeys(init, key);
      if exists i :: 0 <= i < |init| && init[i].Entry? && init[i].key == key {
        var i :| 0 <= i < |init| && init[i].Entry? && init[i].key == key;
        assert ls[i] == init[i];
      }
      if exists i :: 0 <= i < |ls| && ls[i].Entry? && ls[i].key == key {
        var i :| 0 <= i < |ls| && ls[i].Entry? && ls[i].key == key;
        if i < |init| {
          assert init[i] == ls[i];
        }
      }
    }
  }

  /** A key's value is that of its last entry. */
  lemma {:induction false} LastEntryWins(ls: seq<StatusLine>, i: int)
    requires 0 <= i < |ls| && ls[i].Entry?
    requires forall j :: i < j < |ls| ==> !(ls[j].Entry? && ls[j].key == ls[i].key)
    ensures ls[i].key in Entries(ls) && Entries(ls)[ls[i].key] == ls[i].value
    decreases |ls|
  {
    if i < |ls| - 1 {
      var init := ls[..|ls| - 1];
      assert init[i] == ls[i];
      LastEntryWins(init, i);
    }
  }

  /** The dictionary `read_status_file` returns for a file with lines `lines`. */
  function Status(lines: seq<string>): map<string, Value> {
    var ls := ClassifyAll(lines);
    Entries(ls[..Cutoff(ls)])
  }

  /** `read_status_file`: stops at the first line mentioning "Channels", skips lines without "=". */
  method ReadStatusFile(lines: seq<string>) returns (status: map<string, Value>)
    ensures status == Status(lines)
  {
    status := map[];
    var i := 0;
    while i < |lines|
      invariant 0 <= i <= |lines|
      invariant forall k :: 0 <= k < i ==> !ClassifyAll(lines)[k].Stop?
      invariant status == Entries(ClassifyAll(lines)[..i])
    {
      var line := ClassifyNext(lines, i);
      if line.Stop? {
        break;
      }
      assert ClassifyAll(lines)[..i + 1][..i] == ClassifyAll(lines)[..i];
      if line.Entry? {
        status := status[line.key := line.value];
      }
      i := i + 1;
    }
    CutoffIs(ClassifyAll(lines), i);
  }

  /** Classifying the line at index `i`. */
  method ClassifyNext(lines: seq<string>, i: nat) returns (line: StatusLine)
    requires i < |lines|
    ensures line == ClassifyAll(lines)[i]
  {
    line := ClassifyLine(lines[i]);
    ClassifyAllAt(lines, i);
  }

  lemma {:induction false} ClassifyAllAt(lines: seq<string>, i: nat)
    requires i < |lines|
    ensures ClassifyAll(lines)[i] == ClassifyLine(lines[i])
    decreases |lines|
  {
    if i < |lines| - 1 {
      ClassifyAllAt(lines[..|lines| - 1], i);
    }
  }

  /** The first Stop is at `n` (or there is none and `n` is the length). */
  lemma {:induction false} CutoffIs(ls: seq<StatusLine>, n: nat)
    requires n <= |ls| && (forall k :: 0 <= k < n ==> !ls[k].Stop?) && (n < |ls| ==> ls[n].Stop?)
    ensures Cutoff(ls) == n
    decreases |ls|
  {
    if n > 0 {
      CutoffIs(ls[1..], n - 1);
    }
  }

  /** The report pair of one node: the lines of its start and end status files. */
  datatype ReportPair = ReportPair(start: seq<string>, end: seq<string>)

  /** The two dictionaries `read_status_file` makes of a pair. */
  datatype Reports = Reports(start: map<string, Value>, end: map<string, Value>)

  function Read(pair: ReportPair): Reports {
    Reports(Status(pair.start), Status(pair.end))
  }

  function ReadAll(pairs: seq<ReportPair>): (r: seq<Reports>)
    ensures |r| == |pairs|
    decreases |pairs|
  {
    if |pairs| == 0 then [] else ReadAll(pairs[..|pairs| - 1]) + [Read(pairs[|pairs| - 1])]
  }

  datatype Counters = Counters(nInInterests: int, nOutData: int)

  /** `end[key] - start[key]`: KeyError on a missing key (end first), TypeError unless both are integers. */
  function Difference(end: map<string, Value>, start: map<string, Value>, key: string): (r: Result<int, Failure>)
    ensures r.Ok? <==> key in end && key in start && end[key].IntValue? && start[key].IntValue?
    ensures r.Ok? ==> r.value == end[key].n - start[key].n
    ensures key !in end ==> r == Err(KeyError(key))
    ensures key in end && key !in start ==> r == Err(KeyError(key))
    ensures key in end && key in start && !(end[key].IntValue? && start[key].IntValue?) ==> r == Err(TypeError)
  {
    if key !in end then Err(KeyError(key))
    else if key !in start then Err(KeyError(key))
    else if end[key].IntValue? && start[key].IntValue? then Ok(end[key].n - start[key].n)
    else Err(TypeError)
  }

  const InInterests := "nInInterests"
  const OutData := "nOutData"

  /** Lines 111-112 for one pair, added to `acc`. */
  function AddReport(acc: Counters, r: Reports): Result<Counters, Failure> {
    match Difference(r.end, r.start, InInterests)
    case Err(e) => Err(e)
    case Ok(di) =>
      match Difference(r.end, r.start, OutData)
      case Err(e) => Err(e)
      case Ok(dd) => Ok(Counters(acc.nInInterests + di, acc.nOutData + dd))
  }

  /** The loop of lines 88-112 over the pairs' dictionaries, as a fold. */
  function Accumulate(rs: seq<Reports>): Result<Counters, Failure>
    decreases |rs|
  {
    if |rs| == 0 then Ok(Counters(0, 0))
    else
      match Accumulate(rs[..|rs| - 1])
      case Err(e) => Err(e)
      case Ok(acc) => AddReport(acc, rs[|rs| - 1])
  }

  /** The value of an integer counter in a report, 0 where it has none. */
  function Counter(status: map<string, Value>, key: string): int {
    if key in status && status[key].IntValue? then status[key].n else 0
  }

  /** Both counters are present as integers in both reports of every pair. */
  predicate Complete(rs: seq<Reports>) {
    forall k :: 0 <= k < |rs| ==>
      && Difference(rs[k].end, rs[k].start, InInterests).Ok?
      && Difference(rs[k].end, rs[k].start, OutData).Ok?
  }

  /** The sum of a counter over the end reports (`atEnd`) or the start reports. */
  function SumCounter(rs: seq<Reports>, key: string, atEnd: bool): int
    decreases |rs|
  {
    if |rs| == 0 then 0
    else
      var r := rs[|rs| - 1];
      SumCounter(rs[..|rs| - 1], key, atEnd) + Counter(if atEnd then r.end else r.start, key)
  }

  /**
   * The accumulation succeeds exactly when every report pair carries both
   * counters as integers, and then each total is the sum of the end
   * reports' counters minus the sum of the start reports'.
   */
  lemma {:induction false} AccumulateTotals(rs: seq<Reports>)
    ensures Accumulate(rs).Ok? <==> Complete(rs)
    ensures Accumulate(rs).Ok? ==>
      Accumulate(rs).value.nInInterests == SumCounter(rs, InInterests, true) - SumCounter(rs, InInterests, false)
    ensures Accumulate(rs).Ok? ==>
      Accumulate(rs).value.nOutData == SumCounter(rs, OutData, true) - SumCounter(rs, OutData, false)
    decreases |rs|
  {
    if |rs| > 0 {
      var init := rs[..|rs| - 1];
      AccumulateTotals(init);
      assert forall k :: 0 <= k < |init| ==> init[k] == rs[k];
    }
  }

  /** The status loop: both files of each pair read, both counters differenced. */
  method AccumulateReports(pairs: seq<ReportPair>) returns (res: Result<Counters, Failure>)
    ensures res == Accumulate(ReadAll(pairs))
  {
    var rs := ReadReports(pairs);
    res := AccumulateCounters(rs);
  }

  /** `read_status_file` on the start and the end file of each pair. */
  method ReadReports(pairs: seq<ReportPair>) returns (rs: seq<Reports>)
    ensures rs == ReadAll(pairs)
  {
    rs := [];
    for i := 0 to |pairs|
      invariant rs == ReadAll(pairs[..i])
    {
      assert pairs[..i + 1][..i] == pairs[..i];
      var start := ReadStatusFile(pairs[i].start);
      var end := ReadStatusFile(pairs[i].end);
      rs := rs + [Reports(start, end)];
    }
    assert pairs[..|pairs|] == pairs;
  }

  /** Lines 111-112 over the pairs' dictionaries, in order. */
  method AccumulateCounters(rs: seq<Reports>) returns (res: Result<Counters, Failure>)
    ensures res == Accumulate(rs)
  {
    var nInInterests := 0;
    var nOutData := 0;
    for i := 0 to |rs|
      invariant Accumulate(rs[..i]) == Ok(Counters(nInInterests, nOutData))
    {
      assert rs[..i + 1][..i] == rs[..i];
      var next := AddReport(Counters(nInInterests, nOutData), rs[i]);
      if next.Err? {
        ReportFailureStops(rs, i + 1);
        return next;
      }
      nInInterests := next.value.nInInterests;
      nOutData := next.value.nOutData;
    }
    assert rs[..|rs|] == rs;
    res := Ok(Counters(nInInterests, nOutData));
  }

  lemma {:induction false} ReportFailureStops(rs: seq<Reports>, n: nat)
    requires n <= |rs| && Accumulate(rs[..n]).Err?
    ensures Accumulate(rs) == Accumulate(rs[..n])
    decreases |rs|
  {
    if n < |rs| {
      assert rs[..|rs| - 1][..n] == rs[..n];
      ReportFailureStops(rs[..|rs| - 1], n);
    } else {
      assert rs[..n] == rs;
    }
  }
}
