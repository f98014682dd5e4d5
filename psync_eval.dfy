/**
 * The PSync harness (`Producer` in psync/eval.cpp): `run()` publishes up to
 * 249 times from its own loop, sleeping a drawn delay before each publication
 * and stopping after the first one that finds more than 120 s elapsed; it
 * then sleeps 30 s and tears the producer and the face down.  Every sync
 * update is logged as one RECV_STATE and one RECV_MSG per sequence number.
 *
 * Calls into PSync, the face, the logger and `usleep`/`sleep` are recorded in
 * the ghost `trace` as `Effect`s; the draws of `m_sleepTime` and the clock
 * readings are parameters.
 */
module PSyncEval {
  import opened Timing
  import opened Traces
  import opened SeqNos
  import opened LogFormat
  import Experiment

  /** One entry of the vector handed to `processSyncUpdate`. */
  datatype MissingDataInfo = MissingDataInfo(prefix: string, lowSeq: SeqNo, highSeq: SeqNo)

  datatype Effect =
    | Log(entry: LogEntry)
      /** Sleeping `ms` milliseconds (`usleep(ms * 1000)`, `sleep(30)`). */
    | Sleep(ms: int)
      /** `publishName(prefix)`: PSync bumps its own sequence number for `prefix`. */
    | PublishName(prefix: string)
    | AddUserNode(prefix: string)
      /** `m_fullProducer.reset()`. */
    | ReleaseProducer
      /** `m_face.shutdown()`. */
    | ShutdownFace

  /** The loop index runs from 1 while it is below this bound. */
  const LoopBound := 250
  /** The final `sleep(30)`, in milliseconds. */
  const DrainMs := 30000

  function PublEntry(prefix: string, i: int): LogEntry {
    LogEntry(PublTag, [Str(prefix), Chat(ChatMessage(prefix, i))])
  }

  function RecvStateEntry(prefix: string, i: int): LogEntry {
    LogEntry(RecvStateTag, [Str(prefix), Num(i)])
  }

  function RecvMsgEntry(userPrefix: string, prefix: string, i: int): LogEntry {
    LogEntry(RecvMsgTag, [Str(userPrefix), Chat(ChatMessage(prefix, i))])
  }

  /**
   * The index of the iteration that ends the loop, scanning from `i`: the
   * first whose clock reading (`clock[i - 1]`, taken after its publication) is
   * more than 120 s past `start`, or the last one.
   */
  function StopFrom(start: int, clock: seq<int>, i: nat): (r: nat)
    requires 1 <= i < LoopBound && |clock| >= LoopBound - 1
    ensures i <= r < LoopBound
    ensures forall j :: i - 1 <= j < r - 1 ==> clock[j] - start <= Experiment.PublishWindow
    ensures r < LoopBound - 1 ==> clock[r - 1] - start > Experiment.PublishWindow
    decreases LoopBound - i
  {
    if clock[i - 1] - start > Experiment.PublishWindow || i == LoopBound - 1 then i
    else StopFrom(start, clock, i + 1)
  }

  /** How many times `run()` publishes. */
  function Stop(start: int, clock: seq<int>): nat
    requires |clock| >= LoopBound - 1
  {
    StopFrom(start, clock, 1)
  }

  /**
   * `run()` publishes at least once and at most 249 times; every publication
   * but the last found at most 120 s elapsed, and the last one found more
   * unless the loop ran out.
   */
  lemma StopBounds(start: int, clock: seq<int>)
    requires |clock| >= LoopBound - 1
    ensures 1 <= Stop(start, clock) <= LoopBound - 1
    ensures forall j :: 0 <= j < Stop(start, clock) - 1 ==> clock[j] - start <= Experiment.PublishWindow
    ensures Stop(start, clock) < LoopBound - 1 ==> clock[Stop(start, clock) - 1] - start > Experiment.PublishWindow
  {
  }

  /** The loop stops at `n` when every earlier reading is within the window and `n`'s is not, or `n` is the last. */
  lemma {:induction false} StopFromIs(start: int, clock: seq<int>, i: nat, n: nat)
    requires 1 <= i <= n < LoopBound && |clock| >= LoopBound - 1
    requires forall j :: i - 1 <= j < n - 1 ==> clock[j] - start <= Experiment.PublishWindow
    requires n == LoopBound - 1 || clock[n - 1] - start > Experiment.PublishWindow
    ensures StopFrom(start, clock, i) == n
    decreases n - i
  {
    if i < n {
      assert clock[i - 1] - start <= Experiment.PublishWindow;
      StopFromIs(start, clock, i + 1, n);
    }
  }

  /** Iteration `i`: sleep the drawn delay, publish, log `prefix=i`. */
  function Iteration(prefix: string, delay: int, i: int): seq<Effect> {
    [Sleep(delay), PublishName(prefix), Log(PublEntry(prefix, i))]
  }

  /** The first `n` iterations. */
  function Iterations(prefix: string, delays: seq<int>, n: nat): seq<Effect>
    requires n <= |delays|
  {
    if n == 0 then [] else Iterations(prefix, delays, n - 1) + Iteration(prefix, delays[n - 1], n)
  }

  /** All of `run()` for a given start reading, draws and clock readings. */
  function RunEffects(prefix: string, start: int, delays: seq<int>, clock: seq<int>): seq<Effect>
    requires |delays| >= LoopBound - 1 && |clock| >= LoopBound - 1
  {
    [Log(LogEntry(NodeInitTag, [Str(prefix)]))]
    + Iterations(prefix, delays, Stop(start, clock))
    + [Sleep(DrainMs), ReleaseProducer, ShutdownFace]
  }

  /**
   * The `k`-th iteration (from 0) sleeps `delays[k]`, publishes the node's
   * own prefix and logs `prefix=k+1`: PSync's `k+1`-th sequence number for
   * the prefix and the logged message number agree.
   */
  lemma {:induction false} IterationsAt(prefix: string, delays: seq<int>, n: nat)
    requires n <= |delays|
    ensures |Iterations(prefix, delays, n)| == 3 * n
    ensures forall k :: 0 <= k < n ==> Iterations(prefix, delays, n)[3 * k] == Sleep(delays[k])
    ensures forall k :: 0 <= k < n ==> Iterations(prefix, delays, n)[3 * k + 1] == PublishName(prefix)
    ensures forall k :: 0 <= k < n ==> Iterations(prefix, delays, n)[3 * k + 2] == Log(PublEntry(prefix, k + 1))
  {
    if n > 0 {
      IterationsAt(prefix, delays, n - 1);
    }
  }

  /** Every sleep of the loop is a delay the distribution can draw. */
  lemma IterationSleepsInRange(prefix: string, delays: seq<int>, n: nat, cfg: Config)
    requires n <= |delays|
    requires forall k :: 0 <= k < |delays| ==> cfg.InRange(delays[k])
    ensures forall j, d ::
      (0 <= j < |Iterations(prefix, delays, n)| && Iterations(prefix, delays, n)[j] == Sleep(d)) ==> cfg.InRange(d)
  {
    IterationsAt(prefix, delays, n);
    var it := Iterations(prefix, delays, n);
    forall j, d | 0 <= j < |it| && it[j] == Sleep(d)
      ensures cfg.InRange(d)
    {
      var k := j / 3;
      assert j == 3 * k || j == 3 * k + 1 || j == 3 * k + 2;
      assert it[3 * k + 1].PublishName? && it[3 * k + 2].Log?;
      assert j == 3 * k;
    }
  }

  /**
   * Every sleep of `run()` but the final `sleep(30)` is a drawn delay, so it
   * lies in the distribution's range.
   */
  lemma RunSleepsInRange(prefix: string, start: int, delays: seq<int>, clock: seq<int>, cfg: Config)
    requires |delays| >= LoopBound - 1 && |clock| >= LoopBound - 1
    requires forall k :: 0 <= k < |delays| ==> cfg.InRange(delays[k])
    ensures var r := RunEffects(prefix, start, delays, clock);
      && |r| >= 4 && r[|r| - 3] == Sleep(DrainMs)
      && forall j, d :: 0 <= j < |r| - 3 && r[j] == Sleep(d) ==> cfg.InRange(d)
  {
    var n := Stop(start, clock);
    StopBounds(start, clock);
    var it := Iterations(prefix, delays, n);
    IterationSleepsInRange(prefix, delays, n, cfg);
    var r := RunEffects(prefix, start, delays, clock);
    assert r == [Log(LogEntry(NodeInitTag, [Str(prefix)]))] + it + [Sleep(DrainMs), ReleaseProducer, ShutdownFace];
    forall j, d | 0 <= j < |r| - 3 && r[j] == Sleep(d) ensures cfg.InRange(d) {
      assert j > 0 && r[j] == it[j - 1];
    }
  }

  /** The log records of one update entry, ascending. */
  function RangeEffects(userPrefix: string, prefix: string, lo: int, hi: int): seq<Effect>
    decreases hi - lo
  {
    if hi < lo then []
    else (RangeEffects(userPrefix, prefix, lo, hi - 1)
          + [Log(RecvStateEntry(prefix, hi)), Log(RecvMsgEntry(userPrefix, prefix, hi))])
  }

  /** What `processSyncUpdate(updates)` logs: the entries' records in vector order. */
  function UpdateEffects(userPrefix: string, updates: seq<MissingDataInfo>): seq<Effect>
    decreases |updates|
  {
    if |updates| == 0 then [] else
    var u := updates[|updates| - 1];
    UpdateEffects(userPrefix, updates[..|updates| - 1]) + RangeEffects(userPrefix, u.prefix, u.lowSeq, u.highSeq)
  }

  /**
   * For the `k`-th number `lo + k` of an entry, the `2k`-th record is
   * RECV_STATE `prefix::lo+k` and the next RECV_MSG `prefix=lo+k`.
   */
  lemma {:induction false} RangeEffectsAt(userPrefix: string, prefix: string, lo: int, hi: int)
    ensures |RangeEffects(userPrefix, prefix, lo, hi)| == 2 * |SeqRange(lo, hi)|
    ensures forall k :: 0 <= k < |SeqRange(lo, hi)| ==>
      RangeEffects(userPrefix, prefix, lo, hi)[2 * k] == Log(RecvStateEntry(prefix, lo + k))
    ensures forall k :: 0 <= k < |SeqRange(lo, hi)| ==>
      RangeEffects(userPrefix, prefix, lo, hi)[2 * k + 1] == Log(RecvMsgEntry(userPrefix, prefix, lo + k))
    decreases hi - lo
  {
    if lo <= hi {
      RangeEffectsAt(userPrefix, prefix, lo, hi - 1);
    }
  }

  lemma RangeReceivedMember(userPrefix: string, prefix: string, lo: int, hi: int, p: string, i: int)
    ensures Log(RecvMsgEntry(userPrefix, p, i)) in RangeEffects(userPrefix, prefix, lo, hi)
      <==> p == prefix && lo <= i <= hi
  {
    RangeEffectsAt(userPrefix, prefix, lo, hi);
    var r := RangeEffects(userPrefix, prefix, lo, hi);
    if Log(RecvMsgEntry(userPrefix, p, i)) in r {
      var j :| 0 <= j < |r| && r[j] == Log(RecvMsgEntry(userPrefix, p, i));
      var k := j / 2;
      assert j == 2 * k || j == 2 * k + 1;
      assert r[2 * k].entry.tag == RecvStateTag;
      assert j == 2 * k + 1;
      assert r[2 * k + 1] == Log(RecvMsgEntry(userPrefix, prefix, lo + k));
    }
    if p == prefix && lo <= i <= hi {
      assert r[2 * (i - lo) + 1] == Log(RecvMsgEntry(userPrefix, p, i));
    }
  }

  /** Entry `u` names `prefix` and includes `i`. */
  predicate Covers(u: MissingDataInfo, prefix: string, i: int) {
    u.prefix == prefix && u.lowSeq <= i <= u.highSeq
  }

  /**
   * RECV_MSG `prefix=i` is logged exactly when some entry of the update names
   * `prefix` and covers `i`; nothing is fetched, the message text is rebuilt
   * from the prefix and the number.
   */
  lemma {:induction false} ReceivedIff(userPrefix: string, updates: seq<MissingDataInfo>, prefix: string, i: int)
    ensures Log(RecvMsgEntry(userPrefix, prefix, i)) in UpdateEffects(userPrefix, updates)
      <==> exists j :: 0 <= j < |updates| && Covers(updates[j], prefix, i)
    decreases |updates|
  {
    if |updates| > 0 {
      var n := |updates| - 1;
      var w := updates[..n];
      var u := updates[n];
      ReceivedIff(userPrefix, w, prefix, i);
      RangeReceivedMember(userPrefix, u.prefix, u.lowSeq, u.highSeq, prefix, i);
      assert UpdateEffects(userPrefix, updates)
        == UpdateEffects(userPrefix, w) + RangeEffects(userPrefix, u.prefix, u.lowSeq, u.highSeq);
      assert forall j :: 0 <= j < n ==> w[j] == updates[j];
      if exists j :: 0 <= j < |updates| && Covers(updates[j], prefix, i) {
        var j :| 0 <= j < |updates| && Covers(updates[j], prefix, i);
        if j < n {
          assert Covers(w[j], prefix, i);
        }
      }
    }
  }

  class Producer {
    /** `m_userPrefix`. */
    const userPrefix: string
    /** The interval configuration `m_sleepTime` was built from. */
    const cfg: Config
    /** `m_fullProducer` is held and the face is running. */
    var alive: bool
    /** Every call made so far, in order. */
    ghost var trace: seq<Effect>

    /** The constructor: registers the node's own prefix with the producer. */
    constructor (userPrefix: string, cfg: Config)
      ensures this.userPrefix == userPrefix && this.cfg == cfg && alive
      ensures trace == [AddUserNode(userPrefix)]
    {
      this.userPrefix := userPrefix;
      this.cfg := cfg;
      alive := true;
      trace := [AddUserNode(userPrefix)];
    }

    /** `publishMsg`: the message is ignored; PSync publishes the next number for the prefix. */
    method PublishMsg(msg: ChatMessage)
      modifies this`trace
      ensures trace == old(trace) + [PublishName(userPrefix)]
    {
      trace := trace + [PublishName(userPrefix)];
    }

    /**
     * `run()`: `start` is the clock reading before the loop, `delays[i - 1]`
     * the `i`-th draw of `m_sleepTime` and `clock[i - 1]` the reading after
     * the `i`-th publication.
     */
    method Run(start: int, delays: seq<int>, clock: seq<int>)
      requires alive
      requires |delays| >= LoopBound - 1 && |clock| >= LoopBound - 1
      requires forall k :: 0 <= k < |delays| ==> cfg.InRange(delays[k])
      modifies this`trace, this`alive
      ensures !alive
      ensures trace == old(trace) + RunEffects(userPrefix, start, delays, clock)
      ensures forall j, d :: |old(trace)| <= j < |trace| - 3 && trace[j] == Sleep(d) ==> cfg.InRange(d)
    {
      RunSleepsInRange(userPrefix, start, delays, clock, cfg);
      trace := trace + [Log(LogEntry(NodeInitTag, [Str(userPrefix)]))];
      var published := PublishLoop(start, delays, clock);
      Drain();
      AppendAssoc(old(trace), [Log(LogEntry(NodeInitTag, [Str(userPrefix)]))], Iterations(userPrefix, delays, published));
    }

    /** The `for` loop of `run()`; `published` is the number of passes made. */
    method PublishLoop(start: int, delays: seq<int>, clock: seq<int>) returns (published: nat)
      requires |delays| >= LoopBound - 1 && |clock| >= LoopBound - 1
      modifies this`trace
      ensures published == Stop(start, clock)
      ensures trace == old(trace) + Iterations(userPrefix, delays, published)
    {
      published := LoopBound - 1;
      var i := 1;
      while i < LoopBound
        invariant 1 <= i <= LoopBound
        invariant forall j :: 0 <= j < i - 1 ==> clock[j] - start <= Experiment.PublishWindow
        invariant trace == old(trace) + Iterations(userPrefix, delays, i - 1)
        decreases LoopBound - i
      {
        var sleepTime := delays[i - 1];
        PublishIteration(sleepTime, i);
        AppendAssoc(old(trace), Iterations(userPrefix, delays, i - 1), Iteration(userPrefix, sleepTime, i));
        var currTime := clock[i - 1];
        if currTime - start > Experiment.PublishWindow {
          published := i;
          break;
        }
        i := i + 1;
      }
      StopFromIs(start, clock, 1, published);
    }

    /** One pass of the loop in `run()`, up to the clock check. */
    method PublishIteration(sleepTime: int, i: int)
      modifies this`trace
      ensures trace == old(trace) + Iteration(userPrefix, sleepTime, i)
    {
      trace := trace + [Sleep(sleepTime)];
      var message := ChatMessage(userPrefix, i);
      PublishMsg(message);
      trace := trace + [Log(PublEntry(userPrefix, i))];
      assert trace == old(trace) + [Sleep(sleepTime)] + [PublishName(userPrefix)] + [Log(PublEntry(userPrefix, i))];
    }

    /** `sleep(30)`, then releasing the producer and shutting the face down. */
    method Drain()
      modifies this`trace, this`alive
      ensures !alive
      ensures trace == old(trace) + [Sleep(DrainMs), ReleaseProducer, ShutdownFace]
    {
      trace := trace + [Sleep(DrainMs)];
      trace := trace + [ReleaseProducer];
      alive := false;
      trace := trace + [ShutdownFace];
      assert trace == old(trace) + [Sleep(DrainMs)] + [ReleaseProducer] + [ShutdownFace];
    }

    /** `processSyncUpdate`: per entry and per number, RECV_STATE then RECV_MSG. */
    method ProcessSyncUpdate(updates: seq<MissingDataInfo>)
      modifies this`trace
      ensures trace == old(trace) + UpdateEffects(userPrefix, updates)
    {
      for j := 0 to |updates|
        invariant trace == old(trace) + UpdateEffects(userPrefix, updates[..j])
      {
        var u := updates[j];
        LogRange(u.prefix, u.lowSeq, u.highSeq);
        assert updates[..j + 1][..j] == updates[..j];
        AppendAssoc(old(trace), UpdateEffects(userPrefix, updates[..j]),
                    RangeEffects(userPrefix, u.prefix, u.lowSeq, u.highSeq));
      }
      assert updates[..|updates|] == updates;
    }

    /** The body of the outer loop of `processSyncUpdate`: one entry, ascending. */
    method LogRange(prefix: string, lowSeq: SeqNo, highSeq: SeqNo)
      modifies this`trace
      ensures trace == old(trace) + RangeEffects(userPrefix, prefix, lowSeq, highSeq)
    {
      var i: int := lowSeq;
      while i <= highSeq
        invariant lowSeq <= i && (i <= highSeq + 1 || i == lowSeq)
        invariant trace == old(trace) + RangeEffects(userPrefix, prefix, lowSeq, i - 1)
        decreases highSeq - i
      {
        var pair := [Log(RecvStateEntry(prefix, i)), Log(RecvMsgEntry(userPrefix, prefix, i))];
        AppendAssoc(old(trace), RangeEffects(userPrefix, prefix, lowSeq, i - 1), pair);
        trace := trace + [pair[0]];
        trace := trace + [pair[1]];
        assert trace == old(trace) + RangeEffects(userPrefix, prefix, lowSeq, i - 1) + pair;
        i := i + 1;
      }
    }
  }
}
