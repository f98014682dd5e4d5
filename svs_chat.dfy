/**
 * The SVS chat harness (`Program` in svs/chat.hpp, which svs/eval.cpp
 * instantiates with an `SVSync` handle): one node publishes `id=1`, `id=2`, ... on a
 * jittered timer for 120 s, keeps re-arming until 150 s, then releases its
 * sync handle and shuts its face down; meanwhile every missing-data
 * notification is expanded into one fetch per sequence number.
 *
 * Calls into the sync library, the scheduler and the logger are recorded in
 * the ghost `trace` as `Effect`s.
 */
module SvsChat {
  import opened Timing
  import opened Traces
  import opened SeqNos
  import opened LogFormat
  import Experiment

  /** One entry of the vector handed to `onMissingData`. */
  datatype MissingDataInfo = MissingDataInfo(session: string, low: SeqNo, high: SeqNo)

  datatype Effect =
    | Log(entry: LogEntry)
      /** Arming a `runIter` timer `delayMs` from now. */
    | Schedule(delayMs: int)
      /** `publishData` of the `|Text(message)|` bytes of `Text(message)`. */
    | PublishData(message: ChatMessage, freshnessMs: nat)
    | FetchData(session: string, seqNo: int, attempts: nat)
      /** `m_svs.reset()`. */
    | ReleaseSync
      /** `face.shutdown()`. */
    | ShutdownFace

  /** The retry budget passed to every `fetchData`. */
  const FetchAttempts := 5
  /** The freshness hint passed to every `publishData`. */
  const FreshnessMs := 1000

  function NodeInitEntry(id: string): LogEntry {
    LogEntry(NodeInitTag, [Str(id)])
  }

  function PublEntry(id: string, message: ChatMessage): LogEntry {
    LogEntry(PublTag, [Str(id), Chat(message)])
  }

  function RecvStateEntry(session: string, s: int): LogEntry {
    LogEntry(RecvStateTag, [Str(session), Num(s)])
  }

  function RecvMsgEntry(id: string, content: string): LogEntry {
    LogEntry(RecvMsgTag, [Str(id), Str(content)])
  }

  /** The messages `id=1, ..., id=n` in order. */
  function Numbered(id: string, n: nat): seq<ChatMessage> {
    if n == 0 then [] else Numbered(id, n - 1) + [ChatMessage(id, n)]
  }

  /** `Numbered(id, n)` holds `n` messages, the `k`-th (from 0) being `id=k+1`. */
  lemma {:induction false} NumberedAt(id: string, n: nat)
    ensures |Numbered(id, n)| == n
    ensures forall k :: 0 <= k < n ==> Numbered(id, n)[k] == ChatMessage(id, k + 1)
  {
    if n > 0 {
      NumberedAt(id, n - 1);
    }
  }

  /** The messages handed to `publishData`, in order. */
  function Published(t: seq<Effect>): seq<ChatMessage>
    decreases |t|
  {
    if |t| == 0 then []
    else Published(t[..|t| - 1]) + (if t[|t| - 1].PublishData? then [t[|t| - 1].message] else [])
  }

  /** The delays of the timers armed, in order. */
  function Delays(t: seq<Effect>): seq<int>
    decreases |t|
  {
    if |t| == 0 then []
    else Delays(t[..|t| - 1]) + (if t[|t| - 1].Schedule? then [t[|t| - 1].delayMs] else [])
  }

  /** The number of times the sync handle was released. */
  function Releases(t: seq<Effect>): nat
    decreases |t|
  {
    if |t| == 0 then 0
    else Releases(t[..|t| - 1]) + (if t[|t| - 1].ReleaseSync? then 1 else 0)
  }

  /** The sequence numbers fetched, in order. */
  function FetchedSeqNos(t: seq<Effect>): seq<int>
    decreases |t|
  {
    if |t| == 0 then []
    else FetchedSeqNos(t[..|t| - 1]) + (if t[|t| - 1].FetchData? then [t[|t| - 1].seqNo] else [])
  }

  /** Every armed timer's delay is one the distribution can draw. */
  predicate DelaysWithin(t: seq<Effect>, cfg: Config) {
    forall d :: d in Delays(t) ==> cfg.InRange(d)
  }

  /** The projections distribute over concatenation. */
  lemma {:induction false} CountsAppend(a: seq<Effect>, b: seq<Effect>)
    ensures Published(a + b) == Published(a) + Published(b)
    ensures Delays(a + b) == Delays(a) + Delays(b)
    ensures Releases(a + b) == Releases(a) + Releases(b)
    ensures FetchedSeqNos(a + b) == FetchedSeqNos(a) + FetchedSeqNos(b)
    decreases |b|
  {
    if |b| > 0 {
      assert (a + b)[..|a + b| - 1] == a + b[..|b| - 1];
      CountsAppend(a, b[..|b| - 1]);
    } else {
      assert a + b == a;
    }
  }

  /** Publishing the `counter`-th message and logging PUBL_MSG for it. */
  function Publication(id: string, counter: int): seq<Effect> {
    [PublishData(ChatMessage(id, counter), FreshnessMs), Log(PublEntry(id, ChatMessage(id, counter)))]
  }

  /** The publication, when the tick is within the publishing window. */
  function PublishPart(id: string, counter: int, elapsed: int): seq<Effect> {
    if elapsed <= Experiment.PublishWindow then Publication(id, counter) else []
  }

  /** Re-arming within the run window; releasing the handle and the face after it. */
  function ArmPart(elapsed: int, delay: int): seq<Effect> {
    if elapsed <= Experiment.RunWindow then [Schedule(delay)] else [ReleaseSync, ShutdownFace]
  }

  /**
   * What one `runIter` emits once `start_time` is set: `elapsed` is
   * `curr_time - start_time` and `counter` the already incremented `curr_i`.
   */
  function TickEffects(id: string, counter: int, elapsed: int, delay: int): seq<Effect> {
    PublishPart(id, counter, elapsed) + ArmPart(elapsed, delay)
  }

  /**
   * A tick within 120 s publishes exactly `id=counter`, one after it nothing;
   * a tick within 150 s arms exactly one timer, with the drawn delay, and
   * keeps the handle; a later one arms none and releases the handle once.
   */
  lemma TickEffectsCounts(id: string, counter: int, elapsed: int, delay: int)
    ensures Published(TickEffects(id, counter, elapsed, delay))
      == if elapsed <= Experiment.PublishWindow then [ChatMessage(id, counter)] else []
    ensures Delays(TickEffects(id, counter, elapsed, delay))
      == if elapsed <= Experiment.RunWindow then [delay] else []
    ensures Releases(TickEffects(id, counter, elapsed, delay))
      == if elapsed <= Experiment.RunWindow then 0 else 1
  {
    var p := Publication(id, counter);
    CountsAppend(PublishPart(id, counter, elapsed), ArmPart(elapsed, delay));
    if elapsed <= Experiment.PublishWindow {
      CountsAppend([p[0]], [p[1]]);
      assert [p[0]] + [p[1]] == p;
    }
    if elapsed > Experiment.RunWindow {
      CountsAppend([ReleaseSync], [ShutdownFace]);
    }
  }

  /** The log record and fetch issued for each `s` of one range, ascending. */
  function RangeEffects(session: string, lo: int, hi: int): seq<Effect>
    decreases hi - lo
  {
    if hi < lo then []
    else RangeEffects(session, lo, hi - 1) + [Log(RecvStateEntry(session, hi)), FetchData(session, hi, FetchAttempts)]
  }

  lemma RangeEffectsStep(session: string, lo: int, s: int)
    requires lo <= s
    ensures RangeEffects(session, lo, s)
      == RangeEffects(session, lo, s - 1) + [Log(RecvStateEntry(session, s)), FetchData(session, s, FetchAttempts)]
  {
  }

  /** What `onMissingData(v)` emits: the ranges' effects in vector order. */
  function MissingEffects(v: seq<MissingDataInfo>): seq<Effect>
    decreases |v|
  {
    if |v| == 0 then []
    else MissingEffects(v[..|v| - 1]) + RangeEffects(v[|v| - 1].session, v[|v| - 1].low, v[|v| - 1].high)
  }

  lemma MissingEffectsStep(v: seq<MissingDataInfo>, i: nat)
    requires i < |v|
    ensures MissingEffects(v[..i + 1]) == MissingEffects(v[..i]) + RangeEffects(v[i].session, v[i].low, v[i].high)
  {
    assert v[..i + 1][..i] == v[..i];
  }

  /**
   * For the `k`-th number `lo + k` of a range, the `2k`-th effect logs
   * RECV_STATE and the next fetches it with five attempts; nothing else is
   * emitted, and nothing at all when `lo > hi`.
   */
  lemma {:induction false} RangeEffectsAt(session: string, lo: int, hi: int)
    ensures |RangeEffects(session, lo, hi)| == 2 * |SeqRange(lo, hi)|
    ensures forall k :: 0 <= k < |SeqRange(lo, hi)| ==>
      RangeEffects(session, lo, hi)[2 * k] == Log(RecvStateEntry(session, lo + k))
      && RangeEffects(session, lo, hi)[2 * k + 1] == FetchData(session, lo + k, FetchAttempts)
    decreases hi - lo
  {
    if lo <= hi {
      RangeEffectsAt(session, lo, hi - 1);
    }
  }

  /** A range's fetches are exactly `SeqRange(lo, hi)`, in that order. */
  lemma {:induction false} RangeFetchesInOrder(session: string, lo: int, hi: int)
    ensures FetchedSeqNos(RangeEffects(session, lo, hi)) == SeqRange(lo, hi)
    decreases hi - lo
  {
    if lo <= hi {
      RangeFetchesInOrder(session, lo, hi - 1);
      var pair := [Log(RecvStateEntry(session, hi)), FetchData(session, hi, FetchAttempts)];
      CountsAppend(RangeEffects(session, lo, hi - 1), pair);
      CountsAppend([pair[0]], [pair[1]]);
      assert [pair[0]] + [pair[1]] == pair;
    }
  }

  /** The range `(S, 10, 13)` fetches 10, 11, 12, 13 in that order and nothing else. */
  lemma ExampleRange(session: string)
    ensures FetchedSeqNos(MissingEffects([MissingDataInfo(session, 10, 13)])) == [10, 11, 12, 13]
  {
    var v := [MissingDataInfo(session, 10, 13)];
    assert v[..0] == [];
    assert MissingEffects(v) == [] + RangeEffects(session, 10, 13);
    assert [] + RangeEffects(session, 10, 13) == RangeEffects(session, 10, 13);
    RangeFetchesInOrder(session, 10, 13);
    var r := SeqRange(10, 13);
    assert r == [10, 11, 12, 13] by {
      assert r[0] == 10 && r[1] == 11 && r[2] == 12 && r[3] == 13;
    }
  }

  /** A range fetches `(sess, s)` exactly when it names `sess` and includes `s`. */
  lemma RangeFetchMember(session: string, lo: int, hi: int, sess: string, s: int)
    ensures FetchData(sess, s, FetchAttempts) in RangeEffects(session, lo, hi)
      <==> sess == session && lo <= s <= hi
  {
    RangeEffectsAt(session, lo, hi);
    var r := RangeEffects(session, lo, hi);
    if FetchData(sess, s, FetchAttempts) in r {
      var i :| 0 <= i < |r| && r[i] == FetchData(sess, s, FetchAttempts);
      var k := i / 2;
      assert i == 2 * k || i == 2 * k + 1;
      assert r[2 * k].Log?;
      assert i == 2 * k + 1;
      assert r[2 * k + 1] == FetchData(session, lo + k, FetchAttempts);
    }
    if sess == session && lo <= s <= hi {
      assert r[2 * (s - lo) + 1] == FetchData(sess, s, FetchAttempts);
    }
  }

  /** Range `info` names `session` and includes `s`. */
  predicate Covers(info: MissingDataInfo, session: string, s: int) {
    info.session == session && info.low <= s <= info.high
  }

  /**
   * `onMissingData` fetches `(session, s)` exactly when some range of the
   * vector names that session and covers `s`.
   */
  lemma {:induction false} FetchedIff(v: seq<MissingDataInfo>, session: string, s: int)
    ensures FetchData(session, s, FetchAttempts) in MissingEffects(v)
      <==> exists i :: 0 <= i < |v| && Covers(v[i], session, s)
    decreases |v|
  {
    if |v| > 0 {
      var n := |v| - 1;
      var w := v[..n];
      FetchedIff(w, session, s);
      RangeFetchMember(v[n].session, v[n].low, v[n].high, session, s);
      assert MissingEffects(v) == MissingEffects(w) + RangeEffects(v[n].session, v[n].low, v[n].high);
      assert forall i :: 0 <= i < n ==> w[i] == v[i];
      if exists i :: 0 <= i < |v| && Covers(v[i], session, s) {
        var i :| 0 <= i < |v| && Covers(v[i], session, s);
        if i < n {
          assert Covers(w[i], session, s);
        }
      }
    }
  }

  lemma {:induction false} RangeEffectsInert(session: string, lo: int, hi: int)
    ensures Published(RangeEffects(session, lo, hi)) == []
    ensures Delays(RangeEffects(session, lo, hi)) == []
    ensures Releases(RangeEffects(session, lo, hi)) == 0
    decreases hi - lo
  {
    if lo <= hi {
      RangeEffectsInert(session, lo, hi - 1);
      var pair := [Log(RecvStateEntry(session, hi)), FetchData(session, hi, FetchAttempts)];
      CountsAppend(RangeEffects(session, lo, hi - 1), pair);
      CountsAppend([pair[0]], [pair[1]]);
      assert [pair[0]] + [pair[1]] == pair;
    }
  }

  /** Expanding missing data publishes nothing, arms no timer and keeps the handle. */
  lemma {:induction false} MissingEffectsInert(v: seq<MissingDataInfo>)
    ensures Published(MissingEffects(v)) == []
    ensures Delays(MissingEffects(v)) == []
    ensures Releases(MissingEffects(v)) == 0
    decreases |v|
  {
    if |v| > 0 {
      var n := |v| - 1;
      MissingEffectsInert(v[..n]);
      RangeEffectsInert(v[n].session, v[n].low, v[n].high);
      CountsAppend(MissingEffects(v[..n]), RangeEffects(v[n].session, v[n].low, v[n].high));
    }
  }

  /**
   * The trace half of `Program.Valid`: the messages published are
   * `id=1..id=counter` in order, every delay drawn is in range, the number of
   * armed timers is the number fired plus the one pending while the harness
   * runs (so at most one is ever outstanding), and the handle is released
   * once, exactly when the harness has stopped.
   */
  ghost predicate TraceInv(t: seq<Effect>, id: string, cfg: Config, counter: nat, fired: nat, alive: bool) {
    && Published(t) == Numbered(id, counter)
    && DelaysWithin(t, cfg)
    && |Delays(t)| == fired + (if alive then 1 else 0)
    && Releases(t) == (if alive then 0 else 1)
  }

  /** Any effects that publish the next message (or none), arm `delay` (or release) keep the invariant. */
  lemma ExtendKeeps(t: seq<Effect>, e: seq<Effect>, id: string, cfg: Config, counter: nat, fired: nat, delay: int,
                    counter': nat, running: bool)
    requires TraceInv(t, id, cfg, counter, fired, true) && cfg.InRange(delay)
    requires counter' == counter || counter' == counter + 1
    requires Published(e) == if counter' == counter + 1 then [ChatMessage(id, counter')] else []
    requires Delays(e) == (if running then [delay] else []) && Releases(e) == (if running then 0 else 1)
    ensures TraceInv(t + e, id, cfg, counter', fired + 1, running)
  {
    CountsAppend(t, e);
    DelaysExtend(Delays(t), Delays(e), cfg, delay);
    if counter' == counter + 1 {
      assert Numbered(id, counter') == Numbered(id, counter) + [ChatMessage(id, counter')];
    } else {
      assert Published(t) + Published(e) == Published(t);
    }
  }

  /** One more tick, leaving `counter'` published and the harness running iff `running`, keeps the trace invariant. */
  lemma TickKeeps(t: seq<Effect>, id: string, cfg: Config, counter: nat, fired: nat, elapsed: int, delay: int,
                  counter': nat, running: bool)
    requires TraceInv(t, id, cfg, counter, fired, true) && cfg.InRange(delay)
    requires counter' == if elapsed <= Experiment.PublishWindow then counter + 1 else counter
    requires running == (elapsed <= Experiment.RunWindow)
    ensures TraceInv(t + TickEffects(id, counter', elapsed, delay), id, cfg, counter', fired + 1, running)
  {
    TickEffectsCounts(id, counter', elapsed, delay);
    ExtendKeeps(t, TickEffects(id, counter', elapsed, delay), id, cfg, counter, fired, delay, counter', running);
  }

  lemma MissingKeeps(t: seq<Effect>, v: seq<MissingDataInfo>, id: string, cfg: Config, counter: nat, fired: nat, alive: bool)
    requires TraceInv(t, id, cfg, counter, fired, alive)
    ensures TraceInv(t + MissingEffects(v), id, cfg, counter, fired, alive)
  {
    MissingEffectsInert(v);
    CountsAppend(t, MissingEffects(v));
  }

  /** A single log record keeps the trace invariant. */
  lemma LogKeeps(t: seq<Effect>, e: LogEntry, id: string, cfg: Config, counter: nat, fired: nat, alive: bool)
    requires TraceInv(t, id, cfg, counter, fired, alive)
    ensures TraceInv(t + [Log(e)], id, cfg, counter, fired, alive)
  {
    assert (t + [Log(e)])[..|t|] == t;
  }

  class Program {
    /** `m_options.m_id`: this node's identity. */
    const id: string
    /** The interval configuration `m_sleepTime` was built from. */
    const cfg: Config
    /** `start_time`; 0 until the first tick. */
    var startTime: int
    /** `curr_i`: messages published so far. */
    var counter: int
    /** A `runIter` timer is armed. */
    var pendingTick: bool
    /** `m_svs` is held and the face is running. */
    var alive: bool
    /** Every call made so far, in order. */
    ghost var trace: seq<Effect>
    /** How many scheduled ticks have fired. */
    ghost var fired: nat

    function State(): Experiment.Clock
      reads this
    {
      Experiment.Clock(startTime, counter, pendingTick, alive)
    }

    /** The timer is armed exactly while the harness holds its handle, and `TraceInv` holds. */
    ghost predicate Valid()
      reads this
    {
      && pendingTick == alive
      && counter >= 0
      && TraceInv(trace, id, cfg, counter, fired, alive)
    }

    /** The constructor: arms the first tick with the delay `delay` drawn from `cfg`. */
    constructor (id: string, cfg: Config, delay: int)
      requires cfg.InRange(delay)
      ensures Valid()
      ensures this.id == id && this.cfg == cfg
      ensures State() == Experiment.Initial && fired == 0
      ensures trace == [Schedule(delay)]
    {
      this.id := id;
      this.cfg := cfg;
      startTime := 0;
      counter := 0;
      pendingTick := true;
      alive := true;
      fired := 0;
      trace := [Schedule(delay)];
      new;
      assert [Schedule(delay)][..0] == [];
    }

    /** `run()` up to the reactor loop: logs NODE_INIT. */
    method Run()
      requires Valid()
      modifies this`trace
      ensures Valid()
      ensures trace == old(trace) + [Log(NodeInitEntry(id))]
    {
      LogKeeps(trace, NodeInitEntry(id), id, cfg, counter, fired, alive);
      trace := trace + [Log(NodeInitEntry(id))];
    }

    /** `publishMsg`: the message bytes, their exact length and a 1000 ms freshness hint. */
    method PublishMsg(msg: ChatMessage)
      modifies this`trace
      ensures trace == old(trace) + [PublishData(msg, FreshnessMs)]
    {
      trace := trace + [PublishData(msg, FreshnessMs)];
    }

    /** `runIter`, fired by the armed timer at wall-clock second `now`; `delay` is the next draw. */
    method Tick(now: int, delay: int)
      requires Valid() && pendingTick && cfg.InRange(delay)
      modifies this
      ensures Valid()
      ensures State() == Experiment.Step(old(State()), now)
      ensures fired == old(fired) + 1
      ensures trace == old(trace) + TickEffects(id, counter, now - startTime, delay)
    {
      ghost var before := trace;
      if startTime == 0 {
        startTime := now;
      }
      var elapsed := now - startTime;
      fired := fired + 1;
      PublishPhase(elapsed);
      ArmPhase(elapsed, delay);
      AppendAssoc(before, PublishPart(id, counter, elapsed), ArmPart(elapsed, delay));
      TickKeeps(before, id, cfg, old(counter), old(fired), elapsed, delay, counter, alive);
    }

    /** Lines publishing when the tick is within 120 s of the first. */
    method PublishPhase(elapsed: int)
      modifies this`counter, this`trace
      ensures counter == if elapsed <= Experiment.PublishWindow then old(counter) + 1 else old(counter)
      ensures trace == old(trace) + PublishPart(id, counter, elapsed)
    {
      if elapsed <= Experiment.PublishWindow {
        PublishNext();
      }
    }

    /** Re-arming within 150 s of the first tick, the teardown after that. */
    method ArmPhase(elapsed: int, delay: int)
      requires alive && pendingTick
      modifies this`trace, this`alive, this`pendingTick
      ensures alive == pendingTick == (elapsed <= Experiment.RunWindow)
      ensures trace == old(trace) + ArmPart(elapsed, delay)
    {
      if elapsed <= Experiment.RunWindow {
        Rearm(delay);
      } else {
        Stop();
      }
    }

    /** `curr_i++`, then publishing `id=curr_i` and logging it: the first half of a tick. */
    method PublishNext()
      modifies this`counter, this`trace
      ensures counter == old(counter) + 1
      ensures trace == old(trace) + Publication(id, counter)
    {
      counter := counter + 1;
      var message := ChatMessage(id, counter);
      PublishMsg(message);
      AppendAssoc(old(trace), [PublishData(message, FreshnessMs)], [Log(PublEntry(id, message))]);
      trace := trace + [Log(PublEntry(id, message))];
    }

    /** Arming the next tick. */
    method Rearm(delay: int)
      modifies this`trace
      ensures trace == old(trace) + [Schedule(delay)]
    {
      trace := trace + [Schedule(delay)];
    }

    /** `m_svs.reset()` then `face.shutdown()`: no further tick is armed. */
    method Stop()
      modifies this`trace, this`alive, this`pendingTick
      ensures trace == old(trace) + [ReleaseSync, ShutdownFace]
      ensures !alive && !pendingTick
    {
      AppendAssoc(trace, [ReleaseSync], [ShutdownFace]);
      trace := trace + [ReleaseSync];
      alive := false;
      trace := trace + [ShutdownFace];
      pendingTick := false;
    }

    /**
     * `onMissingData`: for each range in order, RECV_STATE and a fetch per
     * number, ascending.  `m_svs` delivers it, so it only arrives while the
     * handle is held: `m_svs.reset()` destroys the object that calls back.
     */
    method OnMissingData(v: seq<MissingDataInfo>)
      requires Valid() && alive
      modifies this`trace
      ensures Valid()
      ensures trace == old(trace) + MissingEffects(v)
    {
      MissingKeeps(trace, v, id, cfg, counter, fired, alive);
      for i := 0 to |v|
        invariant trace == old(trace) + MissingEffects(v[..i])
      {
        var info := v[i];
        FetchRange(info.session, info.low, info.high);
        MissingEffectsStep(v, i);
        AppendAssoc(old(trace), MissingEffects(v[..i]), RangeEffects(info.session, info.low, info.high));
      }
      assert v[..|v|] == v;
    }

    /** The body of the outer loop of `onMissingData`: one range, ascending. */
    method FetchRange(nid: string, low: SeqNo, high: SeqNo)
      modifies this`trace
      ensures trace == old(trace) + RangeEffects(nid, low, high)
    {
      var s: int := low;
      while s <= high
        invariant low <= s && (s <= high + 1 || s == low)
        invariant trace == old(trace) + RangeEffects(nid, low, s - 1)
        decreases high - s
      {
        RangeEffectsStep(nid, low, s);
        AppendAssoc(old(trace), RangeEffects(nid, low, s - 1),
                    [Log(RecvStateEntry(nid, s)), FetchData(nid, s, FetchAttempts)]);
        trace := trace + [Log(RecvStateEntry(nid, s)), FetchData(nid, s, FetchAttempts)];
        s := s + 1;
      }
    }

    /**
     * The fetch callback: logs RECV_MSG with the received content, without
     * deduplication.  Like `onMissingData` it comes through `m_svs`.
     */
    method OnData(content: string)
      requires Valid() && alive
      modifies this`trace
      ensures Valid()
      ensures trace == old(trace) + [Log(RecvMsgEntry(id, content))]
    {
      LogKeeps(trace, RecvMsgEntry(id, content), id, cfg, counter, fired, alive);
      trace := trace + [Log(RecvMsgEntry(id, content))];
    }
  }
}
