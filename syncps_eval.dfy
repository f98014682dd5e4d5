/**
 * The syncps harness (`Producer` in syncps/eval.cpp): the same tick-driven
 * publish loop as the SVS chat harness, publishing `prefix::k` as the
 * content of a publication named `s / prefix / timestamp`; plus the two
 * callbacks handed to SyncPubsub: the reply filter `filterPubs` and the
 * expiry test `isExpired`, both keyed on a publication's last name
 * component read as a timestamp.
 *
 * Times in names and in `isExpired` are integers in one unit (ndn-cxx
 * timestamps are microseconds); `syncps::maxPubLifetime` and
 * `syncps::maxClockSkew` are parameters.
 */
module SyncpsEval {
  import opened Strings
  import opened Timing
  import opened Traces
  import opened LogFormat
  import Experiment

  /** A name component: an ordinary one, or one written by `appendTimestamp`. */
  datatype Component = Generic(value: string) | Timestamp(stamp: int)

  type Name = seq<Component>

  datatype Publication = Publication(name: Name, content: string)

  /** `getName()[-1].toTimestamp()` succeeds: the last component is a timestamp. */
  predicate Stamped(p: Publication) {
    |p.name| > 0 && p.name[|p.name| - 1].Timestamp?
  }

  function TimestampOf(p: Publication): int
    requires Stamped(p)
  {
    p.name[|p.name| - 1].stamp
  }

  /** `buildCmd(s)`: the name `s / userPrefix / <now>`. */
  function BuildCmd(s: string, userPrefix: string, now: int): (r: Name)
    ensures |r| == 3 && r[0] == Generic(s) && r[1] == Generic(userPrefix)
  {
    [Generic(s), Generic(userPrefix), Timestamp(now)]
  }

  /** The last component of a built name is the timestamp `filterPubs` and `isExpired` read. */
  lemma BuildCmdStamped(s: string, userPrefix: string, now: int, content: string)
    ensures Stamped(Publication(BuildCmd(s, userPrefix, now), content))
    ensures TimestampOf(Publication(BuildCmd(s, userPrefix, now), content)) == now
  {
  }

  // ----- isExpired -----

  /** `dt >= maxPubLifetime + maxClockSkew || dt <= -maxClockSkew` with `dt = now - timestamp`. */
  predicate IsExpired(now: int, p: Publication, maxPubLifetime: int, maxClockSkew: int)
    requires Stamped(p)
  {
    var dt := now - TimestampOf(p);
    dt >= maxPubLifetime + maxClockSkew || dt <= -maxClockSkew
  }

  /**
   * A publication is live exactly while its age lies strictly between
   * `-maxClockSkew` and `maxPubLifetime + maxClockSkew`.
   */
  lemma LiveWindow(now: int, p: Publication, maxPubLifetime: int, maxClockSkew: int)
    requires Stamped(p)
    ensures !IsExpired(now, p, maxPubLifetime, maxClockSkew)
      <==> -maxClockSkew < now - TimestampOf(p) < maxPubLifetime + maxClockSkew
  {
  }

  /** With non-negative bounds a publication is live when it is stamped at `now`, and expired again once older than the lifetime plus skew. */
  lemma FreshIsLive(now: int, p: Publication, maxPubLifetime: int, maxClockSkew: int)
    requires Stamped(p) && maxPubLifetime >= 0 && maxClockSkew > 0
    ensures TimestampOf(p) == now ==> !IsExpired(now, p, maxPubLifetime, maxClockSkew)
    ensures now - TimestampOf(p) >= maxPubLifetime + maxClockSkew ==> IsExpired(now, p, maxPubLifetime, maxClockSkew)
  {
  }

  /** Once expired by age, a publication stays expired as the clock advances. */
  lemma ExpiredByAgeStays(now: int, later: int, p: Publication, maxPubLifetime: int, maxClockSkew: int)
    requires Stamped(p) && now <= later && maxPubLifetime >= 0 && maxClockSkew >= 0
    requires now - TimestampOf(p) >= maxPubLifetime + maxClockSkew
    ensures IsExpired(later, p, maxPubLifetime, maxClockSkew)
  {
  }

  // ----- filterPubs -----

  predicate AllStamped(ps: seq<Publication>) {
    forall k :: 0 <= k < |ps| ==> Stamped(ps[k])
  }

  /** `cmp`: newest first, by timestamp. */
  predicate NewestFirst(ps: seq<Publication>)
    requires AllStamped(ps)
  {
    forall i, j :: 0 <= i < j < |ps| ==> TimestampOf(ps[i]) >= TimestampOf(ps[j])
  }

  /** `p` placed before the first element older than it. */
  function InsertNewest(p: Publication, ps: seq<Publication>): (r: seq<Publication>)
    requires Stamped(p) && AllStamped(ps) && NewestFirst(ps)
    ensures AllStamped(r) && NewestFirst(r)
    ensures multiset(r) == multiset(ps) + multiset{p}
    ensures |r| > 0 && (r[0] == p || (|ps| > 0 && r[0] == ps[0]))
    decreases |ps|
  {
    if |ps| == 0 || TimestampOf(p) >= TimestampOf(ps[0]) then
      ConsNewest(p, ps);
      [p] + ps
    else
      var rest := InsertNewest(p, ps[1..]);
      assert ps == [ps[0]] + ps[1..];
      assert TimestampOf(ps[0]) >= TimestampOf(rest[0]);
      ConsNewest(ps[0], rest);
      [ps[0]] + rest
  }

  /** A publication no older than the head of a newest-first list may go in front of it. */
  lemma ConsNewest(x: Publication, rest: seq<Publication>)
    requires Stamped(x) && AllStamped(rest) && NewestFirst(rest)
    requires |rest| == 0 || TimestampOf(x) >= TimestampOf(rest[0])
    ensures AllStamped([x] + rest) && NewestFirst([x] + rest)
  {
    var r := [x] + rest;
    forall i, j | 0 <= i < j < |r| ensures TimestampOf(r[i]) >= TimestampOf(r[j]) {
      if i > 0 {
        assert r[i] == rest[i - 1] && r[j] == rest[j - 1];
      } else {
        assert r[j] == rest[j - 1];
        assert TimestampOf(rest[0]) >= TimestampOf(rest[j - 1]) || j == 1;
      }
    }
  }

  /** A newest-first ordering of `ps` (standing in for `std::sort` with `cmp`). */
  function SortNewestFirst(ps: seq<Publication>): (r: seq<Publication>)
    requires AllStamped(ps)
    ensures AllStamped(r) && NewestFirst(r)
    ensures multiset(r) == multiset(ps)
    decreases |ps|
  {
    if |ps| == 0 then []
    else
      assert ps == [ps[0]] + ps[1..];
      InsertNewest(ps[0], SortNewestFirst(ps[1..]))
  }

  /**
   * `filterPubs(ours, others)`: nothing unless one of the publications is
   * ours; otherwise ours newest first, then the others newest first, all of
   * them and nothing else.  `std::sort` is not stable, so among equal
   * timestamps the order is left open.
   */
  method FilterPubs(ours: seq<Publication>, others: seq<Publication>) returns (r: seq<Publication>)
    requires |ours| > 0 ==> AllStamped(ours) && AllStamped(others)
    ensures |ours| == 0 ==> r == []
    ensures |ours| > 0 ==> |r| == |ours| + |others|
    ensures |ours| > 0 ==> AllStamped(r[..|ours|]) && NewestFirst(r[..|ours|])
    ensures |ours| > 0 ==> AllStamped(r[|ours|..]) && NewestFirst(r[|ours|..])
    ensures |ours| > 0 ==> multiset(r[..|ours|]) == multiset(ours)
    ensures |ours| > 0 ==> multiset(r[|ours|..]) == multiset(others)
  {
    if |ours| == 0 {
      return ours;
    }
    var sortedOurs := ours;
    if |ours| > 1 {
      sortedOurs := SortNewestFirst(ours);
    }
    var sortedOthers := SortNewestFirst(others);
    r := AppendEach(sortedOurs, sortedOthers);
    assert |sortedOurs| == |ours| by {
      assert |multiset(sortedOurs)| == |multiset(ours)|;
    }
    assert |sortedOthers| == |others| by {
      assert |multiset(sortedOthers)| == |multiset(others)|;
    }
    assert r[..|ours|] == sortedOurs;
    assert r[|ours|..] == sortedOthers;
  }

  /** The `push_back` loop: `xs` appended to `acc` one element at a time. */
  method AppendEach(acc: seq<Publication>, xs: seq<Publication>) returns (r: seq<Publication>)
    ensures r == acc + xs
  {
    r := acc;
    for k := 0 to |xs|
      invariant r == acc + xs[..k]
    {
      r := r + [xs[k]];
      assert xs[..k + 1] == xs[..k] + [xs[k]];
    }
    assert xs[..|xs|] == xs;
  }

  /** The filter keeps every publication it was given, of ours and of others, when one is ours. */
  lemma FilterKeepsAll(ours: seq<Publication>, others: seq<Publication>, r: seq<Publication>)
    requires |ours| > 0 && |r| == |ours| + |others|
    requires multiset(r[..|ours|]) == multiset(ours) && multiset(r[|ours|..]) == multiset(others)
    ensures multiset(r) == multiset(ours) + multiset(others)
  {
    assert r == r[..|ours|] + r[|ours|..];
  }

  // ----- the harness -----

  /** The sync group, the subscription and `buildCmd`'s first argument; syncps/eval.cpp's `buildCmd` ignores its second. */
  const Topic := "/ndn/svs"

  /** The message `prefix::k` (`ss << m_userPrefix << "::" << curr_i`). */
  datatype Message = Message(prefix: string, number: int)

  function MessageText(m: Message): string {
    m.prefix + Sep + IntToString(m.number)
  }

  datatype Effect =
    | Log(entry: LogEntry)
    | Schedule(delayMs: int)
      /** `m_sync->publish` of a publication named `name` whose content is `MessageText(message)`. */
    | Publish(name: Name, message: Message)
    | Subscribe(topic: string)
      /** `m_sync.reset()`. */
    | ReleaseSync
      /** `m_face.shutdown()`. */
    | ShutdownFace

  function PublEntry(m: Message): LogEntry {
    LogEntry(PublTag, [Str(m.prefix), Str(m.prefix), Num(m.number)])
  }

  /** The record `PUBL_MSG::prefix::` followed by the message text, as `runIter` in syncps/eval.cpp streams it. */
  lemma PublEntryText(m: Message)
    ensures Line(PublEntry(m)) == PublTag + Sep + m.prefix + Sep + MessageText(m)
  {
    var parts := [PublTag, m.prefix, m.prefix, IntToString(m.number)];
    assert [PublEntry(m).tag] + RenderAll(PublEntry(m).fields) == parts;
    assert parts[1..][1..][1..] == [IntToString(m.number)];
    assert Join(parts[1..][1..], Sep) == m.prefix + Sep + IntToString(m.number);
    assert Join(parts[1..], Sep) == m.prefix + Sep + (m.prefix + Sep + IntToString(m.number));
  }

  /** The messages `prefix::1, ..., prefix::n` in order. */
  function Numbered(prefix: string, n: nat): seq<Message> {
    if n == 0 then [] else Numbered(prefix, n - 1) + [Message(prefix, n)]
  }

  /** The messages published, in order. */
  function Published(t: seq<Effect>): seq<Message>
    decreases |t|
  {
    if |t| == 0 then []
    else Published(t[..|t| - 1]) + (if t[|t| - 1].Publish? then [t[|t| - 1].message] else [])
  }

  /** The delays of the timers armed, in order. */
  function Delays(t: seq<Effect>): seq<int>
    decreases |t|
  {
    if |t| == 0 then []
    else Delays(t[..|t| - 1]) + (if t[|t| - 1].Schedule? then [t[|t| - 1].delayMs] else [])
  }

  /** The number of times the sync handle was released. */
  function Releases(t: seq<Effect>): nat
    decreases |t|
  {
    if |t| == 0 then 0
    else Releases(t[..|t| - 1]) + (if t[|t| - 1].ReleaseSync? then 1 else 0)
  }

  predicate DelaysWithin(t: seq<Effect>, cfg: Config) {
    forall d :: d in Delays(t) ==> cfg.InRange(d)
  }

  lemma {:induction false} CountsAppend(a: seq<Effect>, b: seq<Effect>)
    ensures Published(a + b) == Published(a) + Published(b)
    ensures Delays(a + b) == Delays(a) + Delays(b)
    ensures Releases(a + b) == Releases(a) + Releases(b)
    decreases |b|
  {
    if |b| > 0 {
      assert (a + b)[..|a + b| - 1] == a + b[..|b| - 1];
      CountsAppend(a, b[..|b| - 1]);
    } else {
      assert a + b == a;
    }
  }

  /** Publishing the `counter`-th message, stamped `stamp`, and logging it. */
  function Publishing(prefix: string, counter: int, stamp: int): seq<Effect> {
    [Publish(BuildCmd(Topic, prefix, stamp), Message(prefix, counter)), Log(PublEntry(Message(prefix, counter)))]
  }

  function PublishPart(prefix: string, counter: int, elapsed: int, stamp: int): seq<Effect> {
    if elapsed <= Experiment.PublishWindow then Publishing(prefix, counter, stamp) else []
  }

  function ArmPart(elapsed: int, delay: int): seq<Effect> {
    if elapsed <= Experiment.RunWindow then [Schedule(delay)] else [ReleaseSync, ShutdownFace]
  }

  /** What one `runIter` emits once `start_time` is set. */
  function TickEffects(prefix: string, counter: int, elapsed: int, stamp: int, delay: int): seq<Effect> {
    PublishPart(prefix, counter, elapsed, stamp) + ArmPart(elapsed, delay)
  }

  /**
   * A tick within 120 s publishes exactly `prefix::counter`; one within 150 s
   * arms exactly one timer with the drawn delay and keeps the handle; a later
   * one arms none and releases the handle once.
   */
  lemma TickEffectsCounts(prefix: string, counter: int, elapsed: int, stamp: int, delay: int)
    ensures Published(TickEffects(prefix, counter, elapsed, stamp, delay))
      == if elapsed <= Experiment.PublishWindow then [Message(prefix, counter)] else []
    ensures Delays(TickEffects(prefix, counter, elapsed, stamp, delay))
      == if elapsed <= Experiment.RunWindow then [delay] else []
    ensures Releases(TickEffects(prefix, counter, elapsed, stamp, delay))
      == if elapsed <= Experiment.RunWindow then 0 else 1
  {
    var p := Publishing(prefix, counter, stamp);
    CountsAppend(PublishPart(prefix, counter, elapsed, stamp), ArmPart(elapsed, delay));
    if elapsed <= Experiment.PublishWindow {
      CountsAppend([p[0]], [p[1]]);
      assert [p[0]] + [p[1]] == p;
    }
    if elapsed > Experiment.RunWindow {
      CountsAppend([ReleaseSync], [ShutdownFace]);
    }
  }

  /** The trace half of `Producer.Valid`, as for the SVS chat harness. */
  ghost predicate TraceInv(t: seq<Effect>, prefix: string, cfg: Config, counter: nat, fired: nat, alive: bool) {
    && Published(t) == Numbered(prefix, counter)
    && DelaysWithin(t, cfg)
    && |Delays(t)| == fired + (if alive then 1 else 0)
    && Releases(t) == (if alive then 0 else 1)
  }

  /** Any effects that publish the next message (or none), arm `delay` (or release) keep the invariant. */
  lemma ExtendKeeps(t: seq<Effect>, e: seq<Effect>, prefix: string, cfg: Config, counter: nat, fired: nat, delay: int,
                    counter': nat, running: bool)
    requires TraceInv(t, prefix, cfg, counter, fired, true) && cfg.InRange(delay)
    requires counter' == counter || counter' == counter + 1
    requires Published(e) == if counter' == counter + 1 then [Message(prefix, counter')] else []
    requires Delays(e) == (if running then [delay] else []) && Releases(e) == (if running then 0 else 1)
    ensures TraceInv(t + e, prefix, cfg, counter', fired + 1, running)
  {
    CountsAppend(t, e);
    DelaysExtend(Delays(t), Delays(e), cfg, delay);
    if counter' == counter + 1 {
      assert Numbered(prefix, counter') == Numbered(prefix, counter) + [Message(prefix, counter')];
    } else {
      assert Published(t) + Published(e) == Published(t);
    }
  }

  /** One more tick, leaving `counter'` published and the harness running iff `running`, keeps the trace invariant. */
  lemma TickKeeps(t: seq<Effect>, prefix: string, cfg: Config, counter: nat, fired: nat, elapsed: int, stamp: int,
                  delay: int, counter': nat, running: bool)
    requires TraceInv(t, prefix, cfg, counter, fired, true) && cfg.InRange(delay)
    requires counter' == if elapsed <= Experiment.PublishWindow then counter + 1 else counter
    requires running == (elapsed <= Experiment.RunWindow)
    ensures TraceInv(t + TickEffects(prefix, counter', elapsed, stamp, delay), prefix, cfg, counter', fired + 1, running)
  {
    TickEffectsCounts(prefix, counter', elapsed, stamp, delay);
    ExtendKeeps(t, TickEffects(prefix, counter', elapsed, stamp, delay), prefix, cfg, counter, fired, delay, counter', running);
  }

  lemma LogKeeps(t: seq<Effect>, e: LogEntry, prefix: string, cfg: Config, counter: nat, fired: nat, alive: bool)
    requires TraceInv(t, prefix, cfg, counter, fired, alive)
    ensures TraceInv(t + [Log(e)], prefix, cfg, counter, fired, alive)
  {
    assert (t + [Log(e)])[..|t|] == t;
  }

  class Producer {
    /** `m_userPrefix`. */
    const userPrefix: string
    const cfg: Config
    /** `start_time`; 0 until the first tick. */
    var startTime: int
    /** `curr_i`. */
    var counter: int
    var pendingTick: bool
    /** `m_sync` is held and the face is running. */
    var alive: bool
    ghost var trace: seq<Effect>
    ghost var fired: nat

    function State(): Experiment.Clock
      reads this
    {
      Experiment.Clock(startTime, counter, pendingTick, alive)
    }

    ghost predicate Valid()
      reads this
    {
      && pendingTick == alive
      && counter >= 0
      && TraceInv(trace, userPrefix, cfg, counter, fired, alive)
    }

    /** The constructor: arms the first tick, then subscribes to `/ndn/svs`. */
    constructor (userPrefix: string, cfg: Config, delay: int)
      requires cfg.InRange(delay)
      ensures Valid()
      ensures this.userPrefix == userPrefix && this.cfg == cfg
      ensures State() == Experiment.Initial && fired == 0
      ensures trace == [Schedule(delay), Subscribe(Topic)]
    {
      this.userPrefix := userPrefix;
      this.cfg := cfg;
      startTime := 0;
      counter := 0;
      pendingTick := true;
      alive := true;
      fired := 0;
      trace := [Schedule(delay), Subscribe(Topic)];
      new;
      assert [Schedule(delay)][..0] == [] && [Subscribe(Topic)][..0] == [];
      CountsAppend([Schedule(delay)], [Subscribe(Topic)]);
    }

    /** `run()` up to the reactor loop: logs NODE_INIT. */
    method Run()
      requires Valid()
      modifies this`trace
      ensures Valid()
      ensures trace == old(trace) + [Log(LogEntry(NodeInitTag, [Str(userPrefix)]))]
    {
      LogKeeps(trace, LogEntry(NodeInitTag, [Str(userPrefix)]), userPrefix, cfg, counter, fired, alive);
      trace := trace + [Log(LogEntry(NodeInitTag, [Str(userPrefix)]))];
    }

    /** `publishMsg`: a publication named by `buildCmd` at time `stamp`, with the message as content. */
    method PublishMsg(msg: Message, stamp: int)
      modifies this`trace
      ensures trace == old(trace) + [Publish(BuildCmd(Topic, userPrefix, stamp), msg)]
    {
      var name := BuildCmd(Topic, userPrefix, stamp);
      trace := trace + [Publish(name, msg)];
    }

    /**
     * `runIter` at wall-clock second `now`; `stamp` is the clock reading
     * `appendTimestamp` takes and `delay` the next draw.
     */
    method Tick(now: int, stamp: int, delay: int)
      requires Valid() && pendingTick && cfg.InRange(delay)
      modifies this
      ensures Valid()
      ensures State() == Experiment.Step(old(State()), now)
      ensures fired == old(fired) + 1
      ensures trace == old(trace) + TickEffects(userPrefix, counter, now - startTime, stamp, delay)
    {
      ghost var before := trace;
      if startTime == 0 {
        startTime := now;
      }
      var elapsed := now - startTime;
      fired := fired + 1;
      PublishPhase(elapsed, stamp);
      ArmPhase(elapsed, delay);
      AppendAssoc(before, PublishPart(userPrefix, counter, elapsed, stamp), ArmPart(elapsed, delay));
      TickKeeps(before, userPrefix, cfg, old(counter), old(fired), elapsed, stamp, delay, counter, alive);
    }

    /** Lines publishing when the tick is within 120 s of the first. */
    method PublishPhase(elapsed: int, stamp: int)
      modifies this`counter, this`trace
      ensures counter == if elapsed <= Experiment.PublishWindow then old(counter) + 1 else old(counter)
      ensures trace == old(trace) + PublishPart(userPrefix, counter, elapsed, stamp)
    {
      if elapsed <= Experiment.PublishWindow {
        PublishNext(stamp);
      }
    }

    /** Re-arming within 150 s of the first tick, the teardown after that. */
    method ArmPhase(elapsed: int, delay: int)
      requires alive && pendingTick
      modifies this`trace, this`alive, this`pendingTick
      ensures alive == pendingTick == (elapsed <= Experiment.RunWindow)
      ensures trace == old(trace) + ArmPart(elapsed, delay)
    {
      if elapsed <= Experiment.RunWindow {
        Rearm(delay);
      } else {
        Stop();
      }
    }

    /** `curr_i++`, then publishing `prefix::curr_i` and logging it. */
    method PublishNext(stamp: int)
      modifies this`counter, this`trace
      ensures counter == old(counter) + 1
      ensures trace == old(trace) + Publishing(userPrefix, counter, stamp)
    {
      counter := counter + 1;
      var message := Message(userPrefix, counter);
      PublishMsg(message, stamp);
      AppendAssoc(old(trace), [Publish(BuildCmd(Topic, userPrefix, stamp), message)], [Log(PublEntry(message))]);
      trace := trace + [Log(PublEntry(message))];
    }

    method Rearm(delay: int)
      modifies this`trace
      ensures trace == old(trace) + [Schedule(delay)]
    {
      trace := trace + [Schedule(delay)];
    }

    /** `m_sync.reset()` then `m_face.shutdown()`. */
    method Stop()
      modifies this`trace, this`alive, this`pendingTick
      ensures trace == old(trace) + [ReleaseSync, ShutdownFace]
      ensures !alive && !pendingTick
    {
      AppendAssoc(trace, [ReleaseSync], [ShutdownFace]);
      trace := trace + [ReleaseSync];
      alive := false;
      trace := trace + [ShutdownFace];
      pendingTick := false;
    }

    /** `processSyncUpdate`: logs RECV_STATE with the publication's content. */
    method ProcessSyncUpdate(p: Publication)
      requires Valid()
      modifies this`trace
      ensures Valid()
      ensures trace == old(trace) + [Log(LogEntry(RecvStateTag, [Str(p.content)]))]
    {
      LogKeeps(trace, LogEntry(RecvStateTag, [Str(p.content)]), userPrefix, cfg, counter, fired, alive);
      trace := trace + [Log(LogEntry(RecvStateTag, [Str(p.content)]))];
    }
  }
}
