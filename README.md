# ndn-sync-eval harness, modelled in Dafny

This project models the sequential logic of the ndn-sync-eval benchmark, which
evaluates NDN sync protocols (State Vector Sync, ChronoSync, PSync and syncps).
The model covers:

- the three traffic generators:
  - the SVS chat `Program` in svs/chat.hpp, which svs/eval.cpp instantiates
    with an `SVSync` handle (ChronoSync's front end includes a `chat.hpp` of
    its own, with a `m_cs` socket member; that file is not part of this
    model);
  - the syncps `Producer` in syncps/eval.cpp;
  - the PSync `Producer` in psync/eval.cpp;
- the two log-analysis scripts, svs/analyze.py and svs/old-analyze.py;
- the node identity format of svs.py, which the analysis relies on to find
  who published a message.

The generators are classes whose mutable fields are the ones the C++ code
updates: `start_time`, `curr_i`, whether a timer is armed, and whether the
sync handle and face are still up. A ghost `trace` records every call into
the sync library, the scheduler, the logger and `sleep`, in order. Wall-clock
readings, the random delays and the timestamps are method parameters. A delay
is constrained by `requires` to the range `[avg - var, avg + var]` of the
`uniform_int_distribution`.

Each method is proved against specification functions:

- `Experiment.Step` for one tick of the experiment clock;
- `TickEffects` for what a tick emits;
- `MissingEffects` / `UpdateEffects` for the missing-data callbacks;
- `RunEffects` for PSync's bounded loop.

Lemmas then prove what the harness promises about those functions:

- the publish, re-arm and teardown windows;
- message numbering;
- delays always in range;
- exactly the sequence numbers `low..high`, ascending, fetched or logged.

The analysis scripts are modelled over rows that are already converted: an
integer millisecond time and the message text. The model has:

- row classification with Python's `in`, `split('::')`, `split('/')`,
  `strip()` and `int()`;
- the dictionaries PUBLISHES, RECIEVES and SYNC_INTS (RECIEVES keeps its keys
  in insertion order);
- the "received and never published" abort;
- the delta lists;
- PUBLISHING_NODES and the per-publisher TIMINGS grouping;
- the `succ`/`max`/`sync_ints` summary rows;
- the `read_status_file` parser and the counter differencing.

Every Python exception these scripts can raise on the modelled data is the
error path of a `Result`: IndexError, KeyError, TypeError and
ZeroDivisionError, plus the explicit `exit(1)`. The loops that fill the
dictionaries are methods proved equal to fold functions. The properties are
lemmas about those folds.

The `Scenario` module ties writer and reader together. It proves three things:

- Each harness's PUBL_MSG and RECV_MSG records read back as a publish or a
  receive of the right key.
- With identities of the form svs.py gives, `msg.split('/')[3]` is the
  publishing node's name.
- One chat message, written by one node and received by another, passes
  svs/analyze.py's ingestion, its timing pass and its per-run figures. Its
  delay is attributed to the publisher. The status-file pass reads other
  files and is not part of this scenario.

Three behaviours of the code a reader might not expect:

- The delays are not clamped at zero. A negative average gives a range with
  no non-negative value (`Timing.NegativeAverageNoDelay`). From -5 down, the
  range is empty (`Timing.VeryNegativeAverageEmptyRange`).
- `start_time` is recorded before the elapsed time is computed. So the first
  tick sees an elapsed time of at most a second and publishes; there is no
  separate warm-up tick.
- read_status_file keeps `int()` of the second `=`-separated field only, not
  the text after the first `=` (see `Analyze.KeyValueLine`).

## Model

| member | source | states |
|---|---|---|
| Timing.VarianceOf | svs/chat.hpp:136 | `var = avg / 5` truncates toward zero, as C++ `int` division does: `0 <= 5*var <= avg < 5*var + 5` for `avg >= 0`, and mirrored for negative `avg` |
| Timing.Startup | svs/chat.hpp:129-142 | exit status 1, after the `WRONG_ARGS` record, exactly when `argc != 4`; otherwise the identity is `argv[1]`, the log file `argv[2]`, avg the parsed `argv[3]` and var avg/5 |
| Timing.StartupRangeOrdered | svs/chat.hpp:45 | for `avg >= 0`, `0 <= avg - var <= avg <= avg + var`, and the range is `2*var` wide |
| Timing.NegativeAverageNoDelay | syncps/eval.cpp:39 | for a negative average no delay in the distribution's range is non-negative |
| Timing.VeryNegativeAverageEmptyRange | psync/eval.cpp:57 | for `avg <= -5` the bounds cross (`avg - var > avg + var`) |
| Experiment.PhaseMonotonic | svs/chat.hpp:67-83 | the publishing / draining / done phase never regresses as elapsed time grows |
| Experiment.StartKept | svs/chat.hpp:61-63 | once `start_time` is non-zero no later tick changes it |
| Experiment.FirstTickSetsStart | syncps/eval.cpp:87-89 | from construction, `start_time` is the clock reading of the first tick |
| Experiment.CounterCountsPublishingTicks | svs/chat.hpp:67-68 | `curr_i` rises by exactly one for each tick within 120 s of the start, and by nothing for the others |
| Experiment.PublishCount | syncps/eval.cpp:93-94 | from construction, `curr_i` is the number of ticks within 120 s of the first tick |
| Experiment.OnlyLastTickLate | svs/chat.hpp:76-83 | every tick but the last observes at most 150 s; the timer is armed and the handle held after the last tick exactly when it observed at most 150 s |
| Experiment.StoppedIsFinal | syncps/eval.cpp:102-109 | once no timer is armed, no further tick can happen |
| Experiment.StopNeedsWholeSeconds | svs/chat.hpp:65-83 | a tick at 150 s still re-arms; one at 151 s disarms and releases the handle |
| SeqNos.SeqRange | svs/chat.hpp:92 | the inclusive range `lo..hi` ascending: `hi - lo + 1` numbers, the k-th being `lo + k`; empty when `lo > hi` |
| SeqNos.AsWrittenNeverStopsAtMax | svs/chat.hpp:92 | the `uint64_t` loop `s <= high; ++s` never ends when `high` is the largest `uint64_t` |
| SeqNos.AsWrittenAgreesBelowMax | psync/eval.cpp:106 | below that bound the `uint64_t` loop as written stops, and the values of `s` it visits are exactly `SeqRange(low, high)`, in order |
| LogFormat.RenderAll | svs/chat.hpp:73 | each inserted field renders as its own text, in order |
| LogFormat.NumAvoidsColon | svs/chat.hpp:70 | a number streamed with `<<` contains no colon |
| LogFormat.ChatAvoidsColon | svs/chat.hpp:70 | `id=k` contains no colon when `id` has none |
| LogFormat.LineFields | svs/analyze.py:55 | `split('::')` of a record returns its tag and its fields when none contains a colon |
| LogFormat.PlainLineFields | svs/old-analyze.py:63 | the same for fields that are each colon-free strings, numbers or chat messages |
| SvsChat.NumberedAt | svs/chat.hpp:68-70 | the published sequence has `n` messages, the k-th being `id=k+1` |
| SvsChat.TickEffectsCounts | svs/chat.hpp:67-83 | a tick within 120 s publishes exactly `id=curr_i`, later none; within 150 s it arms exactly one timer with the drawn delay and keeps the handle; later it arms none and releases the handle once |
| SvsChat.RangeEffectsAt | svs/chat.hpp:92-101 | for the k-th number of a range, effect 2k logs RECV_STATE `session::lo+k` and effect 2k+1 fetches it with 5 attempts; nothing else, and nothing when `lo > hi` |
| SvsChat.RangeFetchesInOrder | svs/chat.hpp:92-101 | the sequence numbers a range fetches are exactly `SeqRange(lo, hi)`, in that order |
| SvsChat.ExampleRange | svs/chat.hpp:88-104 | the range `(S, 10, 13)` fetches 10, 11, 12, 13 and nothing else |
| SvsChat.RangeFetchMember | svs/chat.hpp:92-101 | a range fetches `(sess, s)` exactly when it names `sess` and `lo <= s <= hi` |
| SvsChat.FetchedIff | svs/chat.hpp:88-104 | `onMissingData` fetches `(session, s)` exactly when some entry of the vector names that session and covers `s` |
| SvsChat.MissingEffectsInert | svs/chat.hpp:88-104 | expanding missing data publishes nothing, arms no timer and keeps the handle |
| SvsChat.TickKeeps | svs/chat.hpp:58-84 | a tick preserves the trace invariant: published messages are `id=1..id=curr_i` in order, every delay is in range, at most one timer is outstanding, and the handle is released once, exactly when stopped |
| SvsChat.ExtendKeeps | svs/chat.hpp:67-80 | any effects that publish the next message (or nothing) and arm an in-range delay (or release) preserve the trace invariant |
| SvsChat.MissingKeeps | svs/chat.hpp:88-104 | missing-data effects preserve the trace invariant |
| SvsChat.LogKeeps | svs/chat.hpp:54 | one log record preserves the trace invariant |
| SvsChat.Program.constructor | svs/chat.hpp:41-49 | the first tick is armed with a delay from the range; `start_time = curr_i = 0` |
| SvsChat.Program.Run | svs/chat.hpp:51-56 | logs NODE_INIT with the node id and nothing else |
| SvsChat.Program.PublishMsg | svs/chat.hpp:106-112 | hands the message to `publishData` with a 1000 ms freshness hint |
| SvsChat.Program.Tick | svs/chat.hpp:58-84 | the new state is `Experiment.Step` of the old one; the trace grows by exactly `TickEffects` of that tick; the invariant is kept |
| SvsChat.Program.PublishPhase | svs/chat.hpp:67-74 | increments `curr_i` and publishes and logs `id=curr_i` iff elapsed is at most 120 |
| SvsChat.Program.ArmPhase | svs/chat.hpp:76-83 | re-arms iff elapsed is at most 150, else resets the handle and shuts the face down |
| SvsChat.Program.PublishNext | svs/chat.hpp:68-73 | `curr_i++`, then `publishData(id=curr_i)` then PUBL_MSG `id::id=curr_i` |
| SvsChat.Program.Rearm | svs/chat.hpp:77-78 | schedules exactly one tick with the drawn delay |
| SvsChat.Program.Stop | svs/chat.hpp:82-83 | releases the sync handle, shuts the face down, and leaves no timer armed |
| SvsChat.Program.OnMissingData | svs/chat.hpp:88-104 | while `m_svs` is held, the trace grows by exactly `MissingEffects(v)`; the invariant is kept |
| SvsChat.Program.FetchRange | svs/chat.hpp:92-102 | one range: RECV_STATE and a 5-attempt fetch per number, ascending |
| SvsChat.Program.OnData | svs/chat.hpp:96-101 | while `m_svs` is held, the fetch callback logs RECV_MSG `id::content`, with no deduplication |
| PSyncEval.StopFrom | psync/eval.cpp:71-85 | the passes before the breaking one all read at most 120 s; the breaking one read more unless the loop ran out at 249 |
| PSyncEval.StopBounds | psync/eval.cpp:71-85 | `run()` publishes at least once and at most 249 times; the last publication observed more than 120 s unless the loop ran out |
| PSyncEval.StopFromIs | psync/eval.cpp:78-84 | the loop stops at the first pass whose post-publish reading exceeds 120 s |
| PSyncEval.IterationsAt | psync/eval.cpp:71-80 | pass k sleeps the k-th draw, publishes the node's prefix and logs PUBL_MSG `prefix::prefix=k+1` |
| PSyncEval.IterationSleepsInRange | psync/eval.cpp:72-73 | every sleep of the loop is a delay in the distribution's range |
| PSyncEval.RangeEffectsAt | psync/eval.cpp:105-110 | for the k-th number of an entry: RECV_STATE `prefix::lo+k`, then RECV_MSG `user::prefix=lo+k`; nothing when `lo > hi` |
| PSyncEval.RangeReceivedMember | psync/eval.cpp:106-108 | one entry logs RECV_MSG `prefix=i` exactly when it names `prefix` and covers `i` |
| PSyncEval.ReceivedIff | psync/eval.cpp:103-111 | `processSyncUpdate` logs RECV_MSG `prefix=i` exactly when some update names `prefix` and covers `i` |
| PSyncEval.Producer.constructor | psync/eval.cpp:50-61 | registers the node's own prefix with the producer and holds it |
| PSyncEval.Producer.PublishMsg | psync/eval.cpp:95-100 | ignores the message and publishes the user prefix name only |
| PSyncEval.Producer.Run | psync/eval.cpp:63-92 | the trace grows by NODE_INIT, the loop's passes up to the break, then `sleep(30)`, producer release and face shutdown, unconditionally; with in-range draws every sleep it adds, except the final `sleep(30)`, is in the distribution's range |
| PSyncEval.RunSleepsInRange | psync/eval.cpp:71-87 | in `run()`'s effects every sleep but the final `sleep(30)` is a drawn delay in range, and the `sleep(30)` comes third from last |
| PSyncEval.Producer.PublishLoop | psync/eval.cpp:71-85 | the loop makes exactly `Stop(start, clock)` passes, each as `IterationsAt` describes |
| PSyncEval.Producer.PublishIteration | psync/eval.cpp:72-79 | one pass: sleep, publish, log |
| PSyncEval.Producer.Drain | psync/eval.cpp:87-90 | sleeps 30 s, releases the producer and shuts the face down |
| PSyncEval.Producer.ProcessSyncUpdate | psync/eval.cpp:103-111 | the trace grows by exactly `UpdateEffects(updates)` |
| PSyncEval.Producer.LogRange | psync/eval.cpp:106-109 | one entry: both records per number, ascending |
| SyncpsEval.BuildCmd | syncps/eval.cpp:113-120 | the name is `s / userPrefix / timestamp`, and the second argument is ignored |
| SyncpsEval.BuildCmdStamped | syncps/eval.cpp:58 | the last component of a built name is a timestamp, and it is the build time |
| SyncpsEval.LiveWindow | syncps/eval.cpp:71-75 | not expired exactly when `-maxClockSkew < now - ts < maxPubLifetime + maxClockSkew` |
| SyncpsEval.FreshIsLive | syncps/eval.cpp:73-74 | with non-negative bounds, one stamped now is live, and one older than lifetime plus skew is expired |
| SyncpsEval.ExpiredByAgeStays | syncps/eval.cpp:73-74 | once expired by age, a publication stays expired as the clock advances |
| SyncpsEval.InsertNewest | syncps/eval.cpp:57-60 | inserting into a newest-first list keeps it newest-first and adds exactly the one element |
| SyncpsEval.SortNewestFirst | syncps/eval.cpp:61-64 | the sort with `cmp` yields a newest-first permutation of its input |
| SyncpsEval.FilterPubs | syncps/eval.cpp:49-69 | empty when none is ours; otherwise all of ours newest first, then all others newest first: a permutation of each group, of total length `|ours| + |others|` |
| SyncpsEval.AppendEach | syncps/eval.cpp:65-67 | the `push_back` loop appends the others in order |
| SyncpsEval.FilterKeepsAll | syncps/eval.cpp:57-68 | the filtered reply is a permutation of ours plus others |
| SyncpsEval.PublEntryText | syncps/eval.cpp:96-99 | the PUBL_MSG record reads `PUBL_MSG::prefix::prefix::k` |
| SyncpsEval.TickEffectsCounts | syncps/eval.cpp:93-109 | a tick within 120 s publishes exactly `prefix::curr_i`, later none; it arms one timer within 150 s, otherwise it releases the handle once |
| SyncpsEval.TickKeeps | syncps/eval.cpp:84-110 | a tick preserves the trace invariant: messages `prefix::1..curr_i` in order, delays in range, at most one timer outstanding, handle released once when stopped |
| SyncpsEval.Producer.constructor | syncps/eval.cpp:34-47 | arms the first tick with an in-range delay and subscribes to `/ndn/svs` |
| SyncpsEval.Producer.Run | syncps/eval.cpp:77-82 | logs NODE_INIT with the user prefix |
| SyncpsEval.Producer.PublishMsg | syncps/eval.cpp:122-128 | publishes a publication named by `buildCmd("/ndn/svs")` with the message as content |
| SyncpsEval.Producer.Tick | syncps/eval.cpp:84-110 | the new state is `Experiment.Step` of the old; the trace grows by exactly `TickEffects`; the invariant is kept |
| SyncpsEval.Producer.PublishPhase | syncps/eval.cpp:93-100 | increments `curr_i` and publishes and logs `prefix::curr_i` iff elapsed is at most 120 |
| SyncpsEval.Producer.ArmPhase | syncps/eval.cpp:102-109 | re-arms iff elapsed is at most 150, else resets the handle and shuts the face down |
| SyncpsEval.Producer.PublishNext | syncps/eval.cpp:94-99 | `curr_i++`, publish, then the PUBL_MSG record |
| SyncpsEval.Producer.Rearm | syncps/eval.cpp:103-104 | schedules one tick with the drawn delay |
| SyncpsEval.Producer.Stop | syncps/eval.cpp:108-109 | `m_sync.reset()` and face shutdown; no timer remains armed |
| SyncpsEval.Producer.ProcessSyncUpdate | syncps/eval.cpp:130-137 | logs RECV_STATE with the publication's content |
| LogRows.Parse | svs/analyze.py:55-63 | a row keeps its time; its fields rejoin with `::` to the message and none contains `::`, as `split('::')` gives them |
| LogRows.Absorb | svs/analyze.py:57-62 | IndexError exactly for a PUBL_MSG or RECV_MSG row without `m[2]`; a publish sets `PUBLISHES[m[2]]` to the row's time and leaves every other entry; a receive puts `m[2]` in RECIEVES; RECIEVES' existing keys keep their order, and a non-receive row leaves RECIEVES alone |
| LogRows.AbsorbAll | svs/analyze.py:51-62 | the rows folded in order; the only failure is IndexError, and RECIEVES' earlier keys keep their places |
| LogRows.AbsorbAppend | svs/analyze.py:45-52 | reading the files one after another is reading their rows concatenated |
| LogRows.AbsorbFailsIff | svs/analyze.py:57-63 | ingestion fails exactly when a publish or receive row has fewer than three fields, and then with IndexError |
| LogRows.PublishedIff | svs/analyze.py:57-58 | a message is in PUBLISHES exactly when it was there before or some row published it |
| LogRows.LastPublishWins | svs/analyze.py:57-58 | PUBLISHES keeps the time of a message's last publish row |
| LogRows.ReceivesInRowOrder | svs/analyze.py:59-63 | RECIEVES holds a message exactly when some row received it; its nodes and times are those rows', in row order, of equal length |
| LogRows.AddReceiveKeepsWellformed | svs/analyze.py:60-63 | a receive keeps the RECIEVES key order duplicate-free and the node and time lists equal in length and non-empty |
| LogRows.AbsorbKeepsWellformed | svs/analyze.py:57-63 | every row keeps the tables well formed |
| LogRows.AbsorbAllKeepsWellformed | svs/analyze.py:52-63 | every sequence of rows keeps the tables well formed |
| LogRows.AddReceiveCounts | svs/analyze.py:62-63 | a receive adds exactly one record to the RECIEVES total |
| LogRows.AbsorbCounts | svs/analyze.py:59-63 | each receive row adds exactly one record, and other rows none |
| LogRows.TotalMatchesRows | svs/analyze.py:52-63 | after ingestion, RECIEVES holds exactly one record per receive row |
| LogRows.SyncIntCountAppend | svs/analyze.py:64-65 | the SEND_SYNC_INT count adds up over concatenated rows |
| LogRows.FailureStops | svs/analyze.py:52-63 | once a prefix of the rows fails, the remaining rows change nothing |
| LogRows.RecordsAreParsedRows | svs/analyze.py:45-55 | parsing file by file equals parsing all rows at once |
| LogRows.ParseRows | svs/analyze.py:52-55 | the split loop yields exactly `ParseAll(rows)` |
| LogRows.AbsorbFile | svs/analyze.py:45-65 | one file's row loop yields the fold of its rows and, on success, its SEND_SYNC_INT count |
| LogRows.AbsorbRecords | svs/analyze.py:52-65 | the row loop over split records equals the fold and counts SEND_SYNC_INT rows |
| LogRows.Deltas | svs/analyze.py:75 | one delta per receive time, each the receive time minus the publish time |
| LogRows.AddOnce | svs/analyze.py:77-78 | appends `x` only when it is absent: contains `x`, keeps the prefix, and keeps the list duplicate-free |
| LogRows.PublisherOfPath | svs/analyze.py:76 | `msg.split('/')[3]` of `a/b/c/p`, followed by nothing or by `/` and anything, is `p` |
| LogRows.PublisherHasNoSlash | svs/analyze.py:76 | a publisher taken by `split('/')[3]` contains no `/` |
| LogRows.NodeNameOfPath | svs/old-analyze.py:56 | `logfile.split('/')[-1].split('.')[0]` of `dir/base.ext` is `base`, for a base name without `/` or `.` |
| Analyze.FileFailureStops | svs/analyze.py:45-63 | a failure in one file is the failure of the whole ingestion |
| Analyze.IngestLogs | svs/analyze.py:40-65 | the nested file and row loops yield exactly `Ingest(files)` |
| Analyze.SyncIntsCountRows | svs/analyze.py:43 | SYNC_INTS starts at 0 and counts exactly the SEND_SYNC_INT rows; RECIEVES holds one record per receive row |
| Analyze.CollectOkIff | svs/analyze.py:67-76 | the timing pass succeeds exactly when every received message was published and names a publisher |
| Analyze.FirstUnattributable | svs/analyze.py:67-70 | the first unattributable message decides the failure: `exit(1)` when it was never published, otherwise IndexError |
| Analyze.CollectCounts | svs/analyze.py:72-80 | TIMING_DATA grows by exactly one delta per receive record |
| Analyze.CollectPublishersOnce | svs/analyze.py:76-78 | PUBLISHING_NODES lists each publisher at most once |
| Analyze.CollectPublishers | svs/analyze.py:76-78 | PUBLISHING_NODES holds exactly the publishers of the received messages |
| Analyze.CollectFirstSeen | svs/analyze.py:67-78 | PUBLISHING_NODES is in first-seen order: each publisher is named by some key, and of two publishers the one listed first is first named by an earlier key of RECIEVES |
| Analyze.CollectTimings | svs/analyze.py:67-80 | the loop over RECIEVES yields exactly `Collect(tb, order)` |
| Analyze.FirstFailureStops | svs/analyze.py:67-70 | a failure at one key is the failure of the whole pass |
| Analyze.Figures | svs/analyze.py:82-84 | ZeroDivisionError exactly when PUBLISHES is empty; otherwise SYNC_INTS, the total of receive records and the number of PUBLISHES keys |
| Analyze.ClassifyLine | svs/analyze.py:96-105 | a line stops the reading exactly when it contains `Channels`, is skipped exactly when it has neither `Channels` nor `=`, and is otherwise an entry |
| Analyze.FieldValue | svs/analyze.py:102-105 | an int exactly when `int(v[1])` succeeds, with that value; the text itself where `int()` raises ValueError |
| Analyze.EqualsSurvivesStrip | svs/analyze.py:99-101 | after a `=` test and `strip()`, `split('=')` has at least two pieces, so `v[1]` exists |
| Analyze.KeyValueLine | svs/analyze.py:99-105 | a stripped line `key=mid`, alone or followed by `=` and any text, is the entry `key -> int(mid)` when that parses, else `key -> mid`; the text after a second `=` is dropped |
| Analyze.EntryKeyBeforeFirstEquals | svs/analyze.py:100-103 | the key of an entry is the text before the first `=` of the stripped line |
| Analyze.Cutoff | svs/analyze.py:95-97 | reading stops at the first line mentioning "Channels", and that line is not parsed |
| Analyze.EntriesKeys | svs/analyze.py:103-105 | a key is in the status dictionary exactly when some line is an entry for it |
| Analyze.LastEntryWins | svs/analyze.py:103-105 | a duplicate key keeps the value of its last entry |
| Analyze.ReadStatusFile | svs/analyze.py:92-106 | the line loop with its `break` yields exactly `Status(lines)` |
| Analyze.ClassifyNext | svs/analyze.py:96-105 | classifies the i-th line as the reference classification does |
| Analyze.Difference | svs/analyze.py:111 | `end[key] - start[key]`: KeyError when the key is missing from `end`, then from `start`; TypeError when both have it but one value is not an integer |
| Analyze.AccumulateTotals | svs/analyze.py:86-112 | succeeds exactly when every pair has both counters as integers; each total is then the sum of the end counters minus the sum of the start counters |
| Analyze.AccumulateReports | svs/analyze.py:86-112 | the status loop yields exactly the accumulation of all pairs' reports |
| Analyze.ReadReports | svs/analyze.py:108-109 | reads every pair's start and end files in order |
| Analyze.AccumulateCounters | svs/analyze.py:111-112 | the differencing loop yields exactly `Accumulate(rs)` |
| Analyze.ReportFailureStops | svs/analyze.py:88-112 | the first failing pair ends the accumulation |
| OldAnalyze.TallyKeeps | svs/old-analyze.py:72-73 | `SYNC_INTS[nodename] += count` on a defaultdict is the tally with that file |
| OldAnalyze.CountByNodeIsSyncIntsOf | svs/old-analyze.py:53-73 | `SYNC_INTS[node]` counts exactly the SEND_SYNC_INT rows of the log files named `node` |
| OldAnalyze.SyncIntsOfAbsent | svs/old-analyze.py:107 | a node without a log file of its name has `sync_ints` 0 |
| OldAnalyze.IngestAgrees | svs/old-analyze.py:55-71 | both scripts build the same PUBLISHES and RECIEVES and fail alike |
| OldAnalyze.IngestLogsByNode | svs/old-analyze.py:55-73 | the ingestion loops yield exactly `IngestByNode(files)` |
| OldAnalyze.GroupAgreesWithCollect | svs/old-analyze.py:77-90 | the grouping fails exactly when the flat pass of analyze.py does, with the same failure; TIMINGS' keys are its PUBLISHING_NODES, in order |
| OldAnalyze.GroupFirstSeen | svs/old-analyze.py:75-93 | TIMINGS' keys, and so the DELTAS rows, are in first-seen order of RECIEVES' keys |
| OldAnalyze.GroupKeys | svs/old-analyze.py:88-90 | TIMINGS lists each publisher once, and exactly the keys of the dictionary |
| OldAnalyze.GroupIsDeltasOf | svs/old-analyze.py:85-90 | `TIMINGS[p]` is the concatenation of the deltas of `p`'s messages, in RECIEVES order |
| OldAnalyze.GroupNonEmpty | svs/old-analyze.py:88-90 | every publisher's group has at least one delta |
| OldAnalyze.GroupTotals | svs/old-analyze.py:85-90 | summed over publishers, the group lengths equal the receive records of the messages |
| OldAnalyze.AddToGroup | svs/old-analyze.py:88-90 | extending one publisher's group by `ds` adds `|ds|` to the summed lengths |
| OldAnalyze.GroupSnoc | svs/old-analyze.py:82-90 | one more attributable message extends its publisher's group by its deltas |
| OldAnalyze.GroupFailureStops | svs/old-analyze.py:77-80 | a failure at one key is the failure of the whole grouping |
| OldAnalyze.GroupNext | svs/old-analyze.py:82-90 | the i-th key of RECIEVES, when attributable, extends the grouping of the keys before it |
| OldAnalyze.GroupTimings | svs/old-analyze.py:75-90 | the loop over RECIEVES yields exactly `Group(tb, order)` |
| OldAnalyze.MaxOf | svs/old-analyze.py:97 | `max`: an upper bound of the list that is one of its elements |
| OldAnalyze.Summaries | svs/old-analyze.py:92-108 | one row per TIMINGS key in its order, with `succ` the number of deltas, `max` the largest delta and `sync_ints` the node's count, defaulting to 0 |
| OldAnalyze.GroupSummarizable | svs/old-analyze.py:93-97 | every publisher of a successful grouping has a non-empty list, so `max` and `median` are defined |
| OldAnalyze.SuccTotal | svs/old-analyze.py:110 | the `succ` column sums to the number of receive records in RECIEVES |
| OldAnalyze.AverageSucc | svs/old-analyze.py:119 | the AVG row's `succ` divides by `len(T_SUCC)`: ZeroDivisionError exactly when there are no rows |
| OldAnalyze.AverageFailsWithoutReceives | svs/old-analyze.py:119 | TIMINGS has no publisher, so the AVG row divides by zero, exactly when RECIEVES is empty |
| Scenario.MessageIsJoin | svs.py:71 | the chat message of an svs.py identity is the `/`-join of its six components |
| Scenario.IdentityPublisher | svs.py:71 | for a name without `/`, `msg.split('/')[3]` of the chat message `id=k` of its svs.py identity is the name |
| Scenario.PublTagClass | svs/analyze.py:57-65 | a PUBL_MSG tag counts as a publish only |
| Scenario.RecvTagClass | svs/analyze.py:57-65 | a RECV_MSG tag counts as a receive only |
| Scenario.ChatPublishRow | svs/chat.hpp:73 | the chat PUBL_MSG record reads back as a publish of `id=k` at its time, and nothing else |
| Scenario.ChatReceiveRow | svs/chat.hpp:100 | the chat RECV_MSG record reads back as a receive of the content by the node |
| Scenario.PSyncPublishRow | psync/eval.cpp:79 | PSync's PUBL_MSG record is a publish of `prefix=i` |
| Scenario.PSyncReceiveRow | psync/eval.cpp:108 | PSync's RECV_MSG record is a receive of `prefix=i` by the user prefix, the key its publisher logged when the prefix is a canonical name URI |
| Scenario.SyncpsPublishRow | syncps/eval.cpp:99 | syncps's PUBL_MSG record has the prefix as its third field, so every publish of a node overwrites one PUBLISHES entry |
| Scenario.AbsorbPublishThenReceive | svs/analyze.py:57-63 | a publish row and then a receive row give one PUBLISHES entry and one RECIEVES entry |
| Scenario.CollectSingle | svs/analyze.py:72-80 | the timing pass over one delivery gives the delay `t2 - t1` attributed to the publisher |
| Scenario.ChatDelivery | svs/analyze.py:45-84 | one chat message, from the two log files through the timing pass to the figures: one publish, one receive, no sync interests, delay `t2 - t1` attributed to the publishing node, and figures (0 sync interests, 1 receive, 1 publish) |
| Scenario.FiguresSingle | svs/analyze.py:82-84 | one delivery gives the figures 0 sync interests, 1 receive and 1 publish, with no division by zero |
| Strings.Find | svs/analyze.py:57 | the first occurrence of `sub`, or -1 exactly when there is none |
| Strings.Contains | svs/analyze.py:57 | Python's `sub in s` holds exactly when `sub` occurs in `s` |
| Strings.SplitFacts | svs/analyze.py:55 | `split` pieces rejoin to the string, none contains the separator, and there are two or more exactly when the separator occurs |
| Strings.SplitJoin | svs/analyze.py:55 | splitting undoes joining when no part contains the separator's first character |
| Strings.Split | svs/analyze.py:55 | `str.split(sep)` returns at least one piece; the pieces are described by `SplitFacts`, `SplitAfterHead`, `SplitFirstPiece` and `SplitLastPiece` |
| Strings.SplitAfterHead | svs/analyze.py:76 | a head without the separator's first character, then the separator, splits as the head followed by the pieces of the rest |
| Strings.SplitFirstPiece | svs/analyze.py:101 | the first piece is the text before the first separator |
| Strings.SplitLastPiece | svs/old-analyze.py:56 | `split(sep)[-1]` for a one-character separator is the text after its last occurrence |
| Strings.Strip | svs/analyze.py:100 | `strip()` is a slice with only white space outside it, neither starting nor ending with white space |
| Strings.StripKeeps | svs/analyze.py:100 | stripping keeps every non-space character |
| Strings.StripTrimmed | svs/analyze.py:100 | a string without white space at either end is its own strip |
| Strings.IntToString | svs/chat.hpp:70 | decimal rendering: digits, with at most a leading minus sign |
| Strings.ParseIntOfNatString | svs/analyze.py:103 | `int(str(n)) == n` for every natural number |
| Strings.ParseIntOfIntString | svs/analyze.py:103 | `int(str(n)) == n` for every integer, negative ones included |
| Strings.ParseIntShape | svs/analyze.py:102-105 | `int()` raises ValueError unless the stripped text is an optional sign followed by digits and underscores ending in a digit |

## Left out

- Sync library internals are not modelled: SVSync,
  PSync `FullProducer` and syncps `SyncPubsub`. Their calls are recorded as
  trace effects. `fetchData`'s retries, IBF sizing and the sync interest
  lifetimes are invisible from the harness.
- svs/eval.cpp only constructs the `SVSync` object for `Program`.
  chronosync/eval.cpp builds on a `chat.hpp` of its own, which is not part of
  this model, so the ChronoSync harness is not modelled. chronosync/log.hpp
  only sets up the Boost.Log sink. Log output is a ghost sequence of
  records, not file writes. Severity levels (`info`, `error`) are not
  recorded.
- The reactor (`processEvents`), the PSync publisher thread and its race
  with `processSyncUpdate`, and `thread.join()` are not modelled. Callbacks
  are separate method calls in whatever order the caller makes them.
- The random engine and `time(NULL)` are parameters: each delay and each
  clock or timestamp reading is an argument.
- `strtol` is not modelled: `argv[3]` arrives already parsed as an `int`.
  The initial values 5000 and 1000 of the syncps and PSync globals are
  omitted, since `main` overwrites both before any use.
- Timing.Startup: `Config.High()` is an unbounded integer. In the source
  `avg + var` overflows a 32-bit `int` for averages above about 1.79·10⁹
  (undefined behaviour), and that is not modelled.
- SvsChat.Program.Tick, SyncpsEval.Producer.Tick: one clock reading per
  tick. The source reads `time(NULL)` once to set `start_time` and again for
  `curr_time`, so its first tick sees elapsed 0 or 1. Both lie inside the
  120 s window, so the first tick publishes either way.
- SvsChat.Program.OnMissingData, SvsChat.Program.OnData: require that
  `m_svs` is held. Both callbacks are delivered through `m_svs`, and
  `m_svs.reset()` destroys that object, so none arrives after teardown. A
  call after teardown, which would dereference the released pointer, is
  not modelled.
- Timing.Startup: `std::uniform_int_distribution`'s undefined behaviour
  when `a > b` is only exhibited (`VeryNegativeAverageEmptyRange`), not
  modelled as a crash.
- PSyncEval.Producer.ProcessSyncUpdate, Scenario.PSyncReceiveRow: the
  RECV_MSG record streams `update.prefix`, an `ndn::Name`, which prints as
  its URI. PUBL_MSG streams the raw `m_userPrefix` argument. The model uses
  one string for both, so the receive key matches the publisher's only when
  `argv[1]` is already a canonical name URI. With `/ndn/a/` or `ndn/a` the
  receiver logs `/ndn/a=i`, and svs/analyze.py would take its
  "received and never published" exit. URI canonicalisation is not
  modelled.
- PSyncEval.Producer.PublishIteration: records the drawn delay in
  milliseconds. The `int` overflow of `sleepTimeInMilliseconds * 1000` above
  2147483 ms, and `usleep`'s own limits, are not modelled.
- SvsChat.Program.Tick: `curr_i` is an unbounded integer. Its 32-bit
  overflow would need more than 2^31 ticks within 120 s, so it is not
  modelled.
- SyncpsEval.FilterPubs: it works on sequences and returns a new one
  instead of sorting `pOurs`/`pOthers` in place. Among equal timestamps the
  order is left open, because `std::sort` is not stable. The contract states
  the newest-first order and the permutation of each group, not one fixed
  order.
- SyncpsEval.IsExpired, SyncpsEval.FilterPubs: times are integers in one unit, and
  `syncps::maxPubLifetime` and `syncps::maxClockSkew` are parameters.
  syncps.hpp is not part of this model. The exception `toTimestamp` throws
  on a non-timestamp component is excluded by the `Stamped` precondition.
  `FilterPubs` asks every publication to be stamped. In the source
  `toTimestamp` runs only inside the sort comparator, so a lone publication
  is never inspected. Every publication of the harness comes from
  `buildCmd` and is stamped (`BuildCmdStamped`).
  NDN name encoding and URI parsing are reduced to a sequence of
  components.
- The analysis scripts' I/O is not modelled: pandas CSV reading, the quote
  stripping, `datetime.strptime`, `glob`'s file order, CSV/DictWriter output
  and `print`. Rows arrive as an integer millisecond time and the message.
  Log files arrive in the order glob would give.
- `main` in syncps/eval.cpp and psync/eval.cpp wraps the Producer in a
  `try`/`catch (const std::exception&)`; psync logs `e.what()` and both then
  return normally. No modelled operation throws, so the handler is not
  modelled.
- Float statistics are not modelled:
  - SYNC_INT_DATA and SUCCESS_DATA divisions (`/ (NUM_NODES - 1)` included);
  - `median`, the averages, `round`, `pm_succ`;
  - the AVG row's other columns.
  Only the integer operands of the ratios are modelled (SYNC_INTS, the
  received total and the published count), with the divisions by zero that
  stop the run.
- Analyze.AccumulateReports: matching `report-start-*` files to their
  `report-end` names, and `open()` failures, are not modelled. Each pair
  arrives as the lines of its two files. All pairs are read, then
  differenced. That is the same result as interleaving, since reading has
  no failure in the model.
- The non-ASCII digits Python's `int()` also accepts are not modelled;
  `Strings.ParseInt` reads ASCII digits only.
- OldAnalyze.Summaries: the `num_nodes` and `run_number` columns are loop
  constants and are omitted.
- The `SYNCS` dictionaries of both scripts are never filled and are omitted.
- svs.py is left out except for the identity format of `get_svs_identity`:
  Mini-NDN topology, NFD strategies and routes, process polling, and
  status-file writes.

## Findings

| source | as written | input that shows it | evidently intended | confidence | as-written member | corrected member |
|---|---|---|---|---|---|---|
| svs/chat.hpp:92 | `for (SeqNo s = low; s <= high; ++s)` over `uint64_t` | a missing-data entry with `high = 18446744073709551615`: `s <= high` always holds and `++s` wraps to 0, so the loop never ends | visit `low..high` once and stop | not executed | SeqNos.AsWrittenNeverStopsAtMax | SeqNos.SeqRange |
| psync/eval.cpp:106 | `for (uint64_t i = lowSeq; i <= highSeq; i++)` | an update with `highSeq = 18446744073709551615` | visit `lowSeq..highSeq` once and stop | not executed | SeqNos.AsWrittenNeverStopsAtMax | SeqNos.SeqRange |

The model's callbacks use the corrected range `SeqNos.SeqRange`.
`SeqNos.AsWrittenAgreesBelowMax` proves that below the maximum the loop as
written stops after visiting exactly the numbers of that range, in order.
