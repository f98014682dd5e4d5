/**
 * Start-up arguments and the jittered publish interval shared by the three
 * harnesses: `callMain` in svs/chat.hpp and `main` in syncps/eval.cpp and
 * psync/eval.cpp are the same code, and every harness draws its delays from
 * `uniform_int_distribution(avg - var, avg + var)`.
 */
module Timing {
  import opened LogFormat

  /** C++ `int`. */
  type Int32 = x: int | -0x8000_0000 <= x < 0x8000_0000

  /** `avg / 5` as C++ computes it on `int`: the quotient truncated toward zero. */
  function VarianceOf(avg: int): (v: int)
    ensures avg >= 0 ==> 0 <= 5 * v <= avg < 5 * v + 5
    ensures avg < 0 ==> 5 * v - 5 < avg <= 5 * v <= 0
  {
    if avg >= 0 then avg / 5 else -((-avg) / 5)
  }

  /** The average and variance of the time between publishes, in milliseconds. */
  datatype Config = Config(avg: int, variance: int) {
    function Low(): int { avg - variance }
    function High(): int { avg + variance }
    /** `d` is a value `m_sleepTime(m_rng)` can return. */
    predicate InRange(d: int) { Low() <= d <= High() }
  }

  /** `WRONG_ARGS`, the record logged before a bad argument count exits. */
  const WrongArgsTag := "WRONG_ARGS"

  datatype Launch =
      /** The error record logged, then `exit(status)`. */
    | Exit(record: LogEntry, status: int)
    | Start(identity: string, logFile: string, cfg: Config)

  /**
   * The argument check and interval set-up of `main`: `argv` is the whole
   * argument vector (so `|argv|` is `argc`) and `avgArg` is `argv[3]` as
   * `strtol` read it.
   */
  function Startup(argv: seq<string>, avgArg: Int32): (r: Launch)
    ensures r.Exit? <==> |argv| != 4
    ensures r.Exit? ==> r.status == 1 && Line(r.record) == WrongArgsTag
    ensures r.Start? ==> r.identity == argv[1] && r.logFile == argv[2]
    ensures r.Start? ==> r.cfg.avg == avgArg && r.cfg.variance == VarianceOf(avgArg)
  {
    if |argv| != 4 then Exit(LogEntry(WrongArgsTag, []), 1)
    else Start(argv[1], argv[2], Config(avgArg, VarianceOf(avgArg)))
  }

  /** For a non-negative average the delay range is non-empty and never negative. */
  lemma StartupRangeOrdered(argv: seq<string>, avgArg: Int32)
    requires |argv| == 4 && avgArg >= 0
    ensures Startup(argv, avgArg).Start?
    ensures var c := Startup(argv, avgArg).cfg;
      0 <= c.Low() <= c.avg <= c.High() && c.High() - c.Low() == 2 * c.variance
  {
  }

  /** For a negative average no delay the distribution can return is non-negative. */
  lemma NegativeAverageNoDelay(argv: seq<string>, avgArg: Int32, d: int)
    requires |argv| == 4 && avgArg < 0
    ensures !(Startup(argv, avgArg).cfg.InRange(d) && d >= 0)
  {
  }

  /**
   * From -5 down the bounds cross (`avg - var > avg + var`), which breaks the
   * precondition `a <= b` of `uniform_int_distribution(a, b)`.
   */
  lemma VeryNegativeAverageEmptyRange(argv: seq<string>, avgArg: Int32)
    requires |argv| == 4 && avgArg <= -5
    ensures Startup(argv, avgArg).cfg.Low() > Startup(argv, avgArg).cfg.High()
  {
  }
}
