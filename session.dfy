/** A session: the timer driven by a sequence of messages, the invariants every
    sequence keeps, and the study/break rhythm it produces from the starting state. */
module Session {
  import GoInt
  import opened Timer

  /** The state after the runtime has fed every message of msgs to Update in order.
      Since breakTime never changes, a non-zero breakTime rules out every panic. */
  function Run(m: Model, msgs: seq<Msg>): (r: Model)
    requires m.breakTime != 0
    ensures r.studyTime == m.studyTime && r.breakTime == m.breakTime
    ensures r.elapsedTime == m.elapsedTime
    ensures m.cycle <= r.cycle <= m.cycle + |msgs|
    ensures m.running ==> r.running
    decreases |msgs|
  {
    if msgs == [] then m else Run(Update(m, msgs[0]).0, msgs[1..])
  }

  function Ticks(n: nat): (s: seq<Msg>)
    ensures |s| == n
  {
    seq(n, _ => Tick)
  }

  lemma {:induction false} RunAppend(m: Model, a: seq<Msg>, b: seq<Msg>)
    requires m.breakTime != 0
    ensures Run(m, a + b) == Run(Run(m, a), b)
    decreases |a|
  {
    if a != [] {
      assert a + b != [];
      assert (a + b)[0] == a[0];
      assert (a + b)[1..] == a[1..] + b;
      var m1 := Update(m, a[0]).0;
      assert Run(m, a + b) == Run(m1, a[1..] + b);
      assert Run(m, a) == Run(m1, a[1..]);
      RunAppend(m1, a[1..], b);
    } else {
      assert a + b == b;
    }
  }

  predicate WholeSeconds(d: int) {
    d % TickInterval == 0
  }

  function Max(a: int, b: int): int {
    if a < b then b else a
  }

  /** The longest period the timer can count down from. */
  function LongestPeriod(m: Model): int {
    Max(Max(m.studyTime, m.breakTime), BigBreakLength)
  }

  /** Durations configured as positive whole seconds, a whole-second elapsed time,
      a non-negative cycle count, and a remaining time in [0, LongestPeriod]. */
  predicate WellFormed(m: Model) {
    && m.studyTime > 0 && WholeSeconds(m.studyTime)
    && m.breakTime > 0 && WholeSeconds(m.breakTime)
    && m.elapsedTime >= 0 && WholeSeconds(m.elapsedTime)
    && m.cycle >= 0
    && 0 <= m.remaining <= LongestPeriod(m) && WholeSeconds(m.remaining)
  }

  lemma {:induction false} UpdateKeepsWellFormed(m: Model, msg: Msg)
    requires WellFormed(m)
    ensures WellFormed(Update(m, msg).0)
  {
    if msg == Tick {
      var m' := Update(m, msg).0;
      if m.remaining > 0 {
        WholeDifference(m.remaining, TickInterval);
        assert m'.remaining == m.remaining - TickInterval;
      } else if !m.isBreak && !BigBreakDue(m) {
        var rem := GoInt.Rem(m.elapsedTime, m.breakTime);
        GoInt.RemKeepsMultiple(m.elapsedTime, m.breakTime, TickInterval);
        WholeDifference(m.breakTime, rem);
        assert m'.remaining == m.breakTime - rem;
      }
    }
  }

  /** The difference of whole-second durations is a whole-second duration; a positive
      one is at least a second. */
  lemma WholeDifference(a: int, b: int)
    requires WholeSeconds(a) && WholeSeconds(b)
    ensures WholeSeconds(a - b)
    ensures a > b ==> a - b >= TickInterval
  {
    GoInt.DivMod(a, TickInterval);
    GoInt.DivMod(b, TickInterval);
    var k := a / TickInterval - b / TickInterval;
    assert a - b == TickInterval * k;
    GoInt.ModOfDecomposition(a - b, TickInterval, k, 0);
  }

  /** Whatever messages arrive, a well-formed state stays well formed: the remaining time
      never goes negative and never exceeds the longest configured period. */
  lemma {:induction false} RunKeepsWellFormed(m: Model, msgs: seq<Msg>)
    requires WellFormed(m)
    ensures WellFormed(Run(m, msgs))
    decreases |msgs|
  {
    if msgs != [] {
      UpdateKeepsWellFormed(m, msgs[0]);
      RunKeepsWellFormed(Update(m, msgs[0]).0, msgs[1..]);
    }
  }

  /** Every state a session can reach from its start: study time 3s, break time 2s,
      elapsed time 0, a remaining time in [0s, 10s] of whole seconds, and a cycle count
      between 0 and the number of messages processed. */
  lemma Reachable(totalTime: int, msgs: seq<Msg>)
    ensures var m := Run(InitialModel(totalTime), msgs);
      m.studyTime == StudyTime && m.breakTime == BreakTime && m.elapsedTime == 0 &&
      0 <= m.remaining <= BigBreakLength && WholeSeconds(m.remaining) &&
      0 <= m.cycle <= |msgs|
  {
    RunKeepsWellFormed(InitialModel(totalTime), msgs);
  }

  /** Once running, a timer never stops running, whatever the messages. */
  lemma {:induction false} RunningPersists(m: Model, msgs: seq<Msg>)
    requires m.breakTime != 0 && m.running
    ensures PhaseOf(Run(m, msgs)) != Idle
  {
  }

  /** k ticks on k whole seconds bring the remaining time to exactly zero and change
      nothing else but marking the timer running. */
  lemma {:induction false} CountDown(m: Model, k: nat)
    requires m.breakTime != 0 && m.remaining == k * TickInterval
    ensures Run(m, Ticks(k)) == if k == 0 then m else m.(running := true, remaining := 0)
    decreases k
  {
    if k > 0 {
      var m1 := m.(running := true, remaining := (k - 1) * TickInterval);
      assert Ticks(k)[0] == Tick;
      assert Ticks(k)[1..] == Ticks(k - 1);
      assert Update(m, Tick).0 == m1;
      CountDown(m1, k - 1);
    }
  }

  /** A running study period of the session started from InitialModel, on cycle c. */
  function StudyState(c: int): Model {
    Model(0, StudyTime, BreakTime, 0, true, StudyTime, false, 0, c)
  }

  /** The break that follows study period c: big (ten seconds) when c is a multiple of
      four, two seconds otherwise. */
  function BreakState(c: int): Model {
    Model(0, StudyTime, BreakTime, 0, true,
      if c % 4 == 0 then BigBreakLength else BreakTime, true, 0, c)
  }

  /** Ticks a study period takes to end: its three seconds, plus the tick that switches. */
  const StudyTicks: nat := 4

  /** Ticks a break takes to end: its seconds, plus the tick that switches. */
  function BreakTicks(c: int): nat {
    if c % 4 == 0 then 11 else 3
  }

  lemma Append(m: Model, n: nat)
    requires m.breakTime != 0
    ensures Ticks(n) + [Tick] == Ticks(n + 1)
    ensures Run(m, Ticks(n + 1)) == Run(Run(m, Ticks(n)), [Tick])
  {
    assert Ticks(n) + [Tick] == Ticks(n + 1);
    RunAppend(m, Ticks(n), [Tick]);
  }

  /** Study period c lasts four ticks and is followed by break c, which is big exactly
      when c is a multiple of four. */
  lemma {:induction false} StudyPeriod(c: int)
    ensures Run(StudyState(c), Ticks(StudyTicks)) == BreakState(c)
    ensures PhaseOf(BreakState(c)) == (if c % 4 == 0 then BigBreak else Break)
  {
    Append(StudyState(c), 3);
    CountDown(StudyState(c), 3);
    GoInt.RemZeroIffDivides(c, 4);
    GoInt.RemOfNonNegative(0, BreakTime);
  }

  /** Break c lasts BreakTicks(c) ticks and is followed by study period c + 1. */
  lemma {:induction false} BreakPeriod(c: int)
    ensures Run(BreakState(c), Ticks(BreakTicks(c))) == StudyState(c + 1)
  {
    var n := BreakTicks(c) - 1;
    Append(BreakState(c), n);
    CountDown(BreakState(c), n);
  }

  /** Ticks n study periods and their breaks take, starting from study period c. */
  function RoundTicks(c: int, n: nat): nat
    decreases n
  {
    if n == 0 then 0 else StudyTicks + BreakTicks(c) + RoundTicks(c + 1, n - 1)
  }

  /** Left alone, the timer runs study period after study period, each followed by one
      break and each counting one cycle: after n rounds it studies on cycle c + n. */
  lemma {:induction false} Rounds(c: int, n: nat)
    ensures Run(StudyState(c), Ticks(RoundTicks(c, n))) == StudyState(c + n)
    decreases n
  {
    if n > 0 {
      var s, b, rest := StudyTicks, BreakTicks(c), RoundTicks(c + 1, n - 1);
      assert Ticks(RoundTicks(c, n)) == Ticks(s) + Ticks(b) + Ticks(rest);
      RunAppend(StudyState(c), Ticks(s) + Ticks(b), Ticks(rest));
      RunAppend(StudyState(c), Ticks(s), Ticks(b));
      StudyPeriod(c);
      BreakPeriod(c);
      Rounds(c + 1, n - 1);
    }
  }

  /** Key `s` on the starting state begins study period 1. */
  lemma Start(totalTime: int)
    ensures Run(InitialModel(totalTime), [Key("s")]) == StudyState(1)
  {
  }

  /** After `s` and four ticks the first break begins: cycle 1, two seconds. */
  lemma FirstBreak(totalTime: int)
    ensures Run(InitialModel(totalTime), [Key("s")] + Ticks(4)) == BreakState(1)
    ensures PhaseOf(BreakState(1)) == Break && BreakState(1).remaining == 2 * Second
  {
    RunAppend(InitialModel(totalTime), [Key("s")], Ticks(4));
    StudyPeriod(1);
  }

  /** After `s` and 25 ticks (three study periods with their short breaks, then a fourth
      study period) the first big break begins: cycle 4, ten seconds. */
  lemma {:induction false} FirstBigBreak(totalTime: int)
    ensures Run(InitialModel(totalTime), [Key("s")] + Ticks(25)) == BreakState(4)
    ensures PhaseOf(BreakState(4)) == BigBreak && BreakState(4).remaining == BigBreakLength
  {
    var m0 := InitialModel(totalTime);
    assert RoundTicks(1, 3) == 21 by {
      assert RoundTicks(4, 0) == 0;
      assert RoundTicks(3, 1) == 7;
      assert RoundTicks(2, 2) == 14;
    }
    assert Ticks(25) == Ticks(21) + Ticks(4);
    assert [Key("s")] + Ticks(25) == [Key("s")] + Ticks(21) + Ticks(4);
    RunAppend(m0, [Key("s")] + Ticks(21), Ticks(4));
    RunAppend(m0, [Key("s")], Ticks(21));
    Rounds(1, 3);
    StudyPeriod(4);
  }
}
