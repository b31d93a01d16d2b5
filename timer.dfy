/** The Pomodoro cycle state machine: the timer's state, its starting value, and the
    transition it makes on each key press or clock tick. */
module Timer {
  import GoInt

  /** A duration is a Go `time.Duration`: a whole number of nanoseconds. */
  const Second: int := 1_000_000_000
  const Minute: int := 60 * Second

  /** The period of the clock tick the timer asks the runtime for. */
  const TickInterval: int := Second

  /** The durations initialModel hard-codes. */
  const StudyTime: int := 3 * Second
  const BreakTime: int := 2 * Second
  const BigBreakTime: int := 10 * Second

  /** The length a big break actually gets: a literal, independent of the bigBreakTime field. */
  const BigBreakLength: int := 10 * Second

  /** One snapshot of the timer. Fields carry the Go struct's field names. */
  datatype Model = Model(
    totalTime: int,
    studyTime: int,
    breakTime: int,
    bigBreakTime: int,
    running: bool,
    remaining: int,
    isBreak: bool,
    elapsedTime: int,
    cycle: int)

  /** What the runtime feeds the timer: a key press (by the name the terminal library gives
      it), a clock tick, or any other message (a window resize, say). */
  datatype Msg = Key(name: string) | Tick | Other

  /** What the timer hands back to the runtime: nothing, "stop the program", or
      "deliver a Tick after TickInterval". */
  datatype Cmd = NoCmd | QuitCmd | TickCmd

  /** The activity the timer shows: not yet started, studying, or on a (big) break. */
  datatype Phase = Idle | Study | Break | BigBreak

  predicate IsQuitKey(name: string) {
    name == "ctrl+c" || name == "q"
  }

  /** The message starts the timer: key `s` while the timer is not running. */
  predicate Starts(m: Model, msg: Msg) {
    msg == Key("s") && !m.running
  }

  /** A break is big when the cycle count is a multiple of four (Go's `cycle % 4 == 0`). */
  predicate BigBreakDue(m: Model) {
    GoInt.Rem(m.cycle, 4) == 0
  }

  /** The phase the status shows. A break is big exactly when the cycle count is a
      multiple of four, whatever its sign. */
  function PhaseOf(m: Model): (p: Phase)
    ensures p == Idle <==> !m.running
    ensures p == Study <==> m.running && !m.isBreak
    ensures p == BigBreak <==> m.running && m.isBreak && m.cycle % 4 == 0
    ensures p == Break <==> m.running && m.isBreak && m.cycle % 4 != 0
  {
    GoInt.RemZeroIffDivides(m.cycle, 4);
    if !m.running then Idle
    else if !m.isBreak then Study
    else if BigBreakDue(m) then BigBreak
    else Break
  }

  /** Starting state for a session of totalTime: idle, with a full study period ahead. */
  function InitialModel(totalTime: int): (m: Model)
    ensures PhaseOf(m) == Idle && !m.isBreak
    ensures m.remaining == m.studyTime == StudyTime
    ensures m.breakTime == BreakTime && m.bigBreakTime == BigBreakTime
    ensures m.elapsedTime == 0 && m.cycle == 0 && m.totalTime == totalTime
  {
    Model(
      totalTime := totalTime,
      studyTime := StudyTime,
      breakTime := BreakTime,
      bigBreakTime := BigBreakTime,
      running := false,
      remaining := StudyTime,
      isBreak := false,
      elapsedTime := 0,
      cycle := 0)
  }

  /** The number of minutes typed at the prompt, as a Duration: Go multiplies two int64
      values, so a huge entry wraps around. */
  function TotalTimeFromMinutes(minutes: int): (d: int)
    requires GoInt.IsInt64(minutes)
    ensures GoInt.IsInt64(d)
    ensures GoInt.IsInt64(minutes * Minute) ==> d == minutes * Minute
    ensures (minutes * Minute - d) % GoInt.Modulus64 == 0
  {
    GoInt.Wrap64(minutes * Minute)
  }

  /** Update would evaluate `elapsedTime % breakTime` with a zero breakTime: a Go run-time
      panic. That happens only when a study period ends on a cycle that is not a multiple
      of four. */
  predicate Panics(m: Model, msg: Msg)
    ensures Panics(m, msg) ==> msg == Tick && m.cycle % 4 != 0 && m.breakTime == 0
    ensures m.breakTime != 0 ==> !Panics(m, msg)
  {
    GoInt.RemZeroIffDivides(m.cycle, 4);
    msg == Tick && m.remaining <= 0 && !m.isBreak && !BigBreakDue(m) && m.breakTime == 0
  }

  /** The transition function: the new state and the command for the runtime. */
  function Update(m: Model, msg: Msg): (r: (Model, Cmd))
    requires !Panics(m, msg)
    // the configured durations and the elapsed time are never changed
    ensures r.0.studyTime == m.studyTime && r.0.breakTime == m.breakTime
    ensures r.0.elapsedTime == m.elapsedTime
    // the cycle count never goes down and grows by at most one
    ensures m.cycle <= r.0.cycle <= m.cycle + 1
    // only a quit key stops the program; every tick and every start asks for the next tick
    ensures r.1 == QuitCmd <==> msg.Key? && IsQuitKey(msg.name)
    ensures r.1 == TickCmd <==> msg == Tick || Starts(m, msg)
    // a message that asks for no tick leaves the state alone; one that does leaves it running
    ensures r.1 != TickCmd ==> r.0 == m
    ensures r.1 == TickCmd ==> r.0.running
  {
    match msg
    case Key(name) =>
      if IsQuitKey(name) then (m, QuitCmd)
      else if name == "s" && !m.running then
        // the literal leaves out totalTime and bigBreakTime, so both become zero
        (Model(
          totalTime := 0,
          studyTime := m.studyTime,
          breakTime := m.breakTime,
          bigBreakTime := 0,
          running := true,
          remaining := m.studyTime,
          isBreak := false,
          elapsedTime := m.elapsedTime,
          cycle := m.cycle + 1), TickCmd)
      else (m, NoCmd)
    case Tick =>
      if m.remaining <= 0 && m.isBreak then
        (m.(running := true, remaining := m.studyTime, isBreak := false, cycle := m.cycle + 1), TickCmd)
      else if m.remaining <= 0 && BigBreakDue(m) then
        (m.(running := true, remaining := BigBreakLength, isBreak := true), TickCmd)
      else if m.remaining <= 0 then
        (m.(running := true, remaining := m.breakTime - GoInt.Rem(m.elapsedTime, m.breakTime), isBreak := true), TickCmd)
      else
        (m.(running := true, remaining := m.remaining - TickInterval), TickCmd)
    case Other =>
      (m, NoCmd)
  }

  /** A quit key stops the program from any state and leaves the state as it was;
      delivering it again changes nothing more. */
  lemma QuitKeepsState(m: Model, name: string)
    requires IsQuitKey(name)
    ensures Update(m, Key(name)) == (m, QuitCmd)
    ensures Update(Update(m, Key(name)).0, Key(name)) == Update(m, Key(name))
  {
  }

  /** Key `s` on an idle timer starts a study period with a full studyTime and one more
      cycle, keeps the configured study and break times and the elapsed time, zeroes
      totalTime and bigBreakTime, and asks for a tick. */
  lemma StartBeginsStudy(m: Model)
    requires !m.running
    ensures var (m', cmd) := Update(m, Key("s"));
      cmd == TickCmd && PhaseOf(m') == Study &&
      m'.remaining == m.studyTime && m'.cycle == m.cycle + 1 &&
      m'.studyTime == m.studyTime && m'.breakTime == m.breakTime &&
      m'.elapsedTime == m.elapsedTime &&
      m'.totalTime == 0 && m'.bigBreakTime == 0
  {
  }

  /** Key `s` on a running timer, any key other than `s` and the quit keys, and any
      message that is neither a key nor a tick leave the state unchanged and issue no command. */
  lemma IgnoredMessages(m: Model, msg: Msg)
    requires msg == Other || (msg.Key? && !IsQuitKey(msg.name) && !Starts(m, msg))
    ensures Update(m, msg) == (m, NoCmd)
  {
  }

  /** A tick with time left takes exactly one TickInterval off the remaining time and
      marks the timer running, whether or not it was running; nothing else changes. */
  lemma TickCountsDown(m: Model)
    requires m.remaining > 0
    ensures Update(m, Tick) == (m.(running := true, remaining := m.remaining - TickInterval), TickCmd)
    ensures Update(m, Tick).0.remaining < m.remaining
  {
  }

  /** A tick at the end of a break starts a study period with a full studyTime and
      counts one more cycle. */
  lemma BreakEnds(m: Model)
    requires m.remaining <= 0 && m.isBreak
    ensures var (m', cmd) := Update(m, Tick);
      cmd == TickCmd && PhaseOf(m') == Study &&
      m' == m.(running := true, remaining := m.studyTime, isBreak := false, cycle := m.cycle + 1)
  {
  }

  /** A tick at the end of a study period starts a break and keeps the cycle count.
      The break is big exactly when the cycle count is a multiple of four, and then lasts
      ten seconds whatever bigBreakTime says; otherwise it lasts what is left of the current
      breakTime slot of elapsedTime, which is in (0, breakTime]. */
  lemma StudyEnds(m: Model)
    requires m.remaining <= 0 && !m.isBreak && !Panics(m, Tick)
    ensures var (m', cmd) := Update(m, Tick);
      cmd == TickCmd && m'.isBreak && m'.cycle == m.cycle &&
      m' == m.(running := true, remaining := m'.remaining, isBreak := true) &&
      (PhaseOf(m') == BigBreak <==> m.cycle % 4 == 0) &&
      (PhaseOf(m') == Break <==> m.cycle % 4 != 0) &&
      (m.cycle % 4 == 0 ==> m'.remaining == BigBreakLength) &&
      (m.cycle % 4 != 0 ==> m'.remaining == m.breakTime - GoInt.Rem(m.elapsedTime, m.breakTime)) &&
      (m.cycle % 4 != 0 && m.breakTime > 0 && m.elapsedTime >= 0 ==> 0 < m'.remaining <= m.breakTime)
  {
  }

  /** The cycle count goes up on exactly two transitions: starting the timer and ending
      a break. Ending a study period does not count a cycle. */
  lemma CycleStep(m: Model, msg: Msg)
    requires !Panics(m, msg)
    ensures Update(m, msg).0.cycle == m.cycle + 1 <==>
      Starts(m, msg) || (msg == Tick && m.remaining <= 0 && m.isBreak)
  {
  }
}
