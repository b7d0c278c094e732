/**
 The handshake between a benchmark worker and its driver: one state word under a mutex, one
 condition variable, under every schedule and with spurious wakeups.
 */
module BenchmarkWorker {

  // worker states, in the order of the enumeration
  const IDLE := 0
  const INIT := 1
  const INITIALIZED := 2
  const RUN := 3
  const END := 4
  const EXIT := 5
  const DONE := 6

  /** The callbacks of a benchmark. */
  datatype Callback = InitBench | RunBench | ExitBench

  datatype Instr =
    | Lock
    | Unlock
    | Wait(from: int, to: int)    // worker_state_wait_for_transition
    | Change(from: int, to: int)  // worker_state_transition
    | Work(call: Callback)
    | JoinThread
    | Stop

  /** thread_func */
  function WorkerCode(pc: int): Instr {
    match pc
    case 0 => Lock
    case 1 => Wait(IDLE, INIT)
    case 2 => Work(InitBench)
    case 3 => Change(INIT, INITIALIZED)
    case 4 => Wait(INITIALIZED, RUN)
    case 5 => Work(RunBench)
    case 6 => Change(RUN, END)
    case 7 => Wait(END, EXIT)
    case 8 => Work(ExitBench)
    case 9 => Change(EXIT, DONE)
    case 10 => Unlock
    case _ => Stop
  }

  /** benchmark_worker_init, _run, _join, _exit and _free. */
  function DriverCode(pc: int): Instr {
    match pc
    case 0 => Lock
    case 1 => Change(IDLE, INIT)
    case 2 => Wait(INIT, INITIALIZED)
    case 3 => Unlock
    case 4 => Lock
    case 5 => Change(INITIALIZED, RUN)
    case 6 => Unlock
    case 7 => Lock
    case 8 => Wait(RUN, END)
    case 9 => Unlock
    case 10 => Lock
    case 11 => Change(END, EXIT)
    case 12 => Wait(EXIT, DONE)
    case 13 => Unlock
    case 14 => JoinThread
    case _ => Stop
  }

  /** Awake, asleep in pthread_cond_wait, or woken and waiting for the mutex. */
  datatype Mode = Awake | Asleep | Woken

  datatype Who = Nobody | Worker | Driver

  datatype Thread = Thread(pc: int, mode: Mode)

  /** `calls` are the callbacks executed so far, in order. */
  datatype State = State(word: int, owner: Who, w: Thread, d: Thread, calls: seq<Callback>)

  const START := State(IDLE, Nobody, Thread(0, Awake), Thread(0, Awake), [])

  function Of(s: State, who: Who): Thread { if who == Worker then s.w else s.d }

  function Set(s: State, who: Who, t: Thread): State { if who == Worker then s.(w := t) else s.(d := t) }

  function Other(who: Who): Who { if who == Worker then Driver else Worker }

  function Code(s: State, who: Who): Instr {
    if who == Worker then WorkerCode(s.w.pc) else DriverCode(s.d.pc)
  }

  function Next(s: State, who: Who): State {
    Set(s, who, Thread(Of(s, who).pc + 1, Awake))
  }

  /** pthread_cond_signal: wakes the other thread if it sleeps. */
  function Signal(s: State, who: Who): State {
    var o := Other(who);
    if Of(s, o).mode == Asleep then Set(s, o, Of(s, o).(mode := Woken)) else s
  }

  predicate Enabled(s: State, who: Who) {
    match Of(s, who).mode
    case Asleep => false
    case Woken => s.owner == Nobody
    case Awake =>
      match Code(s, who)
      case Lock => s.owner == Nobody
      case JoinThread => WorkerCode(s.w.pc) == Stop
      case Stop => false
      case _ => true
  }

  function Step(s: State, who: Who): State {
    if !Enabled(s, who) then s
    else if Of(s, who).mode == Woken then Set(s, who, Of(s, who).(mode := Awake)).(owner := who)
    else
      match Code(s, who)
      case Lock => Next(s, who).(owner := who)
      case Unlock => Next(s, who).(owner := Nobody)
      case Wait(from, _) =>
        if s.word == from then Set(s, who, Of(s, who).(mode := Asleep)).(owner := Nobody) else Next(s, who)
      case Change(_, to) => Signal(Next(s, who).(word := to), who)
      case Work(call) => Next(s, who).(calls := s.calls + [call])
      case JoinThread => Next(s, who)
      case Stop => s
  }

  /** A wakeup that no signal caused. */
  function Spurious(s: State, who: Who): State {
    if Of(s, who).mode == Asleep then Set(s, who, Of(s, who).(mode := Woken)) else s
  }

  datatype Move = Go(who: Who) | Wake(who: Who)

  function After(s: State, m: Move): State {
    match m
    case Go(who) => if who == Nobody then s else Step(s, who)
    case Wake(who) => if who == Nobody then s else Spurious(s, who)
  }

  function Run(s: State, ms: seq<Move>): State
    decreases |ms|
  {
    if ms == [] then s else Run(After(s, ms[0]), ms[1..])
  }

  // ---------------------------------------------------------------------------------------
  // The invariant

  /** The state assertions of the original. */
  predicate AssertHolds(s: State, who: Who) {
    Of(s, who).mode == Awake ==>
      match Code(s, who)
      case Wait(from, to) => s.word == from || s.word == to
      case Change(from, _) => s.word == from
      case _ => true
  }

  /** State changes each side has made. */
  function WorkerChanges(pc: int): int { if pc <= 3 then 0 else if pc <= 6 then 1 else if pc <= 9 then 2 else 3 }

  function DriverChanges(pc: int): int { if pc <= 1 then 0 else if pc <= 5 then 1 else if pc <= 11 then 2 else 3 }

  /** The changes of the other side that this program point has waited for. */
  function WorkerAwaits(pc: int): int { if pc <= 1 then 0 else if pc <= 4 then 1 else if pc <= 7 then 2 else 3 }

  function DriverAwaits(pc: int): int { if pc <= 2 then 0 else if pc <= 8 then 1 else if pc <= 12 then 2 else 3 }

  /** The callbacks the worker has executed when it is at pc. */
  function Executed(pc: int): seq<Callback> {
    if pc <= 2 then [] else if pc <= 5 then [InitBench] else if pc <= 8 then [InitBench, RunBench] else [InitBench, RunBench, ExitBench]
  }

  predicate WorkerHolds(pc: int) { 1 <= pc <= 10 }

  predicate DriverHolds(pc: int) { 1 <= pc <= 3 || 5 <= pc <= 6 || 8 <= pc <= 9 || 11 <= pc <= 13 }

  predicate SleepsRight(s: State, who: Who) {
    match Of(s, who).mode
    case Awake => true
    case Asleep => Code(s, who).Wait? && Code(s, who).from == s.word
    case Woken => Code(s, who).Wait?
  }

  predicate Inv(s: State) {
    && 0 <= s.w.pc <= 11 && 0 <= s.d.pc <= 15
    && s.word == WorkerChanges(s.w.pc) + DriverChanges(s.d.pc)
    && WorkerAwaits(s.w.pc) <= DriverChanges(s.d.pc) && DriverAwaits(s.d.pc) <= WorkerChanges(s.w.pc)
    && (s.owner == Worker <==> s.w.mode == Awake && WorkerHolds(s.w.pc))
    && (s.owner == Driver <==> s.d.mode == Awake && DriverHolds(s.d.pc))
    && SleepsRight(s, Worker) && SleepsRight(s, Driver)
    && (s.d.pc == 15 ==> s.w.pc == 11) && s.calls == Executed(s.w.pc)
  }

  lemma AssertionsHold(s: State, who: Who)
    requires Inv(s) && who != Nobody
    ensures AssertHolds(s, who)
  {
  }

  lemma SpuriousKeeps(s: State, who: Who)
    requires Inv(s) && who != Nobody
    ensures Inv(Spurious(s, who))
  {
  }

  lemma RelocksKeeps(s: State, who: Who)
    requires Inv(s) && who != Nobody && Of(s, who).mode == Woken
    ensures Inv(Step(s, who))
  {
  }

  lemma WaitKeeps(s: State, who: Who)
    requires Inv(s) && who != Nobody && Of(s, who).mode == Awake && Code(s, who).Wait?
    ensures Inv(Step(s, who))
  {
    if who == Worker {
      assert s.w.pc == 1 || s.w.pc == 4 || s.w.pc == 7;
    } else {
      assert s.d.pc == 2 || s.d.pc == 8 || s.d.pc == 12;
    }
  }

  lemma ChangeKeeps(s: State, who: Who)
    requires Inv(s) && who != Nobody && Of(s, who).mode == Awake && Code(s, who).Change?
    ensures Inv(Step(s, who)) && Step(s, who).word == s.word + 1
  {
    if who == Worker {
      assert s.w.pc == 3 || s.w.pc == 6 || s.w.pc == 9;
    } else {
      assert s.d.pc == 1 || s.d.pc == 5 || s.d.pc == 11;
    }
  }

  lemma WorkerOtherKeeps(s: State)
    requires Inv(s) && s.w.mode == Awake && !Code(s, Worker).Wait? && !Code(s, Worker).Change?
    ensures Inv(Step(s, Worker)) && Step(s, Worker).word == s.word
  {
    assert s.w.pc == 0 || s.w.pc == 2 || s.w.pc == 5 || s.w.pc == 8 || s.w.pc == 10 || s.w.pc == 11;
  }

  lemma DriverOtherKeeps(s: State)
    requires Inv(s) && s.d.mode == Awake && !Code(s, Driver).Wait? && !Code(s, Driver).Change?
    ensures Inv(Step(s, Driver)) && Step(s, Driver).word == s.word
  {
    if s.d.pc < 8 {
      assert s.d.pc == 0 || s.d.pc == 3 || s.d.pc == 4 || s.d.pc == 6 || s.d.pc == 7;
    } else {
      assert s.d.pc == 9 || s.d.pc == 10 || s.d.pc == 13 || s.d.pc == 14 || s.d.pc == 15;
    }
  }

  lemma StepKeeps(s: State, who: Who)
    requires Inv(s) && who != Nobody
    ensures Inv(Step(s, who)) && Inv(Spurious(s, who)) && AssertHolds(s, who)
    ensures Step(s, who).word == s.word || Step(s, who).word == s.word + 1
  {
    AssertionsHold(s, who);
    SpuriousKeeps(s, who);
    if Of(s, who).mode == Woken {
      RelocksKeeps(s, who);
    } else if Of(s, who).mode == Awake {
      if Code(s, who).Wait? {
        WaitKeeps(s, who);
      } else if Code(s, who).Change? {
        ChangeKeeps(s, who);
      } else if who == Worker {
        WorkerOtherKeeps(s);
      } else {
        DriverOtherKeeps(s);
      }
    }
  }

  lemma {:induction false} RunKeeps(s: State, ms: seq<Move>)
    requires Inv(s)
    ensures Inv(Run(s, ms)) && s.word <= Run(s, ms).word
    decreases |ms|
  {
    if ms != [] {
      var who := ms[0].who;
      if who != Nobody { StepKeeps(s, who); }
      RunKeeps(After(s, ms[0]), ms[1..]);
    }
  }

  /** In every schedule, with any spurious wakeups, no state assertion fails, and each step leaves
      the state alone or moves it to the next of the enumeration. */
  lemma NoAssertionFails(ms: seq<Move>, who: Who)
    requires who != Nobody
    ensures
      var s := Run(START, ms);
      AssertHolds(s, who) && s.word <= Step(s, who).word <= s.word + 1 && IDLE <= s.word <= DONE
  {
    RunKeeps(START, ms);
    StepKeeps(Run(START, ms), who);
  }

  /** A signal never finds a sleeper that waits for something else, and a thread that sleeps
      unsignalled is right to: its state has not been left. */
  lemma SignalsReachTheirSleeper(ms: seq<Move>, who: Who)
    requires who != Nobody
    ensures
      var s := Run(START, ms);
      && (Of(s, who).mode == Asleep ==> Code(s, who).Wait? && s.word == Code(s, who).from)
      && (Enabled(s, who) && Of(s, who).mode == Awake && Code(s, who).Change? && Of(s, Other(who)).mode == Asleep ==>
            Code(s, Other(who)).Wait? && Code(s, Other(who)).from == Code(s, who).from && Code(s, Other(who)).to == Code(s, who).to)
  {
    RunKeeps(START, ms);
    var s := Run(START, ms);
    StepKeeps(s, who);
    if who == Worker { WorkerSignals(s); } else { DriverSignals(s); }
  }

  lemma WorkerSignals(s: State)
    requires Inv(s)
    ensures s.w.mode == Awake && Code(s, Worker).Change? && s.d.mode == Asleep ==>
      Code(s, Driver).Wait? && Code(s, Driver).from == Code(s, Worker).from && Code(s, Driver).to == Code(s, Worker).to
  {
  }

  lemma DriverSignals(s: State)
    requires Inv(s)
    ensures s.d.mode == Awake && Code(s, Driver).Change? && s.w.mode == Asleep ==>
      Code(s, Worker).Wait? && Code(s, Worker).from == Code(s, Driver).from && Code(s, Worker).to == Code(s, Driver).to
  {
  }

  /** Until both are through, one of them can step, without any spurious wakeup. */
  lemma SomeoneSteps(s: State)
    requires Inv(s)
    ensures Enabled(s, Worker) || Enabled(s, Driver) || (s.word == DONE && s.w.pc == 11 && s.d.pc == 15)
  {
    if s.w.mode == Asleep {
      DriverCanStep(s);
    } else if s.d.mode == Asleep {
      WorkerCanStep(s);
    } else {
      BothUp(s);
    }
  }

  lemma DriverCanStep(s: State)
    requires Inv(s) && s.w.mode == Asleep
    ensures Enabled(s, Driver)
  {
  }

  lemma WorkerCanStep(s: State)
    requires Inv(s) && s.d.mode == Asleep
    ensures Enabled(s, Worker)
  {
  }

  lemma BothUp(s: State)
    requires Inv(s) && s.w.mode != Asleep && s.d.mode != Asleep
    ensures Enabled(s, Worker) || Enabled(s, Driver) || (s.word == DONE && s.w.pc == 11 && s.d.pc == 15)
  {
  }

  lemma NoDeadlock(ms: seq<Move>)
    ensures
      var s := Run(START, ms);
      Enabled(s, Worker) || Enabled(s, Driver) || (s.word == DONE && s.w.pc == 11 && s.d.pc == 15)
  {
    RunKeeps(START, ms);
    SomeoneSteps(Run(START, ms));
  }

  /**
   In every schedule each callback is executed at most once and in order: none before the driver
   has asked for it by its state, and it has been when the worker leaves that state. So it has been
   when benchmark_worker_init, _join and _exit return.
   */
  lemma CallbacksRunOnce(ms: seq<Move>)
    ensures
      var s := Run(START, ms);
      && s.calls <= [InitBench, RunBench, ExitBench]
      && (InitBench in s.calls ==> INIT <= s.word) && (INITIALIZED <= s.word ==> InitBench in s.calls)
      && (RunBench in s.calls ==> RUN <= s.word) && (END <= s.word ==> RunBench in s.calls)
      && (ExitBench in s.calls ==> EXIT <= s.word) && (DONE <= s.word ==> ExitBench in s.calls)
      && (4 <= s.d.pc ==> InitBench in s.calls) && (10 <= s.d.pc ==> RunBench in s.calls)
      && (14 <= s.d.pc ==> ExitBench in s.calls)
  {
    RunKeeps(START, ms);
  }

  // ---------------------------------------------------------------------------------------
  // Every schedule comes to its end

  /** How far a thread has got; on its way through a wait, further once its state has been left. */
  function Level(s: State, who: Who): int {
    var t := Of(s, who);
    4 * t.pc +
    match Code(s, who)
    case Wait(from, _) =>
      if s.word == from then (match t.mode case Awake => 0 case Asleep => 1 case Woken => -1)
      else if t.mode == Awake then 3 else 2
    case _ => 0
  }

  function Levels(s: State): int { Level(s, Worker) + Level(s, Driver) }

  /** A wait is never reached before its state. */
  lemma NotTooEarly(s: State, who: Who)
    requires Inv(s) && who != Nobody && Code(s, who).Wait?
    ensures Code(s, who).from <= s.word
  {
    if who == Worker {
      assert s.w.pc == 1 || s.w.pc == 4 || s.w.pc == 7;
    } else {
      assert s.d.pc == 2 || s.d.pc == 8 || s.d.pc == 12;
    }
  }

  lemma StepClimbs(s: State, who: Who)
    requires Inv(s) && who != Nobody && Enabled(s, who)
    ensures Levels(s) < Levels(Step(s, who))
  {
    StepKeeps(s, who);
    OwnLevelClimbs(s, who);
    OtherLevelStays(s, who);
  }

  lemma OwnLevelClimbs(s: State, who: Who)
    requires Inv(s) && who != Nobody && Enabled(s, who) && Inv(Step(s, who))
    ensures Level(s, who) < Level(Step(s, who), who)
  {
    if Code(Step(s, who), who).Wait? { NotTooEarly(Step(s, who), who); }
  }

  lemma OtherLevelStays(s: State, who: Who)
    requires Inv(s) && who != Nobody && Enabled(s, who) && s.word <= Step(s, who).word
    ensures Level(s, Other(who)) <= Level(Step(s, who), Other(who))
  {
    if Code(s, Other(who)).Wait? { NotTooEarly(s, Other(who)); }
  }

  lemma WakeSlips(s: State, who: Who)
    requires Inv(s) && who != Nobody
    ensures Levels(s) - 2 <= Levels(Spurious(s, who))
  {
  }

  lemma LevelsEnd(s: State)
    requires Inv(s)
    ensures Levels(s) <= 104
  {
    assert s.w.pc == 11 ==> Code(s, Worker) == Stop;
    assert s.d.pc == 15 ==> Code(s, Driver) == Stop;
  }

  /** Steps taken. */
  function Steps(s: State, ms: seq<Move>): int
    decreases |ms|
  {
    if ms == [] then 0
    else (if ms[0].Go? && ms[0].who != Nobody && Enabled(s, ms[0].who) then 1 else 0) + Steps(After(s, ms[0]), ms[1..])
  }

  function Wakeups(ms: seq<Move>): int {
    if ms == [] then 0 else (if ms[0].Wake? then 1 else 0) + Wakeups(ms[1..])
  }

  lemma {:induction false} StepsAreFew(s: State, ms: seq<Move>)
    requires Inv(s)
    ensures Inv(Run(s, ms)) && Steps(s, ms) <= Levels(Run(s, ms)) - Levels(s) + 2 * Wakeups(ms)
    decreases |ms|
  {
    if ms != [] {
      var m, who := ms[0], ms[0].who;
      if who != Nobody {
        StepKeeps(s, who);
        if m.Wake? {
          WakeSlips(s, who);
        } else if Enabled(s, who) {
          StepClimbs(s, who);
        }
      }
      StepsAreFew(After(s, m), ms[1..]);
    }
  }

  /** Every schedule comes to its end: no more than 104 steps are taken, and two for every spurious
      wakeup, and a schedule that leaves nobody a step to take has brought both threads through. */
  lemma EveryScheduleEnds(ms: seq<Move>)
    ensures Steps(START, ms) <= 104 + 2 * Wakeups(ms)
    ensures
      var s := Run(START, ms);
      !Enabled(s, Worker) && !Enabled(s, Driver) ==> s.word == DONE && s.calls == [InitBench, RunBench, ExitBench] && s.d.pc == 15
  {
    StepsAreFew(START, ms);
    LevelsEnd(Run(START, ms));
    NoDeadlock(ms);
  }
}
