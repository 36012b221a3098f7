/** The wake-up of Fs_Select when its time is up: TimeoutProc runs beside the scan loop, one step of
    either at a time. */
module SelectTimeout {
  import opened Runs

  /** How the two sides are written: whether the loop takes its wait token before it tests the flag,
      and whether a wake-up with an old token is dropped. Fs_Select takes the token first, and
      ProcessWakeup ignores tokens. */
  datatype Design = Design(tokenFirst: bool, checksToken: bool)

  /** Where the selecting process stands. */
  datatype Process =
    | First                 // Sync_GetWaitToken, or the test of the flag, comes next
    | Second                // the other of the two comes next
    | Scanning
    | AtWait                // Sync_ProcWait comes next
    | Asleep
    | Woken                 // made ready, and still inside Sync_ProcWait
    | Done

  /** Where TimeoutProc stands. */
  datatype Timer =
    | Pending
    | FlagSet               // timeOut is TRUE; the process's token is read next
    | Waking(token: nat)    // Sync_ProcWakeup comes next
    | Fired

  datatype State = State(design: Design, process: Process, timer: Timer, timeOut: bool, token: nat, complete: bool)

  datatype Event =
    | ProcessStep
    | FoundReady            // the scan finds a ready stream
    | TimerStep
    | OtherWakeup           // some stream wakes the process up

  predicate Init(s: State) {
    s.process == First && s.timer == Pending && !s.timeOut && !s.complete
  }

  function TakeToken(s: State, next: Process): State {
    s.(token := s.token + 1, process := next)
  }

  function TestFlag(s: State, next: Process): State {
    s.(process := if s.timeOut then Done else next)
  }

  /** ProcessWakeup. */
  function Wakeup(s: State): State {
    s.(complete := true, process := if s.process == Asleep then Woken else s.process)
  }

  function StepProcess(s: State): State {
    match s.process
    case First => if s.design.tokenFirst then TakeToken(s, Second) else TestFlag(s, Second)
    case Second => if s.design.tokenFirst then TestFlag(s, Scanning) else TakeToken(s, Scanning)
    case Scanning => s.(process := AtWait)
    case AtWait =>
      if s.complete then s.(complete := false, token := s.token + 1, process := First) else s.(process := Asleep)
    case Asleep => s
    case Woken => s.(complete := false, token := s.token + 1, process := First)
    case Done => s
  }

  function StepTimer(s: State): State {
    match s.timer
    case Pending => s.(timeOut := true, timer := FlagSet)
    case FlagSet => s.(timer := Waking(s.token))
    case Waking(token) =>
      if s.design.checksToken && token != s.token then s.(timer := Fired) else Wakeup(s).(timer := Fired)
    case Fired => s
  }

  function Step(s: State, e: Event): State {
    match e
    case ProcessStep => StepProcess(s)
    case FoundReady => if s.process == Scanning then s.(process := Done) else s
    case TimerStep => StepTimer(s)
    case OtherWakeup => Wakeup(s)
  }

  /** One turn of the loop takes one token. When the time runs out between its two halves, a process that
      takes the token first finds the flag set, and one that tests first goes on to scan. */
  lemma TimeRunsOutBetween(s: State)
    requires s.process == First && s.timer == Pending && !s.timeOut
    ensures Run(Step, s, [ProcessStep, ProcessStep]) == s.(process := Scanning, token := s.token + 1)
    ensures Run(Step, s, [ProcessStep, TimerStep, ProcessStep]) ==
            s.(process := if s.design.tokenFirst then Done else Scanning, token := s.token + 1, timeOut := true,
               timer := FlagSet)
  {
    var s1 := Step(s, ProcessStep);
    TraceEnds(Step, s, [ProcessStep, ProcessStep], [s1, Step(s1, ProcessStep)]);
    var s2 := Step(s1, TimerStep);
    TraceEnds(Step, s, [ProcessStep, TimerStep, ProcessStep], [s1, s2, Step(s2, ProcessStep)]);
  }

  /** A scan that finds a ready stream ends the select. Otherwise the process waits, unless a wake-up has
      come since its last wait; a wake-up is used up, and sends the process round the loop again. */
  lemma WaitsForWakeup(s: State)
    requires s.process == Scanning
    ensures Step(s, FoundReady) == s.(process := Done)
    ensures var again := s.(process := First, complete := false, token := s.token + 1);
            && Run(Step, s, [ProcessStep, ProcessStep]) == (if s.complete then again else s.(process := Asleep))
            && Run(Step, s, [ProcessStep, OtherWakeup, ProcessStep]) == again
            && (!s.complete ==> Run(Step, s, [ProcessStep, ProcessStep, OtherWakeup, ProcessStep]) == again)
  {
    var s1 := Step(s, ProcessStep);
    var s2 := Step(s1, ProcessStep);
    var s3 := Step(s2, OtherWakeup);
    TraceEnds(Step, s, [ProcessStep, ProcessStep], [s1, s2]);
    TraceEnds(Step, s, [ProcessStep, ProcessStep, OtherWakeup, ProcessStep], [s1, s2, s3, Step(s3, ProcessStep)]);
    var w := Step(s1, OtherWakeup);
    TraceEnds(Step, s, [ProcessStep, OtherWakeup, ProcessStep], [s1, w, Step(w, ProcessStep)]);
  }

  /** The flag has been found FALSE in this turn of the loop. */
  predicate PastTest(s: State) {
    match s.process
    case First => false
    case Second => !s.design.tokenFirst
    case Scanning => true
    case AtWait => true
    case Asleep => true
    case Woken => false
    case Done => false
  }

  /** A wake-up that is still to come will reach the process, or has reached it. */
  predicate Inv(s: State) {
    && (s.timeOut <==> s.timer != Pending)
    && (s.process == Asleep ==> !s.complete) && (s.process == Woken ==> s.complete)
    && (PastTest(s) && s.timer == Fired ==> s.complete)
    && (PastTest(s) && s.timer.Waking? && s.design.checksToken ==> s.timer.token == s.token)
  }

  predicate Sound(d: Design) {
    d.tokenFirst || !d.checksToken
  }

  lemma StepKeeps(s: State, e: Event)
    requires Sound(s.design) && Inv(s)
    ensures Inv(Step(s, e)) && Step(s, e).design == s.design
  {
    match e
    case ProcessStep =>
    case FoundReady =>
    case TimerStep =>
    case OtherWakeup =>
  }

  lemma {:induction false} RunKeeps(s: State, events: seq<Event>)
    requires Sound(s.design) && Inv(s)
    ensures Inv(Run(Step, s, events)) && Run(Step, s, events).design == s.design
    decreases |events|
  {
    if events != [] {
      StepKeeps(s, events[0]);
      RunKeeps(Step(s, events[0]), events[1..]);
    }
  }

  /** No run leaves the process asleep once TimeoutProc has returned. */
  ghost predicate WakesAll(d: Design) {
    forall s, events :: Init(s) && s.design == d ==> NotStuck(Run(Step, s, events))
  }

  predicate NotStuck(s: State) {
    !(s.process == Asleep && s.timer == Fired)
  }

  /** That holds exactly when the token is taken before the flag is tested, or tokens are ignored. */
  lemma TimeoutAlwaysWakes(d: Design)
    ensures WakesAll(d) <==> d.tokenFirst || !d.checksToken
  {
    if Sound(d) {
      forall s, events | Init(s) && s.design == d
        ensures NotStuck(Run(Step, s, events))
      {
        RunKeeps(s, events);
      }
    } else {
      var s := State(d, First, Pending, false, 0, false);
      MissedWakeup(s);
    }
  }

  /** With the two swapped, the time can run out between the test and the token: the wake-up carries
      the old token, and the process sleeps on. */
  lemma MissedWakeup(s: State)
    requires Init(s) && !s.design.tokenFirst && s.design.checksToken
    ensures exists events :: !NotStuck(Run(Step, s, events))
  {
    var events := [ProcessStep, TimerStep, TimerStep, ProcessStep, TimerStep, ProcessStep, ProcessStep];
    var s1 := Step(s, events[0]);
    var s2 := Step(s1, events[1]);
    var s3 := Step(s2, events[2]);
    var s4 := Step(s3, events[3]);
    var s5 := Step(s4, events[4]);
    var s6 := Step(s5, events[5]);
    var s7 := Step(s6, events[6]);
    TraceEnds(Step, s, events, [s1, s2, s3, s4, s5, s6, s7]);
    assert !NotStuck(Run(Step, s, events));
  }

  // ------------------------------------------------------------------ and the loop ends

  /** The steps the process has left to take once TimeoutProc has returned. */
  function Left(s: State): nat {
    match s.process
    case Done => 0
    case First => if s.design.tokenFirst then 2 else 1
    case Second => if s.design.tokenFirst then 1 else 4
    case Scanning => if s.design.tokenFirst then 4 else 3
    case AtWait => if s.design.tokenFirst then 3 else 2
    case Asleep => if s.design.tokenFirst then 3 else 2
    case Woken => if s.design.tokenFirst then 3 else 2
  }

  function ProcessSteps(events: seq<Event>): nat {
    if events == [] then 0 else (if events[0] == ProcessStep then 1 else 0) + ProcessSteps(events[1..])
  }

  lemma StepNearsEnd(s: State, e: Event)
    requires Sound(s.design) && Inv(s) && s.timer == Fired
    ensures var s' := Step(s, e);
            s'.timer == Fired && Left(s') <= Left(s) && (e == ProcessStep ==> Left(s') < Left(s) || Left(s') == 0)
  {
  }

  lemma {:induction false} RunNearsEnd(s: State, events: seq<Event>)
    requires Sound(s.design) && Inv(s) && s.timer == Fired && ProcessSteps(events) >= Left(s)
    ensures Run(Step, s, events).process == Done
    decreases |events|
  {
    if events != [] {
      StepNearsEnd(s, events[0]);
      StepKeeps(s, events[0]);
      RunNearsEnd(Step(s, events[0]), events[1..]);
    }
  }

  /** Whatever has happened by the time TimeoutProc returns, the select is over once the process has
      taken n more steps. */
  ghost predicate ReturnsWithin(d: Design, n: nat) {
    forall s, before, after :: Init(s) && s.design == d ==> Returns(Run(Step, s, before), after, n)
  }

  predicate Returns(s: State, after: seq<Event>, n: nat) {
    s.timer == Fired && ProcessSteps(after) >= n ==> Run(Step, s, after).process == Done
  }

  /** A select is over four steps of its process after its time is up, or it may never be. */
  lemma TimeoutEndsSelect(d: Design)
    ensures ReturnsWithin(d, 4) <==> d.tokenFirst || !d.checksToken
    ensures !Sound(d) ==> forall n :: !ReturnsWithin(d, n)
  {
    if Sound(d) {
      forall s, before, after | Init(s) && s.design == d
        ensures Returns(Run(Step, s, before), after, 4)
      {
        RunKeeps(s, before);
        if Run(Step, s, before).timer == Fired && ProcessSteps(after) >= 4 {
          RunNearsEnd(Run(Step, s, before), after);
        }
      }
    } else {
      var s := State(d, First, Pending, false, 0, false);
      MissedWakeup(s);
      var before :| !NotStuck(Run(Step, s, before));
      forall n: nat
        ensures !ReturnsWithin(d, n)
      {
        SleepsOn(Run(Step, s, before), n);
        assert !Returns(Run(Step, s, before), Steps(n), n);
      }
    }
  }

  function Steps(n: nat): seq<Event> {
    if n == 0 then [] else [ProcessStep] + Steps(n - 1)
  }

  lemma {:induction false} SleepsOn(s: State, n: nat)
    requires s.process == Asleep
    ensures ProcessSteps(Steps(n)) == n && Run(Step, s, Steps(n)) == s
  {
    if n > 0 {
      SleepsOn(s, n - 1);
      assert Steps(n)[1..] == Steps(n - 1);
    }
  }

  /** Fs_Select as it is, where the token comes first and wake-ups ignore tokens: it never sleeps past
      its time, and it returns. */
  lemma SelectIsWoken(s: State, events: seq<Event>, after: seq<Event>)
    requires Init(s) && s.design == Design(true, false)
    ensures NotStuck(Run(Step, s, events))
    ensures Run(Step, s, events).timer == Fired && ProcessSteps(after) >= 4 ==>
              Run(Step, Run(Step, s, events), after).process == Done
  {
    RunKeeps(s, events);
    TimeoutEndsSelect(s.design);
    assert Returns(Run(Step, s, events), after, 4);
  }
}
