/** Terminal input: the interrupt handler puts values into a ring that a kernel process empties,
    without locks. One step of the model is one load or store of a shared index or cell, and the
    steps of the two sides interleave in any order. */
module TtyInput {
  import opened Common
  import opened Rings
  import opened Runs

  const TTY_IN_BUF_SIZE := 100
  const DEV_TTY_BREAK := 1000
  const DEV_TTY_HANGUP := 1001

  /** Where DevTtyInputChar stands, with its locals. */
  datatype Interrupt =
    | NoInterrupt
    | AtCheck(value: int, at: nat)      // at is loaded; next == extractInput comes next
    | AtStore(value: int, at: nat)      // inBuffer[at] = value comes next
    | AtAdvance(value: int, at: nat)    // insertInput = next comes next
    | AtTest(at: nat)                    // at == extractInput comes next
    | AtSchedule                         // Proc_CallFunc comes next

  /** Where TransferInProc stands, with its locals. */
  datatype Process =
    | Waiting
    | AtOpenCheck                        // holds the monitor lock
    | AtLoop                             // extractInput != insertInput comes next
    | AtFetch                            // value = inBuffer[extractInput] comes next
    | AtExtract(value: int)              // extractInput = next comes next
    | AtDeliver(value: int)              // the call that consumes the value comes next

  /** DevTtyOpen resets the two indices one after the other. */
  datatype Opening = NotOpening | AtResetExtract

  datatype State = State(
    inBuffer: seq<int>, insertInput: nat, extractInput: nat,
    interrupt: Interrupt, process: Process, opening: Opening,
    scheduled: nat, openCount: nat,
    accepted: seq<int>, delivered: seq<int>)

  predicate Shape(s: State) {
    |s.inBuffer| == TTY_IN_BUF_SIZE && s.insertInput < TTY_IN_BUF_SIZE && s.extractInput < TTY_IN_BUF_SIZE
  }

  datatype Event =
    | Arrive(value: int)      // the device interrupts with a value
    | InterruptStep
    | StartProcess            // a kernel server process takes a scheduled call
    | ProcessStep
    | BeginOpen               // DevTtyOpen of a closed terminal: insertInput = 0
    | FinishOpen(ok: bool)    // extractInput = 0, and Td_Open succeeds or fails
    | OpenAgain
    | Close

  /** Inside the monitor lock there is one of: a transfer, an open, a close. */
  predicate MonitorFree(s: State) {
    s.process == Waiting && s.opening == NotOpening
  }

  function StepInterrupt(s: State): (s': State)
    requires Shape(s)
    ensures Shape(s')
  {
    match s.interrupt
    case NoInterrupt => s
    case AtCheck(value, at) =>
      if at < TTY_IN_BUF_SIZE && Next(TTY_IN_BUF_SIZE, at) == s.extractInput
      then s.(interrupt := NoInterrupt)
      else s.(interrupt := AtStore(value, at))
    case AtStore(value, at) =>
      if at < TTY_IN_BUF_SIZE
      then s.(inBuffer := s.inBuffer[at := value], interrupt := AtAdvance(value, at))
      else s
    case AtAdvance(value, at) =>
      if at < TTY_IN_BUF_SIZE
      then s.(insertInput := Next(TTY_IN_BUF_SIZE, at), interrupt := AtTest(at), accepted := s.accepted + [value])
      else s
    case AtTest(at) =>
      s.(interrupt := if at == s.extractInput then AtSchedule else NoInterrupt)
    case AtSchedule =>
      s.(interrupt := NoInterrupt, scheduled := s.scheduled + 1)
  }

  function StepProcess(s: State): (s': State)
    requires Shape(s)
    ensures Shape(s')
  {
    match s.process
    case Waiting => s
    case AtOpenCheck => s.(process := if s.openCount == 0 then Waiting else AtLoop)
    case AtLoop => s.(process := if s.extractInput != s.insertInput then AtFetch else Waiting)
    case AtFetch => s.(process := AtExtract(s.inBuffer[s.extractInput]))
    case AtExtract(value) =>
      s.(extractInput := Next(TTY_IN_BUF_SIZE, s.extractInput), process := AtDeliver(value))
    case AtDeliver(value) => s.(delivered := s.delivered + [value], process := AtLoop)
  }

  /** An open of a closed terminal. It starts a new list of accepted values. */
  predicate Opens(s: State, e: Event) {
    e == BeginOpen && MonitorFree(s) && s.openCount == 0
  }

  function StepMonitor(s: State, e: Event): (s': State)
    requires Shape(s)
    ensures Shape(s')
  {
    match e
    case StartProcess =>
      if MonitorFree(s) && s.scheduled > 0
      then s.(process := AtOpenCheck, scheduled := s.scheduled - 1) else s
    case BeginOpen =>
      if Opens(s, e)
      then s.(insertInput := 0, opening := AtResetExtract, accepted := s.delivered) else s
    case FinishOpen(ok) =>
      if s.opening == AtResetExtract
      then s.(extractInput := 0, opening := NotOpening, openCount := if ok then 1 else 0) else s
    case OpenAgain =>
      if MonitorFree(s) && s.openCount > 0 then s.(openCount := s.openCount + 1) else s
    case Close =>
      if MonitorFree(s) && s.openCount > 0 then s.(openCount := s.openCount - 1) else s
    case _ => s
  }

  /** One step; one that cannot happen now leaves the state alone. */
  function Step(s: State, e: Event): State {
    if !Shape(s) then s else
    match e
    case Arrive(value) =>
      if s.interrupt == NoInterrupt then s.(interrupt := AtCheck(value, s.insertInput)) else s
    case InterruptStep => StepInterrupt(s)
    case ProcessStep => StepProcess(s)
    case _ => StepMonitor(s, e)
  }

  /** A closed terminal, before anything has happened. */
  predicate Init(s: State) {
    && Shape(s) && s.insertInput == s.extractInput == 0
    && s.interrupt == NoInterrupt && s.process == Waiting && s.opening == NotOpening
    && s.scheduled == 0 && s.openCount == 0 && s.accepted == [] && s.delivered == []
  }

  /** A terminal is open from an open that Td accepts until as many closes as opens have come. */
  lemma ClosesUndoOpens(s: State)
    requires Shape(s) && MonitorFree(s)
    ensures if s.openCount == 0 then
              && Run(Step, s, [BeginOpen, FinishOpen(true)]).openCount == 1
              && Run(Step, s, [BeginOpen, FinishOpen(false)]).openCount == 0
              && Step(s, OpenAgain) == s && Step(s, Close) == s
            else
              && Step(s, BeginOpen) == s && Step(s, OpenAgain).openCount == s.openCount + 1
              && Run(Step, s, [OpenAgain, Close]) == s
  {
    var opening := Step(s, BeginOpen);
    TraceEnds(Step, s, [BeginOpen, FinishOpen(true)], [opening, Step(opening, FinishOpen(true))]);
    TraceEnds(Step, s, [BeginOpen, FinishOpen(false)], [opening, Step(opening, FinishOpen(false))]);
    var more := Step(s, OpenAgain);
    TraceEnds(Step, s, [OpenAgain, Close], [more, Step(more, Close)]);
  }

  // ------------------------------------------------------------------ the values in the ring

  /** What the process has taken out of the ring but not handed on. */
  function InHand(p: Process): seq<int> {
    if p.AtDeliver? then [p.value] else []
  }

  function Ring(s: State): seq<int>
    requires Shape(s)
  {
    Contents(s.inBuffer, s.extractInput, s.insertInput)
  }

  /** What has been put in the ring and not taken out. Between the two resets of an open, when
      extractInput is still the old one, that is what has arrived since the first. */
  function Unread(s: State): seq<int>
    requires Shape(s)
  {
    if s.opening == AtResetExtract then s.inBuffer[..s.insertInput] else Ring(s)
  }

  /** The values handed on, then the one in the process's hand, then the unread cells, are the
      accepted values in order. */
  predicate InOrder(s: State) {
    Shape(s) && s.accepted == s.delivered + InHand(s.process) + Unread(s)
  }

  lemma {:induction false} UnwrappedContents(buf: seq<int>, e: nat, i: nat)
    requires e <= i < |buf|
    ensures Contents(buf, e, i) == buf[e..i]
    decreases i - e
  {
    if e < i {
      UnwrappedContents(buf, e + 1, i);
    }
  }

  // ------------------------------------------------------------------ three kinds of states

  /** The handler has loaded insertInput and has not yet stored it again. */
  predicate Storing(i: Interrupt) {
    i.AtCheck? || i.AtStore? || i.AtAdvance?
  }

  /** The handler stores the index that follows one it loaded before an open reset insertInput. */
  predicate StaleStore(s: State, e: Event) {
    e == InterruptStep && s.interrupt.AtAdvance? && s.interrupt.at != s.insertInput
  }

  /** A transfer and an open exclude each other, and a transfer runs in an open terminal. */
  predicate MonitorOk(s: State) {
    && (s.process != Waiting ==> s.opening == NotOpening)
    && (s.process != Waiting && s.process != AtOpenCheck ==> s.openCount > 0)
    && (s.opening == AtResetExtract ==> s.openCount == 0)
  }

  /** The interrupt handler's locals match the ring. */
  predicate InterruptOk(s: State)
    requires Shape(s)
  {
    match s.interrupt
    case NoInterrupt => true
    case AtCheck(_, at) => at == s.insertInput
    case AtStore(_, at) => at == s.insertInput && Next(TTY_IN_BUF_SIZE, at) != s.extractInput
    case AtAdvance(value, at) =>
      at == s.insertInput && Next(TTY_IN_BUF_SIZE, at) != s.extractInput && s.inBuffer[at] == value
    case AtTest(at) => at < TTY_IN_BUF_SIZE
    case AtSchedule => true
  }

  predicate ProcessOk(s: State)
    requires Shape(s)
  {
    match s.process
    case AtFetch => s.extractInput != s.insertInput
    case AtExtract(value) => s.extractInput != s.insertInput && s.inBuffer[s.extractInput] == value
    case _ => true
  }

  /** The two sides agree about the ring. */
  predicate Agreed(s: State) {
    && Shape(s) && MonitorOk(s) && InterruptOk(s) && ProcessOk(s)
    && (s.opening == AtResetExtract ==> s.extractInput == 0 || s.insertInput < s.extractInput)
  }

  predicate Inv(s: State) {
    Agreed(s) && InOrder(s)
  }

  /** An open has overtaken the handler, which holds an index of the old ring; the new one is empty. */
  predicate Overtaken(s: State) {
    && Shape(s) && MonitorOk(s)
    && Storing(s.interrupt) && 0 < s.interrupt.at < TTY_IN_BUF_SIZE && s.insertInput == 0
    && (s.opening == AtResetExtract || s.extractInput == 0)
    && (s.process == Waiting || s.process == AtOpenCheck || s.process == AtLoop)
    && s.accepted == s.delivered
  }

  /** How many more values have been accepted than are accounted for, give or take turns of the ring. */
  function Gap(s: State): int {
    |s.accepted| - |s.delivered| - |InHand(s.process)| - s.insertInput
    + if s.opening == AtResetExtract then 0 else s.extractInput
  }

  predicate Turns(gap: int) {
    gap % TTY_IN_BUF_SIZE == 0
  }

  lemma TurnMore(gap: int)
    ensures Turns(gap + TTY_IN_BUF_SIZE) <==> Turns(gap)
  {
  }

  /** A handler that holds index 0 has found room. */
  predicate FindsRoom(s: State) {
    (s.interrupt.AtStore? || s.interrupt.AtAdvance?) && s.insertInput == 0 ==> s.extractInput != 1
  }

  /** A stale store has put insertInput where it does not belong. */
  predicate Skewed(s: State) {
    && Shape(s) && MonitorOk(s) && !Turns(Gap(s))
    && (Storing(s.interrupt) ==> s.interrupt.at == s.insertInput)
    && (s.interrupt.AtAdvance? ==> s.inBuffer[s.interrupt.at] == s.interrupt.value)
    && (s.interrupt.AtTest? ==> s.interrupt.at < TTY_IN_BUF_SIZE)
    && (s.process == Waiting || s.process == AtOpenCheck ==> FindsRoom(s))
  }

  lemma OvertakenInOrder(s: State)
    requires Overtaken(s)
    ensures InOrder(s) && Unread(s) == []
  {
  }

  lemma SkewedOutOfOrder(s: State)
    requires Skewed(s)
    ensures !InOrder(s)
  {
  }

  // ------------------------------------------------------------------ steps from where the sides agree

  lemma StoreAgrees(s: State)
    requires Agreed(s) && s.interrupt.AtStore?
    ensures Agreed(StepInterrupt(s)) && Unread(StepInterrupt(s)) == Unread(s)
  {
    StoreFree(s.inBuffer, s.extractInput, s.interrupt.at, s.interrupt.value);
  }

  lemma AdvanceAgrees(s: State)
    requires Agreed(s) && s.interrupt.AtAdvance?
    ensures Agreed(StepInterrupt(s)) && Unread(StepInterrupt(s)) == Unread(s) + [s.interrupt.value]
  {
    Advance(s.inBuffer, s.extractInput, s.interrupt.at);
  }

  lemma Appended(accepted: seq<int>, delivered: seq<int>, hand: seq<int>, unread: seq<int>, value: int)
    requires accepted == delivered + hand + unread
    ensures accepted + [value] == delivered + hand + (unread + [value])
  {
  }

  lemma InterruptInv(s: State)
    requires Inv(s)
    ensures Inv(StepInterrupt(s))
  {
    if s.interrupt.AtStore? {
      StoreAgrees(s);
    } else if s.interrupt.AtAdvance? {
      AdvanceAgrees(s);
      Appended(s.accepted, s.delivered, InHand(s.process), Unread(s), s.interrupt.value);
    }
  }

  lemma ExtractAgrees(s: State)
    requires Agreed(s) && s.process.AtExtract?
    ensures Agreed(StepProcess(s)) && Unread(s) == [s.process.value] + Unread(StepProcess(s))
  {
  }

  lemma ProcessInv(s: State)
    requires Inv(s)
    ensures Inv(StepProcess(s))
  {
    match s.process
    case AtExtract(value) =>
      ExtractAgrees(s);
      Moved(s.delivered, value, Unread(StepProcess(s)));
    case AtDeliver(value) =>
      Moved(s.delivered, value, Unread(s));
    case _ =>
  }

  /** An open empties the ring. If the handler holds another index than the one the open stores, it has
      been overtaken. */
  lemma OpenAgrees(s: State)
    requires (Inv(s) || Skewed(s)) && Opens(s, BeginOpen)
    ensures var s' := Step(s, BeginOpen);
            if Storing(s.interrupt) && s.insertInput != 0 then Overtaken(s') else Inv(s')
  {
  }

  lemma FinishAgrees(s: State, ok: bool)
    requires Inv(s)
    ensures Inv(Step(s, FinishOpen(ok)))
  {
    if s.opening == AtResetExtract {
      UnwrappedContents(s.inBuffer, 0, s.insertInput);
    }
  }

  /** From where the two sides agree, a step keeps the agreement, unless an open overtakes the handler
      with another index than 0. */
  lemma StepInv(s: State, e: Event)
    requires Inv(s)
    ensures !StaleStore(s, e)
    ensures if Opens(s, e) && Storing(s.interrupt) && s.insertInput != 0 then Overtaken(Step(s, e)) else Inv(Step(s, e))
  {
    match e
    case InterruptStep => InterruptInv(s);
    case ProcessStep => ProcessInv(s);
    case FinishOpen(ok) => FinishAgrees(s, ok);
    case BeginOpen => if Opens(s, e) { OpenAgrees(s); }
    case _ =>
  }

  /** An overtaken handler goes away if it finds the ring full, and otherwise does a stale store in
      the end. */
  lemma OvertakenStep(s: State, e: Event)
    requires Overtaken(s)
    ensures var s' := Step(s, e);
            if StaleStore(s, e) then Skewed(s') else Inv(s') || Overtaken(s')
  {
    OvertakenInOrder(s);
  }

  lemma SkewedInterrupt(s: State)
    requires Skewed(s)
    ensures Skewed(StepInterrupt(s))
  {
    TurnMore(Gap(s));
    assert Gap(StepInterrupt(s)) == Gap(s) || Gap(StepInterrupt(s)) == Gap(s) + TTY_IN_BUF_SIZE;
  }

  lemma SkewedProcess(s: State)
    requires Skewed(s)
    ensures Skewed(StepProcess(s))
  {
    TurnMore(Gap(StepProcess(s)));
    assert Gap(s) == Gap(StepProcess(s)) || Gap(s) == Gap(StepProcess(s)) + TTY_IN_BUF_SIZE;
  }

  /** After a stale store only an open puts things right, or has its handler overtaken in turn. */
  lemma SkewedStep(s: State, e: Event)
    requires Skewed(s)
    ensures !StaleStore(s, e)
    ensures if Opens(s, e) then Inv(Step(s, e)) || Overtaken(Step(s, e)) else Skewed(Step(s, e))
  {
    match e
    case InterruptStep => SkewedInterrupt(s);
    case ProcessStep => SkewedProcess(s);
    case BeginOpen => if Opens(s, e) { OpenAgrees(s); }
    case _ =>
  }

  // ------------------------------------------------------------------ order, over all runs

  /** Step i is a stale store, and no open has begun since. */
  ghost predicate StaleSince(start: State, events: seq<Event>, i: nat, n: nat)
    requires i < n <= |events|
  {
    && StaleStore(At(Step, start, events, i), events[i])
    && (forall k :: i < k < n ==> !Opens(At(Step, start, events, k), events[k]))
  }

  ghost predicate Stale(start: State, events: seq<Event>, n: nat)
    requires n <= |events|
  {
    exists i :: 0 <= i < n && StaleSince(start, events, i, n)
  }

  /** Every reachable state is of one of the three kinds. */
  predicate Reached(s: State) {
    Inv(s) || Overtaken(s) || Skewed(s)
  }

  lemma KindNext(s: State, e: Event)
    requires Reached(s)
    ensures Reached(Step(s, e)) && (Skewed(Step(s, e)) <==> StaleStore(s, e) || (Skewed(s) && !Opens(s, e)))
  {
    if Inv(s) {
      StepInv(s, e);
    } else if Overtaken(s) {
      OvertakenStep(s, e);
    } else {
      SkewedStep(s, e);
    }
    KindsDiffer(Step(s, e));
    KindsDiffer(s);
  }

  lemma KindsDiffer(s: State)
    ensures Skewed(s) ==> !Inv(s) && !Overtaken(s)
  {
    if Skewed(s) {
      SkewedOutOfOrder(s);
      if Overtaken(s) { OvertakenInOrder(s); }
    }
  }

  lemma {:induction false} StandsAt(start: State, events: seq<Event>, n: nat)
    requires Init(start) && n <= |events|
    ensures var s := At(Step, start, events, n);
            Reached(s) && (Skewed(s) <==> Stale(start, events, n))
  {
    if n == 0 {
      AtEnds(Step, start, events);
    } else {
      var m := n - 1;
      StandsAt(start, events, m);
      AtNext(Step, start, events, m);
      KindNext(At(Step, start, events, m), events[m]);
      StaleNext(start, events, m);
    }
  }

  lemma StaleNext(start: State, events: seq<Event>, n: nat)
    requires n < |events|
    ensures var s := At(Step, start, events, n);
            Stale(start, events, n + 1) <==>
            StaleStore(s, events[n]) || (Stale(start, events, n) && !Opens(s, events[n]))
  {
    var s, next := At(Step, start, events, n), n + 1;
    if StaleStore(s, events[n]) {
      assert StaleSince(start, events, n, next);
    }
    if i :| 0 <= i < n && StaleSince(start, events, i, n) {
      assert !Opens(s, events[n]) ==> StaleSince(start, events, i, next);
    }
    if i :| 0 <= i < next && StaleSince(start, events, i, next) {
      assert i < n ==> StaleSince(start, events, i, n);
    }
  }

  lemma OrderAt(start: State, events: seq<Event>, n: nat)
    requires Init(start) && n <= |events|
    ensures InOrder(At(Step, start, events, n)) <==> !Stale(start, events, n)
  {
    StandsAt(start, events, n);
    var s := At(Step, start, events, n);
    if Skewed(s) {
      SkewedOutOfOrder(s);
    } else if Overtaken(s) {
      OvertakenInOrder(s);
    }
  }

  /** First in, first out, over all runs, with the two sides interleaved in any way: the values handed
      on, then the one in the process's hand, then the unread cells, are the accepted values in order,
      except from a stale store to the next open. An open starts a new list of accepted values: what
      the last user left unread is dropped. */
  lemma {:induction false} FirstInFirstOut(start: State, events: seq<Event>)
    requires Init(start)
    ensures InOrder(Run(Step, start, events)) <==>
            !exists i :: 0 <= i < |events| && StaleSince(start, events, i, |events|)
  {
    AtEnds(Step, start, events);
    OrderAt(start, events, |events|);
  }

  /** The values are in order after every step. */
  ghost predicate AlwaysInOrder(start: State, events: seq<Event>) {
    forall n :: 0 <= n <= |events| ==> InOrder(At(Step, start, events, n))
  }

  /** They are exactly when no step is a stale store. */
  lemma InOrderThroughout(start: State, events: seq<Event>)
    requires Init(start)
    ensures AlwaysInOrder(start, events) <==>
            forall n :: 0 <= n < |events| ==> !StaleStore(At(Step, start, events, n), events[n])
  {
    if n :| 0 <= n < |events| && StaleStore(At(Step, start, events, n), events[n]) {
      StaleNext(start, events, n);
      OrderAt(start, events, n + 1);
    } else {
      forall n | 0 <= n <= |events|
        ensures InOrder(At(Step, start, events, n))
      {
        OrderAt(start, events, n);
      }
    }
  }

  /** A store never lands on an unread cell, as long as there has been no stale one. */
  lemma {:induction false} StoresAreFree(start: State, events: seq<Event>)
    requires Init(start) && !Stale(start, events, |events|) && Run(Step, start, events).interrupt.AtStore?
    ensures var s := Run(Step, start, events);
            Shape(s) && Unread(StepInterrupt(s)) == Unread(s)
  {
    var s := Run(Step, start, events);
    AtEnds(Step, start, events);
    StandsAt(start, events, |events|);
    StoreFree(s.inBuffer, s.extractInput, s.interrupt.at, s.interrupt.value);
  }

  /** A value is dropped exactly when all cells but one hold values from extractInput on; an overtaken
      handler can drop one when nothing is unread. */
  lemma DroppedWhenFull(start: State, events: seq<Event>)
    requires Init(start) && Run(Step, start, events).interrupt.AtCheck?
    ensures var s := Run(Step, start, events);
            && Shape(s)
            && (s.interrupt.at == s.insertInput ==>
                  (StepInterrupt(s).interrupt == NoInterrupt <==> |Ring(s)| == TTY_IN_BUF_SIZE - 1))
            && (s.interrupt.at != s.insertInput ==> Unread(s) == [])
  {
    var s := Run(Step, start, events);
    AtEnds(Step, start, events);
    StandsAt(start, events, |events|);
    if Overtaken(s) {
      OvertakenInOrder(s);
    }
  }

  // ------------------------------------------------------------------ wake-ups

  /** Somebody will look at the ring again. */
  predicate Attended(s: State) {
    || s.scheduled > 0
    || s.process != Waiting
    || s.interrupt == AtSchedule
    || s.interrupt == AtTest(s.extractInput)
  }

  /** Values are waiting in an open terminal, and nobody will look at the ring again. */
  predicate Lost(s: State) {
    s.openCount > 0 && s.insertInput != s.extractInput && !Attended(s)
  }

  /** An open stores extractInput after values have arrived since it stored insertInput; nothing is
      scheduled, and the handler has not still to test the first of them. */
  predicate OpensUnheard(s: State, e: Event) {
    && e == FinishOpen(true) && s.opening == AtResetExtract && s.insertInput > 0
    && s.scheduled == 0 && s.interrupt != AtSchedule && s.interrupt != AtTest(0)
  }

  /** A stale store leaves values in the ring of an open terminal; its handler will not find that the
      ring was empty, and nothing is scheduled or running. */
  predicate StoresUnheard(s: State, e: Event) {
    && StaleStore(s, e) && s.interrupt.at != TTY_IN_BUF_SIZE - 1
    && s.openCount > 0 && s.scheduled == 0 && s.process == Waiting
  }

  predicate Loses(s: State, e: Event) {
    OpensUnheard(s, e) || StoresUnheard(s, e)
  }

  /** The last user closes the terminal; or the handler, which found room before an open reset
      extractInput, fills the last cell and makes the ring look empty. */
  predicate Forgets(s: State, e: Event) {
    || (e == Close && MonitorFree(s) && s.openCount == 1)
    || (e == InterruptStep && s.interrupt.AtAdvance? && s.interrupt.at == s.insertInput < TTY_IN_BUF_SIZE
        && Next(TTY_IN_BUF_SIZE, s.interrupt.at) == s.extractInput)
  }

  /** What a reachable state has to offer about wake-ups. */
  predicate Basic(s: State) {
    && Shape(s) && MonitorOk(s)
    && (s.interrupt.AtAdvance? ==>
          && s.interrupt.at < TTY_IN_BUF_SIZE
          && (s.interrupt.at != s.insertInput && s.openCount > 0 ==> s.insertInput == s.extractInput == 0))
  }

  lemma ReachedBasic(s: State)
    requires Reached(s)
    ensures Basic(s)
  {
  }

  lemma LostInterrupt(s: State)
    requires Basic(s)
    ensures Lost(StepInterrupt(s)) <==> Loses(s, InterruptStep) || (Lost(s) && !Forgets(s, InterruptStep))
  {
  }

  /** What a single step does to a wake-up. */
  lemma LostNext(s: State, e: Event)
    requires Basic(s)
    ensures Lost(Step(s, e)) <==> Loses(s, e) || (Lost(s) && !Forgets(s, e))
  {
    if e == InterruptStep {
      LostInterrupt(s);
    }
  }

  /** Step i loses a wake-up, and nothing forgets it before step n. */
  ghost predicate LostBy(start: State, events: seq<Event>, i: nat, n: nat)
    requires i < n <= |events|
  {
    && Loses(At(Step, start, events, i), events[i])
    && (forall k :: i < k < n ==> !Forgets(At(Step, start, events, k), events[k]))
  }

  ghost predicate LostSince(start: State, events: seq<Event>, n: nat)
    requires n <= |events|
  {
    exists i :: 0 <= i < n && LostBy(start, events, i, n)
  }

  lemma LostSinceNext(start: State, events: seq<Event>, n: nat)
    requires n < |events|
    ensures var s := At(Step, start, events, n);
            LostSince(start, events, n + 1) <==>
            Loses(s, events[n]) || (LostSince(start, events, n) && !Forgets(s, events[n]))
  {
    var s, next := At(Step, start, events, n), n + 1;
    if Loses(s, events[n]) {
      assert LostBy(start, events, n, next);
    }
    if i :| 0 <= i < n && LostBy(start, events, i, n) {
      assert !Forgets(s, events[n]) ==> LostBy(start, events, i, next);
    }
    if i :| 0 <= i < next && LostBy(start, events, i, next) {
      assert i < n ==> LostBy(start, events, i, n);
    }
  }

  lemma {:induction false} LostAt(start: State, events: seq<Event>, n: nat)
    requires Init(start) && n <= |events|
    ensures Lost(At(Step, start, events, n)) <==> LostSince(start, events, n)
  {
    if n == 0 {
      AtEnds(Step, start, events);
    } else {
      var m := n - 1;
      var s := At(Step, start, events, m);
      LostAt(start, events, m);
      StandsAt(start, events, m);
      ReachedBasic(s);
      LostNext(s, events[m]);
      AtNext(Step, start, events, m);
      LostSinceNext(start, events, m);
    }
  }

  /** Over all runs: a wake-up is lost exactly when a step of one of two kinds has lost it, an open that
      resets extractInput after values have arrived in the ring it had emptied or a stale store into
      the ring of an open terminal, and nothing has made the driver forget the values since. */
  lemma WakeupLostExactly(start: State, events: seq<Event>)
    requires Init(start)
    ensures Lost(Run(Step, start, events)) <==> exists i :: 0 <= i < |events| && LostBy(start, events, i, |events|)
  {
    AtEnds(Step, start, events);
    LostAt(start, events, |events|);
  }

  /** No lost wake-up: while the terminal is open and values are waiting, a transfer is scheduled
      or running, or the interrupt handler is about to schedule one, as long as no step loses one. */
  lemma {:induction false} NoLostWakeup(start: State, events: seq<Event>)
    requires Init(start)
    requires forall i :: 0 <= i < |events| ==> !Loses(At(Step, start, events, i), events[i])
    ensures var s := Run(Step, start, events);
            s.openCount > 0 && s.extractInput != s.insertInput ==> Attended(s)
  {
    WakeupLostExactly(start, events);
  }

  /** Values that have arrived in the ring of an open that has extractInput still to store, already 0,
      have been heard of. */
  predicate Heard(s: State) {
    s.opening == AtResetExtract && s.extractInput == 0 && s.insertInput > 0 ==>
      s.scheduled > 0 || s.interrupt == AtSchedule || s.interrupt == AtTest(0)
  }

  lemma HeardNext(s: State, e: Event)
    requires Reached(s) && (Heard(s) || Opens(s, e)) && !StaleStore(s, e)
    ensures Heard(Step(s, e))
  {
  }

  lemma {:induction false} HeardAt(start: State, events: seq<Event>, n: nat)
    requires Init(start) && n <= |events| && !Stale(start, events, n)
    ensures Heard(At(Step, start, events, n))
  {
    if n == 0 {
      AtEnds(Step, start, events);
    } else {
      StandsAt(start, events, n - 1);
      AtNext(Step, start, events, n - 1);
      StaleNext(start, events, n - 1);
      if !Stale(start, events, n - 1) {
        HeardAt(start, events, n - 1);
      }
      HeardNext(At(Step, start, events, n - 1), events[n - 1]);
    }
  }

  /** Without a stale store, an open loses a wake-up only if extractInput was not 0 already, so that
      arrivals found a ring that did not look empty. */
  lemma OldExtractLosesWakeup(start: State, events: seq<Event>, e: Event)
    requires Init(start) && !Stale(start, events, |events|) && OpensUnheard(Run(Step, start, events), e)
    ensures Run(Step, start, events).extractInput != 0
  {
    AtEnds(Step, start, events);
    HeardAt(start, events, |events|);
  }

  // ------------------------------------------------------------------ arrivals during an open

  /** A closed terminal at rest. */
  predicate ClosedIdle(s: State) {
    && Shape(s) && s.openCount == 0 && s.interrupt == NoInterrupt && s.process == Waiting && s.opening == NotOpening
  }

  /** One value arrives, and the handler runs to its end. */
  function Arrival(value: int): seq<Event> {
    [Arrive(value), InterruptStep, InterruptStep, InterruptStep, InterruptStep, InterruptStep]
  }

  function Arrivals(values: seq<int>): seq<Event> {
    if values == [] then [] else Arrival(values[0]) + Arrivals(values[1..])
  }

  lemma ArrivalDoes(s: State, value: int)
    requires Shape(s) && s.interrupt == NoInterrupt
    ensures var at, s' := s.insertInput, Run(Step, s, Arrival(value));
            if Next(TTY_IN_BUF_SIZE, at) == s.extractInput then s' == s
            else s' == s.(inBuffer := s.inBuffer[at := value], insertInput := Next(TTY_IN_BUF_SIZE, at),
                          accepted := s.accepted + [value],
                          scheduled := s.scheduled + if at == s.extractInput then 1 else 0)
  {
    var s1 := Step(s, Arrive(value));
    var s2 := Step(s1, InterruptStep);
    var s3 := Step(s2, InterruptStep);
    var s4 := Step(s3, InterruptStep);
    var s5 := Step(s4, InterruptStep);
    var s6 := Step(s5, InterruptStep);
    TraceEnds(Step, s, Arrival(value), [s1, s2, s3, s4, s5, s6]);
  }

  /** Between the two resets. */
  predicate Between(s: State, e: nat) {
    && Shape(s) && s.interrupt == NoInterrupt && s.opening == AtResetExtract && s.openCount == 0 && s.process == Waiting
    && s.extractInput == e && (e == 0 || s.insertInput < e)
  }

  lemma {:induction false} ArrivalsBetween(s: State, values: seq<int>)
    requires Between(s, s.extractInput)
    ensures var s' := Run(Step, s, Arrivals(values));
            && Between(s', s.extractInput) && s.scheduled <= s'.scheduled
            && (s'.insertInput > 0 <==> s.insertInput > 0 || (values != [] && s.extractInput != 1))
            && (s.extractInput != 0 ==> s'.scheduled == s.scheduled)
            && (s.extractInput == 0 && s.insertInput == 0 && values != [] ==> s'.scheduled > 0)
    decreases |values|
  {
    if values != [] {
      ArrivalDoes(s, values[0]);
      RunBoth(Step, s, Arrival(values[0]), Arrivals(values[1..]));
      ArrivalsBetween(Run(Step, s, Arrival(values[0])), values[1..]);
    }
  }

  /** Values that arrive between the two resets of an open are left in the ring with nothing scheduled
      to take them out exactly when there are some, no call was scheduled before, and the ring of the
      closed terminal had been read past its second cell. */
  lemma DisturbedOpenLosesWakeup(s: State, values: seq<int>)
    requires ClosedIdle(s)
    ensures Lost(Run(Step, s, [BeginOpen] + Arrivals(values) + [FinishOpen(true)]))
            <==> values != [] && s.extractInput > 1 && s.scheduled == 0
  {
    var s1 := Run(Step, s, [BeginOpen]);
    assert s1 == Step(s, BeginOpen) by {
      TraceEnds(Step, s, [BeginOpen], [Step(s, BeginOpen)]);
    }
    ArrivalsBetween(s1, values);
    var s2 := Run(Step, s1, Arrivals(values));
    TraceEnds(Step, s2, [FinishOpen(true)], [Step(s2, FinishOpen(true))]);
    RunBoth(Step, s, [BeginOpen], Arrivals(values));
    RunBoth(Step, s, [BeginOpen] + Arrivals(values), [FinishOpen(true)]);
  }

  /** The terminal is closed. A value has been stored, and the transfer it scheduled has found nothing
      to do; the handler is about to store the index that follows the second one when an open
      overtakes it. */
  function OvertakingOpen(second: int): seq<Event> {
    [StartProcess, ProcessStep, Arrive(second), InterruptStep, InterruptStep,
     BeginOpen, FinishOpen(true), InterruptStep]
  }

  /** The old value is back in the ring, ahead of the new one, and nobody will look at either. */
  lemma OvertakenOpenMixesUp(start: State, first: int, second: int)
    requires Init(start)
    ensures var s := Run(Step, start, Arrival(first) + OvertakingOpen(second));
            Shape(s) && Ring(s) == [first, second] && s.accepted == [second] && !InOrder(s) && Lost(s)
  {
    ArrivalDoes(start, first);
    var events := OvertakingOpen(second);
    var s0 := Run(Step, start, Arrival(first));
    var s1 := Step(s0, events[0]);
    var s2 := Step(s1, events[1]);
    var s3 := Step(s2, events[2]);
    var s4 := Step(s3, events[3]);
    var s5 := Step(s4, events[4]);
    assert s5 == s0.(scheduled := 0, inBuffer := s0.inBuffer[1 := second], interrupt := AtAdvance(second, 1));
    var s6 := Step(s5, events[5]);
    var s7 := Step(s6, events[6]);
    var s8 := Step(s7, events[7]);
    TraceEnds(Step, s0, events, [s1, s2, s3, s4, s5, s6, s7, s8]);
    RunBoth(Step, start, Arrival(first), events);
    UnwrappedContents(s8.inBuffer, 0, 2);
  }

  // ------------------------------------------------------------------ delivery

  /** What TransferInProc calls for one value, when the terminal has no inputProc. */
  datatype Call =
    | ControlBreak            // Td_ControlRaw(TD_BREAK)
    | ControlHangup           // Td_ControlRaw(TD_LOST_CARRIER)
    | ConsoleCmd(value: int)  // Dev_InvokeConsoleCmd
    | PutRaw(c: int)          // Td_PutRaw of the value cut to a character

  datatype Sink = Sink(gotBreak: bool, calls: seq<Call>)

  /** The body of the drain loop, with the DEV_TTY_GOT_BREAK flag. */
  function Deliver(isConsole: bool, s: Sink, value: int): Sink {
    if value == DEV_TTY_BREAK then
      if isConsole then s.(gotBreak := true) else s.(calls := s.calls + [ControlBreak])
    else
      var call := if value == DEV_TTY_HANGUP then ControlHangup
                  else if s.gotBreak && isConsole then ConsoleCmd(value)
                  else PutRaw(value % 256);
      Sink(false, s.calls + [call])
  }

  function DeliverAll(isConsole: bool, s: Sink, values: seq<int>): Sink
    decreases |values|
  {
    if values == [] then s else DeliverAll(isConsole, Deliver(isConsole, s, values[0]), values[1..])
  }

  /** The call a value stands for, told from the value before it alone. */
  function Meaning(isConsole: bool, before: Option<int>, value: int): seq<Call> {
    if value == DEV_TTY_BREAK then (if isConsole then [] else [ControlBreak])
    else if value == DEV_TTY_HANGUP then [ControlHangup]
    else if isConsole && before == Some(DEV_TTY_BREAK) then [ConsoleCmd(value)]
    else [PutRaw(value % 256)]
  }

  function Meanings(isConsole: bool, before: Option<int>, values: seq<int>): seq<Call>
    decreases |values|
  {
    if values == [] then []
    else Meaning(isConsole, before, values[0]) + Meanings(isConsole, Some(values[0]), values[1..])
  }

  /** The flag only ever remembers one value: on a console a value is a command exactly when the
      value before it was a break, and a break itself is passed to nobody. */
  lemma {:induction false} CallsByMeaning(isConsole: bool, s: Sink, before: Option<int>, values: seq<int>)
    requires isConsole ==> (s.gotBreak <==> before == Some(DEV_TTY_BREAK))
    ensures DeliverAll(isConsole, s, values).calls == s.calls + Meanings(isConsole, before, values)
    decreases |values|
  {
    if values != [] {
      var s1 := Deliver(isConsole, s, values[0]);
      CallsByMeaning(isConsole, s1, Some(values[0]), values[1..]);
      assert s1.calls == s.calls + Meaning(isConsole, before, values[0]);
    }
  }
}
