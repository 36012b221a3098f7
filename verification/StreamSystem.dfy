/** A whole host: any number of processes opening, duplicating, closing, forking, executing,
    changing directory and exiting, while other hosts open and close the streams they share. */
module StreamSystem {
  import opened Common
  import opened StreamSpec
  import opened StreamSafety

  datatype System = System(procs: seq<Option<Proc>>, table: Table)

  /** One system call of one process, with everything the environment answers during it. */
  datatype Call =
    | CallOpen(reply: OpenReply, copyOut: bool, script: CloseScript)
    | CallPipe(inId: StreamId, outId: StreamId, copyOut: bool, inScript: CloseScript, outScript: CloseScript)
    | CallNewID(streamID: int, request: NewIdRequest, script: CloseScript)
    | CallClose(streamID: int, script: CloseScript)
    | CallSetFlags(streamID: int, flags: SlotFlags)
    | CallExec(closes: nat -> CloseScript)
    | CallChangeDir(reply: OpenReply, script: CloseScript)

  datatype Event =
    | Syscall(pid: nat, call: Call)
    | Fork(parent: nat, child: nat)
    | Exit(pid: nat, phase: int, cwdClose: CloseScript, closes: nat -> CloseScript)
    | RemoteClients(id: StreamId, hosts: set<HostId>)

  predicate Alive(sys: System, pid: nat) {
    pid < |sys.procs| && sys.procs[pid].Some?
  }

  predicate Running(sys: System, pid: nat) {
    Alive(sys, pid) && !sys.procs[pid].value.closing
  }

  predicate CallEnabled(t: Table, call: Call) {
    match call
    case CallOpen(reply, _, _) => FreshReply(t, reply)
    case CallPipe(i, o, _, _, _) => i !in t.handles && o !in t.handles && i != o
    case CallChangeDir(reply, _) => FreshReply(t, reply)
    case _ => true
  }

  /** A process between the two phases of Fs_CloseState makes no more system calls. */
  predicate Enabled(sys: System, e: Event) {
    match e
    case Syscall(pid, call) => Running(sys, pid) && CallEnabled(sys.table, call)
    case Fork(parent, child) => Running(sys, parent) && child < |sys.procs| && sys.procs[child] == None
    case Exit(pid, _, _, _) => Alive(sys, pid)
    case RemoteClients(id, _) => id in sys.table.handles
  }

  function DoCall(p: Proc, t: Table, call: Call): (r: (Proc, Table))
    requires WellFormed(p)
    ensures WellFormed(r.0)
  {
    match call
    case CallOpen(reply, copyOut, script) => Open(p, t, reply, copyOut, script)
    case CallPipe(i, o, copyOut, inScript, outScript) => Pipe(p, t, i, o, copyOut, inScript, outScript)
    case CallNewID(streamID, request, script) => NewID(p, t, streamID, request, script)
    case CallClose(streamID, script) => Close(p, t, streamID, script)
    case CallSetFlags(streamID, flags) =>
      (if Lookup(p, streamID) == None then p else p.(flags := p.flags[streamID := flags]), t)
    case CallExec(closes) => CloseOnExec(p, t, 0, closes)
    case CallChangeDir(reply, script) => ChangeDir(p, t, reply, script)
  }

  /** Other hosts come and go on a stream's client list; a stream without clients is removed. */
  function ShareWith(t: Table, id: StreamId, hosts: set<HostId>): Table
    requires id in t.handles
  {
    var clients := t.handles[id].clients * {LOCAL} + (hosts - {LOCAL});
    if clients == {} then t.(handles := t.handles - {id})
    else t.(handles := t.handles[id := t.handles[id].(clients := clients)])
  }

  predicate ProcsWellFormed(procs: seq<Option<Proc>>) {
    forall i :: 0 <= i < |procs| && procs[i].Some? ==> WellFormed(procs[i].value)
  }

  /** One event; one that is not enabled does not happen. */
  function Step(sys: System, e: Event): (sys': System)
    requires ProcsWellFormed(sys.procs)
    ensures ProcsWellFormed(sys'.procs)
  {
    if !Enabled(sys, e) then sys else
    match e
    case Syscall(pid, call) =>
      var (p, t) := DoCall(sys.procs[pid].value, sys.table, call);
      System(sys.procs[pid := Some(p)], t)
    case Fork(parent, child) =>
      var p := sys.procs[parent].value;
      System(sys.procs[child := Some(Child(p))], Inherit(p, sys.table))
    case Exit(pid, phase, cwdClose, closes) =>
      var (p, t) := CloseState(sys.procs[pid].value, sys.table, phase, cwdClose, closes);
      System(sys.procs[pid := p], t)
    case RemoteClients(id, hosts) =>
      sys.(table := ShareWith(sys.table, id, hosts))
  }

  function Run(sys: System, events: seq<Event>): (sys': System)
    requires ProcsWellFormed(sys.procs)
    ensures ProcsWellFormed(sys'.procs)
    decreases |events|
  {
    if events == [] then sys else Run(Step(sys, events[0]), events[1..])
  }

  // ------------------------------------------------------------------ the invariant

  /** Every reference held by a process table. */
  function AllRefs(procs: seq<Option<Proc>>, id: StreamId): nat {
    if procs == [] then 0 else OptRefs(procs[0], id) + AllRefs(procs[1..], id)
  }

  ghost function Total(procs: seq<Option<Proc>>): Held {
    (id: StreamId) => AllRefs(procs, id)
  }

  ghost predicate Inv(sys: System) {
    ProcsWellFormed(sys.procs) && Holds(sys.table, Total(sys.procs))
  }

  /** At start-up no process holds a stream; other hosts may already share some. */
  ghost predicate Init(sys: System) {
    && (forall i :: 0 <= i < |sys.procs| && sys.procs[i].Some? ==>
          sys.procs[i].value.cwd == None && sys.procs[i].value.slots == [] && sys.procs[i].value.flags == [])
    && !sys.table.fault && sys.table.leaked == multiset{}
    && (forall id :: id in sys.table.handles ==>
          var h := sys.table.handles[id]; h.refCount == 0 && h.clients != {} && LOCAL !in h.clients)
  }

  lemma {:induction false} NoRefs(procs: seq<Option<Proc>>, id: StreamId)
    requires forall i :: 0 <= i < |procs| && procs[i].Some? ==> procs[i].value.cwd == None && procs[i].value.slots == []
    ensures AllRefs(procs, id) == 0
  {
    if procs != [] {
      NoRefs(procs[1..], id);
    }
  }

  lemma InitInv(sys: System)
    requires Init(sys)
    ensures Inv(sys)
  {
    forall id: StreamId ensures RefCount(sys.table, id) == AllRefs(sys.procs, id) + sys.table.leaked[id] {
      NoRefs(sys.procs, id);
    }
  }

  lemma {:induction false} AllRefsUpdate(procs: seq<Option<Proc>>, i: nat, p: Option<Proc>)
    requires i < |procs|
    ensures forall id :: AllRefs(procs[i := p], id) == AllRefs(procs, id) - OptRefs(procs[i], id) + OptRefs(p, id)
  {
    if i == 0 {
      assert procs[i := p][1..] == procs[1..];
    } else {
      AllRefsUpdate(procs[1..], i - 1, p);
      assert procs[i := p][1..] == procs[1..][i - 1 := p];
    }
  }

  /** A process sees the whole host as its own references beside those of all the others. */
  lemma Split(t: Table, procs: seq<Option<Proc>>, i: nat, others: Held)
    requires i < |procs| && others == Total(procs[i := None])
    ensures Holds(t, Total(procs)) <==> Holds(t, WithOpt(procs[i], others))
    ensures forall x :: Total(procs)(x) == WithOpt(procs[i], others)(x)
  {
    AllRefsUpdate(procs, i, None);
    if Holds(t, Total(procs)) { HoldsSame(t, Total(procs), WithOpt(procs[i], others)); }
    if Holds(t, WithOpt(procs[i], others)) { HoldsSame(t, WithOpt(procs[i], others), Total(procs)); }
  }

  lemma CallKeeps(p: Proc, t: Table, others: Held, call: Call)
    requires WellFormed(p) && Holds(t, With(p, others)) && CallEnabled(t, call)
    ensures var r := DoCall(p, t, call); Holds(r.1, With(r.0, others))
  {
    match call
    case CallOpen(reply, copyOut, script) => OpenKeeps(p, t, others, reply, copyOut, script);
    case CallPipe(i, o, copyOut, inScript, outScript) =>
      PipeKeeps(p, t, others, i, o, copyOut, inScript, outScript);
    case CallNewID(streamID, request, script) => NewIDKeeps(p, t, others, streamID, request, script);
    case CallClose(streamID, script) => CloseKeeps(p, t, others, streamID, script);
    case CallSetFlags(streamID, flags) =>
      HoldsSame(t, With(p, others), With(DoCall(p, t, call).0, others));
    case CallExec(closes) => CloseOnExecKeeps(p, t, others, 0, closes);
    case CallChangeDir(reply, script) => ChangeDirKeeps(p, t, others, reply, script);
  }

  /** Replacing one process's state, given that its operation keeps the others' references. */
  lemma Rejoin(t: Table, procs: seq<Option<Proc>>, i: nat, p: Option<Proc>)
    requires i < |procs| && Holds(t, WithOpt(p, Total(procs[i := None])))
    ensures Holds(t, Total(procs[i := p]))
  {
    assert procs[i := p][i := None] == procs[i := None];
    Split(t, procs[i := p], i, Total(procs[i := None]));
  }

  lemma SyscallKeeps(sys: System, pid: nat, call: Call)
    requires Inv(sys) && Enabled(sys, Syscall(pid, call))
    ensures Inv(Step(sys, Syscall(pid, call)))
  {
    var others := Total(sys.procs[pid := None]);
    var p := sys.procs[pid].value;
    Split(sys.table, sys.procs, pid, others);
    HoldsSame(sys.table, WithOpt(sys.procs[pid], others), With(p, others));
    CallKeeps(p, sys.table, others, call);
    var r := DoCall(p, sys.table, call);
    HoldsSame(r.1, With(r.0, others), WithOpt(Some(r.0), others));
    Rejoin(r.1, sys.procs, pid, Some(r.0));
  }

  lemma ExitKeeps(sys: System, pid: nat, phase: int, cwdClose: CloseScript, closes: nat -> CloseScript)
    requires Inv(sys) && Alive(sys, pid)
    ensures Inv(Step(sys, Exit(pid, phase, cwdClose, closes)))
  {
    var others := Total(sys.procs[pid := None]);
    var p := sys.procs[pid].value;
    Split(sys.table, sys.procs, pid, others);
    HoldsSame(sys.table, WithOpt(sys.procs[pid], others), With(p, others));
    CloseStateKeeps(p, sys.table, others, phase, cwdClose, closes);
    var r := CloseState(p, sys.table, phase, cwdClose, closes);
    Rejoin(r.1, sys.procs, pid, r.0);
  }

  lemma ForkKeeps(sys: System, parent: nat, child: nat)
    requires Inv(sys) && Enabled(sys, Fork(parent, child))
    ensures Inv(Step(sys, Fork(parent, child)))
  {
    var others := Total(sys.procs[parent := None]);
    var p := sys.procs[parent].value;
    Split(sys.table, sys.procs, parent, others);
    HoldsSame(sys.table, WithOpt(sys.procs[parent], others), With(p, others));
    InheritHolds(p, sys.table, others);
    var t := Inherit(p, sys.table);
    AllRefsUpdate(sys.procs, child, Some(Child(p)));
    HoldsSame(t, With(Child(p), With(p, others)), Total(sys.procs[child := Some(Child(p))]));
  }

  lemma RemoteKeeps(sys: System, id: StreamId, hosts: set<HostId>)
    requires Inv(sys) && id in sys.table.handles
    ensures Inv(Step(sys, RemoteClients(id, hosts)))
  {
    var t' := ShareWith(sys.table, id, hosts);
    assert RefCount(sys.table, id) == Total(sys.procs)(id) + sys.table.leaked[id];
    assert LOCAL in sys.table.handles[id].clients ==> LOCAL in sys.table.handles[id].clients * {LOCAL};
    forall x: StreamId ensures RefCount(t', x) == Total(sys.procs)(x) + t'.leaked[x] {
      assert RefCount(sys.table, x) == Total(sys.procs)(x) + sys.table.leaked[x];
    }
  }

  /** Every event keeps the reference counts right. */
  lemma StepKeeps(sys: System, e: Event)
    requires Inv(sys)
    ensures Inv(Step(sys, e))
  {
    if Enabled(sys, e) {
      match e
      case Syscall(pid, call) => SyscallKeeps(sys, pid, call);
      case Fork(parent, child) => ForkKeeps(sys, parent, child);
      case Exit(pid, phase, cwdClose, closes) => ExitKeeps(sys, pid, phase, cwdClose, closes);
      case RemoteClients(id, hosts) => RemoteKeeps(sys, id, hosts);
    }
  }

  lemma {:induction false} RunKeeps(sys: System, events: seq<Event>)
    requires Inv(sys)
    ensures Inv(Run(sys, events))
    decreases |events|
  {
    if events != [] {
      StepKeeps(sys, events[0]);
      RunKeeps(Step(sys, events[0]), events[1..]);
    }
  }

  // ------------------------------------------------------------------ what the invariant means

  predicate Refers(p: Proc, id: StreamId) {
    p.cwd == Some(id) || Some(id) in p.slots
  }

  lemma {:induction false} AllRefsMember(procs: seq<Option<Proc>>, i: nat, id: StreamId)
    requires i < |procs| && procs[i].Some? && Refers(procs[i].value, id)
    ensures AllRefs(procs, id) > 0
  {
    if i == 0 {
      SlotRefsMember(procs[0].value.slots, id);
    } else {
      AllRefsMember(procs[1..], i - 1, id);
    }
  }

  lemma {:induction false} AllRefsWitness(procs: seq<Option<Proc>>, id: StreamId) returns (i: nat)
    requires AllRefs(procs, id) > 0
    ensures i < |procs| && procs[i].Some? && Refers(procs[i].value, id)
  {
    if OptRefs(procs[0], id) > 0 {
      SlotRefsMember(procs[0].value.slots, id);
      i := 0;
    } else {
      var k := AllRefsWitness(procs[1..], id);
      i := k + 1;
    }
  }

  /** In every reachable state: no stream was used after it was destroyed; whatever a slot or a
      current directory refers to is in the handle table; every count is the number of slots and
      current directories that refer to the stream plus the closes that gave up on it; and a
      stream stays in the table exactly while it is counted or open on another host. */
  lemma ReachableSafe(start: System, events: seq<Event>)
    requires Init(start)
    ensures var sys := Run(start, events);
            && !sys.table.fault
            && (forall i, id :: 0 <= i < |sys.procs| && sys.procs[i].Some? && Refers(sys.procs[i].value, id) ==>
                  id in sys.table.handles && sys.table.handles[id].refCount > 0)
            && (forall id: StreamId ::
                  RefCount(sys.table, id) == AllRefs(sys.procs, id) + sys.table.leaked[id])
            && (forall id :: id in sys.table.handles && sys.table.handles[id].clients <= {LOCAL} ==>
                  sys.table.handles[id].refCount > 0)
  {
    InitInv(start);
    RunKeeps(start, events);
    var sys := Run(start, events);
    forall id: StreamId
      ensures RefCount(sys.table, id) == AllRefs(sys.procs, id) + sys.table.leaked[id]
    {
      assert RefCount(sys.table, id) == Total(sys.procs)(id) + sys.table.leaked[id];
    }
    forall i, id | 0 <= i < |sys.procs| && sys.procs[i].Some? && Refers(sys.procs[i].value, id)
      ensures id in sys.table.handles && sys.table.handles[id].refCount > 0
    {
      AllRefsMember(sys.procs, i, id);
      assert RefCount(sys.table, id) == AllRefs(sys.procs, id) + sys.table.leaked[id];
    }
  }

  /** A stream leaves the table in a step only if after the step nothing on this host refers to
      it, and a counted stream without an abandoned close has a process that refers to it. */
  lemma DestroyedOnlyWhenUnreferenced(start: System, events: seq<Event>, e: Event, id: StreamId)
      returns (holder: nat)
    requires Init(start)
    ensures var before := Run(start, events); var after := Step(before, e);
            && (id in before.table.handles && id !in after.table.handles ==>
                  (forall i :: 0 <= i < |after.procs| && after.procs[i].Some? ==> !Refers(after.procs[i].value, id))
                  && after.table.leaked[id] == 0)
            && (id in after.table.handles && after.table.handles[id].refCount > after.table.leaked[id] ==>
                  holder < |after.procs| && after.procs[holder].Some? && Refers(after.procs[holder].value, id))
  {
    holder := 0;
    InitInv(start);
    RunKeeps(start, events);
    StepKeeps(Run(start, events), e);
    var after := Step(Run(start, events), e);
    assert RefCount(after.table, id) == Total(after.procs)(id) + after.table.leaked[id];
    forall i | 0 <= i < |after.procs| && after.procs[i].Some? && Refers(after.procs[i].value, id)
      ensures id in after.table.handles
    {
      AllRefsMember(after.procs, i, id);
    }
    if AllRefs(after.procs, id) > 0 {
      holder := AllRefsWitness(after.procs, id);
    }
  }

  // ------------------------------------------------------------------ when every server answers

  predicate Answers(script: CloseScript) {
    CloseLoop(script).Finished?
  }

  ghost predicate AllAnswer(closes: nat -> CloseScript) {
    forall i: nat :: Answers(closes(i))
  }

  /** No close of the event gives up waiting for a server. */
  ghost predicate EventAnswers(e: Event) {
    match e
    case Fork(_, _) => true
    case RemoteClients(_, _) => true
    case Exit(_, _, cwdClose, closes) => Answers(cwdClose) && AllAnswer(closes)
    case Syscall(_, call) => CallAnswers(call)
  }

  ghost predicate CallAnswers(call: Call) {
    match call
    case CallOpen(_, _, script) => Answers(script)
    case CallPipe(_, _, _, inScript, outScript) => Answers(inScript) && Answers(outScript)
    case CallNewID(_, _, script) => Answers(script)
    case CallClose(_, script) => Answers(script)
    case CallSetFlags(_, _) => true
    case CallExec(closes) => AllAnswer(closes)
    case CallChangeDir(_, script) => Answers(script)
  }

  lemma {:induction false} CloseSlotsLeak(t: Table, slots: seq<Slot>, i: nat, closes: nat -> CloseScript)
    requires i <= |slots| && AllAnswer(closes)
    ensures CloseSlots(t, slots, i, closes).leaked == t.leaked
    decreases |slots| - i
  {
    if i < |slots| {
      assert Answers(closes(i));
      CloseSlotsLeak(CloseSlot(t, slots[i], closes(i)), slots, i + 1, closes);
    }
  }

  lemma {:induction false} CloseOnExecLeak(p: Proc, t: Table, i: nat, closes: nat -> CloseScript)
    requires WellFormed(p) && i <= |p.slots| && AllAnswer(closes)
    ensures CloseOnExec(p, t, i, closes).1.leaked == t.leaked
    decreases |p.slots| - i
  {
    if i < |p.slots| {
      assert Answers(closes(i));
      if ClosedByExec(p, i) {
        CloseOnExecLeak(p.(slots := p.slots[i := None]), CloseStream(t, p.slots[i].value, closes(i)), i + 1, closes);
      } else {
        CloseOnExecLeak(p, t, i + 1, closes);
      }
    }
  }

  lemma {:induction false} CopySlotsLeak(t: Table, slots: seq<Slot>, i: nat)
    requires i <= |slots|
    ensures CopySlots(t, slots, i).leaked == t.leaked
    decreases |slots| - i
  {
    if i < |slots| {
      CopySlotsLeak(if slots[i] == None then t else CopyStream(t, slots[i].value), slots, i + 1);
    }
  }

  lemma CloseLeak(t: Table, slot: Slot, script: CloseScript)
    requires Answers(script)
    ensures CloseSlot(t, slot, script).leaked == t.leaked
  {
  }

  lemma OpenLeak(t: Table, reply: OpenReply)
    ensures OpenStream(t, reply).leaked == t.leaked
  {
  }

  lemma PipeLeak(p: Proc, t: Table, i: StreamId, o: StreamId, copyOut: bool, inScript: CloseScript,
                 outScript: CloseScript)
    requires WellFormed(p) && Answers(inScript) && Answers(outScript)
    ensures Pipe(p, t, i, o, copyOut, inScript, outScript).1.leaked == t.leaked
  {
    var t1 := AddClient(AddClient(t, i), o);
    CloseLeak(t1, Some(i), inScript);
    CloseLeak(CloseStream(t1, i, inScript), Some(o), outScript);
  }

  lemma NewIDLeak(p: Proc, t: Table, streamID: int, request: NewIdRequest, script: CloseScript)
    requires WellFormed(p) && Answers(script)
    ensures NewID(p, t, streamID, request, script).1.leaked == t.leaked
  {
    if request.Exactly? && 0 <= request.id < |p.slots| {
      CloseLeak(t, p.slots[request.id], script);
    }
  }

  lemma CallLeak(p: Proc, t: Table, call: Call)
    requires WellFormed(p) && CallAnswers(call)
    ensures DoCall(p, t, call).1.leaked == t.leaked
  {
    match call
    case CallOpen(reply, copyOut, script) =>
      OpenLeak(t, reply);
      CloseLeak(OpenStream(t, reply), if reply.Opened? then Some(reply.id) else None, script);
    case CallPipe(i, o, copyOut, inScript, outScript) =>
      PipeLeak(p, t, i, o, copyOut, inScript, outScript);
    case CallNewID(streamID, request, script) =>
      NewIDLeak(p, t, streamID, request, script);
    case CallClose(streamID, script) =>
      CloseLeak(t, Lookup(p, streamID), script);
    case CallSetFlags(_, _) =>
    case CallExec(closes) =>
      CloseOnExecLeak(p, t, 0, closes);
    case CallChangeDir(reply, script) =>
      OpenLeak(t, reply);
      CloseLeak(OpenStream(t, reply), p.cwd, script);
  }

  lemma StepLeak(sys: System, e: Event)
    requires ProcsWellFormed(sys.procs) && EventAnswers(e)
    ensures Step(sys, e).table.leaked == sys.table.leaked
  {
    if Enabled(sys, e) {
      match e
      case RemoteClients(_, _) =>
      case Fork(parent, child) =>
        var p := sys.procs[parent].value;
        CopySlotsLeak(if p.cwd == None then sys.table else CopyStream(sys.table, p.cwd.value), p.slots, 0);
      case Exit(pid, phase, cwdClose, closes) =>
        var p := sys.procs[pid].value;
        CloseSlotsLeak(if phase > 0 then CloseSlot(sys.table, p.cwd, cwdClose) else sys.table, p.slots, 0, closes);
      case Syscall(pid, call) =>
        CallLeak(sys.procs[pid].value, sys.table, call);
    }
  }

  lemma {:induction false} RunLeak(sys: System, events: seq<Event>)
    requires ProcsWellFormed(sys.procs) && forall k :: 0 <= k < |events| ==> EventAnswers(events[k])
    ensures Run(sys, events).table.leaked == sys.table.leaked
    decreases |events|
  {
    if events != [] {
      StepLeak(sys, events[0]);
      RunLeak(Step(sys, events[0]), events[1..]);
    }
  }

  /** When every server answers, each count is exactly the number of slots and current
      directories that refer to the stream. So once every process is gone, the only streams
      left are those that other hosts have open, and this host counts no reference to them. */
  lemma ExactWhenServersAnswer(start: System, events: seq<Event>)
    requires Init(start) && forall k :: 0 <= k < |events| ==> EventAnswers(events[k])
    ensures var sys := Run(start, events);
            && (forall id: StreamId :: RefCount(sys.table, id) == AllRefs(sys.procs, id))
            && ((forall i :: 0 <= i < |sys.procs| ==> sys.procs[i] == None) ==>
                  forall id :: id in sys.table.handles ==>
                    sys.table.handles[id].refCount == 0 && exists h :: h in sys.table.handles[id].clients && h != LOCAL)
  {
    ReachableSafe(start, events);
    RunLeak(start, events);
    var sys := Run(start, events);
    if forall i :: 0 <= i < |sys.procs| ==> sys.procs[i] == None {
      forall id | id in sys.table.handles
        ensures sys.table.handles[id].refCount == 0 && exists h :: h in sys.table.handles[id].clients && h != LOCAL
      {
        NoRefs(sys.procs, id);
        assert RefCount(sys.table, id) == 0;
        assert !(sys.table.handles[id].clients <= {LOCAL});
      }
    }
  }

  /** The equality can fail: when the last close of a stream gives up, the slot is cleared but
      the count stays. */
  lemma GaveUpKeepsCount(p: Proc, t: Table, streamID: int, script: CloseScript)
    requires WellFormed(p) && Lookup(p, streamID) != None && Lookup(p, streamID).value in t.handles
    ensures var id := Lookup(p, streamID).value;
            var r := Close(p, t, streamID, script);
            && Lookup(r.0, streamID) == None
            && (RefCount(r.1, id) == RefCount(t, id) && r.1.leaked[id] == t.leaked[id] + 1
                <==> t.handles[id].refCount <= 1 && !Answers(script))
  {
    var id := Lookup(p, streamID).value;
    if t.handles[id].refCount <= 1 && Answers(script) {
      assert Close(p, t, streamID, script).1.leaked == t.leaked;
    }
  }
}
