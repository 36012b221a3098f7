/** Reference counting: the counts kept in the handle table equal the references that processes
    hold, plus the references abandoned by closes that gave up on a server. Every operation of
    one process keeps this, whatever the other processes hold. */
module StreamSafety {
  import opened Common
  import opened StreamSpec

  // ------------------------------------------------------------------ references held

  function Ref(slot: Slot, id: StreamId): nat {
    if slot == Some(id) then 1 else 0
  }

  function SlotRefs(slots: seq<Slot>, id: StreamId): nat {
    if slots == [] then 0 else Ref(slots[0], id) + SlotRefs(slots[1..], id)
  }

  function ProcRefs(p: Proc, id: StreamId): nat {
    Ref(p.cwd, id) + SlotRefs(p.slots, id)
  }

  function OptRefs(p: Option<Proc>, id: StreamId): nat {
    if p == None then 0 else ProcRefs(p.value, id)
  }

  function RefCount(t: Table, id: StreamId): int {
    if id in t.handles then t.handles[id].refCount else 0
  }

  /** How many references to each stream are held. */
  type Held = StreamId -> nat

  ghost function With(p: Proc, others: Held): Held {
    (id: StreamId) => ProcRefs(p, id) + others(id)
  }

  ghost function WithOpt(p: Option<Proc>, others: Held): Held {
    (id: StreamId) => OptRefs(p, id) + others(id)
  }

  /** The handle table agrees with holding exactly the references `held`. */
  ghost predicate Holds(t: Table, held: Held) {
    && !t.fault
    && (forall id: StreamId {:trigger RefCount(t, id)} {:trigger held(id)} ::
          RefCount(t, id) == held(id) + t.leaked[id])
    && (forall id :: id in t.handles ==> t.handles[id].clients != {})
    && (forall id :: id in t.handles ==> (t.handles[id].refCount > 0 <==> LOCAL in t.handles[id].clients))
  }

  // ------------------------------------------------------------------ counting

  lemma {:induction false} SlotRefsUpdate(s: seq<Slot>, i: nat, x: Slot)
    requires i < |s|
    ensures forall id :: SlotRefs(s[i := x], id) == SlotRefs(s, id) - Ref(s[i], id) + Ref(x, id)
  {
    if i == 0 {
      assert s[i := x][1..] == s[1..];
    } else {
      SlotRefsUpdate(s[1..], i - 1, x);
      assert s[i := x][1..] == s[1..][i - 1 := x];
    }
  }

  lemma {:induction false} SlotRefsAppendEmpty(a: seq<Slot>, n: nat)
    ensures forall id :: SlotRefs(a + Fill(None, n), id) == SlotRefs(a, id)
  {
    var b := Fill<Slot>(None, n);
    if a != [] {
      SlotRefsAppendEmpty(a[1..], n);
      assert (a + b)[1..] == a[1..] + b;
    } else {
      assert a + b == b;
      if n > 0 {
        SlotRefsAppendEmpty([], n - 1);
        assert [] + Fill<Slot>(None, n - 1) == b[1..];
      }
    }
  }

  lemma {:induction false} SlotRefsMember(s: seq<Slot>, id: StreamId)
    ensures SlotRefs(s, id) > 0 <==> Some(id) in s
  {
    if s != [] {
      SlotRefsMember(s[1..], id);
      assert s == [s[0]] + s[1..];
    }
  }

  // ------------------------------------------------------------------ one stream operation

  /** Closing a held reference gives up exactly that reference, whatever the server does. */
  lemma CloseHolds(t: Table, held: Held, id: StreamId, script: CloseScript, after: Held)
    requires Holds(t, held) && held(id) > 0
    requires forall x :: after(x) == held(x) - (if x == id then 1 else 0)
    ensures Holds(CloseStream(t, id, script), after)
  {
    assert RefCount(t, id) == held(id) + t.leaked[id];
    var t' := CloseStream(t, id, script);
    forall x: StreamId ensures RefCount(t', x) == after(x) + t'.leaked[x] {
      assert RefCount(t, x) == held(x) + t.leaked[x];
    }
  }

  lemma CloseSlotHolds(t: Table, held: Held, slot: Slot, script: CloseScript, after: Held)
    requires Holds(t, held) && forall x :: after(x) == held(x) - Ref(slot, x)
    requires slot != None ==> held(slot.value) > 0
    ensures Holds(CloseSlot(t, slot, script), after)
  {
    if slot != None {
      CloseHolds(t, held, slot.value, script, after);
    }
  }

  lemma CopyHolds(t: Table, held: Held, id: StreamId, after: Held)
    requires Holds(t, held) && held(id) > 0
    requires forall x :: after(x) == held(x) + (if x == id then 1 else 0)
    ensures Holds(CopyStream(t, id), after)
  {
    assert RefCount(t, id) == held(id) + t.leaked[id];
    var t' := CopyStream(t, id);
    forall x: StreamId ensures RefCount(t', x) == after(x) + t'.leaked[x] {
      assert RefCount(t, x) == held(x) + t.leaked[x];
    }
  }

  lemma AddClientHolds(t: Table, held: Held, id: StreamId, after: Held)
    requires Holds(t, held) && Fresh(t, id)
    requires forall x :: after(x) == held(x) + (if x == id then 1 else 0)
    ensures Holds(AddClient(t, id), after)
  {
    var t' := AddClient(t, id);
    forall x: StreamId ensures RefCount(t', x) == after(x) + t'.leaked[x] {
      assert RefCount(t, x) == held(x) + t.leaked[x];
    }
  }

  /** An open adds one reference when it succeeds; a failed one leaves the counts alone. */
  lemma OpenHolds(t: Table, held: Held, reply: OpenReply, after: Held)
    requires Holds(t, held) && FreshReply(t, reply)
    requires forall x :: after(x) == held(x) + (if reply.Opened? && x == reply.id then 1 else 0)
    ensures Holds(OpenStream(t, reply), after)
  {
    match reply
    case LookupFailed(_) =>
      assert forall x: StreamId :: RefCount(t, x) == held(x) + t.leaked[x];
    case Opened(id) =>
      AddClientHolds(t, held, id, after);
    case IoOpenFailed(id, _) =>
      var t1 := AddClient(t, id);
      var t' := DropClient(t1, id);
      forall x: StreamId ensures RefCount(t', x) == after(x) + t'.leaked[x] {
        assert RefCount(t, x) == held(x) + t.leaked[x];
      }
  }

  /** An open that fails at the I/O handle destroys the stream only when no other host is on its client
      list; a stream that other hosts have open stays, with the references it had. */
  lemma FailedOpenKeepsShared(t: Table, id: StreamId, status: ReturnStatus)
    ensures var t' := OpenStream(t, IoOpenFailed(id, status));
            && (id in t'.handles <==> id in t.handles && exists host :: host in t.handles[id].clients && host != LOCAL)
            && (id in t'.handles ==> t'.handles[id] == Handle(t.handles[id].refCount, t.handles[id].clients - {LOCAL}))
            && t'.handles - {id} == t.handles - {id} && t'.leaked == t.leaked
  {
    var clients := if id in t.handles then t.handles[id].clients else {};
    assert clients + {LOCAL} - {LOCAL} == clients - {LOCAL};
    if host :| host in clients && host != LOCAL {
      assert host in clients - {LOCAL};
    } else {
      assert clients - {LOCAL} == {};
    }
  }

  /** Holding is a matter of the counts alone. */
  lemma HoldsSame(t: Table, held: Held, same: Held)
    requires Holds(t, held) && forall x :: same(x) == held(x)
    ensures Holds(t, same)
  {
    forall x: StreamId ensures RefCount(t, x) == same(x) + t.leaked[x] {
      assert RefCount(t, x) == held(x) + t.leaked[x];
    }
  }

  // ------------------------------------------------------------------ one process operation

  lemma InstallRefs(p: Proc, id: StreamId)
    requires WellFormed(p)
    ensures forall x :: ProcRefs(Install(p, id).0, x) == ProcRefs(p, x) + (if x == id then 1 else 0)
    ensures Install(p, id).0.slots[Install(p, id).1] == Some(id)
  {
    var q := WithRoom(p);
    var more := |q.slots| - |p.slots|;
    SlotRefsAppendEmpty(p.slots, more);
    GrownSlots(p);
    SlotRefsUpdate(q.slots, FirstFree(p.slots), Some(id));
  }

  lemma GrownSlots(p: Proc)
    requires WellFormed(p)
    ensures var q := WithRoom(p); q.slots == p.slots + Fill(None, |q.slots| - |p.slots|) && q.cwd == p.cwd
  {
  }

  lemma CloseKeeps(p: Proc, t: Table, others: Held, streamID: int, script: CloseScript)
    requires WellFormed(p) && Holds(t, With(p, others))
    ensures var (p', t') := Close(p, t, streamID, script); Holds(t', With(p', others))
  {
    var slot := Lookup(p, streamID);
    if slot != None {
      var p' := p.(slots := p.slots[streamID := None]);
      SlotRefsUpdate(p.slots, streamID, None);
      SlotRefsMember(p.slots, slot.value);
      CloseHolds(t, With(p, others), slot.value, script, With(p', others));
    }
  }

  lemma OpenKeeps(p: Proc, t: Table, others: Held, reply: OpenReply, copyOut: bool, script: CloseScript)
    requires WellFormed(p) && Holds(t, With(p, others)) && FreshReply(t, reply)
    ensures var (p', t') := Open(p, t, reply, copyOut, script); Holds(t', With(p', others))
  {
    if reply.Opened? {
      var (q, k) := Install(p, reply.id);
      InstallRefs(p, reply.id);
      OpenHolds(t, With(p, others), reply, With(q, others));
      if !copyOut {
        CloseKeeps(q, OpenStream(t, reply), others, k, script);
      }
    } else {
      OpenHolds(t, With(p, others), reply, With(p, others));
    }
  }

  lemma PipeKeeps(p: Proc, t: Table, others: Held, inId: StreamId, outId: StreamId,
                  copyOut: bool, inScript: CloseScript, outScript: CloseScript)
    requires WellFormed(p) && Holds(t, With(p, others))
    requires Fresh(t, inId) && Fresh(t, outId) && inId != outId
    ensures var (p', t') := Pipe(p, t, inId, outId, copyOut, inScript, outScript);
            Holds(t', With(p', others))
  {
    var (q1, i) := Install(p, inId);
    var (q2, j) := Install(q1, outId);
    InstallRefs(p, inId);
    InstallRefs(q1, outId);
    AddClientHolds(t, With(p, others), inId, With(q1, others));
    AddClientHolds(AddClient(t, inId), With(q1, others), outId, With(q2, others));
    if !copyOut {
      PipeUndone(q2, AddClient(AddClient(t, inId), outId), others, i, j, inScript, outScript);
      PipeStored(p, inId, outId);
    }
  }

  lemma PipeUndone(q: Proc, t: Table, others: Held, i: nat, j: nat, inScript: CloseScript, outScript: CloseScript)
    requires WellFormed(q) && Holds(t, With(q, others))
    requires i < |q.slots| && j < |q.slots| && i != j && q.slots[i] != None && q.slots[j] != None
    ensures Holds(CloseStream(CloseStream(t, q.slots[i].value, inScript), q.slots[j].value, outScript),
                  With(q.(slots := q.slots[i := None][j := None]), others))
  {
    CloseKeeps(q, t, others, i, inScript);
    var (p1, t1) := Close(q, t, i, inScript);
    CloseKeeps(p1, t1, others, j, outScript);
  }

  /** The two ends of a pipe land in two different slots. */
  lemma PipeStored(p: Proc, inId: StreamId, outId: StreamId)
    requires WellFormed(p)
    ensures var (q1, i) := Install(p, inId); var (q2, j) := Install(q1, outId);
            i != j && q2.slots[i] == Some(inId) && q2.slots[j] == Some(outId)
  {
    var (q1, i) := Install(p, inId);
    var q := WithRoom(q1);
    assert q1.slots[i] == q.slots[..|q1.slots|][i] == Some(inId);
    assert FirstFree(q1.slots) != i;
  }

  lemma GrowRefs(p: Proc, n: nat)
    requires WellFormed(p) && |p.slots| <= n
    ensures forall x :: ProcRefs(Grow(p, n), x) == ProcRefs(p, x)
  {
    SlotRefsAppendEmpty(p.slots, n - |p.slots|);
  }

  /** Storing in a slot, counted: what the slot held goes, what is stored comes. */
  lemma StoreRefs(p: Proc, i: nat, slot: Slot)
    requires i < |p.slots|
    ensures forall x :: ProcRefs(p.(slots := p.slots[i := slot]), x) ==
                        ProcRefs(p, x) - Ref(p.slots[i], x) + Ref(slot, x)
    ensures p.slots[i] != None ==> ProcRefs(p, p.slots[i].value) > 0
  {
    SlotRefsUpdate(p.slots, i, slot);
    if p.slots[i] != None {
      SlotRefsMember(p.slots, p.slots[i].value);
    }
  }

  /** The order in dup2: the old stream of the target slot is closed before the source is copied. */
  lemma ReplaceHolds(t: Table, held: Held, target: Slot, source: StreamId, script: CloseScript,
                     between: Held, after: Held)
    requires Holds(t, held) && (target != None ==> held(target.value) > 0)
    requires forall x :: between(x) == held(x) - Ref(target, x)
    requires forall x :: after(x) == between(x) + (if x == source then 1 else 0)
    requires between(source) > 0
    ensures Holds(CopyStream(CloseSlot(t, target, script), source), after)
  {
    CloseSlotHolds(t, held, target, script, between);
    CopyHolds(CloseSlot(t, target, script), between, source, after);
  }

  /** Dup2 onto an existing slot. The source survives even when both slots hold the same stream,
      because its own slot still counts after the target has been given up. */
  lemma NewIDReplaces(p: Proc, t: Table, others: Held, streamID: nat, newID: nat, script: CloseScript)
    requires WellFormed(p) && Holds(t, With(p, others))
    requires streamID < |p.slots| && newID < |p.slots| && streamID != newID && p.slots[streamID] != None
    ensures Holds(CopyStream(CloseSlot(t, p.slots[newID], script), p.slots[streamID].value),
                  With(p.(slots := p.slots[newID := p.slots[streamID]]), others))
  {
    var slot := p.slots[streamID];
    var p1 := p.(slots := p.slots[newID := None]);
    StoreRefs(p, newID, None);
    StoreRefs(p, newID, slot);
    assert ProcRefs(p1, slot.value) > 0 by {
      StoreRefs(p1, streamID, slot);
    }
    ReplaceHolds(t, With(p, others), p.slots[newID], slot.value, script,
                 With(p1, others), With(p.(slots := p.slots[newID := slot]), others));
  }

  lemma NewIDGrows(p: Proc, t: Table, others: Held, streamID: nat, newID: nat)
    requires WellFormed(p) && Holds(t, With(p, others))
    requires streamID < |p.slots| <= newID && p.slots[streamID] != None
    ensures var q := Grow(p, newID + 1);
            Holds(CopyStream(t, p.slots[streamID].value),
                  With(q.(slots := q.slots[newID := p.slots[streamID]]), others))
  {
    var slot := p.slots[streamID];
    var q := Grow(p, newID + 1);
    GrowRefs(p, newID + 1);
    StoreRefs(q, newID, slot);
    assert ProcRefs(p, slot.value) > 0 by {
      StoreRefs(p, streamID, slot);
    }
    CopyHolds(t, With(p, others), slot.value, With(q.(slots := q.slots[newID := slot]), others));
  }

  lemma NewIDAny(p: Proc, t: Table, others: Held, streamID: nat)
    requires WellFormed(p) && Holds(t, With(p, others))
    requires streamID < |p.slots| && p.slots[streamID] != None
    ensures Holds(CopyStream(t, p.slots[streamID].value), With(Install(p, p.slots[streamID].value).0, others))
  {
    var slot := p.slots[streamID];
    InstallRefs(p, slot.value);
    assert ProcRefs(p, slot.value) > 0 by {
      StoreRefs(p, streamID, slot);
    }
    CopyHolds(t, With(p, others), slot.value, With(Install(p, slot.value).0, others));
  }

  lemma NewIDExactly(p: Proc, t: Table, others: Held, streamID: int, newID: int, script: CloseScript)
    requires WellFormed(p) && Holds(t, With(p, others))
    requires NewIdStatus(p, streamID, newID) == SUCCESS && newID != streamID
    ensures var r := NewID(p, t, streamID, Exactly(newID), script); Holds(r.1, With(r.0, others))
  {
    var r, slot := NewID(p, t, streamID, Exactly(newID), script), p.slots[streamID];
    if newID >= |p.slots| {
      var q := Grow(p, newID + 1);
      assert r.0 == q.(slots := q.slots[newID := slot]) && r.1 == CopyStream(t, slot.value);
      NewIDGrows(p, t, others, streamID, newID);
    } else {
      assert r.0 == p.(slots := p.slots[newID := slot]);
      assert r.1 == CopyStream(CloseSlot(t, p.slots[newID], script), slot.value);
      NewIDReplaces(p, t, others, streamID, newID, script);
    }
  }

  /** Dup and dup2 keep the counts. */
  lemma NewIDKeeps(p: Proc, t: Table, others: Held, streamID: int, request: NewIdRequest, script: CloseScript)
    requires WellFormed(p) && Holds(t, With(p, others))
    ensures var r := NewID(p, t, streamID, request, script); Holds(r.1, With(r.0, others))
  {
    if request.AnyId? && Lookup(p, streamID) != None {
      NewIDAny(p, t, others, streamID);
    } else if request.Exactly? && NewIdStatus(p, streamID, request.id) == SUCCESS && request.id != streamID {
      NewIDExactly(p, t, others, streamID, request.id, script);
    } else {
      assert NewID(p, t, streamID, request, script) == (p, t);
    }
  }

  /** The marked slots from i on, and no others, are cleared. */
  ghost predicate ExecClearsFrom(p: Proc, p': Proc, i: nat) {
    && |p'.slots| == |p.slots| == |p.flags|
    && (forall k :: 0 <= k < |p.slots| ==>
          p'.slots[k] == if i <= k && p.flags[k].closeOnExec then None else p.slots[k])
    && p'.flags == p.flags && p'.cwd == p.cwd && p'.groupIDs == p.groupIDs
    && p'.filePermissions == p.filePermissions && p'.closing == p.closing
  }

  lemma {:induction false} ExecClearsRest(p: Proc, t: Table, i: nat, closes: nat -> CloseScript)
    requires WellFormed(p) && i <= |p.slots|
    ensures ExecClearsFrom(p, CloseOnExec(p, t, i, closes).0, i)
    decreases |p.slots| - i
  {
    if i < |p.slots| {
      if ClosedByExec(p, i) {
        ExecClearsRest(p.(slots := p.slots[i := None]), CloseStream(t, p.slots[i].value, closes(i)), i + 1, closes);
      } else {
        ExecClearsRest(p, t, i + 1, closes);
      }
    }
  }

  /** Exec closes exactly the streams marked close-on-exec; everything else of the process stays. */
  lemma ExecClosesMarked(p: Proc, t: Table, closes: nat -> CloseScript)
    requires WellFormed(p)
    ensures var p' := CloseOnExec(p, t, 0, closes).0;
            && |p'.slots| == |p.slots|
            && (forall k :: 0 <= k < |p.slots| ==>
                  p'.slots[k] == if p.flags[k].closeOnExec then None else p.slots[k])
            && p'.(slots := p.slots) == p
  {
    ExecClearsRest(p, t, 0, closes);
  }

  lemma {:induction false} CloseOnExecKeeps(p: Proc, t: Table, others: Held, i: nat, closes: nat -> CloseScript)
    requires WellFormed(p) && i <= |p.slots| && Holds(t, With(p, others))
    ensures var (p', t') := CloseOnExec(p, t, i, closes); Holds(t', With(p', others))
    decreases |p.slots| - i
  {
    if i < |p.slots| {
      if ClosedByExec(p, i) {
        CloseKeeps(p, t, others, i, closes(i));
        CloseOnExecKeeps(p.(slots := p.slots[i := None]), CloseStream(t, p.slots[i].value, closes(i)),
                         others, i + 1, closes);
      } else {
        CloseOnExecKeeps(p, t, others, i + 1, closes);
      }
    }
  }

  lemma ChangeDirKeeps(p: Proc, t: Table, others: Held, reply: OpenReply, script: CloseScript)
    requires WellFormed(p) && Holds(t, With(p, others)) && FreshReply(t, reply)
    ensures var (p', t') := ChangeDir(p, t, reply, script); Holds(t', With(p', others))
  {
    if reply.Opened? {
      var p' := p.(cwd := Some(reply.id));
      var both: Held := (id: StreamId) => With(p, others)(id) + Ref(p'.cwd, id);
      OpenHolds(t, With(p, others), reply, both);
      CloseSlotHolds(OpenStream(t, reply), both, p.cwd, script, With(p', others));
    } else {
      OpenHolds(t, With(p, others), reply, With(p, others));
    }
  }

  ghost function Rest(slots: seq<Slot>, i: nat, others: Held): Held
    requires i <= |slots|
  {
    (id: StreamId) => SlotRefs(slots[i..], id) + others(id)
  }

  lemma {:induction false} CloseSlotsHolds(t: Table, others: Held, slots: seq<Slot>, i: nat,
                                           closes: nat -> CloseScript)
    requires i <= |slots| && Holds(t, Rest(slots, i, others))
    ensures Holds(CloseSlots(t, slots, i, closes), others)
    decreases |slots| - i
  {
    if i == |slots| {
      HoldsSame(t, Rest(slots, i, others), others);
    } else {
      assert slots[i..][1..] == slots[i + 1..];
      CloseSlotHolds(t, Rest(slots, i, others), slots[i], closes(i), Rest(slots, i + 1, others));
      CloseSlotsHolds(CloseSlot(t, slots[i], closes(i)), others, slots, i + 1, closes);
    }
  }

  lemma CloseStateKeeps(p: Proc, t: Table, others: Held, phase: int, cwdClose: CloseScript,
                        closes: nat -> CloseScript)
    requires Holds(t, With(p, others))
    ensures var (p', t') := CloseState(p, t, phase, cwdClose, closes); Holds(t', WithOpt(p', others))
  {
    assert p.slots[0..] == p.slots;
    var (p', t') := CloseState(p, t, phase, cwdClose, closes);
    if phase > 0 {
      CloseSlotHolds(t, With(p, others), p.cwd, cwdClose, Rest(p.slots, 0, others));
      CloseSlotsHolds(CloseSlot(t, p.cwd, cwdClose), others, p.slots, 0, closes);
      HoldsSame(t', others, WithOpt(p', others));
    } else {
      HoldsSame(t, With(p, others), Rest(p.slots, 0, WithOpt(p', others)));
      CloseSlotsHolds(t, WithOpt(p', others), p.slots, 0, closes);
    }
  }

  ghost function Plus(a: Held, slots: seq<Slot>): Held {
    (id: StreamId) => a(id) + SlotRefs(slots, id)
  }

  /** A slot is copied, if it is not NIL. */
  lemma SlotCopied(t: Table, held: Held, slot: Slot, after: Held)
    requires Holds(t, held) && (slot != None ==> held(slot.value) > 0)
    requires forall x :: after(x) == held(x) + Ref(slot, x)
    ensures Holds(if slot == None then t else CopyStream(t, slot.value), after)
  {
    if slot == None {
      HoldsSame(t, held, after);
    } else {
      CopyHolds(t, held, slot.value, after);
    }
  }

  lemma {:induction false} CopySlotsHolds(t: Table, held: Held, slots: seq<Slot>, i: nat)
    requires i <= |slots| && Holds(t, held) && forall x :: SlotRefs(slots[i..], x) <= held(x)
    ensures Holds(CopySlots(t, slots, i), Plus(held, slots[i..]))
    decreases |slots| - i
  {
    if i == |slots| {
      HoldsSame(t, held, Plus(held, slots[i..]));
    } else {
      assert slots[i..][1..] == slots[i + 1..];
      var held1: Held := (id: StreamId) => held(id) + Ref(slots[i], id);
      var t1 := if slots[i] == None then t else CopyStream(t, slots[i].value);
      assert slots[i] != None ==> SlotRefs(slots[i..], slots[i].value) > 0;
      SlotCopied(t, held, slots[i], held1);
      CopySlotsHolds(t1, held1, slots, i + 1);
      HoldsSame(CopySlots(t1, slots, i + 1), Plus(held1, slots[i + 1..]), Plus(held, slots[i..]));
    }
  }

  lemma ChildHeld(p: Proc, held: Held, withCwd: Held, x: StreamId)
    requires WellFormed(p) && withCwd(x) == held(x) + Ref(p.cwd, x)
    ensures Plus(withCwd, p.slots)(x) == With(Child(p), held)(x)
  {
  }

  /** The child has its parent's streams, directory, groups and permission mask, and the flags of
      every open stream; those of a NIL slot are cleared. */
  lemma ForkCopies(p: Proc)
    requires WellFormed(p)
    ensures var c := Child(p);
            && c.slots == p.slots && c.cwd == p.cwd && c.groupIDs == p.groupIDs
            && c.filePermissions == p.filePermissions && c.closing == p.closing && |c.flags| == |p.flags|
            && (forall k :: 0 <= k < |p.slots| ==>
                  c.flags[k] == if p.slots[k] == None then SlotFlags(false, 0) else p.flags[k])
  {
  }

  /** Fork doubles the parent's references. */
  lemma InheritHolds(p: Proc, t: Table, others: Held)
    requires WellFormed(p) && Holds(t, With(p, others))
    ensures Holds(Inherit(p, t), With(Child(p), With(p, others)))
  {
    var held := With(p, others);
    var withCwd: Held := (id: StreamId) => held(id) + Ref(p.cwd, id);
    SlotCopied(t, held, p.cwd, withCwd);
    assert p.slots[0..] == p.slots;
    CopySlotsHolds(if p.cwd == None then t else CopyStream(t, p.cwd.value), withCwd, p.slots, 0);
    forall x: StreamId
      ensures With(Child(p), held)(x) == Plus(withCwd, p.slots)(x)
    {
      ChildHeld(p, held, withCwd, x);
    }
    HoldsSame(Inherit(p, t), Plus(withCwd, p.slots), With(Child(p), held));
  }
}
