/** Streams, per-process stream tables and the operations on them, as functions on values.
    The methods of module StreamTables are proved equal to these functions; here the functions
    are proved to keep the reference counts of the whole system right.

    A stream is named by the identifier under which the handle table holds it, so a pointer
    to a destroyed stream is an identifier that is no longer in the table. */
module StreamSpec {
  import opened Common

  type StreamId = nat
  type HostId = nat

  /** This host, rpc_SpriteID. */
  const LOCAL: HostId := 0
  /** Length of a stream list when it is first allocated. */
  const INITIAL_STREAMS := 8
  /** A list may always be grown to reach this stream ID. */
  const SMALL_ID := 128

  /** One byte of streamFlags: the close-on-exec bit and all the other bits. */
  datatype SlotFlags = SlotFlags(closeOnExec: bool, others: nat)
  const NO_FLAGS := SlotFlags(false, 0)

  type Slot = Option<StreamId>

  /** Fs_ProcessState. After phase 0 of Fs_CloseState (`closing`) the list is gone. */
  datatype Proc = Proc(
    cwd: Slot,
    slots: seq<Slot>,
    flags: seq<SlotFlags>,
    filePermissions: nat,
    groupIDs: seq<int>,
    closing: bool)

  /** The header of an Fs_Stream: its reference count and the hosts that have it open. */
  datatype Handle = Handle(refCount: int, clients: set<HostId>)

  /** The handle table. `leaked` counts the references kept by closes that gave up waiting
      for a server; `fault` records a use of a stream that is no longer in the table. */
  datatype Table = Table(handles: map<StreamId, Handle>, leaked: multiset<StreamId>, fault: bool)

  // ------------------------------------------------------------------ streams

  /** What the stream-type close routine and recovery answer, attempt by attempt. */
  datatype CloseReply = CloseReply(status: ReturnStatus, recovery: ReturnStatus)
  datatype CloseScript = CloseScript(transparent: bool, replies: seq<CloseReply>)
  datatype CloseOutcome = Finished(status: ReturnStatus) | GaveUp(status: ReturnStatus)

  /** The retry loop of Fs_Close. A server that never answers is a close that gives up. */
  function CloseLoop(script: CloseScript): CloseOutcome
    decreases |script.replies|
  {
    if script.replies == [] then GaveUp(RPC_TIMEOUT)
    else
      var r := script.replies[0];
      if !Recoverable(r.status) then Finished(r.status)
      else if r.recovery != SUCCESS then GaveUp(r.recovery)
      else if script.transparent then CloseLoop(script.(replies := script.replies[1..]))
      else Finished(SUCCESS)
  }

  /** Remove this host from the client list, drop one reference, and remove the handle when
      no host is left on the list. */
  function DropClient(t: Table, id: StreamId): Table
    requires id in t.handles
  {
    var h := t.handles[id];
    if h.clients - {LOCAL} == {} then t.(handles := t.handles - {id})
    else t.(handles := t.handles[id := Handle(h.refCount - 1, h.clients - {LOCAL})])
  }

  /** Fs_Close on a stream that is not NIL. */
  function CloseStream(t: Table, id: StreamId, script: CloseScript): Table {
    if id !in t.handles then t.(fault := true)
    else if t.handles[id].refCount > 1 then
      t.(handles := t.handles[id := t.handles[id].(refCount := t.handles[id].refCount - 1)])
    else if CloseLoop(script).GaveUp? then t.(leaked := t.leaked + multiset{id})
    else DropClient(t, id)
  }

  /** What Fs_Close returns. */
  function CloseStatus(t: Table, slot: Slot, script: CloseScript): ReturnStatus {
    if slot == None then FS_INVALID_ARG
    else if slot.value in t.handles && t.handles[slot.value].refCount > 1 then SUCCESS
    else CloseLoop(script).status
  }

  function CloseSlot(t: Table, slot: Slot, script: CloseScript): Table {
    if slot == None then t else CloseStream(t, slot.value, script)
  }

  /** Fsio_StreamCopy. */
  function CopyStream(t: Table, id: StreamId): Table {
    if id !in t.handles then t.(fault := true)
    else t.(handles := t.handles[id := t.handles[id].(refCount := t.handles[id].refCount + 1)])
  }

  /** Fsio_StreamAddClient and Fsio_StreamCreate for this host. */
  function AddClient(t: Table, id: StreamId): Table {
    if id in t.handles
    then t.(handles := t.handles[id := Handle(t.handles[id].refCount + 1, t.handles[id].clients + {LOCAL})])
    else t.(handles := t.handles[id := Handle(1, {LOCAL})])
  }

  /** How an open ends: at name lookup, at the client open of the I/O handle, or with a stream. */
  datatype OpenReply =
    | LookupFailed(status: ReturnStatus)
    | IoOpenFailed(id: StreamId, status: ReturnStatus)
    | Opened(id: StreamId)

  /** The handle table after Fs_Open. */
  function OpenStream(t: Table, reply: OpenReply): Table {
    match reply
    case LookupFailed(_) => t
    case IoOpenFailed(id, _) => DropClient(AddClient(t, id), id)
    case Opened(id) => AddClient(t, id)
  }

  /** The name server gives out stream identifiers that nobody on this host refers to. */
  predicate Fresh(t: Table, id: StreamId) {
    id in t.handles ==> t.handles[id].refCount == 0
  }

  predicate FreshReply(t: Table, reply: OpenReply) {
    if reply.Opened? then Fresh(t, reply.id)
    else reply.status != SUCCESS && (reply.IoOpenFailed? ==> Fresh(t, reply.id))
  }

  // ------------------------------------------------------------------ the stream list

  function Fill<T>(x: T, n: nat): (s: seq<T>)
    ensures |s| == n && forall i :: 0 <= i < n ==> s[i] == x
  {
    seq(n, _ => x)
  }

  /** GrowStreamList. */
  function Grow(p: Proc, newLength: nat): Proc
    requires |p.slots| <= newLength && |p.flags| <= newLength
  {
    p.(slots := p.slots + Fill(None, newLength - |p.slots|),
       flags := p.flags + Fill(NO_FLAGS, newLength - |p.flags|))
  }

  /** The first NIL slot, or the length when there is none. */
  function FirstFree(slots: seq<Slot>): (k: nat)
    ensures k <= |slots|
    ensures k < |slots| ==> slots[k] == None
    ensures forall i :: 0 <= i < k ==> slots[i] != None
  {
    if slots == [] || slots[0] == None then 0 else 1 + FirstFree(slots[1..])
  }

  lemma {:induction false} FirstFreeIs(slots: seq<Slot>, k: nat)
    requires k <= |slots| && (k < |slots| ==> slots[k] == None) && forall i :: 0 <= i < k ==> slots[i] != None
    ensures FirstFree(slots) == k
  {
    if k > 0 {
      FirstFreeIs(slots[1..], k - 1);
    }
  }

  /** A full list that grows has its first free slot behind what it held. */
  lemma GrownFree(slots: seq<Slot>, n: nat)
    requires FirstFree(slots) == |slots| && n > 0
    ensures FirstFree(slots + Fill(None, n)) == |slots|
  {
    FirstFreeIs(slots + Fill(None, n), |slots|);
  }

  /** The list that Fs_GetStreamID puts the stream in: long enough to have a free slot. */
  function WithRoom(p: Proc): (q: Proc)
    requires WellFormed(p)
    ensures WellFormed(q) && |p.slots| <= |q.slots| && q.slots[..|p.slots|] == p.slots
    ensures FirstFree(p.slots) < |q.slots| && FirstFree(q.slots) == FirstFree(p.slots)
  {
    var k := FirstFree(p.slots);
    if k < |p.slots| then p
    else
      var length := if p.slots == [] then INITIAL_STREAMS else 2 * |p.slots|;
      GrownFree(p.slots, length - |p.slots|);
      Grow(p, length)
  }

  /** Fs_GetStreamID: the process after the call, and the stream ID. */
  function Install(p: Proc, id: StreamId): (r: (Proc, nat))
    requires WellFormed(p)
    ensures WellFormed(r.0) && r.1 < |r.0.slots|
  {
    var q := WithRoom(p);
    var k := FirstFree(p.slots);
    (q.(slots := q.slots[k := Some(id)], flags := q.flags[k := NO_FLAGS]), k)
  }

  predicate WellFormed(p: Proc) {
    |p.slots| == |p.flags|
  }

  /** Fs_GetStreamPtr. */
  function Lookup(p: Proc, streamID: int): Slot {
    if 0 <= streamID < |p.slots| then p.slots[streamID] else None
  }

  // ------------------------------------------------------------------ operations of one process

  /** Fs_OpenStub: open, enter the stream in the list, and undo both if the ID cannot be
      copied out. */
  function Open(p: Proc, t: Table, reply: OpenReply, copyOut: bool, script: CloseScript): (r: (Proc, Table))
    requires WellFormed(p)
    ensures WellFormed(r.0)
  {
    var t1 := OpenStream(t, reply);
    if !reply.Opened? then (p, t1)
    else
      var (q, k) := Install(p, reply.id);
      if copyOut then (q, t1) else Close(q, t1, k, script)
  }

  /** Fs_CreatePipeStub. */
  function Pipe(p: Proc, t: Table, inId: StreamId, outId: StreamId, copyOut: bool,
                inScript: CloseScript, outScript: CloseScript): (r: (Proc, Table))
    requires WellFormed(p)
    ensures WellFormed(r.0)
  {
    var t1 := AddClient(AddClient(t, inId), outId);
    var (q1, i) := Install(p, inId);
    var (q2, j) := Install(q1, outId);
    if copyOut then (q2, t1)
    else (q2.(slots := q2.slots[i := None][j := None]),
          CloseStream(CloseStream(t1, inId, inScript), outId, outScript))
  }

  /** Fs_UserClose. */
  function Close(p: Proc, t: Table, streamID: int, script: CloseScript): (r: (Proc, Table))
    requires WellFormed(p)
    ensures WellFormed(r.0)
  {
    var slot := Lookup(p, streamID);
    if slot == None then (p, t)
    else (p.(slots := p.slots[streamID := None]), CloseStream(t, slot.value, script))
  }

  /** What the caller of Fs_GetNewID asks for. */
  datatype NewIdRequest = AnyId | Exactly(id: int)

  /** The status of a request for a particular stream ID. */
  function NewIdStatus(p: Proc, streamID: int, newID: int): ReturnStatus {
    if Lookup(p, streamID) == None then FS_INVALID_ARG
    else if newID == streamID then SUCCESS
    else if newID < 0 then FS_INVALID_ARG
    else if newID >= |p.slots| && newID > 2 * |p.slots| && newID > SMALL_ID then FS_NEW_ID_TOO_BIG
    else SUCCESS
  }

  /** Fs_GetNewID (dup and dup2). */
  function NewID(p: Proc, t: Table, streamID: int, request: NewIdRequest, script: CloseScript)
    : (r: (Proc, Table))
    requires WellFormed(p)
    ensures WellFormed(r.0)
  {
    var slot := Lookup(p, streamID);
    match request
    case AnyId =>
      if slot == None then (p, t)
      else (Install(p, slot.value).0, CopyStream(t, slot.value))
    case Exactly(newID) =>
      if NewIdStatus(p, streamID, newID) != SUCCESS || newID == streamID then (p, t)
      else if newID >= |p.slots| then
        var q := Grow(p, newID + 1);
        (q.(slots := q.slots[newID := slot]), CopyStream(t, slot.value))
      else
        (p.(slots := p.slots[newID := slot]),
         CopyStream(CloseSlot(t, p.slots[newID], script), slot.value))
  }

  /** One slot of the loop of Fs_CloseOnExec. */
  predicate ClosedByExec(p: Proc, i: nat)
    requires WellFormed(p) && i < |p.slots|
  {
    p.slots[i] != None && p.flags[i].closeOnExec
  }

  /** Fs_CloseOnExec, from slot i on. */
  function CloseOnExec(p: Proc, t: Table, i: nat, closes: nat -> CloseScript): (r: (Proc, Table))
    requires WellFormed(p) && i <= |p.slots|
    ensures WellFormed(r.0)
    decreases |p.slots| - i
  {
    if i == |p.slots| then (p, t)
    else if ClosedByExec(p, i) then
      CloseOnExec(p.(slots := p.slots[i := None]), CloseStream(t, p.slots[i].value, closes(i)), i + 1, closes)
    else CloseOnExec(p, t, i + 1, closes)
  }

  /** Fs_ChangeDir. */
  function ChangeDir(p: Proc, t: Table, reply: OpenReply, script: CloseScript): (r: (Proc, Table))
    requires WellFormed(p)
    ensures WellFormed(r.0)
  {
    var t1 := OpenStream(t, reply);
    if !reply.Opened? then (p, t1)
    else (p.(cwd := Some(reply.id)), CloseSlot(t1, p.cwd, script))
  }

  /** The loop of Fs_CloseState: close every open slot from i on. */
  function CloseSlots(t: Table, slots: seq<Slot>, i: nat, closes: nat -> CloseScript): Table
    requires i <= |slots|
    decreases |slots| - i
  {
    if i == |slots| then t
    else CloseSlots(CloseSlot(t, slots[i], closes(i)), slots, i + 1, closes)
  }

  /** Fs_CloseState. Phase 0 closes the streams only; a later phase also closes the current
      directory and frees the whole state. */
  function CloseState(p: Proc, t: Table, phase: int, cwdClose: CloseScript, closes: nat -> CloseScript)
    : (r: (Option<Proc>, Table))
    ensures r.0.Some? ==> WellFormed(r.0.value)
  {
    var t1 := if phase > 0 then CloseSlot(t, p.cwd, cwdClose) else t;
    var t2 := CloseSlots(t1, p.slots, 0, closes);
    (if phase > 0 then None else Some(p.(slots := [], flags := [], closing := true)), t2)
  }

  /** Fsio_StreamCopy on every open slot from i on, the handle-table side of Fs_InheritState. */
  function CopySlots(t: Table, slots: seq<Slot>, i: nat): Table
    requires i <= |slots|
    decreases |slots| - i
  {
    if i == |slots| then t
    else CopySlots(if slots[i] == None then t else CopyStream(t, slots[i].value), slots, i + 1)
  }

  /** Fs_InheritState: the child's state. A NIL slot of the child has no flags. */
  function Child(p: Proc): (c: Proc)
    requires WellFormed(p)
    ensures WellFormed(c)
  {
    p.(flags := seq(|p.flags|, i requires 0 <= i < |p.flags| =>
                      if p.slots[i] == None then NO_FLAGS else p.flags[i]))
  }

  /** The handle table after Fs_InheritState. */
  function Inherit(p: Proc, t: Table): Table {
    CopySlots(if p.cwd == None then t else CopyStream(t, p.cwd.value), p.slots, 0)
  }
}
