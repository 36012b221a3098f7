/** The code of StreamTables run under the reference counts: a process whose pointers are all
    alive makes any system call, follows no dead pointer on the way, and ends with its pointers
    and everyone else's alive. */
module StreamCalls {
  import opened Common
  import opened StreamSpec
  import opened StreamSafety
  import opened StreamSystem
  import opened StreamTables

  /** The process, the handle table, and the references of everyone else fit together. */
  ghost predicate Fits(s: ProcessState, h: HandleTable, others: Held)
    reads s, s.streamList, s.streamFlags, h, h.handles.Values
  {
    s.Valid() && h.Valid() && s.Live(h) && Holds(h.table, With(s.proc, others))
  }

  /** A counted stream is in the handle table, so a sound pointer to it is alive. */
  lemma StaysLive(s: ProcessState, h: HandleTable, others: Held)
    requires s.Valid() && h.Valid() && s.Sound(h) && Holds(h.table, With(s.proc, others))
    ensures s.Live(h)
  {
    if s.cwdPtr != null {
      CountedIsKept(h.table, With(s.proc, others), s.cwdPtr.id);
    }
    forall i | 0 <= i < |s.list|
      ensures Names(h.handles, s.list[i])
    {
      if s.list[i] != null {
        assert s.proc.slots[i] == Some(s.list[i].id);
        StoreRefs(s.proc, i, None);
        CountedIsKept(h.table, With(s.proc, others), s.list[i].id);
      }
    }
  }

  /** What one process does to the table leaves the pointers of every other process alive. */
  lemma OthersStayLive(s: ProcessState, h: HandleTable, before: map<StreamId, Stream>, others: Held)
    requires s.Valid() && h.Valid() && Holds(h.table, With(s.proc, others))
    requires Names(before, s.cwdPtr) && AllNamed(before, s.list) && Survive(before, h.handles)
    ensures s.Live(h)
  {
    OldFaithful(before, h.handles, s.list);
    StaysLive(s, h, others);
  }

  /** Any system call. */
  method Execute(s: ProcessState, h: HandleTable, call: Call, ghost others: Held)
    requires Fits(s, h, others) && !s.proc.closing && CallEnabled(h.table, call)
    modifies s, s.streamList, s.streamFlags, h, h.handles.Values
    ensures Fits(s, h, others) && Survive(old(h.handles), h.handles)
    ensures s.proc == DoCall(old(s.proc), old(h.table), call).0
    ensures h.table == DoCall(old(s.proc), old(h.table), call).1
  {
    CallKeeps(s.proc, h.table, others, call);
    Dispatch(s, h, call);
    StaysLive(s, h, others);
  }

  /** The system call table. */
  method Dispatch(s: ProcessState, h: HandleTable, call: Call)
    requires s.Valid() && h.Valid() && s.Live(h) && !s.proc.closing && CallEnabled(h.table, call)
    requires !DoCall(s.proc, h.table, call).1.fault
    modifies s, s.streamList, s.streamFlags, h, h.handles.Values
    ensures s.Valid() && h.Valid() && s.Sound(h) && Survive(old(h.handles), h.handles)
    ensures s.proc == DoCall(old(s.proc), old(h.table), call).0
    ensures h.table == DoCall(old(s.proc), old(h.table), call).1
  {
    match call
    case CallOpen(reply, copyOut, script) =>
      var _, _ := s.OpenStub(h, reply, copyOut, script);
    case CallPipe(i, o, copyOut, inScript, outScript) =>
      var _, _, _ := s.CreatePipe(h, i, o, copyOut, inScript, outScript);
    case CallNewID(streamID, request, script) =>
      var _, _ := s.GetNewID(h, streamID, request, script);
    case CallClose(streamID, script) =>
      var _ := s.UserClose(h, streamID, script);
    case CallSetFlags(streamID, flags) =>
      var p, status := s.GetStreamPtr(streamID);
      if status == SUCCESS {
        s.StoreFlags(streamID, flags);
      }
      OldFaithful(h.handles, h.handles, s.list);
    case CallExec(closes) =>
      s.CloseForExec(h, closes);
    case CallChangeDir(reply, script) =>
      var _ := s.ChangeDirectory(h, reply, script);
  }

  /** The death of a process closes each of its references once. */
  method Terminate(s: ProcessState, h: HandleTable, phase: int, cwdClose: CloseScript,
                   closes: nat -> CloseScript, ghost others: Held)
    requires Fits(s, h, others)
    modifies s, s.cwdPtr, s.list, h
    ensures h.Valid() && Survive(old(h.handles), h.handles)
    ensures h.table == CloseState(old(s.proc), old(h.table), phase, cwdClose, closes).1
    ensures phase > 0 ==> Holds(h.table, others)
    ensures phase <= 0 ==> Fits(s, h, others)
  {
    CloseStateKeeps(s.proc, h.table, others, phase, cwdClose, closes);
    ghost var r := CloseState(s.proc, h.table, phase, cwdClose, closes);
    s.CloseProcess(h, phase, cwdClose, closes);
    if phase > 0 {
      HoldsSame(h.table, WithOpt(r.0, others), others);
    } else {
      HoldsSame(h.table, WithOpt(r.0, others), With(s.proc, others));
      StaysLive(s, h, others);
    }
  }
}
