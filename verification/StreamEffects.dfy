/** What each call does to the stream list and to a stream's handle, stated slot by slot and count by
    count. Keeping the reference counts right says nothing of a call that does nothing, or that does
    the right thing to the wrong slot; this does. */
module StreamEffects {
  import opened Common
  import opened StreamSafety
  import opened StreamSpec
  import opened StreamSystem

  // ------------------------------------------------------------------ the handle of one stream

  /** Replies 0 to n - 1 make the close try again: the server could not be reached, it recovered, and the
      close is transparent to recovery. */
  predicate TriesAgain(script: CloseScript, n: nat) {
    && n <= |script.replies| && (n > 0 ==> script.transparent)
    && forall k :: 0 <= k < n ==> Recoverable(script.replies[k].status) && script.replies[k].recovery == SUCCESS
  }

  /** How a close ends: with the first status that recovery does not help, with the failure of the
      recovery, or with success after one recovery when it need not try again. A server that never
      answers is a close that times out. */
  lemma {:induction false} CloseEnds(script: CloseScript, n: nat)
    requires TriesAgain(script, n)
    ensures n == |script.replies| ==> CloseLoop(script) == GaveUp(RPC_TIMEOUT)
    ensures n < |script.replies| && !Recoverable(script.replies[n].status) ==>
              CloseLoop(script) == Finished(script.replies[n].status)
    ensures n < |script.replies| && Recoverable(script.replies[n].status) && script.replies[n].recovery != SUCCESS ==>
              CloseLoop(script) == GaveUp(script.replies[n].recovery)
    ensures n < |script.replies| && Recoverable(script.replies[n].status) && !script.transparent
            && script.replies[n].recovery == SUCCESS ==>
              CloseLoop(script) == Finished(SUCCESS)
    decreases n
  {
    if n > 0 {
      var rest := script.(replies := script.replies[1..]);
      assert TriesAgain(rest, n - 1);
      CloseEnds(rest, n - 1);
    }
  }

  /** A close takes one reference and leaves the other hosts alone. The last reference of this host takes
      the host off the client list, and the stream with it if no other host is there, unless the close
      gives up: then the stream stays as it is, and the reference is abandoned. A stream that is no longer
      in the table is used after its end. */
  lemma CloseTakesOne(t: Table, id: StreamId, script: CloseScript)
    ensures id !in t.handles ==> CloseStream(t, id, script) == Table(t.handles, t.leaked, true)
    ensures id in t.handles ==>
            var t', h := CloseStream(t, id, script), t.handles[id];
            && t'.handles - {id} == t.handles - {id} && t'.fault == t.fault
            && (if h.refCount > 1 then
                  id in t'.handles && t'.handles[id] == Handle(h.refCount - 1, h.clients) && t'.leaked == t.leaked
                else if CloseLoop(script).GaveUp? then
                  t'.handles == t.handles && t'.leaked == t.leaked + multiset{id}
                else
                  && t'.leaked == t.leaked
                  && (id in t'.handles <==> exists host :: host in h.clients && host != LOCAL)
                  && (id in t'.handles ==> t'.handles[id] == Handle(h.refCount - 1, h.clients - {LOCAL})))
    ensures CloseStatus(t, None, script) == FS_INVALID_ARG
    ensures id in t.handles ==>
            CloseStatus(t, Some(id), script) == if t.handles[id].refCount > 1 then SUCCESS else CloseLoop(script).status
  {
    if id in t.handles {
      var clients := t.handles[id].clients;
      assert CloseStream(t, id, script).handles - {id} == t.handles - {id};
      if host :| host in clients && host != LOCAL {
        assert host in clients - {LOCAL};
      } else {
        assert clients - {LOCAL} == {};
      }
    }
  }

  /** A copy adds one reference; entering a stream adds one and puts this host on the client list. */
  lemma OneMore(t: Table, id: StreamId)
    ensures id !in t.handles ==> CopyStream(t, id) == Table(t.handles, t.leaked, true)
    ensures id in t.handles ==>
            var h := t.handles[id];
            CopyStream(t, id) == t.(handles := t.handles[id := Handle(h.refCount + 1, h.clients)])
    ensures var t' := AddClient(t, id);
            && t'.handles - {id} == t.handles - {id} && t'.leaked == t.leaked && t'.fault == t.fault
            && id in t'.handles
            && (forall host :: host in t'.handles[id].clients <==>
                  host == LOCAL || (id in t.handles && host in t.handles[id].clients))
            && t'.handles[id].refCount == if id in t.handles then t.handles[id].refCount + 1 else 1
  {
    assert AddClient(t, id).handles - {id} == t.handles - {id};
  }

  /** Other hosts come and go without changing this host's count or its place on the client list. */
  lemma RemoteChangesClients(t: Table, id: StreamId, hosts: set<HostId>)
    requires id in t.handles && LOCAL !in hosts
    ensures var t' := ShareWith(t, id, hosts);
            && t'.handles - {id} == t.handles - {id} && t'.leaked == t.leaked && t'.fault == t.fault
            && (id in t'.handles <==> LOCAL in t.handles[id].clients || hosts != {})
            && (id in t'.handles ==>
                  && t'.handles[id].refCount == t.handles[id].refCount
                  && forall host :: host in t'.handles[id].clients <==>
                       if host == LOCAL then LOCAL in t.handles[id].clients else host in hosts)
  {
    assert ShareWith(t, id, hosts).handles - {id} == t.handles - {id};
    var clients := t.handles[id].clients * {LOCAL} + (hosts - {LOCAL});
    assert LOCAL in t.handles[id].clients ==> LOCAL in clients;
    assert forall host :: host in hosts ==> host in clients;
  }

  // ------------------------------------------------------------------ the stream list

  /** The directory, the permission mask and the groups are as they were. */
  predicate SameRest(p: Proc, p': Proc) {
    p'.cwd == p.cwd && p'.filePermissions == p.filePermissions && p'.groupIDs == p.groupIDs && p'.closing == p.closing
  }

  /** Stream ID k holds `slot` with the flags given, and every other stream ID is as it was; where the list
      has grown, there is nothing. */
  ghost predicate OnlyAt(p: Proc, p': Proc, k: nat, slot: Slot, flags: SlotFlags) {
    && SameRest(p, p') && |p'.slots| == |p'.flags| && |p.slots| == |p.flags| <= |p'.slots| && k < |p'.slots|
    && p'.slots[k] == slot && p'.flags[k] == flags
    && (forall i {:trigger p'.slots[i]} :: 0 <= i < |p'.slots| && i != k ==>
          p'.slots[i] == if i < |p.slots| then p.slots[i] else None)
    && (forall i {:trigger p'.flags[i]} :: 0 <= i < |p'.flags| && i != k ==>
          p'.flags[i] == if i < |p.flags| then p.flags[i] else SlotFlags(false, 0))
  }

  /** k is the lowest stream ID that stands for nothing. */
  ghost predicate Lowest(p: Proc, k: nat) {
    k <= |p.slots| && (k < |p.slots| ==> p.slots[k] == None) && forall i :: 0 <= i < k ==> p.slots[i] != None
  }

  /** The length of the list once it has a free slot: 8 at first, and twice as long whenever it is full. */
  function Roomy(length: nat, k: nat): nat {
    if k < length then length else if length == 0 then 8 else 2 * length
  }

  /** A stream goes into the lowest free stream ID, with no flags. */
  lemma InstallsLowest(p: Proc, id: StreamId)
    requires WellFormed(p)
    ensures var (p', k) := Install(p, id);
            && Lowest(p, k) && OnlyAt(p, p', k, Some(id), SlotFlags(false, 0)) && |p'.slots| == Roomy(|p.slots|, k)
  {
  }

  lemma SetOnly(p: Proc, p1: Proc, k: nat, slot: Slot, flags: SlotFlags, slot': Slot)
    requires OnlyAt(p, p1, k, slot, flags)
    ensures OnlyAt(p, p1.(slots := p1.slots[k := slot']), k, slot', flags)
  {
  }

  /** An open puts its stream into the lowest free stream ID, or clears that again when the ID cannot be
      copied out; one that fails leaves the process as it was. */
  lemma OpenEnters(p: Proc, t: Table, reply: OpenReply, copyOut: bool, script: CloseScript)
    requires WellFormed(p)
    ensures var p' := DoCall(p, t, CallOpen(reply, copyOut, script)).0;
            if !reply.Opened? then p' == p else
            exists k: nat :: Lowest(p, k) &&
              OnlyAt(p, p', k, if copyOut then Some(reply.id) else None, SlotFlags(false, 0))
  {
    if reply.Opened? {
      var (q, k) := Install(p, reply.id);
      InstallsLowest(p, reply.id);
      SetOnly(p, q, k, Some(reply.id), SlotFlags(false, 0), None);
    }
  }

  /** The read end of a pipe goes into the lowest free stream ID, and the write end into the lowest left
      after that; both are cleared again when they cannot be copied out. */
  lemma PipeEnters(p: Proc, t: Table, inId: StreamId, outId: StreamId, copyOut: bool,
                   inScript: CloseScript, outScript: CloseScript) returns (p1: Proc, i: nat, p2: Proc, j: nat)
    requires WellFormed(p)
    ensures Lowest(p, i) && OnlyAt(p, p1, i, Some(inId), SlotFlags(false, 0))
    ensures Lowest(p1, j) && OnlyAt(p1, p2, j, Some(outId), SlotFlags(false, 0))
    ensures i != j && i < |p2.slots| && j < |p2.slots| && p2.slots[i] == Some(inId) && p2.slots[j] == Some(outId)
    ensures DoCall(p, t, CallPipe(inId, outId, copyOut, inScript, outScript)).0 ==
            if copyOut then p2 else p2.(slots := p2.slots[i := None][j := None])
  {
    p1, i := Install(p, inId).0, Install(p, inId).1;
    p2, j := Install(p1, outId).0, Install(p1, outId).1;
    InstallsLowest(p, inId);
    InstallsLowest(p1, outId);
  }

  /** A close clears its stream ID, which the source checks to stand for a stream. */
  lemma CloseClears(p: Proc, t: Table, streamID: int, script: CloseScript)
    requires WellFormed(p)
    ensures var (p', t') := DoCall(p, t, CallClose(streamID, script));
            if 0 <= streamID < |p.slots| && p.slots[streamID].Some? then
              && OnlyAt(p, p', streamID, None, p.flags[streamID]) && |p'.slots| == |p.slots|
              && t' == CloseStream(t, p.slots[streamID].value, script)
            else (p', t') == (p, t)
  {
  }

  /** Which stream IDs a stream may be copied to: its own, any in the list, and any up to twice the length
      of the list or 128. */
  lemma MayDup(p: Proc, streamID: int, newID: int)
    ensures var status := NewIdStatus(p, streamID, newID);
            if !(0 <= streamID < |p.slots| && p.slots[streamID].Some?) then status == FS_INVALID_ARG
            else if newID < 0 then status == FS_INVALID_ARG
            else if newID <= 2 * |p.slots| || newID <= 128 then status == SUCCESS
            else status == FS_NEW_ID_TOO_BIG
  {
  }

  /** A duplicate is a second stream ID for the same stream: the lowest free one, without flags, or the one
      asked for, which keeps the flags it had. A request that is refused, or for the stream's own ID,
      changes nothing. */
  lemma DupShares(p: Proc, t: Table, streamID: int, request: NewIdRequest, script: CloseScript)
    requires WellFormed(p)
    ensures var (p', t') := DoCall(p, t, CallNewID(streamID, request, script));
            if !(0 <= streamID < |p.slots| && p.slots[streamID].Some?) then (p', t') == (p, t) else
            match request
            case AnyId =>
              exists k: nat :: Lowest(p, k) && OnlyAt(p, p', k, p.slots[streamID], SlotFlags(false, 0))
            case Exactly(newID) =>
              if newID == streamID || NewIdStatus(p, streamID, newID) != SUCCESS then (p', t') == (p, t)
              else
                && OnlyAt(p, p', newID, p.slots[streamID],
                          if newID < |p.flags| then p.flags[newID] else SlotFlags(false, 0))
                && |p'.slots| == Max(|p.slots|, newID + 1)
  {
    if 0 <= streamID < |p.slots| && p.slots[streamID].Some? && request.AnyId? {
      InstallsLowest(p, p.slots[streamID].value);
    }
  }

  /** A change of directory replaces the directory exactly when the new one can be opened. */
  lemma ChangeDirReplaces(p: Proc, t: Table, reply: OpenReply, script: CloseScript)
    requires WellFormed(p)
    ensures var p' := DoCall(p, t, CallChangeDir(reply, script)).0;
            && p'.cwd == (if reply.Opened? then Some(reply.id) else p.cwd) && p'.(cwd := p.cwd) == p
  {
  }

  /** Exec clears the stream IDs marked close-on-exec, and no others. */
  lemma ExecClears(p: Proc, t: Table, closes: nat -> CloseScript)
    requires WellFormed(p)
    ensures var p' := DoCall(p, t, CallExec(closes)).0;
            && |p'.slots| == |p.slots| && p'.(slots := p.slots) == p
            && forall k :: 0 <= k < |p.slots| ==>
                 p'.slots[k] == if p.flags[k].closeOnExec then None else p.slots[k]
  {
    ExecClosesMarked(p, t, closes);
  }

  /** Setting flags sets those of an open stream, and no others. */
  lemma FlagsAreSet(p: Proc, t: Table, streamID: int, flags: SlotFlags)
    requires WellFormed(p)
    ensures var (p', t') := DoCall(p, t, CallSetFlags(streamID, flags));
            && t' == t
            && (if 0 <= streamID < |p.slots| && p.slots[streamID].Some? then
                  OnlyAt(p, p', streamID, p.slots[streamID], flags) && |p'.slots| == |p.slots|
                else p' == p)
  {
  }

  /** In phase 0 an exit leaves a process with its directory and no streams; afterwards there is none. */
  lemma ExitEmpties(p: Proc, t: Table, phase: int, cwdClose: CloseScript, closes: nat -> CloseScript)
    ensures var r := CloseState(p, t, phase, cwdClose, closes).0;
            if phase > 0 then r == None
            else r == Some(Proc(p.cwd, [], [], p.filePermissions, p.groupIDs, true))
  {
  }

  // ------------------------------------------------------------------ one event

  /** A run is its events one after the other. */
  lemma {:induction false} RunGoesOn(sys: System, events: seq<Event>, e: Event)
    requires ProcsWellFormed(sys.procs)
    ensures Run(sys, []) == sys && Run(sys, events + [e]) == Step(Run(sys, events), e)
    decreases |events|
  {
    if events == [] {
      assert [e][1..] == [];
    } else {
      RunGoesOn(Step(sys, events[0]), events[1..], e);
      assert (events + [e])[1..] == events[1..] + [e];
    }
  }

  /** A running process makes its call, and no other process changes. */
  lemma SyscallChangesOne(sys: System, pid: nat, call: Call)
    requires ProcsWellFormed(sys.procs) && pid < |sys.procs| && sys.procs[pid].Some?
    requires !sys.procs[pid].value.closing
    requires match call
             case CallOpen(reply, _, _) => FreshReply(sys.table, reply)
             case CallChangeDir(reply, _) => FreshReply(sys.table, reply)
             case CallPipe(inId, outId, _, _, _) =>
               inId !in sys.table.handles && outId !in sys.table.handles && inId != outId
             case _ => true
    ensures var r, sys' := DoCall(sys.procs[pid].value, sys.table, call), Step(sys, Syscall(pid, call));
            sys'.table == r.1 && sys'.procs[pid := None] == sys.procs[pid := None] && sys'.procs[pid] == Some(r.0)
  {
  }

  /** A child that did not exist gets what its parent has. */
  lemma ForkAddsOne(sys: System, pid: nat, child: nat)
    requires ProcsWellFormed(sys.procs) && pid < |sys.procs| && sys.procs[pid].Some?
    requires !sys.procs[pid].value.closing && child < |sys.procs| && sys.procs[child] == None
    ensures var p, sys' := sys.procs[pid].value, Step(sys, Fork(pid, child));
            && sys'.table == Inherit(p, sys.table) && sys'.procs[child := None] == sys.procs
            && sys'.procs[child] == Some(Child(p))
  {
  }

  /** A process that is there exits. */
  lemma ExitChangesOne(sys: System, pid: nat, phase: int, cwdClose: CloseScript, closes: nat -> CloseScript)
    requires ProcsWellFormed(sys.procs) && pid < |sys.procs| && sys.procs[pid].Some?
    ensures var r := CloseState(sys.procs[pid].value, sys.table, phase, cwdClose, closes);
            var sys' := Step(sys, Exit(pid, phase, cwdClose, closes));
            sys'.table == r.1 && sys'.procs[pid := None] == sys.procs[pid := None] && sys'.procs[pid] == r.0
  {
  }
}
