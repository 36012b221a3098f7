/** The stream table code itself: streams and the handle table that counts references to them,
    and the per-process stream list, as objects that are updated in place. Every method is
    proved to do to the abstract values exactly what its function in StreamSpec says; the
    reference counting proved in StreamSafety is what keeps each pointer it follows alive. */
module StreamTables {
  import opened Common
  import opened StreamSpec
  import opened StreamSafety

  /** Fs_Stream, as far as its life time is concerned. */
  class Stream {
    const id: StreamId
    var refCount: int
    var clients: set<HostId>

    constructor (id: StreamId)
      ensures this.id == id && refCount == 1 && clients == {LOCAL}
    {
      this.id := id;
      refCount := 1;
      clients := {LOCAL};
    }
  }

  function IdOf(s: Stream?): Slot {
    if s == null then None else Some(s.id)
  }

  function Ids(list: seq<Stream?>): (ids: seq<Slot>)
    ensures |ids| == |list| && forall i :: 0 <= i < |list| ==> ids[i] == IdOf(list[i])
  {
    seq(|list|, i requires 0 <= i < |list| => IdOf(list[i]))
  }

  lemma FilledBehind<T>(longer: seq<T>, s: seq<T>, x: T)
    requires |s| <= |longer| && longer[..|s|] == s && forall k :: |s| <= k < |longer| ==> longer[k] == x
    ensures longer == s + Fill(x, |longer| - |s|)
  {
  }

  lemma IdsFilled(list: seq<Stream?>, n: nat)
    ensures Ids(list + Fill(null, n)) == Ids(list) + Fill(None, n)
  {
  }

  /** Putting s in a grown list keeps all the others. */
  lemma OthersKept(before: seq<Stream?>, grown: seq<Stream?>, k: nat, s: Stream?)
    requires k < |grown| && |before| <= |grown| && grown[..|before|] == before
    requires forall i :: |before| <= i < |grown| ==> grown[i] == null
    ensures forall i :: 0 <= i < |grown| && i != k ==> grown[k := s][i] == if i < |before| then before[i] else null
  {
  }

  /** What lies behind i is the same before and after slot i is cleared. */
  lemma RestKept(list: seq<Stream?>, all: seq<Stream?>, i: nat)
    requires i < |list| == |all| && list[i..] == all[i..]
    ensures list[i] == all[i] && list[i] in all
    ensures list[i + 1..] == all[i + 1..] && list[i := null][i + 1..] == all[i + 1..]
  {
    assert list[i] == list[i..][0] && all[i] == all[i..][0];
    assert list[i + 1..] == list[i..][1..] && all[i + 1..] == all[i..][1..];
    assert list[i := null][i + 1..] == list[i + 1..];
  }

  /** The pointer is one that the handle table holds, so the stream has not been destroyed. */
  ghost predicate Names(handles: map<StreamId, Stream>, s: Stream?) {
    s == null || (s.id in handles && handles[s.id] == s)
  }

  ghost predicate AllNamed(handles: map<StreamId, Stream>, list: seq<Stream?>) {
    forall i :: 0 <= i < |list| ==> Names(handles, list[i])
  }

  /** If the pointer's stream is in the table, then it is this very object. */
  ghost predicate Faithful(handles: map<StreamId, Stream>, s: Stream?) {
    s != null && s.id in handles ==> handles[s.id] == s
  }

  ghost predicate AllFaithful(handles: map<StreamId, Stream>, list: seq<Stream?>) {
    forall i :: 0 <= i < |list| ==> Faithful(handles, list[i])
  }

  /** Streams that are in both tables are the same objects. */
  ghost predicate Survive(before: map<StreamId, Stream>, after: map<StreamId, Stream>) {
    forall id :: id in before && id in after ==> after[id] == before[id]
  }

  /** The hash table of handles; `table` is what it stands for. */
  class HandleTable {
    var handles: map<StreamId, Stream>
    ghost var table: Table

    ghost predicate Valid()
      reads this, handles.Values
    {
      && !table.fault
      && table.handles.Keys == handles.Keys
      && forall id :: id in handles ==>
           && handles[id].id == id
           && table.handles[id] == Handle(handles[id].refCount, handles[id].clients)
    }

    ghost predicate Owns(s: Stream?)
      reads this
    {
      Names(handles, s)
    }

    /** The stream object of an identifier, if it has one. */
    function At(id: StreamId): set<Stream>
      reads this
    {
      if id in handles then {handles[id]} else {}
    }

    /** Drop this host from the client list and the reference with it; destroy the stream when
        no host is left. */
    method ClientClose(s: Stream)
      requires Valid() && Owns(s)
      modifies this, s
      ensures Valid()
      ensures table == DropClient(old(table), s.id)
      ensures handles.Keys <= old(handles).Keys && Survive(old(handles), handles)
    {
      table := DropClient(table, s.id);
      s.clients := s.clients - {LOCAL};
      s.refCount := s.refCount - 1;
      if s.clients == {} {
        handles := handles - {s.id};
      }
    }

    /** Fs_Close. */
    method Close(s: Stream?, script: CloseScript) returns (status: ReturnStatus)
      requires Valid() && Owns(s)
      modifies this, s
      ensures Valid()
      ensures table == CloseSlot(old(table), IdOf(s), script)
      ensures handles.Keys <= old(handles).Keys && Survive(old(handles), handles)
      ensures status == CloseStatus(old(table), IdOf(s), script)
    {
      if s == null {
        return FS_INVALID_ARG;
      }
      if s.refCount > 1 {
        table := CloseStream(table, s.id, script);
        s.refCount := s.refCount - 1;
        return SUCCESS;
      }
      var attempt, retry := 0, true;
      status := SUCCESS;
      while retry
        invariant attempt <= |script.replies|
        invariant retry ==> CloseLoop(script) == CloseLoop(script.(replies := script.replies[attempt..]))
        invariant !retry ==> CloseLoop(script) == Finished(status)
        decreases |script.replies| - attempt, retry
      {
        if attempt == |script.replies| {
          table := table.(leaked := table.leaked + multiset{s.id});
          return RPC_TIMEOUT;
        }
        var reply := script.replies[attempt];
        assert script.replies[attempt..][1..] == script.replies[attempt + 1..];
        attempt := attempt + 1;
        status, retry := reply.status, false;
        if Recoverable(status) {
          status := reply.recovery;
          if status != SUCCESS {
            table := table.(leaked := table.leaked + multiset{s.id});
            return;
          }
          retry := true;
        }
        retry := retry && script.transparent;
      }
      ClientClose(s);
    }

    /** Close two different streams. */
    method ClosePair(a: Stream, b: Stream, aScript: CloseScript, bScript: CloseScript)
      requires Valid() && Owns(a) && Owns(b) && a.id != b.id
      modifies this, a, b
      ensures Valid()
      ensures table == CloseStream(CloseStream(old(table), a.id, aScript), b.id, bScript)
      ensures handles.Keys <= old(handles).Keys && Survive(old(handles), handles)
    {
      var _ := Close(a, aScript);
      var _ := Close(b, bScript);
    }

    /** Close one stream and copy another, which must survive the close. */
    method CloseAndCopy(target: Stream?, source: Stream, script: CloseScript) returns (copy: Stream)
      requires Valid() && Owns(target) && Owns(source)
      requires source.id in CloseSlot(table, IdOf(target), script).handles
      modifies this, target, source
      ensures Valid() && copy == source
      ensures table == CopyStream(CloseSlot(old(table), IdOf(target), script), source.id)
      ensures handles.Keys <= old(handles).Keys && Survive(old(handles), handles)
    {
      if target != null {
        var _ := Close(target, script);
      }
      copy := Copy(source);
    }

    /** Fsio_StreamCopy. */
    method Copy(s: Stream) returns (copy: Stream)
      requires Valid() && Owns(s)
      modifies this`table, s
      ensures Valid() && copy == s && handles == old(handles)
      ensures table == CopyStream(old(table), s.id)
    {
      table := CopyStream(table, s.id);
      s.refCount := s.refCount + 1;
      copy := s;
    }

    /** Fsio_StreamAddClient (and Fsio_StreamCreate) for this host. */
    method Install(id: StreamId) returns (s: Stream)
      requires Valid()
      modifies this, At(id)
      ensures Valid() && Owns(s) && s.id == id
      ensures table == AddClient(old(table), id)
      ensures handles.Keys == old(handles).Keys + {id} && (s in old(At(id)) || fresh(s))
      ensures Survive(old(handles), handles)
    {
      table := AddClient(table, id);
      if id in handles {
        s := handles[id];
        s.refCount := s.refCount + 1;
        s.clients := s.clients + {LOCAL};
      } else {
        s := new Stream(id);
        handles := handles[id := s];
      }
    }

    /** Fsio_CreatePipe: two new streams. */
    method InstallPair(inId: StreamId, outId: StreamId) returns (inPtr: Stream, outPtr: Stream)
      requires Valid() && inId !in handles && outId !in handles && inId != outId
      modifies this
      ensures Valid() && fresh(inPtr) && fresh(outPtr) && inPtr.id == inId && outPtr.id == outId
      ensures Owns(inPtr) && Owns(outPtr)
      ensures table == AddClient(AddClient(old(table), inId), outId)
      ensures old(handles).Keys <= handles.Keys && Survive(old(handles), handles)
    {
      inPtr := Install(inId);
      outPtr := Install(outId);
    }

    /** Fs_Open, given how the name lookup and the client open of the I/O handle end. */
    method Open(reply: OpenReply) returns (s: Stream?, status: ReturnStatus)
      requires Valid() && (!reply.Opened? ==> reply.status != SUCCESS)
      modifies this, if reply.LookupFailed? then {} else At(reply.id)
      ensures Valid() && Owns(s)
      ensures table == OpenStream(old(table), reply)
      ensures s == null <==> !reply.Opened?
      ensures reply.Opened? ==> s.id == reply.id && status == SUCCESS
      ensures !reply.Opened? ==> status == reply.status
      ensures reply.Opened? ==> old(handles).Keys <= handles.Keys
      ensures s != null ==> s in old(At(reply.id)) || fresh(s)
      ensures Survive(old(handles), handles)
    {
      s := null;
      match reply {
        case LookupFailed(error) =>
          return null, error;
        case Opened(id) =>
          s := Install(id);
          return s, SUCCESS;
        case IoOpenFailed(id, error) =>
          var failed := Install(id);
          ClientClose(failed);
          return null, error;
      }
    }

    /** Close every stream of a list. */
    method CloseEach(streams: seq<Stream?>, closes: nat -> CloseScript)
      requires Valid() && AllFaithful(handles, streams)
      requires !CloseSlots(table, Ids(streams), 0, closes).fault
      modifies this, streams
      ensures Valid() && handles.Keys <= old(handles).Keys && Survive(old(handles), handles)
      ensures table == CloseSlots(old(table), Ids(streams), 0, closes)
    {
      ghost var ids := Ids(streams);
      ghost var result := CloseSlots(table, ids, 0, closes);
      for i := 0 to |streams|
        invariant Valid() && handles.Keys <= old(handles).Keys && Survive(old(handles), handles)
        invariant AllFaithful(handles, streams)
        invariant result == CloseSlots(table, ids, i, closes)
      {
        if streams[i] != null {
          SlotsNoFault(table, ids, i, closes);
          ghost var before := handles;
          var _ := Close(streams[i], closes(i));
          SurviveAcross(old(handles), before, handles);
          StillFaithful(before, handles, streams);
        }
      }
    }

    /** Close a current directory, unless it is left alone, and every stream of a list. */
    method CloseAll(cwd: Stream?, streams: seq<Stream?>, cwdClose: CloseScript, closes: nat -> CloseScript)
      requires Valid() && Owns(cwd) && AllNamed(handles, streams)
      requires !CloseSlots(CloseSlot(table, IdOf(cwd), cwdClose), Ids(streams), 0, closes).fault
      modifies this, cwd, streams
      ensures Valid() && Survive(old(handles), handles)
      ensures table == CloseSlots(CloseSlot(old(table), IdOf(cwd), cwdClose), Ids(streams), 0, closes)
    {
      var _ := Close(cwd, cwdClose);
      ghost var middle := handles;
      OldFaithful(old(handles), middle, streams);
      CloseEach(streams, closes);
      SurviveAcross(old(handles), middle, handles);
    }

    /** Copy a current directory and every stream of a list. */
    method CopyAll(cwd: Stream?, streams: seq<Stream?>)
      requires Valid() && Owns(cwd) && AllNamed(handles, streams)
      modifies this`table, cwd, streams
      ensures Valid()
      ensures table == CopySlots(if cwd == null then old(table) else CopyStream(old(table), cwd.id), Ids(streams), 0)
    {
      if cwd != null {
        var _ := Copy(cwd);
      }
      CopyEach(streams);
    }

    /** Copy every stream of a list. */
    method CopyEach(streams: seq<Stream?>)
      requires Valid() && AllNamed(handles, streams)
      modifies this`table, streams
      ensures Valid() && table == CopySlots(old(table), Ids(streams), 0)
    {
      for i := 0 to |streams|
        invariant Valid() && CopySlots(old(table), Ids(streams), 0) == CopySlots(table, Ids(streams), i)
      {
        if streams[i] != null {
          var _ := Copy(streams[i]);
        }
      }
    }

    /** Open a stream and, when that succeeds, close another one. */
    method OpenInPlaceOf(target: Stream?, reply: OpenReply, script: CloseScript)
      returns (s: Stream?, status: ReturnStatus)
      requires Valid() && Owns(target) && (!reply.Opened? ==> reply.status != SUCCESS)
      modifies this, if reply.LookupFailed? then {} else At(reply.id), target
      ensures Valid() && Faithful(handles, s) && Survive(old(handles), handles)
      ensures s == null <==> !reply.Opened?
      ensures reply.Opened? ==> s.id == reply.id
      ensures status == if reply.Opened? then SUCCESS else reply.status
      ensures table == if reply.Opened? then CloseSlot(OpenStream(old(table), reply), IdOf(target), script)
                       else OpenStream(old(table), reply)
    {
      s, status := Open(reply);
      if status == SUCCESS {
        ghost var middle := handles;
        NamedStays(old(handles), middle, [target]);
        assert [target][0] == target;
        var _ := Close(target, script);
        SurviveAcross(old(handles), middle, handles);
      }
    }
  }

  /** Fs_ProcessState. */
  class ProcessState {
    var cwdPtr: Stream?
    var numStreams: nat
    var streamList: array?<Stream?>
    var streamFlags: array?<SlotFlags>
    var filePermissions: nat
    var groupIDs: seq<int>

    /** What the list holds, and what the whole state stands for. */
    ghost var list: seq<Stream?>
    ghost var proc: Proc

    ghost predicate Valid()
      reads this, streamList, streamFlags
    {
      && WellFormed(proc)
      && proc.cwd == IdOf(cwdPtr) && proc.slots == Ids(list)
      && proc.filePermissions == filePermissions && proc.groupIDs == groupIDs
      && (streamList == null <==> list == [])
      && (streamList == null ==> proc.closing || numStreams == 0)
      && (streamList != null ==>
            && streamFlags != null && !proc.closing
            && numStreams == |list|
            && streamList[..] == list && streamFlags[..] == proc.flags)
    }

    /** The pointer that a stream ID stands for. */
    ghost function Pointer(streamID: int): Stream?
      reads this
    {
      if 0 <= streamID < |list| then list[streamID] else null
    }

    /** Every pointer of the process is one the handle table holds. */
    ghost predicate Live(h: HandleTable)
      reads this, h
    {
      Names(h.handles, cwdPtr) && AllNamed(h.handles, list)
    }

    /** No pointer of the process is mistaken for another stream of the same identifier. */
    ghost predicate Sound(h: HandleTable)
      reads this, h
    {
      Faithful(h.handles, cwdPtr) && AllFaithful(h.handles, list)
    }

    /** New arrays that hold the old list and flags, and NIL and no flags behind them. */
    method LongerCopies(newLength: nat) returns (newList: array<Stream?>, newFlags: array<SlotFlags>)
      requires Valid() && !proc.closing && numStreams < newLength
      ensures fresh(newList) && fresh(newFlags)
      ensures newList[..] == list + Fill(null, newLength - |list|)
      ensures newFlags[..] == proc.flags + Fill(NO_FLAGS, newLength - |list|)
    {
      var n := numStreams;
      newList := new Stream?[newLength];
      newFlags := new SlotFlags[newLength];
      if n > 0 {
        forall i | 0 <= i < n { newList[i] := streamList[i]; }
        forall i | 0 <= i < n { newFlags[i] := streamFlags[i]; }
      }
      for i := n to newLength
        invariant newList[..n] == list && newFlags[..n] == proc.flags
        invariant forall k :: n <= k < i ==> newList[k] == null && newFlags[k] == NO_FLAGS
        modifies newList, newFlags
      {
        newList[i] := null;
        newFlags[i] := NO_FLAGS;
      }
      FilledBehind(newList[..], list, null);
      FilledBehind(newFlags[..], proc.flags, NO_FLAGS);
    }

    /** GrowStreamList. */
    method GrowStreamList(newLength: nat)
      requires Valid() && !proc.closing && numStreams < newLength
      modifies this
      ensures Valid() && fresh(streamList) && fresh(streamFlags) && cwdPtr == old(cwdPtr)
      ensures proc == Grow(old(proc), newLength)
      ensures list == old(list) + Fill(null, newLength - |old(list)|)
    {
      streamList, streamFlags := LongerCopies(newLength);
      IdsFilled(list, newLength - |list|);
      list := list + Fill(null, newLength - |list|);
      proc := Grow(proc, newLength);
      numStreams := newLength;
    }

    /** Assign one element of the stream list. */
    method Store(i: nat, s: Stream?)
      requires Valid() && i < |list|
      modifies this`list, this`proc, streamList
      ensures Valid() && list == old(list)[i := s]
      ensures proc == old(proc).(slots := old(proc).slots[i := IdOf(s)])
    {
      streamList[i] := s;
      list := list[i := s];
      proc := proc.(slots := proc.slots[i := IdOf(s)]);
      assert streamList[..] == list;
      assert proc.slots == Ids(list);
    }

    /** Assign one element of the flag array. */
    method StoreFlags(i: nat, flags: SlotFlags)
      requires Valid() && i < |list|
      modifies this`proc, streamFlags
      ensures Valid() && proc == old(proc).(flags := old(proc).flags[i := flags])
    {
      streamFlags[i] := flags;
      proc := proc.(flags := proc.flags[i := flags]);
      assert streamFlags[..] == proc.flags;
    }

    /** Put a stream in a slot and clear its flags. */
    method Occupy(i: nat, s: Stream)
      requires Valid() && i < |list|
      modifies this`list, this`proc, streamList, streamFlags
      ensures Valid() && list == old(list)[i := s]
      ensures proc == old(proc).(slots := old(proc).slots[i := Some(s.id)], flags := old(proc).flags[i := NO_FLAGS])
    {
      Store(i, s);
      StoreFlags(i, NO_FLAGS);
    }

    /** The first free stream ID of the list, or its length. */
    method FindFree() returns (index: nat)
      requires Valid() && !proc.closing
      ensures index == FirstFree(proc.slots)
    {
      index := 0;
      while index < numStreams && streamList[index] != null
        invariant index <= numStreams
        invariant forall i :: 0 <= i < index ==> list[i] != null
      {
        index := index + 1;
      }
      FirstFreeIs(proc.slots, index);
    }

    /** The first half of Fs_GetStreamID: find the first free stream ID, growing the list when
        it is empty or full. */
    method MakeRoom() returns (index: nat)
      requires Valid() && !proc.closing
      modifies this
      ensures Valid() && cwdPtr == old(cwdPtr)
      ensures (streamList == old(streamList) && streamFlags == old(streamFlags)) ||
              (fresh(streamList) && fresh(streamFlags))
      ensures proc == WithRoom(old(proc))
      ensures index == FirstFree(old(proc).slots) && index < |list|
      ensures |old(list)| <= |list| && list[..|old(list)|] == old(list)
      ensures forall i :: |old(list)| <= i < |list| ==> list[i] == null
    {
      if streamList == null {
        GrowStreamList(INITIAL_STREAMS);
      }
      index := FindFree();
      if index == numStreams {
        GrowStreamList(2 * numStreams);
      }
    }

    /** Fs_GetStreamID: take the first free stream ID, or add one at the end. */
    method GetStreamID(s: Stream) returns (streamID: nat)
      requires Valid() && !proc.closing
      modifies this, streamList, streamFlags
      ensures Valid() && cwdPtr == old(cwdPtr)
      ensures (streamList == old(streamList) && streamFlags == old(streamFlags)) ||
              (fresh(streamList) && fresh(streamFlags))
      ensures proc == StreamSpec.Install(old(proc), s.id).0
      ensures streamID == StreamSpec.Install(old(proc), s.id).1
      ensures streamID < |list| && list[streamID] == s
      ensures forall i :: 0 <= i < |list| && i != streamID ==>
                list[i] == if i < |old(list)| then old(list)[i] else null
    {
      streamID := MakeRoom();
      OthersKept(old(list), list, streamID, s);
      Occupy(streamID, s);
    }

    /** Fs_GetStreamPtr. */
    method GetStreamPtr(streamID: int) returns (s: Stream?, status: ReturnStatus)
      requires Valid() && !proc.closing
      ensures IdOf(s) == Lookup(proc, streamID)
      ensures status == if s == null then FS_INVALID_ARG else SUCCESS
      ensures s != null ==> 0 <= streamID < |list| && list[streamID] == s
    {
      if streamID < 0 || streamID >= numStreams {
        return null, FS_INVALID_ARG;
      }
      s := streamList[streamID];
      status := if s == null then FS_INVALID_ARG else SUCCESS;
    }

    /** Fs_ClearStreamID. */
    method ClearStreamID(streamID: nat)
      requires Valid() && streamID < |list|
      modifies this`list, this`proc, streamList
      ensures Valid() && list == old(list)[streamID := null]
      ensures proc == old(proc).(slots := old(proc).slots[streamID := None])
    {
      Store(streamID, null);
    }

    /** Fs_GetStreamID for a stream that the table holds. */
    method EnterStream(h: HandleTable, s: Stream) returns (streamID: nat)
      requires Valid() && !proc.closing && h.Valid() && Live(h) && h.Owns(s)
      modifies this, streamList, streamFlags
      ensures Valid() && !proc.closing && h.Valid() && Live(h)
      ensures h.table == old(h.table) && h.handles == old(h.handles)
      ensures (streamList == old(streamList) && streamFlags == old(streamFlags)) ||
              (fresh(streamList) && fresh(streamFlags))
      ensures proc == StreamSpec.Install(old(proc), s.id).0
      ensures streamID == StreamSpec.Install(old(proc), s.id).1
      ensures streamID < |list| && list[streamID] == s && proc.slots[streamID] == Some(s.id)
      ensures forall i :: 0 <= i < |old(list)| && i != streamID ==> i < |list| && list[i] == old(list)[i]
    {
      streamID := GetStreamID(s);
    }

    // ---------------------------------------------------------------- system calls

    /** Fs_UserClose: clear the stream ID, then close the stream. */
    method UserClose(h: HandleTable, streamID: int, script: CloseScript) returns (status: ReturnStatus)
      requires Valid() && !proc.closing && h.Valid() && Live(h)
      modifies h, Pointer(streamID), this`list, this`proc, streamList
      ensures Valid() && h.Valid() && Survive(old(h.handles), h.handles)
      ensures proc == StreamSpec.Close(old(proc), old(h.table), streamID, script).0
      ensures h.table == StreamSpec.Close(old(proc), old(h.table), streamID, script).1
      ensures Sound(h) && h.handles.Keys <= old(h.handles).Keys
      ensures status == if Lookup(old(proc), streamID) == None then FS_NEW_ID_TOO_BIG
                        else CloseStatus(old(h.table), Lookup(old(proc), streamID), script)
    {
      var s, found := GetStreamPtr(streamID);
      if found != SUCCESS {
        return FS_NEW_ID_TOO_BIG;
      }
      ClearStreamID(streamID);
      status := h.Close(s, script);
      OldFaithful(old(h.handles), h.handles, list);
    }

    /** The first half of Fs_OpenStub: open, and enter the stream in the list. */
    method OpenAndEnter(h: HandleTable, reply: OpenReply) returns (streamID: int, status: ReturnStatus)
      requires Valid() && !proc.closing && h.Valid() && Live(h) && FreshReply(h.table, reply)
      modifies h, if reply.LookupFailed? then {} else h.At(reply.id), this, streamList, streamFlags
      ensures Valid() && h.Valid() && Survive(old(h.handles), h.handles) && Sound(h)
      ensures (streamList == old(streamList) && streamFlags == old(streamFlags)) ||
              (fresh(streamList) && fresh(streamFlags))
      ensures h.table == OpenStream(old(h.table), reply)
      ensures status == SUCCESS <==> reply.Opened?
      ensures !reply.Opened? ==> proc == old(proc)
      ensures reply.Opened? ==> (proc, streamID) == StreamSpec.Install(old(proc), reply.id)
      ensures reply.Opened? ==> Live(h) && !proc.closing && Lookup(proc, streamID) == Some(reply.id)
      ensures reply.Opened? ==> list[streamID] in old(h.At(reply.id)) || fresh(list[streamID])
      ensures reply.Opened? ==> old(h.handles).Keys <= h.handles.Keys
    {
      var s: Stream?;
      s, status := h.Open(reply);
      if status != SUCCESS {
        OldFaithful(old(h.handles), h.handles, list);
        return -1, status;
      }
      NamedStays(old(h.handles), h.handles, list);
      streamID := EnterStream(h, s);
    }

    /** Fs_OpenStub: open, enter the stream in the list, copy the ID out. */
    method OpenStub(h: HandleTable, reply: OpenReply, copyOut: bool, script: CloseScript)
        returns (streamID: int, status: ReturnStatus)
      requires Valid() && !proc.closing && h.Valid() && Live(h) && FreshReply(h.table, reply)
      modifies h, if reply.LookupFailed? then {} else h.At(reply.id), this, streamList, streamFlags
      ensures Valid() && h.Valid() && Survive(old(h.handles), h.handles) && Sound(h)
      ensures proc == StreamSpec.Open(old(proc), old(h.table), reply, copyOut, script).0
      ensures h.table == StreamSpec.Open(old(proc), old(h.table), reply, copyOut, script).1
      ensures status == SUCCESS <==> reply.Opened? && copyOut
      ensures status == SUCCESS ==> Lookup(proc, streamID) == Some(reply.id)
    {
      streamID, status := OpenAndEnter(h, reply);
      if status == SUCCESS && !copyOut {
        ghost var middle := h.handles;
        var _ := UserClose(h, streamID, script);
        SurviveAcross(old(h.handles), middle, h.handles);
        return -1, SYS_ARG_NOACCESS;
      }
    }

    /** The failure path of Fs_CreatePipeStub: clear both stream IDs, then close both streams. */
    method UndoPipe(h: HandleTable, i: nat, j: nat, inScript: CloseScript, outScript: CloseScript)
      requires Valid() && h.Valid() && i < |list| && j < |list| && i != j
      requires list[i] != null && list[j] != null && list[i].id != list[j].id && Live(h)
      modifies h, list[i], list[j], this`list, this`proc, streamList
      ensures Valid() && h.Valid() && Sound(h)
      ensures h.handles.Keys <= old(h.handles).Keys && Survive(old(h.handles), h.handles)
      ensures proc == old(proc).(slots := old(proc).slots[i := None][j := None])
      ensures h.table == CloseStream(CloseStream(old(h.table), old(list[i]).id, inScript),
                                     old(list[j]).id, outScript)
    {
      var inPtr, outPtr := streamList[i], streamList[j];
      ClearStreamID(i);
      ClearStreamID(j);
      h.ClosePair(inPtr, outPtr, inScript, outScript);
      OldFaithful(old(h.handles), h.handles, list);
    }

    /** Enter both ends of a pipe in the list. */
    method EnterPair(h: HandleTable, inPtr: Stream, outPtr: Stream) returns (i: nat, j: nat)
      requires Valid() && !proc.closing && h.Valid() && Live(h) && h.Owns(inPtr) && h.Owns(outPtr)
      modifies this, streamList, streamFlags
      ensures Valid() && h.Valid() && Live(h)
      ensures h.table == old(h.table) && h.handles == old(h.handles)
      ensures (streamList == old(streamList) && streamFlags == old(streamFlags)) ||
              (fresh(streamList) && fresh(streamFlags))
      ensures (proc, j) == StreamSpec.Install(StreamSpec.Install(old(proc), inPtr.id).0, outPtr.id)
      ensures i == StreamSpec.Install(old(proc), inPtr.id).1
      ensures i != j && i < |list| && j < |list| && list[i] == inPtr && list[j] == outPtr
      ensures Lookup(proc, i) == Some(inPtr.id) && Lookup(proc, j) == Some(outPtr.id)
    {
      PipeStored(proc, inPtr.id, outPtr.id);
      i := EnterStream(h, inPtr);
      j := EnterStream(h, outPtr);
    }

    /** The first half of Fs_CreatePipeStub: make both streams and enter them in the list. */
    method MakePipe(h: HandleTable, inId: StreamId, outId: StreamId) returns (i: nat, j: nat)
      requires Valid() && !proc.closing && h.Valid() && Live(h)
      requires inId !in h.handles && outId !in h.handles && inId != outId
      modifies h, this, streamList, streamFlags
      ensures Valid() && h.Valid()
      ensures Survive(old(h.handles), h.handles) && old(h.handles).Keys <= h.handles.Keys
      ensures (streamList == old(streamList) && streamFlags == old(streamFlags)) ||
              (fresh(streamList) && fresh(streamFlags))
      ensures (proc, j) == StreamSpec.Install(StreamSpec.Install(old(proc), inId).0, outId)
      ensures i == StreamSpec.Install(old(proc), inId).1
      ensures h.table == AddClient(AddClient(old(h.table), inId), outId)
      ensures i != j && i < |list| && j < |list|
      ensures list[i] != null && list[j] != null && fresh(list[i]) && fresh(list[j])
      ensures Live(h) && list[i].id == inId && list[j].id == outId
    {
      var inPtr, outPtr := h.InstallPair(inId, outId);
      NamedStays(old(h.handles), h.handles, list);
      i, j := EnterPair(h, inPtr, outPtr);
    }

    /** Fs_CreatePipeStub, given the identifiers of the two streams Fsio_CreatePipe makes. That routine
        returns nothing but SUCCESS, so the early return on its failure is never taken. */
    method CreatePipe(h: HandleTable, inId: StreamId, outId: StreamId, copyOut: bool,
                      inScript: CloseScript, outScript: CloseScript)
        returns (inStreamID: int, outStreamID: int, status: ReturnStatus)
      requires Valid() && !proc.closing && h.Valid() && Live(h)
      requires inId !in h.handles && outId !in h.handles && inId != outId
      modifies h, this, streamList, streamFlags
      ensures Valid() && h.Valid() && Survive(old(h.handles), h.handles) && Sound(h)
      ensures proc == Pipe(old(proc), old(h.table), inId, outId, copyOut, inScript, outScript).0
      ensures h.table == Pipe(old(proc), old(h.table), inId, outId, copyOut, inScript, outScript).1
      ensures status == SUCCESS <==> copyOut
      ensures copyOut ==> Lookup(proc, inStreamID) == Some(inId) && Lookup(proc, outStreamID) == Some(outId)
    {
      PipeStored(proc, inId, outId);
      inStreamID, outStreamID := MakePipe(h, inId, outId);
      ghost var middle := h.handles;
      if copyOut {
        return inStreamID, outStreamID, SUCCESS;
      }
      UndoPipe(h, inStreamID, outStreamID, inScript, outScript);
      SurviveAcross(old(h.handles), middle, h.handles);
      return -1, -1, SYS_ARG_NOACCESS;
    }

    /** Fs_GetNewID onto a slot past the end: grow the list, then copy the stream there. */
    method DupBeyond(h: HandleTable, streamID: nat, newID: nat)
      requires Valid() && !proc.closing && h.Valid()
      requires streamID < |list| <= newID && list[streamID] != null && Live(h)
      modifies h`table, list[streamID], this
      ensures Valid() && h.Valid() && h.handles == old(h.handles) && Live(h)
      ensures proc == Grow(old(proc), newID + 1).(
                        slots := Grow(old(proc), newID + 1).slots[newID := old(proc).slots[streamID]])
      ensures h.table == CopyStream(old(h.table), old(list[streamID]).id)
    {
      var s := streamList[streamID];
      GrowStreamList(newID + 1);
      var copy := h.Copy(s);
      Store(newID, copy);
    }

    /** Fs_GetNewID onto an existing slot: close what is there, then copy the stream. */
    method DupOnto(h: HandleTable, streamID: nat, newID: nat, script: CloseScript)
      requires Valid() && h.Valid() && streamID < |list| && newID < |list| && list[streamID] != null
      requires Live(h)
      requires list[streamID].id in CloseSlot(h.table, proc.slots[newID], script).handles
      modifies h, list[streamID], list[newID], this`list, this`proc, streamList
      ensures Valid() && h.Valid() && Survive(old(h.handles), h.handles) && Sound(h)
      ensures proc == old(proc).(slots := old(proc).slots[newID := old(proc).slots[streamID]])
      ensures h.table == CopyStream(CloseSlot(old(h.table), old(proc).slots[newID], script),
                                    old(list[streamID]).id)
    {
      var s := streamList[streamID];
      var copy := h.CloseAndCopy(streamList[newID], s, script);
      Store(newID, copy);
      OldFaithful(old(h.handles), h.handles, list);
    }

    /** Fs_GetNewID onto the first free slot. */
    method DupAny(h: HandleTable, streamID: nat) returns (newID: nat)
      requires Valid() && !proc.closing && h.Valid() && Live(h) && streamID < |list| && list[streamID] != null
      modifies h`table, list[streamID], this, streamList, streamFlags
      ensures Valid() && h.Valid() && h.handles == old(h.handles) && Live(h)
      ensures proc == StreamSpec.Install(old(proc), old(list)[streamID].id).0
      ensures h.table == CopyStream(old(h.table), old(list[streamID]).id)
      ensures newID < |list| && proc.slots[newID] == old(proc).slots[streamID]
    {
      var copy := h.Copy(streamList[streamID]);
      newID := EnterStream(h, copy);
    }

    /** Fs_GetNewID. The source must survive the closing of the target slot's old stream, which
        is what the reference counts guarantee. */
    method GetNewID(h: HandleTable, streamID: int, request: NewIdRequest, script: CloseScript)
        returns (newID: int, status: ReturnStatus)
      requires Valid() && !proc.closing && h.Valid() && Live(h)
      requires !NewID(proc, h.table, streamID, request, script).1.fault
      modifies h, Pointer(streamID), if request.Exactly? then {Pointer(request.id)} else {},
               this, streamList, streamFlags
      ensures Valid() && h.Valid() && Survive(old(h.handles), h.handles) && Sound(h)
      ensures proc == NewID(old(proc), old(h.table), streamID, request, script).0
      ensures h.table == NewID(old(proc), old(h.table), streamID, request, script).1
      ensures status == if request.Exactly? then NewIdStatus(old(proc), streamID, request.id)
                        else if Lookup(old(proc), streamID) == None then FS_INVALID_ARG else SUCCESS
      ensures status == SUCCESS ==> Lookup(proc, newID) == Lookup(old(proc), streamID)
      ensures status == SUCCESS && request.Exactly? ==> newID == request.id
    {
      newID := -1;
      var s: Stream?;
      s, status := GetStreamPtr(streamID);
      if status != SUCCESS {
        return;
      }
      match request
      case AnyId =>
        newID := DupAny(h, streamID);
      case Exactly(id) =>
        newID := id;
        status := DupTo(h, streamID, newID, script);
    }

    /** The part of Fs_GetNewID that serves a request for a particular stream ID. */
    method DupTo(h: HandleTable, streamID: int, newID: int, script: CloseScript) returns (status: ReturnStatus)
      requires Valid() && !proc.closing && h.Valid() && Live(h) && Lookup(proc, streamID) != None
      requires !NewID(proc, h.table, streamID, Exactly(newID), script).1.fault
      modifies h, Pointer(streamID), Pointer(newID), this, streamList
      ensures Valid() && h.Valid() && Survive(old(h.handles), h.handles) && Sound(h)
      ensures proc == NewID(old(proc), old(h.table), streamID, Exactly(newID), script).0
      ensures h.table == NewID(old(proc), old(h.table), streamID, Exactly(newID), script).1
      ensures status == NewIdStatus(old(proc), streamID, newID)
    {
      if newID == streamID {
        return SUCCESS;
      }
      if newID < 0 {
        return FS_INVALID_ARG;
      }
      if newID >= numStreams {
        var maxID := 2 * numStreams;
        maxID := if maxID < SMALL_ID then SMALL_ID else maxID;
        if newID > maxID {
          return FS_NEW_ID_TOO_BIG;
        }
        DupBeyond(h, streamID, newID);
      } else {
        DupOnto(h, streamID, newID, script);
      }
      return SUCCESS;
    }

    /** Fs_ChangeDir: open the new directory, then close the old one. */
    method ChangeDirectory(h: HandleTable, reply: OpenReply, script: CloseScript) returns (status: ReturnStatus)
      requires Valid() && h.Valid() && Live(h) && FreshReply(h.table, reply)
      requires !ChangeDir(proc, h.table, reply, script).1.fault
      modifies h, if reply.LookupFailed? then {} else h.At(reply.id), cwdPtr, this`cwdPtr, this`proc
      ensures Valid() && h.Valid() && Survive(old(h.handles), h.handles) && Sound(h)
      ensures proc == ChangeDir(old(proc), old(h.table), reply, script).0
      ensures h.table == ChangeDir(old(proc), old(h.table), reply, script).1
      ensures status == if reply.Opened? then SUCCESS else reply.status
    {
      var newCwdPtr: Stream?;
      newCwdPtr, status := h.OpenInPlaceOf(cwdPtr, reply, script);
      OldFaithful(old(h.handles), h.handles, list);
      if status == SUCCESS {
        cwdPtr := newCwdPtr;
        proc := proc.(cwd := Some(reply.id));
      }
    }

    /** Close a slot's stream, then clear the slot. */
    method CloseSlotForExec(h: HandleTable, i: nat, script: CloseScript)
      requires Valid() && h.Valid() && Sound(h) && !proc.closing && i < |list| && proc.slots[i] != None
      requires proc.slots[i].value in h.table.handles
      modifies h, list[i], this`list, this`proc, streamList
      ensures Valid() && h.Valid() && Sound(h)
      ensures h.handles.Keys <= old(h.handles).Keys && Survive(old(h.handles), h.handles)
      ensures proc == old(proc).(slots := old(proc).slots[i := None])
      ensures h.table == CloseStream(old(h.table), old(proc).slots[i].value, script)
      ensures list == old(list)[i := null]
    {
      var _ := h.Close(streamList[i], script);
      StillFaithful(old(h.handles), h.handles, list);
      ClearStreamID(i);
    }

    /** One slot of the loop of Fs_CloseOnExec. */
    method ExecSlot(h: HandleTable, i: nat, closes: nat -> CloseScript, ghost all: seq<Stream?>,
                    ghost result: (Proc, Table))
      requires Valid() && h.Valid() && Sound(h) && !proc.closing && i < |list| == |all| && list[i..] == all[i..]
      requires result == CloseOnExec(proc, h.table, i, closes) && !result.1.fault
      modifies h, list[i], this`list, this`proc, streamList
      ensures Valid() && h.Valid() && Sound(h) && !proc.closing && |list| == |all| && list[i + 1..] == all[i + 1..]
      ensures h.handles.Keys <= old(h.handles).Keys && Survive(old(h.handles), h.handles)
      ensures result == CloseOnExec(proc, h.table, i + 1, closes)
    {
      RestKept(list, all, i);
      if streamList[i] != null && streamFlags[i].closeOnExec {
        ExecTurn(proc, h.table, i, closes);
        CloseSlotForExec(h, i, closes(i));
      }
    }

    /** The loop of Fs_CloseOnExec. */
    method ExecSlots(h: HandleTable, closes: nat -> CloseScript, ghost result: (Proc, Table))
      requires Valid() && h.Valid() && Sound(h) && !proc.closing
      requires result == CloseOnExec(proc, h.table, 0, closes) && !result.1.fault
      modifies h, list, this`list, this`proc, streamList
      ensures Valid() && h.Valid() && Sound(h) && Survive(old(h.handles), h.handles)
      ensures (proc, h.table) == result
    {
      ghost var all := list;
      var i := 0;
      while i < numStreams
        invariant i <= |list| && Valid() && h.Valid() && !proc.closing && Sound(h)
        invariant |list| == |all| && list[i..] == all[i..]
        invariant h.handles.Keys <= old(h.handles).Keys && Survive(old(h.handles), h.handles)
        invariant result == CloseOnExec(proc, h.table, i, closes)
      {
        RestKept(list, all, i);
        ghost var before := h.handles;
        ExecSlot(h, i, closes, all, result);
        SurviveAcross(old(h.handles), before, h.handles);
        i := i + 1;
      }
    }

    /** Fs_CloseOnExec. */
    method CloseForExec(h: HandleTable, closes: nat -> CloseScript)
      requires Valid() && !proc.closing && h.Valid() && Live(h)
      requires !CloseOnExec(proc, h.table, 0, closes).1.fault
      modifies h, list, this`list, this`proc, streamList
      ensures Valid() && h.Valid() && Survive(old(h.handles), h.handles) && Sound(h)
      ensures proc == CloseOnExec(old(proc), old(h.table), 0, closes).0
      ensures h.table == CloseOnExec(old(proc), old(h.table), 0, closes).1
      ensures |list| == |old(list)| && forall k :: 0 <= k < |list| ==>
                IdOf(list[k]) == if old(proc).flags[k].closeOnExec then None else IdOf(old(list)[k])
      ensures proc.(slots := old(proc).slots) == old(proc)
    {
      ExecClosesMarked(proc, h.table, closes);
      OldFaithful(h.handles, h.handles, list);
      ExecSlots(h, closes, CloseOnExec(proc, h.table, 0, closes));
    }

    /** Fs_CloseState. In phase 0 only the streams go; afterwards the whole state is gone, so
        nothing is said about it. */
    method CloseProcess(h: HandleTable, phase: int, cwdClose: CloseScript, closes: nat -> CloseScript)
      requires Valid() && h.Valid() && Live(h)
      requires !CloseState(proc, h.table, phase, cwdClose, closes).1.fault
      modifies h, cwdPtr, list, this
      ensures h.Valid() && Survive(old(h.handles), h.handles)
      ensures h.table == CloseState(old(proc), old(h.table), phase, cwdClose, closes).1
      ensures phase <= 0 ==> Valid() && Sound(h) &&
                             CloseState(old(proc), old(h.table), phase, cwdClose, closes).0 == Some(proc)
    {
      h.CloseAll(if phase > 0 then cwdPtr else null, if streamList == null then [] else streamList[..],
                 cwdClose, closes);
      streamList, streamFlags := null, null;
      list := [];
      proc := proc.(slots := [], flags := [], closing := true);
      if phase > 0 {
        groupIDs := [];
      }
    }

    constructor Empty(filePermissions: nat, groupIDs: seq<int>)
      ensures Valid() && cwdPtr == null && list == [] && streamList == null && numStreams == 0
      ensures proc == Proc(None, [], [], filePermissions, groupIDs, false)
    {
      this.filePermissions, this.groupIDs := filePermissions, groupIDs;
      cwdPtr, numStreams, streamList, streamFlags := null, 0, null, null;
      list := [];
      proc := Proc(None, [], [], filePermissions, groupIDs, false);
    }

    /** Copies of the list and of the flags; those of NIL slots are cleared. */
    method OpenCopies() returns (newList: array<Stream?>, newFlags: array<SlotFlags>)
      requires Valid() && !proc.closing
      ensures fresh(newList) && fresh(newFlags)
      ensures newList[..] == list && newFlags[..] == Child(proc).flags
    {
      var len := numStreams;
      newList := new Stream?[len];
      newFlags := new SlotFlags[len];
      ghost var flags := Child(proc).flags;
      var i := 0;
      while i < len
        invariant i <= len == |list|
        invariant newList[..i] == list[..i]
        invariant newFlags[..i] == flags[..i]
        modifies newList, newFlags
      {
        if streamList[i] != null {
          newList[i] := streamList[i];
          newFlags[i] := streamFlags[i];
        } else {
          newList[i] := null;
          newFlags[i] := NO_FLAGS;
        }
        assert newList[..i + 1] == newList[..i] + [newList[i]];
        assert newFlags[..i + 1] == newFlags[..i] + [newFlags[i]];
        i := i + 1;
      }
      assert newList[..] == newList[..i] && newFlags[..] == newFlags[..i];
    }

    /** Take over the parent's current directory and stream list. */
    method InheritList(parent: ProcessState)
      requires Valid() && list == [] && streamList == null && !proc.closing && parent != this
      requires proc == Proc(None, [], [], parent.filePermissions, parent.groupIDs, false)
      requires parent.Valid() && !parent.proc.closing
      modifies this
      ensures Valid() && cwdPtr == parent.cwdPtr && list == parent.list
      ensures proc == Child(parent.proc)
    {
      cwdPtr := parent.cwdPtr;
      proc := Child(parent.proc);
      if parent.numStreams > 0 {
        streamList, streamFlags := parent.OpenCopies();
        numStreams := parent.numStreams;
        list := parent.list;
      }
    }

    /** Fs_InheritState. */
    method InheritState(h: HandleTable) returns (child: ProcessState)
      requires Valid() && !proc.closing && h.Valid() && Live(h)
      modifies h`table, cwdPtr, list
      ensures Valid() && h.Valid() && fresh(child) && child.Valid() && Live(h) && child.Live(h)
      ensures h.handles == old(h.handles) && h.table == Inherit(proc, old(h.table))
      ensures child.proc == Child(proc) && child.list == list && child.cwdPtr == cwdPtr
      ensures child.filePermissions == filePermissions && child.groupIDs == groupIDs
    {
      h.CopyAll(cwdPtr, if streamList == null then [] else streamList[..]);
      child := new ProcessState.Empty(filePermissions, groupIDs);
      child.InheritList(this);
    }
  }

  lemma {:induction false} SlotsFault(t: Table, slots: seq<Slot>, i: nat, closes: nat -> CloseScript)
    requires i <= |slots| && t.fault
    ensures CloseSlots(t, slots, i, closes).fault
    decreases |slots| - i
  {
    if i < |slots| {
      SlotsFault(CloseSlot(t, slots[i], closes(i)), slots, i + 1, closes);
    }
  }

  lemma SlotsNoFault(t: Table, slots: seq<Slot>, i: nat, closes: nat -> CloseScript)
    requires i < |slots| && slots[i] != None && !CloseSlots(t, slots, i, closes).fault
    ensures slots[i].value in t.handles
  {
    if slots[i].value !in t.handles {
      SlotsFault(CloseSlot(t, slots[i], closes(i)), slots, i + 1, closes);
    }
  }

  /** A use after destruction is never forgotten. */
  lemma {:induction false} ExecFault(p: Proc, t: Table, i: nat, closes: nat -> CloseScript)
    requires WellFormed(p) && i <= |p.slots| && t.fault
    ensures CloseOnExec(p, t, i, closes).1.fault
    decreases |p.slots| - i
  {
    if i < |p.slots| {
      if ClosedByExec(p, i) {
        ExecFault(p.(slots := p.slots[i := None]), CloseStream(t, p.slots[i].value, closes(i)), i + 1, closes);
      } else {
        ExecFault(p, t, i + 1, closes);
      }
    }
  }

  const NO_SCRIPT := CloseScript(false, [])

  /** A turn of the loop of Fs_CloseOnExec that closes something. */
  lemma ExecTurn(p: Proc, t: Table, i: nat, closes: nat -> CloseScript)
    requires WellFormed(p) && i < |p.slots| && ClosedByExec(p, i)
    requires !CloseOnExec(p, t, i, closes).1.fault
    ensures p.slots[i].value in t.handles
    ensures CloseOnExec(p, t, i, closes) ==
            CloseOnExec(p.(slots := p.slots[i := None]), CloseStream(t, p.slots[i].value, closes(i)), i + 1, closes)
  {
    if p.slots[i].value !in t.handles {
      ExecFault(p.(slots := p.slots[i := None]), CloseStream(t, p.slots[i].value, closes(i)), i + 1, closes);
    }
  }

  /** Pointers that the table held before, seen in the table after. */
  lemma OldFaithful(before: map<StreamId, Stream>, after: map<StreamId, Stream>, list: seq<Stream?>)
    requires AllNamed(before, list) && Survive(before, after)
    ensures AllFaithful(after, list)
  {
  }

  /** Dropping streams from the table keeps pointers faithful. */
  lemma StillFaithful(before: map<StreamId, Stream>, after: map<StreamId, Stream>, list: seq<Stream?>)
    requires AllFaithful(before, list) && Survive(before, after) && after.Keys <= before.Keys
    ensures AllFaithful(after, list)
  {
  }

  lemma SurviveAcross(before: map<StreamId, Stream>, middle: map<StreamId, Stream>, after: map<StreamId, Stream>)
    requires Survive(before, middle) && Survive(middle, after)
    requires before.Keys <= middle.Keys || after.Keys <= middle.Keys
    ensures Survive(before, after)
  {
  }

  /** When no stream was destroyed, every pointer the table held is one it still holds. */
  lemma NamedStays(before: map<StreamId, Stream>, after: map<StreamId, Stream>, list: seq<Stream?>)
    requires AllNamed(before, list) && Survive(before, after) && before.Keys <= after.Keys
    ensures AllNamed(after, list)
  {
  }

  lemma CountedIsKept(t: Table, held: Held, id: StreamId)
    requires Holds(t, held) && held(id) > 0
    ensures id in t.handles
  {
    assert RefCount(t, id) == held(id) + t.leaked[id];
  }
}
