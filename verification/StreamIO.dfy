/** Fs_Read, Fs_Write, Fs_NewWriteStub and Fs_WritevStub: the loops that turn a stream routine's
    partial replies into one transfer. */
module StreamIO {
  import opened Common
  import opened StreamIOSpec

  /** How a read ends that has had k replies, has counted `done` bytes, has its block `at` bytes into
      the buffer, and has filled the buffer as far as `front`. */
  function ReadRest(kind: Kind, replies: seq<Reply>, k: nat, toRead: nat, done: nat, at: nat, front: nat)
    : Option<ReadResult>
    requires k <= |replies|
  {
    var e := ReadEnd(kind, replies[k..], toRead);
    if e == None then None
    else Some(ReadResult(e.value.status, done + e.value.reported, Max(front, at + e.value.front)))
  }

  lemma ReadStep(kind: Kind, replies: seq<Reply>, k: nat, toRead: nat, done: nat, at: nat, front: nat,
                 done': nat, at': nat, front': nat)
    requires k < |replies| && at' == at + toRead - StillToRead(replies[k], toRead)
    requires done' == done + ReadMoves(replies[k], toRead) && front' == Max(front, at + ReadMoves(replies[k], toRead))
    ensures var stop := ReadStops(kind, replies[k], ReadMoves(replies[k], toRead));
            ReadRest(kind, replies, k, toRead, done, at, front) ==
            if stop.Some? then Some(ReadResult(stop.value, done', front'))
            else ReadRest(kind, replies, k + 1, StillToRead(replies[k], toRead), done', at', front')
  {
    assert replies[k..][1..] == replies[k + 1..];
  }

  /** What is left of a write after k replies and `written` bytes. */
  function WriteRest(kind: Kind, replies: seq<Reply>, k: nat, toWrite: nat, written: nat): Option<End>
    requires k <= |replies|
  {
    WriteEnd(kind, replies[k..], toWrite, written)
  }

  lemma WriteStep(kind: Kind, replies: seq<Reply>, k: nat, toWrite: nat, written: nat)
    requires k < |replies|
    ensures var m := WriteMoves(replies[k], toWrite);
            var stop := WriteStops(kind, replies[k], written + m);
            WriteRest(kind, replies, k, toWrite, written) ==
            if stop.Some? then Some(End(stop.value, written + m))
            else WriteRest(kind, replies, k + 1, toWrite - m, written + m)
  {
    assert replies[k..][1..] == replies[k + 1..];
  }

  class IoParam {
    var io: Io

    constructor (at: int, offset: int, length: int)
      ensures io == Io(at, offset, length)
    {
      io := Io(at, offset, length);
    }
  }

  class Stream {
    const readable: bool
    const writable: bool
    const kind: Kind
    var offset: int
    /** What writes go to. */
    var target: map<int, byte>
    /** What reads come from. */
    const source: int -> byte

    constructor (readable: bool, writable: bool, kind: Kind, offset: int, target: map<int, byte>, source: int -> byte) {
      this.readable, this.writable, this.kind, this.offset := readable, writable, kind, offset;
      this.target, this.source := target, source;
    }

    /** The stream's read routine: move m bytes and leave something in the length. */
    method ReadOp(p: IoParam, buffer: array<byte>, m: nat, left: Io)
      requires 0 <= p.io.at && p.io.at + m <= buffer.Length
      modifies p, buffer
      ensures p.io == old(p.io).(length := left.length)
      ensures buffer[..] == old(buffer[..p.io.at]) + Bytes(source, old(p.io.offset), m) + old(buffer[p.io.at + m..])
    {
      var at, start := p.io.at, p.io.offset;
      ghost var was := buffer[..];
      for i := 0 to m
        invariant p.io == old(p.io)
        invariant buffer[..] == was[..at] + Bytes(source, start, i) + was[at + i..]
      {
        OneByteMore(buffer[..], was, source, start, at, i);
        buffer[at + i] := source(start + i);
      }
      p.io := p.io.(length := left.length);
    }

    /** The stream's write routine: move m bytes and leave anything in the parameter block. */
    method WriteOp(p: IoParam, buffer: seq<byte>, m: nat, left: Io)
      requires 0 <= p.io.at && p.io.at + m <= |buffer|
      modifies p, this`target
      ensures p.io == left
      ensures target == Overlay(old(target), old(p.io.offset), buffer[old(p.io.at)..old(p.io.at) + m])
    {
      var at, start := p.io.at, p.io.offset;
      for i := 0 to m
        invariant target == Overlay(old(target), start, buffer[at..at + i]) && p.io == old(p.io)
      {
        target := target[start + i := buffer[at + i]];
        assert buffer[at..at + i + 1][..i] == buffer[at..at + i];
      }
      p.io := left;
    }

    /** Fs_Read of `length` bytes at `start`. However the replies go, the first `front` bytes of the
        buffer are the stream's, the rest is as it was, and the stream's offset moves by the number
        of bytes reported. */
    method Read(buffer: array<byte>, start: int, length: int, valid: bool, shuttingDown: bool, replies: seq<Reply>)
      returns (status: ReturnStatus, amount: nat, finished: bool, ghost front: nat)
      requires length <= buffer.Length
      modifies this`offset, buffer
      ensures Refuses(readable, valid, shuttingDown, start, length).Some? ==>
                && finished && status == Refuses(readable, valid, shuttingDown, start, length).value
                && amount == 0 && front == 0
      ensures Refuses(readable, valid, shuttingDown, start, length) == None ==>
                var e := ReadEnd(kind, replies, length);
                && finished == e.Some? && front <= length
                && (finished ==> e.value == ReadResult(status, amount, front))
      ensures Holds(buffer[..], old(buffer[..]), start, front)
      ensures offset == old(offset) + if finished then amount else 0
    {
      status, amount, finished, front := SUCCESS, 0, true, 0;
      var refusal := Refuses(readable, valid, shuttingDown, start, length);
      if refusal != None {
        return refusal.value, 0, true, 0;
      }
      assert replies[0..] == replies;
      status, amount, finished, front := ReadLoop(buffer, start, length, replies);
      if finished {
        offset := offset + amount;
      }
    }

    /** The first n bytes of the buffer are the source's; the rest is as it was. */
    ghost predicate Holds(b: seq<byte>, was: seq<byte>, start: int, n: nat) {
      n <= |was| == |b| && b == Bytes(source, start, n) + was[n..]
    }

    /** Bytes of the source that are put where they belong, over some of it, behind it, or both. */
    lemma HoldsMore(b: seq<byte>, b': seq<byte>, was: seq<byte>, start: int, front: nat, at: nat, m: nat)
      requires Holds(b, was, start, front) && at <= front && at + m <= |b|
      requires b' == b[..at] + Bytes(source, start + at, m) + b[at + m..]
      ensures Holds(b', was, start, Max(front, at + m))
    {
      var n := Max(front, at + m);
      var wanted := Bytes(source, start, n) + was[n..];
      forall i | 0 <= i < |b'|
        ensures b'[i] == wanted[i]
      {
      }
    }

    /** One call of the read routine, at or before the end of the bytes already read. */
    method ReadMore(p: IoParam, buffer: array<byte>, m: nat, left: Io, ghost was: seq<byte>, ghost start: int,
                    ghost front: nat)
      requires 0 <= p.io.at <= front && p.io.offset == start + p.io.at && p.io.at + m <= buffer.Length
      requires Holds(buffer[..], was, start, front)
      modifies p, buffer
      ensures p.io == old(p.io).(length := left.length)
      ensures Holds(buffer[..], was, start, Max(front, old(p.io.at) + m))
    {
      ghost var before := buffer[..];
      ReadOp(p, buffer, m, left);
      HoldsMore(before, buffer[..], was, start, front, p.io.at, m);
    }

    /** One turn of the loop of Fs_Read: call the routine, and decide whether to go on. */
    method ReadTurn(p: IoParam, buffer: array<byte>, reply: Reply, toRead: nat, ghost was: seq<byte>, ghost start: int,
                    ghost front: nat, ghost front': nat, ghost at': nat)
      returns (status: ReturnStatus, replyLength: nat, stop: bool, toRead': nat)
      requires 0 <= p.io.at <= front && p.io == Io(p.io.at, start + p.io.at, toRead)
      requires p.io.at + toRead <= buffer.Length
      requires Holds(buffer[..], was, start, front) && front' == Max(front, p.io.at + ReadMoves(reply, toRead))
      requires at' == p.io.at + toRead - StillToRead(reply, toRead)
      modifies p, buffer
      ensures replyLength == ReadMoves(reply, toRead) && Holds(buffer[..], was, start, front')
      ensures ReadStops(kind, reply, replyLength) == if stop then Some(status) else None
      ensures !stop ==> toRead' == StillToRead(reply, toRead) && p.io == Io(at', start + at', toRead')
    {
      toRead' := toRead;
      replyLength := ReadMoves(reply, toRead);
      ReadMore(p, buffer, replyLength, reply.left, was, start, front);
      status := reply.status;
      if status == SUCCESS {
        return status, replyLength, true, toRead';
      } else if status == FS_WOULD_BLOCK && kind.blocking {
        if replyLength > 0 && !kind.isFile {
          return SUCCESS, replyLength, true, toRead';
        }
        if replyLength > 0 {
          toRead' := toRead - replyLength;
          p.io := Io(p.io.at + replyLength, p.io.offset + replyLength, toRead');
        }
        if reply.interrupted {
          return GEN_ABORTED_BY_SIGNAL, replyLength, true, toRead';
        }
      } else if Recoverable(status) {
        status := reply.recovery;
        if status != SUCCESS {
          return status, replyLength, true, toRead';
        }
      } else {
        if status == FS_WOULD_BLOCK && replyLength > 0 {
          status := SUCCESS;
        }
        return status, replyLength, true, toRead';
      }
      p.io := p.io.(length := toRead');
      stop := false;
    }

    /** The loop of Fs_Read. */
    method ReadLoop(buffer: array<byte>, start: int, length: nat, replies: seq<Reply>)
      returns (status: ReturnStatus, amtRead: nat, finished: bool, ghost front: nat)
      requires 0 < length <= buffer.Length
      modifies buffer
      ensures var e := ReadRest(kind, replies, 0, length, 0, 0, 0);
              finished == e.Some? && (finished ==> e.value == ReadResult(status, amtRead, front))
      ensures front <= length && Holds(buffer[..], old(buffer[..]), start, front)
    {
      var p := new IoParam(0, start, length);
      var toRead: nat := length;
      var replyLength: nat := 0;
      status, amtRead, front := SUCCESS, 0, 0;
      ghost var at: nat := 0;
      ghost var was := buffer[..];
      ghost var full := ReadRest(kind, replies, 0, length, 0, 0, 0);
      var k := 0;
      while true
        invariant k <= |replies| && toRead + at == length && at <= front <= length
        invariant p.io == Io(at, start + at, toRead) && fresh(p)
        invariant full == ReadRest(kind, replies, k, toRead, amtRead, at, front)
        invariant Holds(buffer[..], was, start, front)
        modifies p, buffer
        decreases |replies| - k
      {
        if k == |replies| {
          return status, amtRead, false, front;
        }
        var stop;
        ghost var next := amtRead + ReadMoves(replies[k], toRead);
        ghost var front' := Max(front, at + ReadMoves(replies[k], toRead));
        ghost var at' := at + toRead - StillToRead(replies[k], toRead);
        ReadStep(kind, replies, k, toRead, amtRead, at, front, next, at', front');
        status, replyLength, stop, toRead := ReadTurn(p, buffer, replies[k], toRead, was, start, front, front', at');
        front := front';
        at := at';
        if stop {
          break;
        }
        k := k + 1;
        amtRead := amtRead + replyLength;
        assert amtRead == next;
      }
      amtRead := amtRead + replyLength;
      return status, amtRead, true, front;
    }

    /** Fs_Write of `length` bytes at `start`: the target is laid over, once, with exactly the bytes
        reported. */
    method Write(buffer: seq<byte>, start: int, length: int, valid: bool, shuttingDown: bool, replies: seq<Reply>)
      returns (status: ReturnStatus, amount: nat, finished: bool)
      requires length <= |buffer|
      modifies this`offset, this`target
      ensures Refuses(writable, valid, shuttingDown, start, length).Some? ==>
                && finished && status == Refuses(writable, valid, shuttingDown, start, length).value && amount == 0
      ensures Refuses(writable, valid, shuttingDown, start, length) == None ==>
                var e := WriteEnd(kind, replies, length, 0);
                finished == e.Some? && (e.Some? ==> status == e.value.status && amount == e.value.moved <= length)
      ensures amount <= |buffer| && target == Overlay(old(target), start, buffer[..amount])
      ensures offset == old(offset) + if finished then amount else 0
    {
      status, amount, finished := SUCCESS, 0, true;
      var refusal := Refuses(writable, valid, shuttingDown, start, length);
      if refusal != None {
        return refusal.value, 0, true;
      }
      assert replies[0..] == replies;
      status, amount, finished := WriteLoop(buffer, start, length, replies);
      if finished {
        offset := offset + amount;
      }
    }

    /** One call of the write routine, behind the bytes already written. */
    method WriteMore(p: IoParam, buffer: seq<byte>, m: nat, left: Io, ghost was: map<int, byte>, ghost start: int)
      requires 0 <= p.io.at && p.io.offset == start + p.io.at && p.io.at + m <= |buffer|
      requires target == Overlay(was, start, buffer[..p.io.at])
      modifies p, this`target
      ensures target == Overlay(was, start, buffer[..old(p.io.at) + m])
    {
      ghost var at := p.io.at;
      OverlayBoth(was, start, buffer[..at], buffer[at..at + m]);
      assert buffer[..at] + buffer[at..at + m] == buffer[..at + m];
      WriteOp(p, buffer, m, left);
    }

    /** The loop of Fs_Write. */
    method WriteLoop(buffer: seq<byte>, start: int, length: nat, replies: seq<Reply>)
      returns (status: ReturnStatus, amountWritten: nat, finished: bool)
      requires 0 < length <= |buffer|
      modifies this`target
      ensures var e := WriteRest(kind, replies, 0, length, 0);
              finished == e.Some? && (e.Some? ==> status == e.value.status && amountWritten == e.value.moved)
      ensures amountWritten <= length && target == Overlay(old(target), start, buffer[..amountWritten])
    {
      var p := new IoParam(0, start, length);
      var toWrite: nat := length;
      status, amountWritten := SUCCESS, 0;
      ghost var was := target;
      var k := 0;
      while true
        invariant k <= |replies| && toWrite + amountWritten == length
        invariant p.io == Io(amountWritten, start + amountWritten, toWrite) && fresh(p)
        invariant WriteRest(kind, replies, 0, length, 0) == WriteRest(kind, replies, k, toWrite, amountWritten)
        invariant target == Overlay(was, start, buffer[..amountWritten])
        modifies p, this`target
        decreases |replies| - k
      {
        if k == |replies| {
          return status, amountWritten, false;
        }
        var reply := replies[k];
        var replyLength := WriteMoves(reply, toWrite);
        WriteStep(kind, replies, k, toWrite, amountWritten);
        WriteMore(p, buffer, replyLength, reply.left, was, start);
        k := k + 1;
        toWrite := toWrite - replyLength;
        amountWritten := amountWritten + replyLength;
        p.io := Io(amountWritten, start + amountWritten, toWrite);
        var stop;
        status, stop := AfterWrite(reply, amountWritten);
        if stop {
          break;
        }
      }
      return status, amountWritten, true;
    }

    /** Whether Fs_Write goes on after a reply, having written so much in all. */
    method AfterWrite(reply: Reply, amountWritten: nat) returns (status: ReturnStatus, stop: bool)
      ensures WriteStops(kind, reply, amountWritten) == if stop then Some(status) else None
    {
      status := reply.status;
      if status == FS_WOULD_BLOCK {
        if kind.blocking {
          if reply.interrupted {
            return GEN_ABORTED_BY_SIGNAL, true;
          }
        } else {
          return if amountWritten > 0 then SUCCESS else status, true;
        }
      } else if Recoverable(status) {
        status := reply.recovery;
        if status != SUCCESS {
          return status, true;
        }
      } else {
        return status, true;
      }
      return status, false;
    }

    ghost function SettingWith(found: bool, valid: bool, shuttingDown: bool): Setting
      reads this`offset
    {
      Setting(kind, found, writable, valid, shuttingDown, offset < 0)
    }

    /** Fs_NewWriteStub: write at the stream's own offset. */
    method NewWriteStub(buffer: seq<byte>, found: bool, valid: bool, shuttingDown: bool, replies: seq<Reply>)
      returns (result: int, finished: bool, ghost moved: nat)
      modifies this`offset, this`target
      ensures var p := WritePiece(old(SettingWith(found, valid, shuttingDown)), replies, |buffer|);
              finished == p.Some? && (p.Some? ==> result == p.value.result && moved == p.value.moved)
      ensures moved <= |buffer| && target == Overlay(old(target), old(offset), buffer[..moved])
      ensures finished ==> offset == old(offset) + moved
    {
      result, moved, finished := -1, 0, true;
      if !found {
        return;
      }
      var status, writeLength;
      status, writeLength, finished := Write(buffer, offset, |buffer|, valid, shuttingDown, replies);
      moved := writeLength;
      if !finished {
        return;
      }
      if status == GEN_ABORTED_BY_SIGNAL {
        if writeLength == 0 {
          return -1, true, moved;
        }
      } else if status != SUCCESS {
        return -1, true, moved;
      }
      result := writeLength;
    }

    /** `moved` bytes of `all` have been laid over the target from `start` on; the pieces from i on are
        what is left of it. */
    ghost predicate Laid(was: map<int, byte>, start: int, all: seq<byte>, moved: nat)
      reads this
    {
      && moved <= |all| && offset == start + moved && (start < 0 ==> moved == 0)
      && target == Overlay(was, start, all[..moved])
    }

    ghost predicate Left(all: seq<byte>, moved: nat, pieces: seq<seq<byte>>, i: nat) {
      moved <= |all| && i <= |pieces| && all[moved..] == Concat(pieces[i..])
    }

    /** One piece of a vector write, behind the bytes already written. */
    method WritePart(pieces: seq<seq<byte>>, i: nat, found: bool, valid: bool, shuttingDown: bool, replies: seq<Reply>,
                     ghost was: map<int, byte>, ghost start: int, ghost all: seq<byte>, ghost done: nat)
      returns (result: int, finished: bool, ghost moved: nat, ghost next: nat)
      requires Laid(was, start, all, done) && i < |pieces| && Left(all, done, pieces, i)
      modifies this`offset, this`target
      ensures var p := WritePiece(old(SettingWith(found, valid, shuttingDown)), replies, |pieces[i]|);
              finished == p.Some? && (p.Some? ==> result == p.value.result && moved == p.value.moved)
      ensures next == done + moved && (finished ==> moved <= |pieces[i]| && Laid(was, start, all, next))
      ensures moved == |pieces[i]| ==> Left(all, next, pieces, i + 1)
    {
      result, finished, moved := NewWriteStub(pieces[i], found, valid, shuttingDown, replies);
      next := done + moved;
      OverlayBoth(was, start, all[..done], pieces[i][..moved]);
      PrefixGrows(all, done, pieces, i, moved);
    }

    /** The loop of Fs_WritevStub. */
    method WriteParts(pieces: seq<seq<byte>>, found: bool, valid: bool, shuttingDown: bool, replies: seq<seq<Reply>>)
      returns (totalWritten: nat, failed: bool, finished: bool, ghost moved: nat)
      requires |replies| == |pieces|
      modifies this`offset, this`target
      ensures VectorFrom(old(SettingWith(found, valid, shuttingDown)), replies, pieces, 0, 0) ==
              if finished then Some(Vector(totalWritten, moved, failed)) else None
      ensures finished ==> Laid(old(target), old(offset), Concat(pieces), moved)
    {
      totalWritten, failed, finished, moved := 0, false, true, 0;
      ghost var start, was, all := offset, target, Concat(pieces);
      ghost var t := SettingWith(found, valid, shuttingDown);
      ghost var full := VectorFrom(t, replies, pieces, 0, 0);
      var i := 0;
      assert pieces[0..] == pieces && all[0..] == all;
      while i < |pieces|
        invariant i <= |pieces| && !failed && finished && moved == totalWritten
        invariant Laid(was, start, all, moved) && Left(all, moved, pieces, i)
        invariant full == VectorFrom(t, replies, pieces, i, moved)
      {
        var amountWritten;
        ghost var more, next;
        amountWritten, finished, more, next :=
          WritePart(pieces, i, found, valid, shuttingDown, replies[i], was, start, all, moved);
        VectorStep(t, replies, pieces, i, moved, next);
        if !finished {
          return;
        }
        moved := next;
        if amountWritten == -1 {
          failed := true;
          return;
        }
        totalWritten := totalWritten + amountWritten;
        if amountWritten < |pieces[i]| {
          return;
        }
        assert more == |pieces[i]|;
        i := i + 1;
      }
      VectorDone(t, replies, pieces, moved);
    }

    /** Fs_WritevStub: the pieces are written one behind the other until one fails or falls short.
        The target is laid over once, with a prefix of their concatenation. */
    method Writev(pieces: seq<seq<byte>>, found: bool, valid: bool, shuttingDown: bool, replies: seq<seq<Reply>>)
      returns (result: int, finished: bool)
      requires |replies| == |pieces|
      modifies this`offset, this`target
      ensures |pieces| == 0 || |pieces| > MAX_IOV ==>
                finished && result == -1 && target == old(target) && offset == old(offset)
      ensures 0 < |pieces| <= MAX_IOV ==>
                var v := WriteVector(old(SettingWith(found, valid, shuttingDown)), replies, pieces);
                && finished == v.Some?
                && (finished ==>
                      && result == (if v.value.failed && v.value.total == 0 then -1 else v.value.total)
                      && v.value.moved <= |Concat(pieces)| && offset == old(offset) + v.value.moved
                      && target == Overlay(old(target), old(offset), Concat(pieces)[..v.value.moved]))
    {
      finished := true;
      if |pieces| == 0 || |pieces| > MAX_IOV {
        return -1, true;
      }
      assert replies[0..] == replies && pieces[0..] == pieces;
      var totalWritten, failed;
      ghost var moved;
      totalWritten, failed, finished, moved := WriteParts(pieces, found, valid, shuttingDown, replies);
      if !finished {
        return -1, false;
      }
      if failed && totalWritten == 0 {
        return -1, true;
      }
      return totalWritten, true;
    }
  }

  const MAX_IOV := 16

  /** What is left of a vector write after i whole pieces, `done` bytes. */
  function VectorFrom(t: Setting, replies: seq<seq<Reply>>, pieces: seq<seq<byte>>, i: nat, done: nat): Option<Vector>
    requires i <= |pieces| == |replies|
  {
    var v := WriteVector(t, replies[i..], pieces[i..]);
    if v == None then None else Some(Vector(done + v.value.total, done + v.value.moved, v.value.failed))
  }

  lemma VectorDone(t: Setting, replies: seq<seq<Reply>>, pieces: seq<seq<byte>>, done: nat)
    requires |pieces| == |replies|
    ensures VectorFrom(t, replies, pieces, |pieces|, done) == Some(Vector(done, done, false))
  {
  }

  lemma VectorStep(t: Setting, replies: seq<seq<Reply>>, pieces: seq<seq<byte>>, i: nat, done: nat, next: nat)
    requires i < |pieces| == |replies|
    requires var p := WritePiece(t, replies[i], |pieces[i]|); p.Some? ==> next == done + p.value.moved
    ensures var p := WritePiece(t, replies[i], |pieces[i]|);
            VectorFrom(t, replies, pieces, i, done) ==
            if p == None then None
            else if p.value.result == -1 then Some(Vector(done, next, true))
            else if p.value.moved < |pieces[i]| then Some(Vector(next, next, false))
            else VectorFrom(t, replies, pieces, i + 1, next)
  {
    assert replies[i..][1..] == replies[i + 1..] && pieces[i..][1..] == pieces[i + 1..];
  }

  lemma PrefixGrows(all: seq<byte>, moved: nat, pieces: seq<seq<byte>>, i: nat, more: nat)
    requires i < |pieces| && more <= |pieces[i]| && moved <= |all| && all[moved..] == Concat(pieces[i..])
    ensures moved + more <= |all| && all[..moved] + pieces[i][..more] == all[..moved + more]
    ensures moved + |pieces[i]| <= |all| && all[moved + |pieces[i]|..] == Concat(pieces[i + 1..])
  {
    var rest := all[moved..];
    assert pieces[i..][0] == pieces[i] && pieces[i..][1..] == pieces[i + 1..];
    assert rest == pieces[i] + Concat(pieces[i + 1..]);
    assert all == all[..moved] + pieces[i] + Concat(pieces[i + 1..]);
  }
}
