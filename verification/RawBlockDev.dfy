/** DevRawBlockDevRead and DevRawBlockDevWrite: a large transfer is broken into pieces that the block
    device can take. */
module RawBlockDev {
  import opened Common
  import opened RawBlockSpec
  import StreamIOSpec

  /** A stream's parameter block, whose length the transfer counts down. */
  class IoParam {
    const offset: nat
    var length: nat

    constructor (offset: nat, length: nat)
      ensures this.offset == offset && this.length == length
    {
      this.offset, this.length := offset, length;
    }
  }

  /** What is left of a transfer after k replies, `amount` bytes and the pieces so far. */
  function Rest(offset: nat, amount: nat, length: nat, max: nat, status: ReturnStatus, replies: seq<Reply>, k: nat,
                pieces: seq<Piece>): Option<End>
    requires max > 0 && k <= |replies|
  {
    var e := Transfer(offset + amount, length, max, status, replies[k..]);
    if e == None then None
    else Some(End(e.value.status, amount + e.value.moved,
                  if e.value.early then e.value.reported else amount + e.value.reported,
                  pieces + e.value.pieces, e.value.early))
  }

  lemma RestStep(offset: nat, amount: nat, length: nat, max: nat, status: ReturnStatus, replies: seq<Reply>, k: nat,
                 pieces: seq<Piece>, next: nat, left: nat)
    requires max > 0 && k < |replies| && length > 0
    requires next == amount + Min(replies[k].ready, Min(length, max)) && left == amount + length - next
    ensures var size := Min(length, max);
            var more := pieces + [Piece(offset + amount, size)];
            Rest(offset, amount, length, max, status, replies, k, pieces) ==
            if replies[k].error != SUCCESS || next != amount + size then
              Some(End(replies[k].error, next, next - amount, more, true))
            else Rest(offset, next, left, max, SUCCESS, replies, k + 1, more)
  {
    var size, rs := Min(length, max), replies[k..];
    assert rs[0] == replies[k] && rs[1..] == replies[k + 1..];
    if replies[k].error == SUCCESS && next == amount + size {
      assert offset + amount + size == offset + next && length - size == left;
      var rest := Transfer(offset + next, left, max, SUCCESS, replies[k + 1..]);
      if rest.Some? {
        Associate(pieces, [Piece(offset + amount, size)], rest.value.pieces);
      }
    }
  }

  lemma RestAtStart(offset: nat, length: nat, max: nat, status: ReturnStatus, replies: seq<Reply>)
    requires max > 0
    ensures Rest(offset, 0, length, max, status, replies, 0, []) == Transfer(offset, length, max, status, replies)
  {
    assert replies[0..] == replies;
    var e := Transfer(offset, length, max, status, replies);
    if e.Some? {
      assert [] + e.value.pieces == e.value.pieces;
    }
  }

  class RawBlockDevice {
    const minTransferUnit: nat
    const maxTransferSize: nat
    /** What a read finds, and what writes have made of the device. */
    const source: int -> byte
    var target: map<int, byte>

    ghost predicate Valid() {
      minTransferUnit > 0 && maxTransferSize > 0
    }

    constructor (minTransferUnit: nat, maxTransferSize: nat, source: int -> byte, target: map<int, byte>)
      requires minTransferUnit > 0 && maxTransferSize > 0
      ensures Valid()
    {
      this.minTransferUnit, this.maxTransferSize, this.source, this.target :=
        minTransferUnit, maxTransferSize, source, target;
    }

    /** Dev_BlockDeviceIOSync of a read: m bytes from startAddress go to where the piece lies. */
    method IOSyncRead(startAddress: nat, buffer: array<byte>, at: nat, m: nat)
      requires at + m <= buffer.Length
      modifies buffer
      ensures buffer[..] == old(buffer[..at]) + StreamIOSpec.Bytes(source, startAddress, m) + old(buffer[at + m..])
    {
      ghost var was := buffer[..];
      for i := 0 to m
        invariant buffer[..] == was[..at] + StreamIOSpec.Bytes(source, startAddress, i) + was[at + i..]
      {
        StreamIOSpec.OneByteMore(buffer[..], was, source, startAddress, at, i);
        buffer[at + i] := source(startAddress + i);
      }
    }

    /** The first n bytes of the buffer are the device's; the rest is as it was. */
    ghost predicate Holds(b: seq<byte>, was: seq<byte>, offset: int, n: nat) {
      n <= |was| == |b| && b == StreamIOSpec.Bytes(source, offset, n) + was[n..]
    }

    /** One piece of a read. */
    method ReadPiece(p: IoParam, buffer: array<byte>, amountRead: nat, ready: nat, ghost was: seq<byte>)
      returns (toRead: nat, length: nat, next: nat)
      requires Valid() && Holds(buffer[..], was, p.offset, amountRead) && amountRead + p.length <= buffer.Length
      modifies p, buffer
      ensures toRead == Min(old(p.length), maxTransferSize) && length == Min(ready, toRead)
      ensures next == amountRead + length && p.length == old(p.length) - length
      ensures Holds(buffer[..], was, p.offset, next)
    {
      toRead := if p.length > maxTransferSize then maxTransferSize else p.length;
      length := Min(ready, toRead);
      IOSyncRead(p.offset + amountRead, buffer, amountRead, length);
      StreamIOSpec.BytesBoth(source, p.offset, amountRead, length);
      next := amountRead + length;
      p.length := p.length - length;
    }

    /** DevRawBlockDevRead. The buffer's front holds exactly the bytes moved, and what was moved plus
        the length left is the length asked for. A read of nothing fails. */
    method Read(p: IoParam, buffer: array<byte>, replies: seq<Reply>)
      returns (error: ReturnStatus, length: nat, finished: bool, ghost moved: nat, ghost pieces: seq<Piece>)
      requires Valid() && p.length <= buffer.Length
      modifies p, buffer
      ensures p.offset % minTransferUnit != 0 || old(p.length) % minTransferUnit != 0 ==>
                finished && error == DEV_INVALID_ARG && length == 0 && moved == 0 && pieces == []
      ensures p.offset % minTransferUnit == 0 && old(p.length) % minTransferUnit == 0 ==>
                var e := Transfer(p.offset, old(p.length), maxTransferSize, FAILURE, replies);
                finished == e.Some? && (finished ==> e.value == End(error, moved, length, pieces, e.value.early))
      ensures moved + p.length == old(p.length)
      ensures Holds(buffer[..], old(buffer[..]), p.offset, moved)
    {
      moved, pieces, finished := 0, [], true;
      if p.offset % minTransferUnit != 0 || p.length % minTransferUnit != 0 {
        return DEV_INVALID_ARG, 0, true, 0, [];
      }
      ghost var was := buffer[..];
      ghost var full := Transfer(p.offset, p.length, maxTransferSize, FAILURE, replies);
      var amountRead := 0;
      error, length := FAILURE, 0;
      var k := 0;
      RestAtStart(p.offset, p.length, maxTransferSize, error, replies);
      while p.length > 0
        invariant k <= |replies| && moved == amountRead && amountRead + p.length == old(p.length)
        invariant full == Rest(p.offset, amountRead, p.length, maxTransferSize, error, replies, k, pieces)
        invariant Holds(buffer[..], was, p.offset, amountRead)
        decreases p.length
      {
        if k == |replies| {
          finished := false;
          return;
        }
        ghost var before := p.length;
        var toRead, next;
        toRead, length, next := ReadPiece(p, buffer, amountRead, replies[k].ready, was);
        RestStep(p.offset, amountRead, before, maxTransferSize, error, replies, k, pieces, next, p.length);
        pieces := pieces + [Piece(p.offset + amountRead, toRead)];
        error := replies[k].error;
        k := k + 1;
        amountRead := next;
        moved := next;
        if error != SUCCESS || length != toRead {
          return;
        }
      }
      length := amountRead;
    }

    /** Dev_BlockDeviceIOSync of a write. */
    method IOSyncWrite(startAddress: nat, bytes: seq<byte>)
      modifies this`target
      ensures target == StreamIOSpec.Overlay(old(target), startAddress, bytes)
    {
      for i := 0 to |bytes|
        invariant target == StreamIOSpec.Overlay(old(target), startAddress, bytes[..i])
      {
        target := target[startAddress + i := bytes[i]];
        assert bytes[..i + 1][..i] == bytes[..i];
      }
      assert bytes[..|bytes|] == bytes;
    }

    /** One piece of a write. */
    method WritePiece(p: IoParam, buffer: seq<byte>, amountWritten: nat, ready: nat, ghost was: map<int, byte>)
      returns (toWrite: nat, length: nat, next: nat)
      requires Valid() && amountWritten + p.length <= |buffer|
      requires target == StreamIOSpec.Overlay(was, p.offset, buffer[..amountWritten])
      modifies p, this`target
      ensures toWrite == Min(old(p.length), maxTransferSize) && length == Min(ready, toWrite)
      ensures next == amountWritten + length && p.length == old(p.length) - length
      ensures target == StreamIOSpec.Overlay(was, p.offset, buffer[..next])
    {
      toWrite := if p.length > maxTransferSize then maxTransferSize else p.length;
      length := Min(ready, toWrite);
      var bytes := buffer[amountWritten..amountWritten + length];
      StreamIOSpec.OverlayBoth(was, p.offset, buffer[..amountWritten], bytes);
      assert buffer[..amountWritten] + bytes == buffer[..amountWritten + length];
      IOSyncWrite(p.offset + amountWritten, bytes);
      next := amountWritten + length;
      p.length := p.length - length;
    }

    /** DevRawBlockDevWrite. The device is laid over once, with exactly the bytes moved. A write of
        nothing succeeds. */
    method Write(p: IoParam, buffer: seq<byte>, replies: seq<Reply>)
      returns (error: ReturnStatus, length: nat, finished: bool, ghost moved: nat, ghost pieces: seq<Piece>)
      requires Valid() && p.length <= |buffer|
      modifies p, this`target
      ensures p.offset % minTransferUnit != 0 || old(p.length) % minTransferUnit != 0 ==>
                finished && error == DEV_INVALID_ARG && length == 0 && moved == 0 && pieces == []
      ensures p.offset % minTransferUnit == 0 && old(p.length) % minTransferUnit == 0 ==>
                var e := Transfer(p.offset, old(p.length), maxTransferSize, SUCCESS, replies);
                finished == e.Some? && (finished ==> e.value == End(error, moved, length, pieces, e.value.early))
      ensures moved + p.length == old(p.length)
      ensures target == StreamIOSpec.Overlay(old(target), p.offset, buffer[..moved])
    {
      moved, pieces, finished := 0, [], true;
      if p.offset % minTransferUnit != 0 || p.length % minTransferUnit != 0 {
        return DEV_INVALID_ARG, 0, true, 0, [];
      }
      ghost var was := target;
      ghost var full := Transfer(p.offset, p.length, maxTransferSize, SUCCESS, replies);
      var amountWritten := 0;
      error, length := SUCCESS, 0;
      var k := 0;
      RestAtStart(p.offset, p.length, maxTransferSize, error, replies);
      while p.length > 0
        invariant k <= |replies| && moved == amountWritten && amountWritten + p.length == old(p.length)
        invariant full == Rest(p.offset, amountWritten, p.length, maxTransferSize, error, replies, k, pieces)
        invariant target == StreamIOSpec.Overlay(was, p.offset, buffer[..amountWritten])
        decreases p.length
      {
        if k == |replies| {
          finished := false;
          return;
        }
        ghost var before := p.length;
        var toWrite, next;
        toWrite, length, next := WritePiece(p, buffer, amountWritten, replies[k].ready, was);
        RestStep(p.offset, amountWritten, before, maxTransferSize, error, replies, k, pieces, next, p.length);
        pieces := pieces + [Piece(p.offset + amountWritten, toWrite)];
        error := replies[k].error;
        k := k + 1;
        amountWritten := next;
        moved := next;
        if error != SUCCESS || length != toWrite {
          return;
        }
      }
      length := amountWritten;
    }
  }
}
