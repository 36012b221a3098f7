/** What a raw transfer comes to, for every sequence of replies of the block device. */
module RawBlockSpec {
  import opened Common
  import opened ScsiDisk

  /** A reply of Dev_BlockDeviceIOSync: a status and how many bytes it is ready to move. */
  datatype Reply = Reply(error: ReturnStatus, ready: nat)

  datatype Piece = Piece(address: nat, length: nat)

  /** How a transfer ends: its status, what it moved, the length it reports, the pieces it asked for,
      and whether it stopped early. */
  datatype End = End(status: ReturnStatus, moved: nat, reported: nat, pieces: seq<Piece>, early: bool)

  /** The transfer of `length` bytes from `address` on in pieces of at most max bytes. */
  function Transfer(address: nat, length: nat, max: nat, status: ReturnStatus, replies: seq<Reply>): Option<End>
    requires max > 0
    decreases |replies|
  {
    if length == 0 then Some(End(status, 0, 0, [], false))
    else if replies == [] then None
    else
      var size := Min(length, max);
      var m := Min(replies[0].ready, size);
      var piece := Piece(address, size);
      if replies[0].error != SUCCESS || m != size then Some(End(replies[0].error, m, m, [piece], true)) else
      var rest := Transfer(address + m, length - m, max, SUCCESS, replies[1..]);
      if rest == None then None
      else
        var e := rest.value;
        Some(End(e.status, m + e.moved, if e.early then e.reported else m + e.reported, [piece] + e.pieces, e.early))
  }

  /** The pieces lie end to end from `address` on; all but the last are max bytes long. */
  predicate Tile(pieces: seq<Piece>, address: nat, length: nat, max: nat)
    decreases |pieces|
  {
    pieces != [] ==>
      && pieces[0] == Piece(address, Min(length, max)) && length > 0
      && Tile(pieces[1..], address + Min(length, max), length - Min(length, max), max)
  }

  /** Every transfer is tiled, and moves the pieces' bytes up to where it stops: all of them when it
      does not stop early. */
  lemma {:induction false} TransferTiles(address: nat, length: nat, max: nat, status: ReturnStatus, replies: seq<Reply>)
    requires max > 0 && Transfer(address, length, max, status, replies).Some?
    ensures var e := Transfer(address, length, max, status, replies).value;
            && Tile(e.pieces, address, length, max)
            && e.moved <= length && (!e.early ==> e.moved == length)
            && (!e.early ==> e.status == if length == 0 then status else SUCCESS)
    decreases |replies|
  {
    if length > 0 {
      var m := Min(replies[0].ready, Min(length, max));
      if replies[0].error == SUCCESS && m == Min(length, max) {
        assert m > 0;
        TransferTiles(address + m, length - m, max, SUCCESS, replies[1..]);
        var rest := Transfer(address + m, length - m, max, SUCCESS, replies[1..]).value;
        assert ([Piece(address, m)] + rest.pieces)[1..] == rest.pieces;
      }
    }
  }

  /** The device moves less than the k-th piece of a transfer, or reports an error for it. */
  predicate StopsAt(length: nat, max: nat, replies: seq<Reply>, k: nat) {
    && k < |replies| && k * max < length
    && (replies[k].error != SUCCESS || replies[k].ready < Min(length - k * max, max))
  }

  /** A reply after the first is about the transfer that the first leaves to do. */
  lemma StopsLater(length: nat, max: nat, replies: seq<Reply>, k: nat)
    requires replies != [] && max > 0 && k > 0
    ensures StopsAt(length, max, replies, k) <==>
            max < length && StopsAt(length - max, max, replies[1..], k - 1)
  {
    assert k * max == (k - 1) * max + max;
    assert (k - 1) * max >= 0;
  }

  /** A transfer that reply k is the first to stop ends with that reply's status: it has moved k whole
      pieces and as much of the next as the device was ready for, and reports only the latter. */
  lemma {:induction false} StopsWith(address: nat, length: nat, max: nat, status: ReturnStatus,
                                     replies: seq<Reply>, k: nat)
    requires max > 0 && StopsAt(length, max, replies, k) && forall j: nat :: j < k ==> !StopsAt(length, max, replies, j)
    ensures var e := Transfer(address, length, max, status, replies);
            var last := Min(replies[k].ready, Min(length - k * max, max));
            && e.Some? && e.value.early && e.value.status == replies[k].error && |e.value.pieces| == k + 1
            && e.value.moved == k * max + last && e.value.reported == last
    decreases k
  {
    if k > 0 {
      StopsLater(length, max, replies, k);
      var left, later := length - max, replies[1..];
      forall j: nat | j < k - 1
        ensures !StopsAt(left, max, later, j)
      {
        StopsLater(length, max, replies, j + 1);
      }
      assert !StopsAt(length, max, replies, 0);
      StopsWith(address + max, left, max, SUCCESS, later, k - 1);
      assert (k - 1) * max + max == k * max;
    }
  }

  /** A transfer stops early exactly when some reply stops it, and then reports what it moved only if
      the first reply does. */
  lemma {:induction false} EarlyIsStopped(address: nat, length: nat, max: nat, status: ReturnStatus,
          replies: seq<Reply>)
    requires max > 0 && Transfer(address, length, max, status, replies).Some?
    ensures var e := Transfer(address, length, max, status, replies).value;
            && (e.early <==> exists k: nat :: StopsAt(length, max, replies, k))
            && e.reported <= e.moved
            && (e.reported == e.moved <==> e.early ==> StopsAt(length, max, replies, 0))
    decreases |replies|
  {
    if length > 0 && !StopsAt(length, max, replies, 0) {
      var size := Min(length, max);
      var left, later := length - size, replies[1..];
      EarlyIsStopped(address + size, left, max, SUCCESS, later);
      forall k: nat | k > 0
        ensures StopsAt(length, max, replies, k) <==> max < length && StopsAt(length - max, max, later, k - 1)
      {
        StopsLater(length, max, replies, k);
      }
      if k: nat :| StopsAt(left, max, later, k) {
        StopsLater(length, max, replies, k + 1);
      }
    }
  }

  /** A transfer reports what it moved exactly when no reply stops it, or the first one does. */
  lemma ReportedIsMoved(address: nat, length: nat, max: nat, status: ReturnStatus, replies: seq<Reply>)
    requires max > 0 && Transfer(address, length, max, status, replies).Some?
    ensures var e := Transfer(address, length, max, status, replies).value;
            && e.reported <= e.moved
            && (e.reported == e.moved <==>
                StopsAt(length, max, replies, 0) || forall k: nat :: !StopsAt(length, max, replies, k))
  {
    EarlyIsStopped(address, length, max, status, replies);
  }

  /** A second piece that fails: 1024 bytes have moved, and 512 are reported. */
  lemma SecondPieceFails()
    ensures var e := Transfer(0, 1536, 512, FAILURE, [Reply(SUCCESS, 512), Reply(DEV_INVALID_ARG, 512)]);
            e.Some? && e.value.moved == 1024 && e.value.reported == 512
  {
    var replies := [Reply(SUCCESS, 512), Reply(DEV_INVALID_ARG, 512)];
    assert replies[1..] == [Reply(DEV_INVALID_ARG, 512)];
    assert Transfer(512, 1024, 512, SUCCESS, replies[1..]).Some?;
  }

  /** Pieces of a transfer in whole sectors are whole sectors, and none is empty. */
  lemma {:induction false} PiecesAreSectors(pieces: seq<Piece>, address: nat, length: nat, max: nat, i: nat)
    requires Tile(pieces, address, length, max) && i < |pieces| && max > 0
    requires address % 512 == 0 && length % 512 == 0 && max % 512 == 0
    ensures pieces[i].address % 512 == 0 && pieces[i].length % 512 == 0 && 512 <= pieces[i].length <= max
    ensures address <= pieces[i].address && pieces[i].address + pieces[i].length <= address + length
    decreases |pieces|
  {
    if i > 0 {
      PiecesAreSectors(pieces[1..], address + Min(length, max), length - Min(length, max), max, i - 1);
    }
  }

  /** So every piece that starts in the partition and can be sent reaches the disk as a command for
      exactly its sectors, clipped to the partition and moved to where the partition lies. */
  lemma PieceIsTold(pieces: seq<Piece>, address: nat, length: nat, max: nat, i: nat, p: Partition, op: Operation)
    requires Tile(pieces, address, length, max) && i < |pieces| && max > 0
    requires address % 512 == 0 && length % 512 == 0 && max % 512 == 0 && address + length < WORD
    requires PartitionOk(p) && pieces[i].address / 512 < p.sizeInSectors
    ensures var first, count := pieces[i].address / 512, pieces[i].length / 512;
            && Told(p, op, first, count) == Meaning(op, p.lun, p.firstSector + first, Clipped(p, first, count))
            && Inside(p, Told(p, op, first, count))
            && 512 * first == pieces[i].address && 512 * count == pieces[i].length
  {
    PiecesAreSectors(pieces, address, length, max, i);
    ToldIsAsked(p, op, pieces[i].address / 512, pieces[i].length / 512);
  }
}
