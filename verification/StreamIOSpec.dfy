/** What a read or a write of a stream comes to, for every finite sequence of replies that the
    stream's own routine gives. */
module StreamIOSpec {
  import opened Common

  /** The parameter block: where in the caller's buffer, where in the stream, and how much. */
  datatype Io = Io(at: int, offset: int, length: int)

  /** One reply of the routine: a status and how many bytes it is ready to move. If the caller then
      waits, a signal may interrupt it, or waiting for recovery may fail. The routine leaves `left`
      in the parameter block. */
  datatype Reply = Reply(status: ReturnStatus, length: nat, interrupted: bool, recovery: ReturnStatus, left: Io)

  /** How a write ends: what it returns and how many bytes it moved. */
  datatype End = End(status: ReturnStatus, moved: nat)

  /** How a read ends: what it returns, how many bytes it reports, and how far it has filled the
      caller's buffer. */
  datatype ReadResult = ReadResult(status: ReturnStatus, reported: nat, front: nat)

  /** A stream: whether an operation on it waits, and whether it is a file. */
  datatype Kind = Kind(blocking: bool, isFile: bool)

  // ------------------------------------------------------------------ reading

  /** The routine moves what it can, whatever status it then reports. */
  function ReadMoves(r: Reply, toRead: nat): (m: nat)
    ensures m <= toRead
  {
    Min(r.length, toRead)
  }

  /** What the next call of the routine is asked for: after a recovery the same again. */
  function StillToRead(r: Reply, toRead: nat): (left: nat)
    ensures left <= toRead
  {
    if Recoverable(r.status) then toRead else toRead - ReadMoves(r, toRead)
  }

  /** How the reply ends the read; None when the read goes on. */
  function ReadStops(kind: Kind, r: Reply, m: nat): Option<ReturnStatus> {
    if r.status == FS_WOULD_BLOCK && kind.blocking then
      if m > 0 && !kind.isFile then Some(SUCCESS)
      else if r.interrupted then Some(GEN_ABORTED_BY_SIGNAL)
      else None
    else if Recoverable(r.status) then
      if r.recovery != SUCCESS then Some(r.recovery) else None
    else if r.status == FS_WOULD_BLOCK && m > 0 then Some(SUCCESS)
    else Some(r.status)
  }

  /** Fs_Read; None when the replies run out with the process still waiting. */
  function ReadEnd(kind: Kind, replies: seq<Reply>, toRead: nat): (e: Option<ReadResult>)
    ensures e.Some? ==> e.value.front <= toRead && e.value.front <= e.value.reported
    decreases |replies|
  {
    if replies == [] then None else
    var m := ReadMoves(replies[0], toRead);
    var stop := ReadStops(kind, replies[0], m);
    if stop.Some? then Some(ReadResult(stop.value, m, m)) else
    var rest := ReadEnd(kind, replies[1..], StillToRead(replies[0], toRead));
    if rest == None then None
    else Some(ReadResult(rest.value.status, m + rest.value.reported,
                         if Recoverable(replies[0].status) then Max(m, rest.value.front) else m + rest.value.front))
  }

  /** What each call of the routine moves, up to the call that ends the read. */
  function Moves(kind: Kind, replies: seq<Reply>, toRead: nat): (ms: seq<nat>)
    ensures |ms| <= |replies| && (replies != [] ==> ms != [])
    decreases |replies|
  {
    if replies == [] then [] else
    var m := ReadMoves(replies[0], toRead);
    if ReadStops(kind, replies[0], m).Some? then [m]
    else [m] + Moves(kind, replies[1..], StillToRead(replies[0], toRead))
  }

  predicate AnyMoves(ms: seq<nat>) {
    exists j :: 0 <= j < |ms| && ms[j] > 0
  }

  /** A reply that is recovered from moves something, and a later one does too. */
  predicate MovesAgain(replies: seq<Reply>, ms: seq<nat>)
    requires |ms| <= |replies|
  {
    exists i, j :: 0 <= i < j < |ms| && Recoverable(replies[i].status) && ms[i] > 0 && ms[j] > 0
  }

  function Total(ms: seq<nat>): nat {
    if ms == [] then 0 else ms[0] + Total(ms[1..])
  }

  lemma {:induction false} TotalMoves(ms: seq<nat>)
    ensures Total(ms) > 0 <==> AnyMoves(ms)
  {
    if ms != [] {
      TotalMoves(ms[1..]);
      if AnyMoves(ms[1..]) {
        var j :| 0 <= j < |ms[1..]| && ms[1..][j] > 0;
        assert ms[j + 1] > 0;
      }
      if AnyMoves(ms) && ms[0] == 0 {
        var j :| 0 <= j < |ms| && ms[j] > 0;
        assert ms[1..][j - 1] > 0;
      }
    }
  }

  lemma MovesAgainStep(replies: seq<Reply>, ms: seq<nat>)
    requires 0 < |ms| <= |replies|
    ensures MovesAgain(replies, ms) <==>
            (Recoverable(replies[0].status) && ms[0] > 0 && AnyMoves(ms[1..])) || MovesAgain(replies[1..], ms[1..])
  {
    var rs, rest := replies[1..], ms[1..];
    if Recoverable(replies[0].status) && ms[0] > 0 && AnyMoves(rest) {
      var j :| 0 <= j < |rest| && rest[j] > 0;
      assert ms[j + 1] > 0;
    }
    if MovesAgain(rs, rest) {
      var i, j :| 0 <= i < j < |rest| && Recoverable(rs[i].status) && rest[i] > 0 && rest[j] > 0;
      assert Recoverable(replies[i + 1].status) && ms[i + 1] > 0 && ms[j + 1] > 0;
    }
    if MovesAgain(replies, ms) {
      var i, j :| 0 <= i < j < |ms| && Recoverable(replies[i].status) && ms[i] > 0 && ms[j] > 0;
      assert rest[j - 1] > 0;
      assert i > 0 ==> Recoverable(rs[i - 1].status) && rest[i - 1] > 0;
    }
  }

  /** A read reports the sum of what the calls of its routine move. */
  lemma {:induction false} ReportedIsTotal(kind: Kind, replies: seq<Reply>, toRead: nat)
    ensures var e := ReadEnd(kind, replies, toRead); e.Some? ==> e.value.reported == Total(Moves(kind, replies, toRead))
    decreases |replies|
  {
    if replies != [] {
      ReportedIsTotal(kind, replies[1..], StillToRead(replies[0], toRead));
      assert Moves(kind, replies, toRead)[1..] == [] ||
             Moves(kind, replies, toRead)[1..] == Moves(kind, replies[1..], StillToRead(replies[0], toRead));
    }
  }

  /** A read reports as much as it has put in the buffer exactly when nothing is moved after a
      reply that moved something and was recovered from: after a recovery Fs_Read asks for the same
      bytes again, and counts them again. */
  lemma {:induction false} ReadReportsFront(kind: Kind, replies: seq<Reply>, toRead: nat)
    ensures var e := ReadEnd(kind, replies, toRead);
            e.Some? ==> (e.value.reported == e.value.front <==> !MovesAgain(replies, Moves(kind, replies, toRead)))
    decreases |replies|
  {
    if replies != [] && ReadEnd(kind, replies, toRead).Some? {
      var left, ms := StillToRead(replies[0], toRead), Moves(kind, replies, toRead);
      MovesAgainStep(replies, ms);
      if ReadStops(kind, replies[0], ReadMoves(replies[0], toRead)) == None {
        ReadReportsFront(kind, replies[1..], left);
        ReportedIsTotal(kind, replies[1..], left);
        TotalMoves(Moves(kind, replies[1..], left));
        assert ms[1..] == Moves(kind, replies[1..], left);
      }
    }
  }

  /** A two-byte read whose first byte is moved before the server is lost and again after it is
      back: three bytes are reported. */
  lemma RecoveredBytesCountTwice()
    ensures var io := Io(0, 0, 0);
            var replies := [Reply(RPC_TIMEOUT, 1, false, SUCCESS, io), Reply(SUCCESS, 2, false, SUCCESS, io)];
            ReadEnd(Kind(true, false), replies, 2) == Some(ReadResult(SUCCESS, 3, 2))
  {
    var io := Io(0, 0, 0);
    var replies := [Reply(RPC_TIMEOUT, 1, false, SUCCESS, io), Reply(SUCCESS, 2, false, SUCCESS, io)];
    assert replies[1..] == [Reply(SUCCESS, 2, false, SUCCESS, io)];
    assert ReadEnd(Kind(true, false), replies[1..], 2) == Some(ReadResult(SUCCESS, 2, 2));
  }

  // ------------------------------------------------------------------ writing

  function WriteMoves(r: Reply, toWrite: nat): (m: nat)
    ensures m <= toWrite
  {
    Min(r.length, toWrite)
  }

  /** How the reply ends the write, when `written` bytes have been moved in all. */
  function WriteStops(kind: Kind, r: Reply, written: nat): Option<ReturnStatus> {
    if r.status == FS_WOULD_BLOCK then
      if !kind.blocking then Some(if written > 0 then SUCCESS else FS_WOULD_BLOCK)
      else if r.interrupted then Some(GEN_ABORTED_BY_SIGNAL)
      else None
    else if Recoverable(r.status) then
      if r.recovery != SUCCESS then Some(r.recovery) else None
    else Some(r.status)
  }

  /** Fs_Write, when `written` bytes have been moved already. */
  function WriteEnd(kind: Kind, replies: seq<Reply>, toWrite: nat, written: nat): (e: Option<End>)
    ensures e.Some? ==> written <= e.value.moved <= written + toWrite
    decreases |replies|
  {
    if replies == [] then None else
    var m := WriteMoves(replies[0], toWrite);
    var stop := WriteStops(kind, replies[0], written + m);
    if stop.Some? then Some(End(stop.value, written + m))
    else WriteEnd(kind, replies[1..], toWrite - m, written + m)
  }

  // ------------------------------------------------------------------ what the caller can rely on

  /** Waiting for recovery never ends with "would block". */
  predicate Recovers(replies: seq<Reply>) {
    forall i :: 0 <= i < |replies| ==> replies[i].recovery != FS_WOULD_BLOCK
  }

  /** A read that has moved m bytes and goes on behind them. */
  predicate ReadsOn(e: Option<ReadResult>, m: nat, on: Option<ReadResult>) {
    if on == None then e == None
    else e == Some(ReadResult(on.value.status, m + on.value.reported, m + on.value.front))
  }

  /** What a reply that would block does to a read: one that waits returns what a pipe or device had
      for it, and goes on behind what a file had. */
  lemma {:induction false} ReadFindsLittle(kind: Kind, replies: seq<Reply>, toRead: nat)
    requires replies != [] && replies[0].status == FS_WOULD_BLOCK
    ensures var r, m, e := replies[0], Min(replies[0].length, toRead), ReadEnd(kind, replies, toRead);
            if !kind.blocking then e == Some(ReadResult(if m > 0 then SUCCESS else FS_WOULD_BLOCK, m, m))
            else if m > 0 && !kind.isFile then e == Some(ReadResult(SUCCESS, m, m))
            else if r.interrupted then e == Some(ReadResult(GEN_ABORTED_BY_SIGNAL, m, m))
            else ReadsOn(e, m, ReadEnd(kind, replies[1..], toRead - m))
  {
  }

  /** A read whose server is lost ends when recovery fails, and otherwise asks for the same again. */
  lemma {:induction false} ReadLosesServer(kind: Kind, replies: seq<Reply>, toRead: nat)
    requires replies != []
    requires var status := replies[0].status;
             status == RPC_TIMEOUT || status == FS_STALE_HANDLE || status == RPC_SERVICE_DISABLED
    ensures var r, m, e := replies[0], Min(replies[0].length, toRead), ReadEnd(kind, replies, toRead);
            var again := ReadEnd(kind, replies[1..], toRead);
            if r.recovery != SUCCESS then e == Some(ReadResult(r.recovery, m, m))
            else if again == None then e == None
            else e == Some(ReadResult(again.value.status, m + again.value.reported, Max(m, again.value.front)))
  {
  }

  /** Any other status ends a read. */
  lemma {:induction false} ReadEnds(kind: Kind, replies: seq<Reply>, toRead: nat)
    requires replies != []
    requires var status := replies[0].status;
             status != FS_WOULD_BLOCK && status != RPC_TIMEOUT && status != FS_STALE_HANDLE
             && status != RPC_SERVICE_DISABLED
    ensures var r, m := replies[0], Min(replies[0].length, toRead);
            ReadEnd(kind, replies, toRead) == Some(ReadResult(r.status, m, m))
  {
  }

  /** What the first reply does to a write. */
  lemma {:induction false} WriteReturns(kind: Kind, replies: seq<Reply>, toWrite: nat, written: nat)
    requires replies != []
    ensures var r, m := replies[0], Min(replies[0].length, toWrite);
            var e, on := WriteEnd(kind, replies, toWrite, written),
                         WriteEnd(kind, replies[1..], toWrite - m, written + m);
            match r.status
            case FS_WOULD_BLOCK =>
              if !kind.blocking
              then e == Some(End(if written + m > 0 then SUCCESS else FS_WOULD_BLOCK, written + m))
              else e == if r.interrupted then Some(End(GEN_ABORTED_BY_SIGNAL, written + m)) else on
            case RPC_TIMEOUT => e == if r.recovery != SUCCESS then Some(End(r.recovery, written + m)) else on
            case FS_STALE_HANDLE => e == if r.recovery != SUCCESS then Some(End(r.recovery, written + m)) else on
            case RPC_SERVICE_DISABLED => e == if r.recovery != SUCCESS then Some(End(r.recovery, written + m)) else on
            case _ => e == Some(End(r.status, written + m))
  {
  }

  /** The number of calls of its routine that a write makes. */
  function WriteCalls(kind: Kind, replies: seq<Reply>, toWrite: nat, written: nat): (n: nat)
    ensures n <= |replies| && (replies != [] ==> n > 0)
    decreases |replies|
  {
    if replies == [] then 0 else
    var m := WriteMoves(replies[0], toWrite);
    if WriteStops(kind, replies[0], written + m).Some? then 1
    else 1 + WriteCalls(kind, replies[1..], toWrite - m, written + m)
  }

  /** A write returns FS_WOULD_BLOCK exactly on a stream that does not wait, when nothing has been
      written and the last reply says so. */
  lemma {:induction false} WriteWouldBlock(kind: Kind, replies: seq<Reply>, toWrite: nat, written: nat)
    requires Recovers(replies) && WriteEnd(kind, replies, toWrite, written).Some?
    ensures var e, n := WriteEnd(kind, replies, toWrite, written).value, WriteCalls(kind, replies, toWrite, written);
            e.status == FS_WOULD_BLOCK <==>
              !kind.blocking && e.moved == 0 && replies[n - 1].status == FS_WOULD_BLOCK
    decreases |replies|
  {
    var m := WriteMoves(replies[0], toWrite);
    if WriteStops(kind, replies[0], written + m) == None {
      var rest := replies[1..];
      assert forall i :: 0 <= i < |rest| ==> rest[i] == replies[i + 1];
      WriteWouldBlock(kind, rest, toWrite - m, written + m);
    }
  }

  /** A read that does not wait goes on only after replies that are recovered from. */
  lemma {:induction false} OnlyRecoveries(kind: Kind, replies: seq<Reply>, toRead: nat, i: nat)
    requires !kind.blocking && i + 1 < |Moves(kind, replies, toRead)|
    ensures Recoverable(replies[i].status)
    decreases |replies|
  {
    if i > 0 {
      OnlyRecoveries(kind, replies[1..], StillToRead(replies[0], toRead), i - 1);
    }
  }

  /** The reply that ends a read. */
  lemma {:induction false} LastReply(kind: Kind, replies: seq<Reply>, toRead: nat)
    requires Recovers(replies) && ReadEnd(kind, replies, toRead).Some?
    ensures var e, ms := ReadEnd(kind, replies, toRead).value, Moves(kind, replies, toRead);
            e.status == FS_WOULD_BLOCK <==>
              !kind.blocking && replies[|ms| - 1].status == FS_WOULD_BLOCK && ms[|ms| - 1] == 0
    decreases |replies|
  {
    var left, ms := StillToRead(replies[0], toRead), Moves(kind, replies, toRead);
    if ReadStops(kind, replies[0], ReadMoves(replies[0], toRead)) == None {
      var rs, rest := replies[1..], Moves(kind, replies[1..], left);
      assert forall i :: 0 <= i < |rs| ==> rs[i] == replies[i + 1];
      LastReply(kind, rs, left);
      assert ms == [ms[0]] + rest && ms[|ms| - 1] == rest[|rest| - 1];
    }
  }

  /** A read returns FS_WOULD_BLOCK exactly when it does not wait and the last reply says so with
      nothing moved. It then reports bytes all the same exactly when an earlier reply that was
      recovered from had moved some. */
  lemma ReadWouldBlock(kind: Kind, replies: seq<Reply>, toRead: nat)
    requires Recovers(replies) && ReadEnd(kind, replies, toRead).Some?
    ensures var e, ms := ReadEnd(kind, replies, toRead).value, Moves(kind, replies, toRead);
            && (e.status == FS_WOULD_BLOCK <==>
                  !kind.blocking && replies[|ms| - 1].status == FS_WOULD_BLOCK && ms[|ms| - 1] == 0)
            && (e.status == FS_WOULD_BLOCK ==>
                  (e.reported > 0 <==> exists i :: 0 <= i < |ms| && Recoverable(replies[i].status) && ms[i] > 0))
  {
    LastReply(kind, replies, toRead);
    ReportedIsTotal(kind, replies, toRead);
    var ms := Moves(kind, replies, toRead);
    TotalMoves(ms);
    if !kind.blocking {
      forall i | 0 <= i < |ms| - 1
        ensures Recoverable(replies[i].status)
      {
        OnlyRecoveries(kind, replies, toRead, i);
      }
    }
  }

  /** A read that does not wait says that it would block, and reports a byte. */
  lemma WouldBlockReportsByte()
    ensures var io := Io(0, 0, 0);
            var replies := [Reply(RPC_TIMEOUT, 1, false, SUCCESS, io), Reply(FS_WOULD_BLOCK, 0, false, SUCCESS, io)];
            ReadEnd(Kind(false, false), replies, 2) == Some(ReadResult(FS_WOULD_BLOCK, 1, 1))
  {
    var io := Io(0, 0, 0);
    var replies := [Reply(RPC_TIMEOUT, 1, false, SUCCESS, io), Reply(FS_WOULD_BLOCK, 0, false, SUCCESS, io)];
    assert replies[1..] == [Reply(FS_WOULD_BLOCK, 0, false, SUCCESS, io)];
    assert ReadEnd(Kind(false, false), replies[1..], 2) == Some(ReadResult(FS_WOULD_BLOCK, 0, 0));
  }

  /** On a stream that waits, a write which only ever finds the stream full, is not interrupted, and
      then finds room for the rest, moves everything. */
  lemma {:induction false} BlockingWriteMovesAll(kind: Kind, replies: seq<Reply>, toWrite: nat, written: nat)
    requires kind.blocking && replies != []
    requires forall i :: 0 <= i < |replies| - 1 ==> replies[i].status == FS_WOULD_BLOCK && !replies[i].interrupted
    requires replies[|replies| - 1].status == SUCCESS && replies[|replies| - 1].length >= toWrite
    ensures WriteEnd(kind, replies, toWrite, written) == Some(End(SUCCESS, written + toWrite))
    decreases |replies|
  {
    if |replies| > 1 {
      var m := WriteMoves(replies[0], toWrite);
      var rest := replies[1..];
      assert forall i :: 0 <= i < |rest| ==> rest[i] == replies[i + 1];
      BlockingWriteMovesAll(kind, rest, toWrite - m, written + m);
    }
  }

  // ------------------------------------------------------------------ the system calls

  /** What a call finds: whether the stream exists, may be written, has a valid handle, whether the
      system is shutting down, and whether the stream's offset is negative. */
  datatype Setting = Setting(kind: Kind, found: bool, writable: bool, valid: bool, shuttingDown: bool, negative: bool)

  /** The checks before a transfer. */
  function Refuses(allowed: bool, valid: bool, shuttingDown: bool, offset: int, length: int): Option<ReturnStatus> {
    if shuttingDown then Some(FAILURE)
    else if !allowed then Some(FS_NO_ACCESS)
    else if length == 0 then Some(SUCCESS)
    else if length < 0 || offset < 0 then Some(GEN_INVALID_ARG)
    else if !valid then Some(FS_STALE_HANDLE)
    else None
  }

  /** Which transfers are refused, and how: the first of these that applies. A transfer of nothing
      succeeds at any offset and on a stale handle. */
  lemma RefusedExactly(allowed: bool, valid: bool, shuttingDown: bool, offset: int, length: int)
    ensures var r := Refuses(allowed, valid, shuttingDown, offset, length);
            && (r == None <==> !shuttingDown && allowed && valid && length > 0 && offset >= 0)
            && (r == Some(FAILURE) <==> shuttingDown)
            && (r == Some(FS_NO_ACCESS) <==> !shuttingDown && !allowed)
            && (r == Some(SUCCESS) <==> !shuttingDown && allowed && length == 0)
            && (r == Some(GEN_INVALID_ARG) <==> !shuttingDown && allowed && (length < 0 || (length > 0 && offset < 0)))
            && (r == Some(FS_STALE_HANDLE) <==> !shuttingDown && allowed && length > 0 && offset >= 0 && !valid)
  {
  }

  /** Fs_Write at the stream's offset; nothing is moved at a negative one. */
  function WriteOutcome(t: Setting, replies: seq<Reply>, length: nat): (e: Option<End>)
    ensures e.Some? ==> e.value.moved <= length && (t.negative ==> e.value.moved == 0)
  {
    var refusal := Refuses(t.writable, t.valid, t.shuttingDown, if t.negative then -1 else 0, length);
    if refusal.Some? then Some(End(refusal.value, 0)) else WriteEnd(t.kind, replies, length, 0)
  }

  /** What Fs_NewWriteStub returns, and what it moved. */
  datatype Piece = Piece(result: int, moved: nat)

  function StubResult(e: End): int {
    if e.status == SUCCESS || (e.status == GEN_ABORTED_BY_SIGNAL && e.moved > 0) then e.moved else -1
  }

  function WritePiece(t: Setting, replies: seq<Reply>, length: nat): (p: Option<Piece>)
    ensures p.Some? ==> p.value.moved <= length && (p.value.result == -1 || p.value.result == p.value.moved)
    ensures p.Some? && t.negative ==> p.value.moved == 0
  {
    if !t.found then Some(Piece(-1, 0)) else
    var e := WriteOutcome(t, replies, length);
    if e == None then None else Some(Piece(StubResult(e.value), e.value.moved))
  }

  /** What the stub returns: the bytes written when the write succeeds, or is interrupted after writing
      something; otherwise -1, also for a stream that is not open. */
  lemma PieceReturns(t: Setting, replies: seq<Reply>, length: nat)
    requires WritePiece(t, replies, length).Some?
    ensures var p := WritePiece(t, replies, length).value;
            if !t.found then p.result == -1 && p.moved == 0
            else
              var e := WriteOutcome(t, replies, length);
              && e.Some? && p.moved == e.value.moved
              && (p.result == p.moved <==>
                  e.value.status == SUCCESS || (e.value.status == GEN_ABORTED_BY_SIGNAL && e.value.moved > 0))
              && (p.result != p.moved ==> p.result == -1)
  {
  }

  /** What a vector write counted and what it moved, and whether a piece failed. */
  datatype Vector = Vector(total: nat, moved: nat, failed: bool)

  function WriteVector(t: Setting, replies: seq<seq<Reply>>, pieces: seq<seq<byte>>): (v: Option<Vector>)
    requires |replies| == |pieces|
    decreases |pieces|
  {
    if pieces == [] then Some(Vector(0, 0, false)) else
    var p := WritePiece(t, replies[0], |pieces[0]|);
    if p == None then None
    else if p.value.result == -1 then Some(Vector(0, p.value.moved, true))
    else if p.value.moved < |pieces[0]| then Some(Vector(p.value.moved, p.value.moved, false))
    else
      var rest := WriteVector(t, replies[1..], pieces[1..]);
      if rest == None then None
      else Some(Vector(|pieces[0]| + rest.value.total, |pieces[0]| + rest.value.moved, rest.value.failed))
  }

  function Concat(pieces: seq<seq<byte>>): seq<byte> {
    if pieces == [] then [] else pieces[0] + Concat(pieces[1..])
  }

  /** Piece i is written in full, so that the next one is begun. */
  predicate Whole(t: Setting, replies: seq<seq<Reply>>, pieces: seq<seq<byte>>, i: nat)
    requires i < |pieces| == |replies|
  {
    WritePiece(t, replies[i], |pieces[i]|) == Some(Piece(|pieces[i]|, |pieces[i]|))
  }

  /** The pieces written in full before the first that is not. */
  function WholePieces(t: Setting, replies: seq<seq<Reply>>, pieces: seq<seq<byte>>): (n: nat)
    requires |replies| == |pieces|
    ensures n <= |pieces|
  {
    if pieces == [] || !Whole(t, replies, pieces, 0) then 0 else 1 + WholePieces(t, replies[1..], pieces[1..])
  }

  lemma ConcatFront(pieces: seq<seq<byte>>, n: nat)
    requires 0 < n <= |pieces|
    ensures Concat(pieces[..n]) == pieces[0] + Concat(pieces[1..][..n - 1])
  {
    assert pieces[..n][1..] == pieces[1..][..n - 1];
  }

  /** A vector write ends behind its last piece, or with the first piece that is not written in full:
      that one's bytes are moved, and counted unless it fails. */
  lemma {:induction false} VectorEnds(t: Setting, replies: seq<seq<Reply>>, pieces: seq<seq<byte>>)
    requires |replies| == |pieces| && WriteVector(t, replies, pieces).Some?
    ensures var v, n := WriteVector(t, replies, pieces).value, WholePieces(t, replies, pieces);
            if n == |pieces| then v == Vector(|Concat(pieces)|, |Concat(pieces)|, false)
            else
              var p, whole := WritePiece(t, replies[n], |pieces[n]|), |Concat(pieces[..n])|;
              && p.Some? && v.moved == whole + p.value.moved
              && v.total == whole + (if p.value.result == -1 then 0 else p.value.moved)
              && (v.failed <==> p.value.result == -1)
    decreases |pieces|
  {
    if pieces != [] && Whole(t, replies, pieces, 0) {
      var n := WholePieces(t, replies, pieces);
      VectorEnds(t, replies[1..], pieces[1..]);
      ConcatFront(pieces, n);
    }
  }

  /** Some piece is begun, moves something, and fails. */
  ghost predicate FailsAfterMoving(t: Setting, replies: seq<seq<Reply>>, pieces: seq<seq<byte>>)
    requires |pieces| == |replies|
  {
    exists i :: 0 <= i < |pieces| && FailsAt(t, replies, pieces, i)
  }

  ghost predicate FailsAt(t: Setting, replies: seq<seq<Reply>>, pieces: seq<seq<byte>>, i: nat)
    requires i < |pieces| == |replies|
  {
    var p := WritePiece(t, replies[i], |pieces[i]|);
    p.Some? && p.value.result == -1 && p.value.moved > 0 && forall k :: 0 <= k < i ==> Whole(t, replies, pieces, k)
  }

  /** A vector write counts exactly the bytes it moved unless a piece fails after moving something. */
  lemma {:induction false} VectorCounts(t: Setting, replies: seq<seq<Reply>>, pieces: seq<seq<byte>>)
    requires |replies| == |pieces| && WriteVector(t, replies, pieces).Some?
    ensures var v := WriteVector(t, replies, pieces).value;
            && v.total <= v.moved <= |Concat(pieces)| && (!v.failed ==> v.total == v.moved)
            && (v.total == v.moved <==> !FailsAfterMoving(t, replies, pieces))
    decreases |pieces|
  {
    if pieces != [] {
      var p := WritePiece(t, replies[0], |pieces[0]|).value;
      if Whole(t, replies, pieces, 0) {
        VectorCounts(t, replies[1..], pieces[1..]);
        FailsLater(t, replies, pieces);
      } else if p.result == -1 && p.moved > 0 {
        assert FailsAt(t, replies, pieces, 0);
      } else {
        forall i | 0 <= i < |pieces|
          ensures !FailsAt(t, replies, pieces, i)
        {
          assert i > 0 ==> !Whole(t, replies, pieces, 0);
        }
      }
    }
  }

  lemma FailsLater(t: Setting, replies: seq<seq<Reply>>, pieces: seq<seq<byte>>)
    requires |replies| == |pieces| && pieces != [] && Whole(t, replies, pieces, 0)
    ensures FailsAfterMoving(t, replies, pieces) <==> FailsAfterMoving(t, replies[1..], pieces[1..])
  {
    var rs, ps := replies[1..], pieces[1..];
    forall i | 0 <= i < |ps|
      ensures Whole(t, rs, ps, i) == Whole(t, replies, pieces, i + 1)
    {
    }
    if FailsAfterMoving(t, replies, pieces) {
      var i :| 0 <= i < |pieces| && FailsAt(t, replies, pieces, i);
      forall k | 0 <= k < i - 1
        ensures Whole(t, rs, ps, k)
      {
        assert Whole(t, replies, pieces, k + 1);
      }
      assert FailsAt(t, rs, ps, i - 1);
    }
    if FailsAfterMoving(t, rs, ps) {
      var i :| 0 <= i < |ps| && FailsAt(t, rs, ps, i);
      forall k | 0 <= k < i + 1
        ensures Whole(t, replies, pieces, k)
      {
        assert k > 0 ==> Whole(t, rs, ps, k - 1);
      }
      assert FailsAt(t, replies, pieces, i + 1);
    }
  }

  /** A write that fails after moving something is counted as nothing: the vector write reports fewer
      bytes than it wrote. */
  lemma FailedPieceIsNotCounted()
    ensures exists t, replies, pieces ::
              |replies| == |pieces| && WriteVector(t, replies, pieces) == Some(Vector(1, 2, true))
  {
    var t := Setting(Kind(true, false), true, true, true, false, false);
    var io := Io(0, 0, 0);
    var good := [Reply(SUCCESS, 1, false, SUCCESS, io)];
    var bad := [Reply(FAILURE, 1, false, SUCCESS, io)];
    var pieces: seq<seq<byte>> := [[0], [0]];
    assert WriteEnd(t.kind, good, 1, 0) == Some(End(SUCCESS, 1));
    assert WriteEnd(t.kind, bad, 1, 0) == Some(End(FAILURE, 1));
    assert [good, bad][1..] == [bad] && pieces[1..] == [[0]];
    assert WriteVector(t, [bad], [[0]]) == Some(Vector(0, 1, true));
    assert WriteVector(t, [good, bad], pieces) == Some(Vector(1, 2, true));
  }

  // ------------------------------------------------------------------ the bytes that move

  /** n bytes of a source, from `offset` on. */
  function Bytes(source: int -> byte, offset: int, n: nat): (b: seq<byte>)
    ensures |b| == n && forall i :: 0 <= i < n ==> b[i] == source(offset + i)
  {
    seq(n, i => source(offset + i))
  }

  /** One more byte of the source is put where it belongs. */
  lemma OneByteMore(b: seq<byte>, was: seq<byte>, source: int -> byte, start: int, at: nat, i: nat)
    requires at + i < |was| && b == was[..at] + Bytes(source, start, i) + was[at + i..]
    ensures b[at + i := source(start + i)] == was[..at] + Bytes(source, start, i + 1) + was[at + i + 1..]
  {
  }

  lemma BytesBoth(source: int -> byte, offset: int, n: nat, m: nat)
    ensures Bytes(source, offset, n) + Bytes(source, offset + n, m) == Bytes(source, offset, n + m)
  {
  }

  /** The target with `bytes` laid over it from `offset` on. */
  function Overlay(target: map<int, byte>, offset: int, bytes: seq<byte>): map<int, byte> {
    if bytes == [] then target else
    var n := |bytes| - 1;
    Overlay(target, offset, bytes[..n])[offset + n := bytes[n]]
  }

  /** What the overlay holds at each place. */
  lemma {:induction false} OverlayAt(target: map<int, byte>, offset: int, bytes: seq<byte>, i: int)
    ensures var t := Overlay(target, offset, bytes);
            if offset <= i < offset + |bytes| then i in t && t[i] == bytes[i - offset]
            else (i in t <==> i in target) && (i in target ==> t[i] == target[i])
  {
    if bytes != [] {
      OverlayAt(target, offset, bytes[..|bytes| - 1], i);
    }
  }

  /** Two overlays that meet are one. */
  lemma {:induction false} OverlayBoth(target: map<int, byte>, offset: int, a: seq<byte>, b: seq<byte>)
    ensures Overlay(Overlay(target, offset, a), offset + |a|, b) == Overlay(target, offset, a + b)
  {
    if b == [] {
      assert a + b == a;
    } else {
      var n := |b| - 1;
      OverlayBoth(target, offset, a, b[..n]);
      assert (a + b)[..|a + b| - 1] == a + b[..n];
      assert (a + b)[|a + b| - 1] == b[n];
    }
  }
}
