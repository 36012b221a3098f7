/** Fs_Select: scans over the masks until a stream is ready, the time is up, or a signal comes. */
module Select {
  import opened Common
  import opened SelectSpec

  /** One turn of the outer loop: whether the timeout flag is set, what the streams answer then, and
      whether a signal interrupts the wait. */
  datatype Round = Round(timedOut: bool, streams: seq<Option<Info>>, interrupted: bool)

  datatype Time = Time(seconds: int, microseconds: int)

  /** Not to wait at all: a time of zero or less. */
  predicate Polls(timeout: Option<Time>) {
    timeout.Some? && (timeout.value.seconds < 0 || (timeout.value.seconds == 0 && timeout.value.microseconds == 0))
  }

  /** How the rounds end: the status, and the round whose scan decided it. None while the process
      still waits. */
  datatype End = End(status: ReturnStatus, round: nat)

  function Outcome(asked: seq<Row>, numStreams: int, poll: bool, rounds: seq<Round>, i: nat): (e: Option<End>)
    requires i <= |rounds|
    ensures e.Some? ==> i <= e.value.round < |rounds|
    decreases |rounds| - i
  {
    if i == |rounds| then None
    else if rounds[i].timedOut then Some(End(FS_TIMEOUT, i)) else
    var status := ScanStatus(asked, numStreams, rounds[i].streams, 0);
    if status != SUCCESS then Some(End(status, i))
    else if AllReady(OutRows(asked, numStreams, rounds[i].streams)) > 0 || poll then Some(End(SUCCESS, i))
    else if rounds[i].interrupted then Some(End(GEN_ABORTED_BY_SIGNAL, i))
    else Outcome(asked, numStreams, poll, rounds, i + 1)
  }

  function OutRows(asked: seq<Row>, numStreams: int, streams: seq<Option<Info>>): (rows: seq<Row>)
    ensures |rows| == |asked| && forall r :: 0 <= r < |asked| ==> rows[r] == OutRow(asked, numStreams, streams, r)
  {
    seq(|asked|, r requires 0 <= r < |asked| => OutRow(asked, numStreams, streams, r))
  }

  function NoRow(): Row {
    seq(BITS_PER_ROW, _ => NO_BITS)
  }

  /** The first bits of an output row. */
  ghost predicate Filled(out: seq<Bits>, row: Row, n: nat) {
    && n <= |out| == BITS_PER_ROW
    && (forall k :: 0 <= k < n ==> out[k] == row[k]) && (forall k :: n <= k < BITS_PER_ROW ==> out[k] == NO_BITS)
  }

  /** A stream that is polled comes back with some bit. */
  ghost predicate SomeReady(asked: seq<Row>, numStreams: int, streams: seq<Option<Info>>) {
    exists row: nat, bit: nat ::
      row < |asked| && bit < BITS_PER_ROW && Any(OutBits(asked, numStreams, streams, row, bit))
  }

  ghost predicate AllFine(asked: seq<Row>, numStreams: int, streams: seq<Option<Info>>) {
    forall row: nat, bit: nat :: row < |asked| && bit < BITS_PER_ROW && Polled(asked, numStreams, row, bit) ==>
      Fine(streams, 32 * row + bit)
  }

  lemma CountsSome(asked: seq<Row>, numStreams: int, streams: seq<Option<Info>>)
    ensures AllReady(OutRows(asked, numStreams, streams)) > 0 <==> SomeReady(asked, numStreams, streams)
  {
    var rows := OutRows(asked, numStreams, streams);
    NumReadyCounts(rows, |rows|);
    assert rows[..|rows|] == rows;
    var all := WithBits(rows, 32 * |rows|);
    if row: nat, bit: nat :| row < |asked| && bit < BITS_PER_ROW && Any(OutBits(asked, numStreams, streams, row, bit)) {
      HasBitAt(rows, row, bit);
      assert 32 * row + bit in all;
    }
    if all != {} {
      var id :| id in all;
      assert Any(OutBits(asked, numStreams, streams, id / 32, id % 32));
    }
  }

  /** A round after which the select goes round again. */
  ghost predicate GoesOn(asked: seq<Row>, numStreams: int, poll: bool, round: Round) {
    && !round.timedOut && !round.interrupted && !poll
    && AllFine(asked, numStreams, round.streams) && !SomeReady(asked, numStreams, round.streams)
  }

  /** How a select ends at the first round after which it does not: the time-out comes before what the
      streams say, a stream in trouble before one that is ready, and that before a signal. */
  lemma {:induction false} SelectEnds(asked: seq<Row>, numStreams: int, poll: bool, rounds: seq<Round>, i: nat, n: nat)
    requires i <= n <= |rounds| && forall k :: i <= k < n ==> GoesOn(asked, numStreams, poll, rounds[k])
    ensures n == |rounds| ==> Outcome(asked, numStreams, poll, rounds, i) == None
    ensures n < |rounds| && !GoesOn(asked, numStreams, poll, rounds[n]) ==>
              var e, round := Outcome(asked, numStreams, poll, rounds, i), rounds[n];
              && e.Some? && e.value.round == n
              && (if round.timedOut then e.value.status == FS_TIMEOUT
                  else if !AllFine(asked, numStreams, round.streams) then
                    exists r: nat, k: nat :: FirstTrouble(asked, numStreams, round.streams, 0, 0, r, k)
                      && e.value.status == Failure(round.streams, 32 * r + k) && e.value.status != SUCCESS
                  else if SomeReady(asked, numStreams, round.streams) || poll then e.value.status == SUCCESS
                  else e.value.status == GEN_ABORTED_BY_SIGNAL)
    decreases n - i
  {
    if i < |rounds| {
      CountsSome(asked, numStreams, rounds[i].streams);
      ScanSucceeds(asked, numStreams, rounds[i].streams, 0);
    }
    if i < n {
      SelectEnds(asked, numStreams, poll, rounds, i + 1, n);
    } else if n < |rounds| && !rounds[n].timedOut && !AllFine(asked, numStreams, rounds[n].streams) {
      var r, k := ScanFails(asked, numStreams, rounds[n].streams, 0);
    }
  }

  lemma {:induction false} NoneReady(row: seq<Bits>, n: nat, m: nat)
    requires n <= m <= |row| && forall k :: n <= k < m ==> row[k] == NO_BITS
    ensures Ready(row, m) == Ready(row, n)
  {
    if n < m {
      NoneReady(row, n, m - 1);
    }
  }

  lemma {:induction false} NoTrouble(asked: seq<Row>, numStreams: int, streams: seq<Option<Info>>, row: nat, bit: nat)
    requires row < |asked| && bit <= BITS_PER_ROW && (bit >= Limit(asked, numStreams, row) || bit == BITS_PER_ROW)
    ensures RowStatus(asked, numStreams, streams, row, bit) == SUCCESS
    decreases BITS_PER_ROW - bit
  {
    if bit < BITS_PER_ROW {
      NoTrouble(asked, numStreams, streams, row, bit + 1);
    }
  }

  /** The loop over the bits of a row; s is what is left of the count of streams. */
  method ScanBits(asked: seq<Row>, numStreams: int, streams: seq<Option<Info>>, row: nat, s: int)
    returns (status: ReturnStatus, out: Row, ready: nat)
    requires row < |asked| && s == Limit(asked, numStreams, row)
    ensures status == RowStatus(asked, numStreams, streams, row, 0)
    ensures status == SUCCESS ==>
              && out == OutRow(asked, numStreams, streams, row)
              && ready == Ready(OutRow(asked, numStreams, streams, row), BITS_PER_ROW)
  {
    ghost var full := OutRow(asked, numStreams, streams, row);
    status, out, ready := SUCCESS, NoRow(), 0;
    var bitMax := if s > BITS_PER_ROW then BITS_PER_ROW else s;
    var bit := 0;
    while bit < bitMax
      invariant 0 <= bit <= BITS_PER_ROW && (bit <= bitMax || bit == 0)
      invariant RowStatus(asked, numStreams, streams, row, 0) == RowStatus(asked, numStreams, streams, row, bit)
      invariant Filled(out, full, bit) && ready == Ready(full, bit)
    {
      var bits := asked[row][bit];
      if Any(bits) {
        assert Polled(asked, numStreams, row, bit);
        var info := Find(streams, 32 * row + bit);
        if info == None {
          return SYS_INVALID_ARG, out, ready;
        }
        if info.value.status != SUCCESS {
          return info.value.status, out, ready;
        }
        var left := Answer(info.value, bits);
        if Any(left) {
          out := out[bit := left];
          ready := ready + 1;
        }
      }
      bit := bit + 1;
    }
    NoTrouble(asked, numStreams, streams, row, bit);
    assert forall k :: bit <= k < BITS_PER_ROW ==> full[k] == NO_BITS;
    NoneReady(full, bit, BITS_PER_ROW);
    assert out == full;
  }

  lemma EmptyRow(asked: seq<Row>, numStreams: int, streams: seq<Option<Info>>, row: nat)
    requires row < |asked| && Empty(asked[row])
    ensures OutRow(asked, numStreams, streams, row) == NoRow()
    ensures Ready(OutRow(asked, numStreams, streams, row), BITS_PER_ROW) == 0
    ensures RowStatus(asked, numStreams, streams, row, 0) == SUCCESS
  {
    NoneReady(OutRow(asked, numStreams, streams, row), 0, BITS_PER_ROW);
    RowSucceeds(asked, numStreams, streams, row, 0);
  }

  /** The loop over the rows: what a scan leaves in the output masks. */
  method Scan(asked: seq<Row>, numStreams: int, streams: seq<Option<Info>>, out: array<Row>)
    returns (status: ReturnStatus, numReady: nat)
    requires out.Length == |asked|
    modifies out
    ensures status == ScanStatus(asked, numStreams, streams, 0)
    ensures status == SUCCESS ==>
              && out[..] == OutRows(asked, numStreams, streams)
              && numReady == AllReady(OutRows(asked, numStreams, streams))
  {
    ghost var rows := OutRows(asked, numStreams, streams);
    status, numReady := SUCCESS, 0;
    var s := numStreams + 1;
    for row := 0 to |asked|
      invariant s == Limit(asked, numStreams, row) && status == SUCCESS
      invariant ScanStatus(asked, numStreams, streams, 0) == ScanStatus(asked, numStreams, streams, row)
      invariant out[..row] == rows[..row] && numReady == AllReady(rows[..row])
    {
      var bits: Row, ready: nat := NoRow(), 0;
      if Empty(asked[row]) {
        EmptyRow(asked, numStreams, streams, row);
      } else {
        status, bits, ready := ScanBits(asked, numStreams, streams, row, s);
        if status != SUCCESS {
          return;
        }
        s := s - BITS_PER_ROW;
      }
      numReady := numReady + ready;
      out[row] := bits;
      assert rows[..row + 1][..row] == rows[..row];
    }
    assert rows[..|asked|] == rows;
  }

  method ClearMasks(out: array<Row>)
    modifies out
    ensures forall r :: 0 <= r < out.Length ==> out[r] == NoRow()
  {
    for row := 0 to out.Length
      invariant forall r :: 0 <= r < row ==> out[r] == NoRow()
    {
      out[row] := NoRow();
    }
  }

  /** Fs_Select; `asked` is None when no mask is given. The masks hold the last scan's answer on
      success and nothing on a timeout. */
  method FsSelect(numStreams: int, asked: Option<seq<Row>>, timeout: Option<Time>, waitInterrupted: bool,
                  rounds: seq<Round>, out: array<Row>)
    returns (status: ReturnStatus, numReady: nat, finished: bool)
    requires asked.Some? ==> out.Length == |asked.value|
    modifies out
    ensures asked == None || numStreams == -1 ==>
              && finished && out[..] == old(out[..])
              && status == (match timeout
                            case None => SUCCESS
                            case Some(time) =>
                              if time.seconds < 0 || (time.seconds == 0 && time.microseconds == 0) then SUCCESS
                              else if waitInterrupted then GEN_ABORTED_BY_SIGNAL else FS_TIMEOUT)
    ensures asked.Some? && numStreams != -1 ==>
              var e := Outcome(asked.value, numStreams, Polls(timeout), rounds, 0);
              && finished == e.Some? && (e.Some? ==> status == e.value.status)
              && (finished && status == SUCCESS ==>
                    var rows := OutRows(asked.value, numStreams, rounds[e.value.round].streams);
                    out[..] == rows && numReady == AllReady(rows))
              && (finished && status == FS_TIMEOUT ==> forall r :: 0 <= r < out.Length ==> out[r] == NoRow())
  {
    status, numReady, finished := SUCCESS, 0, true;
    var n := if asked == None then -1 else numStreams;
    var poll := false;
    if timeout != None {
      if Polls(timeout) {
        poll := true;
      } else if n == -1 {
        return if waitInterrupted then GEN_ABORTED_BY_SIGNAL else FS_TIMEOUT, 0, true;
      }
    }
    if n == -1 {
      return;
    }
    status, numReady, finished := Wait(numStreams, asked.value, poll, rounds, out);
    if finished && status == FS_TIMEOUT {
      ClearMasks(out);
    }
  }

  /** The outer loop. */
  method Wait(numStreams: int, asked: seq<Row>, poll: bool, rounds: seq<Round>, out: array<Row>)
    returns (status: ReturnStatus, numReady: nat, finished: bool)
    requires out.Length == |asked|
    modifies out
    ensures var e := Outcome(asked, numStreams, poll, rounds, 0);
            && finished == e.Some? && (e.Some? ==> status == e.value.status)
            && (finished && status == SUCCESS ==>
                  var rows := OutRows(asked, numStreams, rounds[e.value.round].streams);
                  out[..] == rows && numReady == AllReady(rows))
  {
    status, numReady := SUCCESS, 0;
    var i := 0;
    while i < |rounds|
      invariant i <= |rounds| && numReady == 0
      invariant Outcome(asked, numStreams, poll, rounds, 0) == Outcome(asked, numStreams, poll, rounds, i)
    {
      if rounds[i].timedOut {
        return FS_TIMEOUT, numReady, true;
      }
      status, numReady := Scan(asked, numStreams, rounds[i].streams, out);
      if status != SUCCESS {
        return status, numReady, true;
      }
      if numReady > 0 || poll {
        return status, numReady, true;
      }
      if rounds[i].interrupted {
        return GEN_ABORTED_BY_SIGNAL, numReady, true;
      }
      i := i + 1;
    }
    return status, numReady, false;
  }
}
