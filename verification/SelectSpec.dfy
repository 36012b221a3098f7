/** Which streams Fs_Select polls, and what it answers. The read, write and except masks lie side by
    side: a row is one word of each, and a bit of a row is one stream. */
module SelectSpec {
  import opened Common

  const BITS_PER_ROW := 32

  datatype Bits = Bits(read: bool, write: bool, except: bool)

  const NO_BITS := Bits(false, false, false)

  predicate Any(b: Bits) {
    b.read || b.write || b.except
  }

  /** A mask that was not given selects nothing. */
  type Row = s: seq<Bits> | |s| == BITS_PER_ROW witness seq(BITS_PER_ROW, _ => NO_BITS)

  /** An open stream: its modes, and what its select routine answers. */
  datatype Info = Info(readable: bool, writable: bool, status: ReturnStatus, ready: Bits)

  /** The streams of the process, by number. */
  function Find(streams: seq<Option<Info>>, id: nat): Option<Info> {
    if id < |streams| then streams[id] else None
  }

  /** What is left of the asked bits: a mode the stream is not open in is dropped before the select
      routine is called, and the routine clears what is not ready. */
  function Answer(info: Info, asked: Bits): (b: Bits)
    ensures (b.read ==> asked.read && info.readable) && (b.write ==> asked.write && info.writable)
    ensures b.except ==> asked.except
  {
    Bits(asked.read && info.readable && info.ready.read, asked.write && info.writable && info.ready.write,
         asked.except && info.ready.except)
  }

  predicate Empty(row: Row) {
    forall bit :: 0 <= bit < BITS_PER_ROW ==> !Any(row[bit])
  }

  /** The rows before `row` that select something. */
  function Used(asked: seq<Row>, row: nat): (n: nat)
    requires row <= |asked|
    ensures n <= row
  {
    if row == 0 then 0 else Used(asked, row - 1) + if Empty(asked[row - 1]) then 0 else 1
  }

  /** The number of bits of a row that are looked at. It goes down by 32 only for rows that select
      something. */
  function Limit(asked: seq<Row>, numStreams: int, row: nat): int
    requires row <= |asked|
  {
    numStreams + 1 - 32 * Used(asked, row)
  }

  predicate Polled(asked: seq<Row>, numStreams: int, row: nat, bit: nat)
    requires row < |asked| && bit < BITS_PER_ROW
  {
    Any(asked[row][bit]) && bit < Limit(asked, numStreams, row)
  }

  /** Every selected stream up to numStreams is polled. */
  lemma AllAskedArePolled(asked: seq<Row>, numStreams: int, row: nat, bit: nat)
    requires row < |asked| && bit < BITS_PER_ROW && Any(asked[row][bit]) && 32 * row + bit <= numStreams
    ensures Polled(asked, numStreams, row, bit)
  {
    assert Used(asked, row) <= row;
  }

  predicate Selected(asked: seq<Row>, row: nat, bit: nat) {
    row < |asked| && bit < BITS_PER_ROW && Any(asked[row][bit])
  }

  /** The rows before `row` that select nothing. */
  function EmptyBefore(asked: seq<Row>, row: nat): nat
    requires row <= |asked|
  {
    |set r | 0 <= r < row && Empty(asked[r])|
  }

  lemma {:induction false} UsedOrEmpty(asked: seq<Row>, row: nat)
    requires row <= |asked|
    ensures Used(asked, row) + EmptyBefore(asked, row) == row
  {
    if row > 0 {
      UsedOrEmpty(asked, row - 1);
      var before := set r | 0 <= r < row - 1 && Empty(asked[r]);
      var now := set r | 0 <= r < row && Empty(asked[r]);
      assert now == if Empty(asked[row - 1]) then before + {row - 1} else before;
    }
  }

  /** The scan polls exactly the selected streams up to numStreams. */
  ghost predicate PollsUpTo(asked: seq<Row>, numStreams: int) {
    forall row: nat, bit: nat :: Selected(asked, row, bit) ==>
      (Polled(asked, numStreams, row, bit) <==> 32 * row + bit <= numStreams)
  }

  /** It does so if and only if every selected stream beyond numStreams lies further beyond it than
      the empty rows before the stream have bits. */
  lemma PolledExactly(asked: seq<Row>, numStreams: int)
    ensures PollsUpTo(asked, numStreams) <==>
            forall row: nat, bit: nat :: Selected(asked, row, bit) && 32 * row + bit > numStreams ==>
              32 * row + bit > numStreams + 32 * EmptyBefore(asked, row)
  {
    forall row: nat, bit: nat | Selected(asked, row, bit)
      ensures Polled(asked, numStreams, row, bit) <==> 32 * row + bit <= numStreams + 32 * EmptyBefore(asked, row)
    {
      UsedOrEmpty(asked, row);
    }
  }

  /** When every row but the last selects something, nothing goes wrong. */
  lemma PolledWhenDense(asked: seq<Row>, numStreams: int)
    requires forall row :: 0 <= row < |asked| - 1 ==> !Empty(asked[row])
    ensures PollsUpTo(asked, numStreams)
  {
    forall row: nat, bit: nat | Selected(asked, row, bit)
      ensures EmptyBefore(asked, row) == 0
    {
      assert (set r | 0 <= r < row && Empty(asked[r])) == {};
    }
    PolledExactly(asked, numStreams);
  }

  /** Stream 32 is polled although only streams up to 0 were to be: row 0 selects nothing. */
  lemma EmptyRowsLetMoreBePolled()
    ensures exists asked: seq<Row> :: |asked| == 2 && Polled(asked, 0, 1, 0)
  {
    var none: Row := seq(BITS_PER_ROW, _ => NO_BITS);
    var one: Row := none[0 := Bits(true, false, false)];
    var asked := [none, one];
    assert Empty(asked[0]);
    assert Used(asked, 1) == Used(asked, 0);
    assert Polled(asked, 0, 1, 0);
  }

  // ------------------------------------------------------------------ what a scan returns

  /** The stream makes the scan fail: it is not open, or its select routine fails. */
  function Trouble(streams: seq<Option<Info>>, id: nat): ReturnStatus {
    var info := Find(streams, id);
    if info == None then SYS_INVALID_ARG else info.value.status
  }

  /** The status of the first polled stream in trouble among the bits from `bit` on. */
  function RowStatus(asked: seq<Row>, numStreams: int, streams: seq<Option<Info>>, row: nat, bit: nat): ReturnStatus
    requires row < |asked| && bit <= BITS_PER_ROW
    decreases BITS_PER_ROW - bit
  {
    if bit == BITS_PER_ROW then SUCCESS
    else if Polled(asked, numStreams, row, bit) && Trouble(streams, 32 * row + bit) != SUCCESS
    then Trouble(streams, 32 * row + bit)
    else RowStatus(asked, numStreams, streams, row, bit + 1)
  }

  function ScanStatus(asked: seq<Row>, numStreams: int, streams: seq<Option<Info>>, row: nat): ReturnStatus
    requires row <= |asked|
    decreases |asked| - row
  {
    if row == |asked| then SUCCESS else
    var status := RowStatus(asked, numStreams, streams, row, 0);
    if status != SUCCESS then status else ScanStatus(asked, numStreams, streams, row + 1)
  }

  /** The bits that come back for a stream. */
  function OutBits(asked: seq<Row>, numStreams: int, streams: seq<Option<Info>>, row: nat, bit: nat): Bits
    requires row < |asked| && bit < BITS_PER_ROW
  {
    var info := Find(streams, 32 * row + bit);
    if Polled(asked, numStreams, row, bit) && info.Some? then Answer(info.value, asked[row][bit]) else NO_BITS
  }

  function OutRow(asked: seq<Row>, numStreams: int, streams: seq<Option<Info>>, row: nat): (r: Row)
    requires row < |asked|
    ensures forall bit :: 0 <= bit < BITS_PER_ROW ==> r[bit] == OutBits(asked, numStreams, streams, row, bit)
  {
    seq(BITS_PER_ROW, bit requires 0 <= bit < BITS_PER_ROW => OutBits(asked, numStreams, streams, row, bit))
  }

  /** How many of the first n streams of a row have any bit. */
  function Ready(row: seq<Bits>, n: nat): nat
    requires n <= |row|
  {
    if n == 0 then 0 else Ready(row, n - 1) + if Any(row[n - 1]) then 1 else 0
  }

  function AllReady(rows: seq<Row>): nat {
    if rows == [] then 0 else AllReady(rows[..|rows| - 1]) + Ready(rows[|rows| - 1], BITS_PER_ROW)
  }

  /** Output bits are bits that were asked for, on streams open in that mode whose routine found them
      ready; and every such bit of a polled stream, in particular of one up to numStreams, comes back. */
  lemma OutBitsMean(asked: seq<Row>, numStreams: int, streams: seq<Option<Info>>, row: nat, bit: nat)
    requires row < |asked| && bit < BITS_PER_ROW
    ensures var out, ask, id := OutBits(asked, numStreams, streams, row, bit), asked[row][bit], 32 * row + bit;
            if id < |streams| && streams[id].Some? && (Polled(asked, numStreams, row, bit) || id <= numStreams) then
              var info := streams[id].value;
              && (out.read <==> ask.read && info.readable && info.ready.read)
              && (out.write <==> ask.write && info.writable && info.ready.write)
              && (out.except <==> ask.except && info.ready.except)
            else !out.read && !out.write && !out.except
  {
    if Any(asked[row][bit]) && 32 * row + bit <= numStreams {
      AllAskedArePolled(asked, numStreams, row, bit);
    }
  }

  /** The count of a row is the number of its streams that have some bit. */
  lemma {:induction false} ReadyCounts(row: seq<Bits>, n: nat)
    requires n <= |row|
    ensures Ready(row, n) == |set k | 0 <= k < n && (row[k].read || row[k].write || row[k].except)|
  {
    if n > 0 {
      ReadyCounts(row, n - 1);
      var before := set k | 0 <= k < n - 1 && (row[k].read || row[k].write || row[k].except);
      var now := set k | 0 <= k < n && (row[k].read || row[k].write || row[k].except);
      assert now == if Any(row[n - 1]) then before + {n - 1} else before;
    }
  }

  /** A stream, by number, that has some bit in the masks. */
  predicate HasBit(rows: seq<Row>, id: nat) {
    id < 32 * |rows| && Any(rows[id / 32][id % 32])
  }

  function WithBits(rows: seq<Row>, n: nat): set<nat> {
    set id: nat | id < n && HasBit(rows, id)
  }

  lemma HasBitAt(rows: seq<Row>, m: nat, k: nat)
    requires m < |rows| && k < BITS_PER_ROW
    ensures HasBit(rows, 32 * m + k) <==> Any(rows[m][k])
  {
    assert (32 * m + k) / 32 == m && (32 * m + k) % 32 == k;
  }

  lemma OneMoreWithBits(rows: seq<Row>, id: nat)
    ensures |WithBits(rows, id + 1)| == |WithBits(rows, id)| + if HasBit(rows, id) then 1 else 0
  {
    assert WithBits(rows, id + 1) == if HasBit(rows, id) then WithBits(rows, id) + {id} else WithBits(rows, id);
  }

  lemma {:induction false} RowAdds(rows: seq<Row>, m: nat, k: nat)
    requires m < |rows| && k <= BITS_PER_ROW
    ensures |WithBits(rows, 32 * m + k)| == |WithBits(rows, 32 * m)| + Ready(rows[m], k)
  {
    if k > 0 {
      RowAdds(rows, m, k - 1);
      HasBitAt(rows, m, k - 1);
      OneMoreWithBits(rows, 32 * m + k - 1);
    }
  }

  /** The number of ready streams that a select returns is the number of streams with some bit in the
      output masks. */
  lemma {:induction false} NumReadyCounts(rows: seq<Row>, n: nat)
    requires n <= |rows|
    ensures AllReady(rows[..n]) == |WithBits(rows, 32 * n)|
  {
    if n == 0 {
      assert WithBits(rows, 0) == {};
    } else {
      NumReadyCounts(rows, n - 1);
      assert rows[..n][..n - 1] == rows[..n - 1];
      RowAdds(rows, n - 1, BITS_PER_ROW);
    }
  }

  /** The stream is open and its select routine succeeds. */
  predicate Fine(streams: seq<Option<Info>>, id: nat) {
    id < |streams| && streams[id].Some? && streams[id].value.status == SUCCESS
  }

  /** The polled stream at a row and bit is not fine, and all polled before it are, from bit `bit` of
      row `row` on. */
  ghost predicate FirstTrouble(asked: seq<Row>, numStreams: int, streams: seq<Option<Info>>, row: nat, bit: nat,
                               r: nat, k: nat) {
    && row <= r < |asked| && k < BITS_PER_ROW && (r == row ==> bit <= k)
    && Polled(asked, numStreams, r, k) && !Fine(streams, 32 * r + k)
    && (forall r', k' ::
          (&& row <= r' <= r && 0 <= k' < BITS_PER_ROW && (r' == row ==> bit <= k') && (r' == r ==> k' < k)
           && Polled(asked, numStreams, r', k')) ==> Fine(streams, 32 * r' + k'))
  }

  /** What a scan fails with there. */
  function Failure(streams: seq<Option<Info>>, id: nat): ReturnStatus {
    if id < |streams| && streams[id].Some? then streams[id].value.status else SYS_INVALID_ARG
  }

  /** One row succeeds exactly when every stream polled in it is fine. */
  lemma {:induction false} RowSucceeds(asked: seq<Row>, numStreams: int, streams: seq<Option<Info>>, row: nat, bit: nat)
    requires row < |asked| && bit <= BITS_PER_ROW
    ensures RowStatus(asked, numStreams, streams, row, bit) == SUCCESS <==>
            forall k :: bit <= k < BITS_PER_ROW && Polled(asked, numStreams, row, k) ==>
              Fine(streams, 32 * row + k)
    decreases BITS_PER_ROW - bit
  {
    if bit < BITS_PER_ROW {
      RowSucceeds(asked, numStreams, streams, row, bit + 1);
    }
  }

  /** Otherwise the first that is not gives the status. */
  lemma {:induction false} RowFails(asked: seq<Row>, numStreams: int, streams: seq<Option<Info>>, row: nat, bit: nat)
    returns (k: nat)
    requires row < |asked| && bit <= BITS_PER_ROW && RowStatus(asked, numStreams, streams, row, bit) != SUCCESS
    ensures bit <= k < BITS_PER_ROW && Polled(asked, numStreams, row, k) && !Fine(streams, 32 * row + k)
    ensures forall j :: bit <= j < k && Polled(asked, numStreams, row, j) ==> Fine(streams, 32 * row + j)
    ensures RowStatus(asked, numStreams, streams, row, bit) == Failure(streams, 32 * row + k)
    decreases BITS_PER_ROW - bit
  {
    if Polled(asked, numStreams, row, bit) && !Fine(streams, 32 * row + bit) {
      k := bit;
    } else {
      k := RowFails(asked, numStreams, streams, row, bit + 1);
    }
  }

  /** A scan succeeds exactly when every polled stream is open and its select routine succeeds. */
  lemma {:induction false} ScanSucceeds(asked: seq<Row>, numStreams: int, streams: seq<Option<Info>>, row: nat)
    requires row <= |asked|
    ensures ScanStatus(asked, numStreams, streams, row) == SUCCESS <==>
            forall r, k :: row <= r < |asked| && 0 <= k < BITS_PER_ROW && Polled(asked, numStreams, r, k) ==>
              Fine(streams, 32 * r + k)
    decreases |asked| - row
  {
    if row < |asked| {
      RowSucceeds(asked, numStreams, streams, row, 0);
      ScanSucceeds(asked, numStreams, streams, row + 1);
    }
  }

  /** Otherwise it fails with the status of the first polled stream that is not, or with
      SYS_INVALID_ARG if that one is not open. */
  lemma {:induction false} ScanFails(asked: seq<Row>, numStreams: int, streams: seq<Option<Info>>, row: nat)
    returns (r: nat, k: nat)
    requires row <= |asked| && ScanStatus(asked, numStreams, streams, row) != SUCCESS
    ensures FirstTrouble(asked, numStreams, streams, row, 0, r, k)
    ensures ScanStatus(asked, numStreams, streams, row) == Failure(streams, 32 * r + k)
    decreases |asked| - row
  {
    RowSucceeds(asked, numStreams, streams, row, 0);
    if RowStatus(asked, numStreams, streams, row, 0) != SUCCESS {
      r := row;
      k := RowFails(asked, numStreams, streams, row, 0);
    } else {
      r, k := ScanFails(asked, numStreams, streams, row + 1);
    }
  }
}
