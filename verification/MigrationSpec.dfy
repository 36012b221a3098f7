/** The bytes in which a process's file system state travels when the process migrates: how they
    are laid out, how they are read back, and that reading undoes writing. Both hosts have the
    same word order. */
module MigrationSpec {
  import opened Common

  /** A 32-bit word as the machine stores it, most significant byte first. */
  datatype word = Word(b0: byte, b1: byte, b2: byte, b3: byte)

  const NIL: word := Word(0xff, 0xff, 0xff, 0xff)
  /** sizeof(Fsio_MigInfo): nineteen words. */
  const MIG_SIZE := 76

  /** The size of n records of a stream: sizeof(int) + sizeof(Fsio_MigInfo) each. */
  function Records(n: nat): nat {
    80 * n
  }

  datatype FileID = FileID(kind: word, serverID: word, major: word, minor: word)
  datatype NameInfo = NameInfo(fileID: FileID, rootID: FileID)

  /** What Fsio_EncapStream records of a stream. An anonymous pipe has no name information. */
  datatype Stream = Stream(streamID: FileID, ioFileID: FileID, nameInfo: Option<NameInfo>,
                           srcClientID: word, offset: word, flags: word)

  /** The state that migrates. `prefix` is the prefix of the current directory. */
  datatype State = State(groups: seq<word>, permissions: word, flags: seq<byte>,
                         slots: seq<Option<Stream>>, prefix: seq<byte>, cwd: Stream)

  /** NIL as a file type marks missing name information, so no file has it. */
  predicate StreamOk(s: Stream) {
    s.nameInfo.Some? ==> s.nameInfo.value.fileID.kind != NIL
  }

  predicate StateOk(st: State) {
    && |st.flags| == |st.slots| && |st.slots| < 0x8000_0000 && |st.groups| < 0x8000_0000 && |st.prefix| < 0x8000_0000
    && (forall i :: 0 <= i < |st.prefix| ==> st.prefix[i] != 0)
    && StreamOk(st.cwd) && (forall i :: 0 <= i < |st.slots| && st.slots[i].Some? ==> StreamOk(st.slots[i].value))
  }

  /** Byte_AlignAddr: round up to a multiple of sizeof(double). */
  function Align(n: nat): (r: nat)
    ensures n <= r < n + 8 && r % 8 == 0
  {
    (n + 7) / 8 * 8
  }

  /** Fs_InitiateMigration: the announced size. */
  function Size(st: State): nat {
    (4 + |st.groups|) * 4 + Align(|st.slots|) + |st.slots| * (MIG_SIZE + 4) + MIG_SIZE + Align(|st.prefix| + 1)
  }

  // ------------------------------------------------------------------ words

  /** An unsigned number as a word. */
  function FromNat(n: nat): word
    requires n < 0x1_0000_0000
  {
    Word((n / 0x100_0000) as byte, (n / 0x1_0000 % 0x100) as byte, (n / 0x100 % 0x100) as byte, (n % 0x100) as byte)
  }

  function ToNat(w: word): nat {
    w.b0 as nat * 0x100_0000 + w.b1 as nat * 0x1_0000 + w.b2 as nat * 0x100 + w.b3 as nat
  }

  lemma NatRoundTrip(n: nat)
    requires n < 0x1_0000_0000
    ensures ToNat(FromNat(n)) == n
    ensures n < 0x8000_0000 ==> FromNat(n) != NIL
  {
  }

  function Bytes(w: word): (b: seq<byte>)
    ensures |b| == 4
  {
    [w.b0, w.b1, w.b2, w.b3]
  }

  function WordAt(b: seq<byte>, p: nat): word
    requires p + 4 <= |b|
  {
    Word(b[p], b[p + 1], b[p + 2], b[p + 3])
  }

  function Words(ws: seq<word>): (b: seq<byte>)
    ensures |b| == 4 * |ws|
  {
    if ws == [] then [] else Words(ws[..|ws| - 1]) + Bytes(ws[|ws| - 1])
  }

  lemma {:induction false} WordsAt(ws: seq<word>, i: nat)
    requires i < |ws|
    ensures WordAt(Words(ws), 4 * i) == ws[i]
  {
    var n := |ws| - 1;
    if i < n {
      WordsAt(ws[..n], i);
    }
  }

  lemma SliceOfSlice<T>(b: seq<T>, lo: nat, hi: nat, i: nat, j: nat)
    requires lo <= hi <= |b| && i <= j <= hi - lo
    ensures b[lo..hi][i..j] == b[lo + i..lo + j]
  {
    var l, r := b[lo..hi][i..j], b[lo + i..lo + j];
    forall k | 0 <= k < |l|
      ensures l[k] == r[k]
    {
      assert l[k] == b[lo..hi][i + k];
      assert r[k] == b[lo + i + k];
    }
  }

  /** Reading a word of a run of words that starts at p. */
  lemma WordInRun(b: seq<byte>, p: nat, ws: seq<word>, i: nat)
    requires p + 4 * |ws| <= |b| && b[p..p + 4 * |ws|] == Words(ws) && i < |ws|
    ensures WordAt(b, p + 4 * i) == ws[i]
  {
    WordsAt(ws, i);
    var run := b[p..p + 4 * |ws|];
    assert run[4 * i] == b[p + 4 * i] && run[4 * i + 1] == b[p + 4 * i + 1];
    assert run[4 * i + 2] == b[p + 4 * i + 2] && run[4 * i + 3] == b[p + 4 * i + 3];
  }

  // ------------------------------------------------------------------ streams

  function IdWords(id: FileID): seq<word> {
    [id.kind, id.serverID, id.major, id.minor]
  }

  /** Fsio_EncapStream sets FS_MIGRATED_FILE, 0x40000000, in the flags. */
  function Mark(flags: word): word {
    if flags.b0 / 0x40 % 2 == 1 then flags else flags.(b0 := flags.b0 + 0x40)
  }

  /** Bit k of n. */
  predicate Bit(n: nat, k: nat) {
    if k == 0 then n % 2 == 1 else Bit(n / 2, k - 1)
  }

  function Pow2(k: nat): nat {
    if k == 0 then 1 else 2 * Pow2(k - 1)
  }

  /** Adding a power of two that is not in n sets that bit and no other. */
  lemma {:induction false} AddBit(n: nat, m: nat, k: nat)
    requires !Bit(n, m)
    ensures Bit(n + Pow2(m), k) <==> k == m || Bit(n, k)
  {
    if m > 0 {
      assert (n + Pow2(m)) / 2 == n / 2 + Pow2(m - 1) && (n + Pow2(m)) % 2 == n % 2;
      if k > 0 {
        AddBit(n / 2, m - 1, k - 1);
      }
    } else if k > 0 {
      assert (n + 1) / 2 == n / 2;
    }
  }

  /** Dropping the last byte moves every bit down by eight. */
  lemma BitBelow(n: nat, k: nat)
    requires k >= 8
    ensures Bit(n, k) <==> Bit(n / 0x100, k - 8)
  {
    assert Bit(n, k) <==> Bit(n / 2, k - 1);
    assert Bit(n / 2, k - 1) <==> Bit(n / 4, k - 2);
    assert Bit(n / 4, k - 2) <==> Bit(n / 8, k - 3);
    assert Bit(n / 8, k - 3) <==> Bit(n / 16, k - 4);
    assert Bit(n / 16, k - 4) <==> Bit(n / 32, k - 5);
    assert Bit(n / 32, k - 5) <==> Bit(n / 64, k - 6);
    assert Bit(n / 64, k - 6) <==> Bit(n / 128, k - 7);
    assert Bit(n / 128, k - 7) <==> Bit(n / 256, k - 8);
  }

  lemma Bit30(w: word)
    ensures Bit(ToNat(w), 30) <==> w.b0 / 0x40 % 2 == 1
  {
    var n := ToNat(w);
    BitBelow(n, 30);
    BitBelow(n / 0x100, 22);
    BitBelow(n / 0x100 / 0x100, 14);
    assert n / 0x100 / 0x100 / 0x100 == w.b0 as nat;
    Bit6(w.b0 as nat);
  }

  lemma Bit6(n: nat)
    ensures Bit(n, 6) <==> n / 0x40 % 2 == 1
  {
    assert Bit(n, 6) <==> Bit(n / 2, 5);
    assert Bit(n / 2, 5) <==> Bit(n / 4, 4);
    assert Bit(n / 4, 4) <==> Bit(n / 8, 3);
    assert Bit(n / 8, 3) <==> Bit(n / 16, 2);
    assert Bit(n / 16, 2) <==> Bit(n / 32, 1);
    assert Bit(n / 32, 1) <==> Bit(n / 64, 0);
  }

  lemma Pow30()
    ensures Pow2(30) == 0x4000_0000
  {
    assert Pow2(8) == 0x100;
    assert Pow2(16) == 0x1_0000;
    assert Pow2(24) == 0x100_0000;
  }

  /** Bit 30, FS_MIGRATED_FILE, is set, and every other bit stays. */
  ghost predicate FlagSet(before: word, after: word) {
    forall k: nat :: Bit(ToNat(after), k) <==> k == 30 || Bit(ToNat(before), k)
  }

  lemma MarkSets(w: word)
    ensures FlagSet(w, Mark(w))
  {
    Bit30(w);
    if !Bit(ToNat(w), 30) {
      Pow30();
      assert ToNat(Mark(w)) == ToNat(w) + Pow2(30);
      forall k: nat
        ensures Bit(ToNat(Mark(w)), k) <==> k == 30 || Bit(ToNat(w), k)
      {
        AddBit(ToNat(w), 30, k);
      }
    }
  }

  /** A stream that has travelled: the flag is set, and all else is as it left. */
  ghost predicate Travelled(s: Stream, s': Stream) {
    && s'.streamID == s.streamID && s'.ioFileID == s.ioFileID && s'.nameInfo == s.nameInfo
    && s'.srcClientID == s.srcClientID && s'.offset == s.offset && FlagSet(s.flags, s'.flags)
  }

  function Marked(s: Stream): Stream {
    s.(flags := Mark(s.flags))
  }

  /** Fsio_EncapStream: the nineteen words of a stream. Without name information the words after
      the NIL file type keep what was in the buffer, `before`. */
  function InfoWords(s: Stream, before: seq<word>): (ws: seq<word>)
    requires |before| == 19
    ensures |ws| == 19
  {
    IdWords(s.streamID) + IdWords(s.ioFileID) +
    (if s.nameInfo.Some? then IdWords(s.nameInfo.value.fileID) + IdWords(s.nameInfo.value.rootID)
     else [NIL] + before[9..16]) +
    [s.srcClientID, s.offset, Mark(s.flags)]
  }

  function IdOf(ws: seq<word>, i: nat): FileID
    requires i + 4 <= |ws|
  {
    FileID(ws[i], ws[i + 1], ws[i + 2], ws[i + 3])
  }

  /** Fsio_DeencapStream's reading of nineteen words. */
  function StreamOf(ws: seq<word>): Stream
    requires |ws| == 19
  {
    Stream(IdOf(ws, 0), IdOf(ws, 4),
           if ws[8] == NIL then None else Some(NameInfo(IdOf(ws, 8), IdOf(ws, 12))),
           ws[16], ws[17], ws[18])
  }

  /** The words lie in the order of the structure: the stream's and the I/O handle's identifiers, those of
      the name and its root, or NIL, and then the client, the offset and the flags. */
  lemma InfoInOrder(s: Stream, before: seq<word>)
    requires |before| == 19
    ensures var ws := InfoWords(s, before);
            && ws[..4] == [s.streamID.kind, s.streamID.serverID, s.streamID.major, s.streamID.minor]
            && ws[4..8] == [s.ioFileID.kind, s.ioFileID.serverID, s.ioFileID.major, s.ioFileID.minor]
            && (match s.nameInfo
                case None => ws[8] == Word(255, 255, 255, 255) && ws[9..16] == before[9..16]
                case Some(name) =>
                  && ws[8..12] == [name.fileID.kind, name.fileID.serverID, name.fileID.major, name.fileID.minor]
                  && ws[12..16] == [name.rootID.kind, name.rootID.serverID, name.rootID.major, name.rootID.minor])
            && ws[16] == s.srcClientID && ws[17] == s.offset && FlagSet(s.flags, ws[18])
  {
    MarkSets(s.flags);
  }

  lemma StreamRoundTrip(s: Stream, before: seq<word>)
    requires StreamOk(s) && |before| == 19
    ensures StreamOf(InfoWords(s, before)) == Marked(s)
    ensures Travelled(s, StreamOf(InfoWords(s, before)))
  {
    MarkSets(s.flags);
  }

  /** Words of the buffer. */
  function ReadWords(b: seq<byte>, p: nat, n: nat): (ws: seq<word>)
    requires p + 4 * n <= |b|
    ensures |ws| == n && forall i :: 0 <= i < n ==> ws[i] == WordAt(b, p + 4 * i)
  {
    seq(n, i requires 0 <= i < n => WordAt(b, p + 4 * i))
  }

  lemma ReadWordsInRun(b: seq<byte>, p: nat, ws: seq<word>)
    requires p + 4 * |ws| <= |b| && b[p..p + 4 * |ws|] == Words(ws)
    ensures ReadWords(b, p, |ws|) == ws
  {
    forall i | 0 <= i < |ws|
      ensures WordAt(b, p + 4 * i) == ws[i]
    {
      WordInRun(b, p, ws, i);
    }
  }

  // ------------------------------------------------------------------ the whole state

  /** Bytes of the buffer as they were before: what padding and unwritten words keep. */
  function Before(junk: seq<byte>, p: nat, n: nat): (b: seq<byte>)
    requires p + n <= |junk|
    ensures |b| == n
  {
    junk[p..p + n]
  }

  function FlagsAt(st: State): nat {
    12 + 4 * |st.groups|
  }

  function PrefixAt(st: State): nat {
    FlagsAt(st) + Align(|st.slots|)
  }

  function CwdAt(st: State): nat {
    PrefixAt(st) + 4 + Align(|st.prefix| + 1)
  }

  function SlotsAt(st: State): nat {
    CwdAt(st) + MIG_SIZE
  }

  /** A stream's nineteen words, or zeros for a NIL slot, with the slot's index or NIL first. */
  function SlotBytes(slot: Option<Stream>, i: nat, before: seq<word>): (b: seq<byte>)
    requires |before| == 19 && i < 0x8000_0000
    ensures |b| == 80
  {
    if slot == None then Bytes(NIL) + seq(MIG_SIZE, _ => 0)
    else Bytes(FromNat(i)) + Words(InfoWords(slot.value, before))
  }

  /** A NIL slot travels as NIL and zeros. */
  lemma NilSlotIsZeros(i: nat, before: seq<word>, k: nat)
    requires |before| == 19 && i < 0x8000_0000 && k < 80
    ensures SlotBytes(None, i, before)[k] == if k < 4 then 255 else 0
  {
  }

  /** The record of slot i, where the records lie from base on. */
  function RecordOf(slots: seq<Option<Stream>>, i: nat, junk: seq<byte>, base: nat): (b: seq<byte>)
    requires i < |slots| < 0x8000_0000 && base + Records(i + 1) <= |junk|
    ensures |b| == 80
  {
    SlotBytes(slots[i], i, ReadWords(junk, base + Records(i) + 4, 19))
  }

  /** The records of the first n slots. */
  function AllSlots(slots: seq<Option<Stream>>, n: nat, junk: seq<byte>, base: nat): (b: seq<byte>)
    requires n <= |slots| < 0x8000_0000 && base + Records(n) <= |junk|
    ensures |b| == Records(n)
  {
    if n == 0 then [] else AllSlots(slots, n - 1, junk, base) + RecordOf(slots, n - 1, junk, base)
  }

  /** The groups, the permissions and the number of streams. */
  function Header(st: State): (b: seq<byte>)
    requires StateOk(st)
    ensures |b| == FlagsAt(st)
  {
    Words([FromNat(|st.groups|)] + st.groups + [st.permissions, FromNat(|st.slots|)])
  }

  /** The flag bytes, padded. */
  function FlagBytes(st: State, junk: seq<byte>): (b: seq<byte>)
    requires StateOk(st) && |junk| == Size(st)
    ensures |b| == Align(|st.slots|)
  {
    st.flags + Before(junk, FlagsAt(st) + |st.slots|, Align(|st.slots|) - |st.slots|)
  }

  /** The prefix of the current directory: its length, its bytes, a null byte, and padding. */
  function PrefixBytes(st: State, junk: seq<byte>): (b: seq<byte>)
    requires StateOk(st) && |junk| == Size(st)
    ensures |b| == 4 + Align(|st.prefix| + 1)
  {
    Bytes(FromNat(|st.prefix|)) + st.prefix + [0] +
    Before(junk, PrefixAt(st) + 5 + |st.prefix|, Align(|st.prefix| + 1) - |st.prefix| - 1)
  }

  /** Fs_EncapFileState: what a buffer that held `junk` holds afterwards. */
  function Encode(st: State, junk: seq<byte>): (b: seq<byte>)
    requires StateOk(st) && |junk| == Size(st)
    ensures |b| == Size(st)
  {
    Header(st) + FlagBytes(st, junk) + PrefixBytes(st, junk) +
    Words(InfoWords(st.cwd, ReadWords(junk, CwdAt(st), 19))) + AllSlots(st.slots, |st.slots|, junk, SlotsAt(st))
  }

  // ------------------------------------------------------------------ reading back

  /** The C string at p. */
  function CString(b: seq<byte>, p: nat): seq<byte>
    requires p <= |b|
    decreases |b| - p
  {
    if p == |b| || b[p] == 0 then [] else [b[p]] + CString(b, p + 1)
  }

  /** What Fs_DeencapFileState reads, when no stream fails. `slots` gives each slot the stream of
      the last record that names it. */
  datatype Decoded = Decoded(groups: seq<word>, permissions: word, flags: seq<byte>,
                             slots: seq<Option<Stream>>, name: seq<byte>, cwd: Stream)

  /** A new stream list. */
  function AllNil(n: nat): (slots: seq<Option<Stream>>)
    ensures |slots| == n && forall i :: 0 <= i < n ==> slots[i] == None
  {
    seq(n, _ => None)
  }

  /** Enter the records from i on in the slots they name. */
  function ReadSlots(b: seq<byte>, p: nat, i: nat, slots: seq<Option<Stream>>): Option<seq<Option<Stream>>>
    requires i <= |slots| && p + Records(|slots|) <= |b|
    decreases |slots| - i
  {
    if i == |slots| then Some(slots)
    else
      var index := WordAt(b, p + Records(i));
      if index == NIL then ReadSlots(b, p, i + 1, slots)
      else if ToNat(index) >= |slots| then None
      else ReadSlots(b, p, i + 1, slots[ToNat(index) := Some(StreamOf(ReadWords(b, p + Records(i) + 4, 19)))])
  }

  /** Where the parts of a buffer lie, as its counts say. */
  datatype Places = Places(numGroups: nat, numStreams: nat, prefixAt: nat, cwdAt: nat, slotsAt: nat)

  /** None when the buffer is too short for its own counts. */
  function FindPlaces(b: seq<byte>): Option<Places> {
    if |b| < 4 then None else PlacesAfter(b, ToNat(WordAt(b, 0)))
  }

  /** With the number of groups known. */
  function PlacesAfter(b: seq<byte>, g: nat): Option<Places> {
    if |b| < 12 + 4 * g then None else PlacesBefore(b, g, ToNat(WordAt(b, 8 + 4 * g)))
  }

  /** With the number of streams known. */
  function PlacesBefore(b: seq<byte>, g: nat, n: nat): Option<Places> {
    var q := 12 + 4 * g + Align(n);
    if |b| < q + 4 then None else LastPlace(b, g, n, q, ToNat(WordAt(b, q)))
  }

  /** With the length of the prefix known. */
  function LastPlace(b: seq<byte>, g: nat, n: nat, q: nat, length: nat): Option<Places> {
    var r := q + 4 + Align(length + 1);
    if |b| < r + MIG_SIZE + Records(n) then None else Some(Places(g, n, q, r, r + MIG_SIZE))
  }

  /** The parts fit in b, in order. */
  predicate Within(l: Places, b: seq<byte>) {
    && 12 + 4 * l.numGroups + l.numStreams <= l.prefixAt && l.prefixAt + 4 <= l.cwdAt
    && l.cwdAt + MIG_SIZE == l.slotsAt && l.slotsAt + Records(l.numStreams) <= |b|
  }

  lemma FoundWithin(b: seq<byte>)
    ensures FindPlaces(b).Some? ==> Within(FindPlaces(b).value, b)
  {
  }

  /** Fs_DeencapFileState, as a reading of the buffer; None when it would run off the buffer or
      the stream list. */
  function Decode(b: seq<byte>): Option<Decoded> {
    var l := FindPlaces(b);
    if l == None then None else FoundWithin(b); DecodeAt(b, l.value)
  }

  /** With the places known. */
  function DecodeAt(b: seq<byte>, l: Places): Option<Decoded>
    requires Within(l, b)
  {
    var slots := ReadSlots(b, l.slotsAt, 0, AllNil(l.numStreams));
    if slots == None then None else
    Some(Decoded(ReadWords(b, 4, l.numGroups), WordAt(b, 4 + 4 * l.numGroups),
                 b[12 + 4 * l.numGroups..12 + 4 * l.numGroups + l.numStreams], slots.value,
                 CString(b, l.prefixAt + 4), StreamOf(ReadWords(b, l.cwdAt, 19))))
  }

  // ------------------------------------------------------------------ the round trip

  /** Where each part of the encoding lies. */
  ghost predicate LaidOut(st: State, b: seq<byte>, junk: seq<byte>) {
    && StateOk(st) && |junk| == Size(st) == |b|
    && b[0..FlagsAt(st)] == Header(st)
    && b[FlagsAt(st)..PrefixAt(st)] == FlagBytes(st, junk)
    && b[PrefixAt(st)..CwdAt(st)] == PrefixBytes(st, junk)
    && b[CwdAt(st)..SlotsAt(st)] == Words(InfoWords(st.cwd, ReadWords(junk, CwdAt(st), 19)))
    && b[SlotsAt(st)..] == AllSlots(st.slots, |st.slots|, junk, SlotsAt(st))
  }

  lemma Layout(st: State, junk: seq<byte>)
    requires StateOk(st) && |junk| == Size(st)
    ensures LaidOut(st, Encode(st, junk), junk)
  {
    Parts(Header(st), FlagBytes(st, junk), PrefixBytes(st, junk),
          Words(InfoWords(st.cwd, ReadWords(junk, CwdAt(st), 19))), AllSlots(st.slots, |st.slots|, junk, SlotsAt(st)));
  }

  lemma Parts<T>(a: seq<T>, b: seq<T>, c: seq<T>, d: seq<T>, e: seq<T>)
    ensures var s := a + b + c + d + e;
            && s[0..|a|] == a
            && s[|a|..|a| + |b|] == b
            && s[|a| + |b|..|a| + |b| + |c|] == c
            && s[|a| + |b| + |c|..|a| + |b| + |c| + |d|] == d
            && s[|a| + |b| + |c| + |d|..] == e
  {
  }

  lemma HeaderRead(st: State, b: seq<byte>)
    requires StateOk(st) && |b| >= FlagsAt(st) && b[0..FlagsAt(st)] == Header(st)
    ensures ToNat(WordAt(b, 0)) == |st.groups|
    ensures ReadWords(b, 4, |st.groups|) == st.groups
    ensures WordAt(b, 4 + 4 * |st.groups|) == st.permissions
    ensures ToNat(WordAt(b, 8 + 4 * |st.groups|)) == |st.slots|
  {
    var n := |st.groups|;
    var ws := [FromNat(n)] + st.groups + [st.permissions, FromNat(|st.slots|)];
    WordInRun(b, 0, ws, 0);
    WordInRun(b, 0, ws, n + 1);
    WordInRun(b, 0, ws, n + 2);
    NatRoundTrip(n);
    NatRoundTrip(|st.slots|);
    forall i | 0 <= i < n
      ensures WordAt(b, 4 + 4 * i) == st.groups[i]
    {
      GroupRead(b, st.groups, ws, i);
    }
  }

  lemma GroupRead(b: seq<byte>, groups: seq<word>, ws: seq<word>, i: nat)
    requires i < |groups| && 1 + |groups| <= |ws| && ws[i + 1] == groups[i]
    requires |b| >= 4 * |ws| && b[0..4 * |ws|] == Words(ws)
    ensures WordAt(b, 4 + 4 * i) == groups[i]
  {
    WordInRun(b, 0, ws, i + 1);
    assert 4 + 4 * i == 0 + 4 * (i + 1);
  }

  lemma FlagsRead(st: State, b: seq<byte>, junk: seq<byte>)
    requires StateOk(st) && |junk| == Size(st) && |b| >= PrefixAt(st)
    requires b[FlagsAt(st)..PrefixAt(st)] == FlagBytes(st, junk)
    ensures b[FlagsAt(st)..FlagsAt(st) + |st.slots|] == st.flags
  {
    SliceOfSlice(b, FlagsAt(st), PrefixAt(st), 0, |st.slots|);
    assert FlagBytes(st, junk)[0..|st.slots|] == st.flags;
  }

  lemma {:induction false} CStringIs(b: seq<byte>, p: nat, s: seq<byte>)
    requires p + |s| < |b| && b[p..p + |s|] == s && b[p + |s|] == 0 && forall i :: 0 <= i < |s| ==> s[i] != 0
    ensures CString(b, p) == s
    decreases |s|
  {
    if s != [] {
      assert b[p] == b[p..p + |s|][0];
      SliceOfSlice(b, p, p + |s|, 1, |s|);
      CStringIs(b, p + 1, s[1..]);
    }
  }

  /** Reading a counted name: its length, its bytes, a null byte, and padding. */
  lemma NameRead(b: seq<byte>, p: nat, name: seq<byte>, pad: seq<byte>)
    requires |name| < 0x8000_0000 && forall i :: 0 <= i < |name| ==> name[i] != 0
    requires p + 5 + |name| + |pad| <= |b|
    requires b[p..p + 5 + |name| + |pad|] == Bytes(FromNat(|name|)) + name + [0] + pad
    ensures ToNat(WordAt(b, p)) == |name| && CString(b, p + 4) == name
  {
    var n := |name|;
    var part := b[p..p + 5 + n + |pad|];
    NatRoundTrip(n);
    assert part[0] == b[p] && part[1] == b[p + 1] && part[2] == b[p + 2] && part[3] == b[p + 3];
    assert part[4 + n] == b[p + 4 + n];
    forall i | 0 <= i < n
      ensures b[p + 4 + i] == name[i]
    {
      assert part[4 + i] == b[p + 4 + i];
    }
    assert b[p + 4..p + 4 + n] == name;
    CStringIs(b, p + 4, name);
  }

  lemma TwoParts<T>(a: seq<T>, b: seq<T>)
    ensures (a + b)[..|a|] == a && (a + b)[|a|..] == b && (a + b)[|a|..|a| + |b|] == b
    ensures forall i, j :: 0 <= i <= j <= |a| ==> (a + b)[i..j] == a[i..j]
  {
  }

  lemma {:induction false} SlotsLie(slots: seq<Option<Stream>>, n: nat, junk: seq<byte>, base: nat, i: nat)
    requires i < n <= |slots| < 0x8000_0000 && base + Records(n) <= |junk|
    ensures AllSlots(slots, n, junk, base)[Records(i)..Records(i + 1)] == RecordOf(slots, i, junk, base)
  {
    var front, last := AllSlots(slots, n - 1, junk, base), RecordOf(slots, n - 1, junk, base);
    assert AllSlots(slots, n, junk, base) == front + last;
    if i < n - 1 {
      SlotsLie(slots, n - 1, junk, base, i);
      SliceOfFront(front, last, Records(i), Records(i + 1));
    } else {
      TwoParts(front, last);
    }
  }

  lemma RecordRead(slot: Option<Stream>, i: nat, before: seq<word>, b: seq<byte>, p: nat)
    requires |before| == 19 && i < 0x8000_0000 && (slot.Some? ==> StreamOk(slot.value))
    requires p + 80 <= |b| && b[p..p + 80] == SlotBytes(slot, i, before)
    ensures WordAt(b, p) == if slot == None then NIL else FromNat(i)
    ensures slot.Some? ==> StreamOf(ReadWords(b, p + 4, 19)) == Marked(slot.value)
  {
    var rec := b[p..p + 80];
    assert rec[0] == b[p] && rec[1] == b[p + 1] && rec[2] == b[p + 2] && rec[3] == b[p + 3];
    if slot.Some? {
      var info := InfoWords(slot.value, before);
      TwoParts(Bytes(FromNat(i)), Words(info));
      SliceOfSlice(b, p, p + 80, 4, 80);
      ReadWordsInRun(b, p + 4, info);
      StreamRoundTrip(slot.value, before);
    }
  }

  /** What the record of slot i says, when the records lie in b from base on. */
  lemma SlotRead(slot: Option<Stream>, i: nat, before: seq<word>, b: seq<byte>, base: nat, records: seq<byte>)
    requires |before| == 19 && i < 0x8000_0000 && (slot.Some? ==> StreamOk(slot.value))
    requires base <= |b| && b[base..] == records && Records(i + 1) <= |records|
    requires records[Records(i)..Records(i + 1)] == SlotBytes(slot, i, before)
    ensures WordAt(b, base + Records(i)) == if slot == None then NIL else FromNat(i)
    ensures slot.Some? ==> StreamOf(ReadWords(b, base + Records(i) + 4, 19)) == Marked(slot.value)
  {
    assert b[base..|b|] == b[base..];
    SliceOfSlice(b, base, |b|, Records(i), Records(i + 1));
    RecordRead(slot, i, before, b, base + Records(i));
  }

  function MarkedSlot(slot: Option<Stream>): Option<Stream> {
    if slot == None then None else Some(Marked(slot.value))
  }

  /** The slots while the first i records have been read. */
  function Partly(slots: seq<Option<Stream>>, i: nat): (r: seq<Option<Stream>>)
    ensures |r| == |slots|
  {
    seq(|slots|, k requires 0 <= k < |slots| => if k < i then MarkedSlot(slots[k]) else None)
  }

  /** Each record says what its slot holds. */
  ghost predicate RecordsSay(slots: seq<Option<Stream>>, b: seq<byte>, base: nat) {
    && base + Records(|slots|) <= |b|
    && (forall i :: 0 <= i < |slots| ==> RecordSays(slots[i], i, b, base + Records(i)))
  }

  ghost predicate RecordSays(slot: Option<Stream>, i: nat, b: seq<byte>, p: nat) {
    && i < 0x8000_0000 && p + 80 <= |b|
    && WordAt(b, p) == (if slot == None then NIL else FromNat(i))
    && (slot.Some? ==> StreamOf(ReadWords(b, p + 4, 19)) == Marked(slot.value))
  }

  lemma {:induction false} SlotsRead(slots: seq<Option<Stream>>, b: seq<byte>, base: nat, i: nat)
    requires RecordsSay(slots, b, base) && i <= |slots|
    ensures ReadSlots(b, base, i, Partly(slots, i)) == Some(Partly(slots, |slots|))
    decreases |slots| - i
  {
    if i < |slots| {
      SlotFilled(slots, b, base, i);
      var part := Partly(slots, i);
      var index, stream := WordAt(b, base + Records(i)), StreamOf(ReadWords(b, base + Records(i) + 4, 19));
      if index == NIL {
        assert ReadSlots(b, base, i, part) == ReadSlots(b, base, i + 1, part);
      } else {
        var next := part[ToNat(index) := Some(stream)];
        assert ReadSlots(b, base, i, part) == ReadSlots(b, base, i + 1, next);
      }
      SlotsRead(slots, b, base, i + 1);
    }
  }

  /** The record of slot i fills it. */
  lemma SlotFilled(slots: seq<Option<Stream>>, b: seq<byte>, base: nat, i: nat)
    requires RecordsSay(slots, b, base) && i < |slots|
    ensures var index, stream := WordAt(b, base + Records(i)), StreamOf(ReadWords(b, base + Records(i) + 4, 19));
            if index == NIL then Partly(slots, i) == Partly(slots, i + 1)
            else ToNat(index) == i && Partly(slots, i)[ToNat(index) := Some(stream)] == Partly(slots, i + 1)
  {
    assert RecordSays(slots[i], i, b, base + Records(i));
    NatRoundTrip(i);
    PartlyStep(slots, i);
  }

  lemma PartlyStep(slots: seq<Option<Stream>>, i: nat)
    requires i < |slots|
    ensures slots[i].Some? ==> Partly(slots, i)[i := MarkedSlot(slots[i])] == Partly(slots, i + 1)
    ensures slots[i] == None ==> Partly(slots, i) == Partly(slots, i + 1)
  {
  }

  lemma LastFound(b: seq<byte>, l: Places, length: nat)
    requires l.prefixAt == 12 + 4 * l.numGroups + Align(l.numStreams)
    requires l.cwdAt == l.prefixAt + 4 + Align(length + 1)
    requires l.slotsAt == l.cwdAt + MIG_SIZE && l.slotsAt + Records(l.numStreams) <= |b|
    requires ToNat(WordAt(b, l.prefixAt)) == length
    ensures PlacesBefore(b, l.numGroups, l.numStreams) == Some(l)
  {
  }

  lemma StreamsFound(b: seq<byte>, g: nat, n: nat)
    requires |b| >= 12 + 4 * g && ToNat(WordAt(b, 8 + 4 * g)) == n
    ensures PlacesAfter(b, g) == PlacesBefore(b, g, n)
  {
  }

  lemma GroupsFound(b: seq<byte>, g: nat)
    requires |b| >= 4 && ToNat(WordAt(b, 0)) == g
    ensures FindPlaces(b) == PlacesAfter(b, g)
  {
  }

  /** The places that decoding finds. */
  lemma PlacesFound(b: seq<byte>, l: Places, length: nat)
    requires l.prefixAt == 12 + 4 * l.numGroups + Align(l.numStreams)
    requires l.cwdAt == l.prefixAt + 4 + Align(length + 1)
    requires l.slotsAt == l.cwdAt + MIG_SIZE && l.slotsAt + Records(l.numStreams) <= |b|
    requires ToNat(WordAt(b, 0)) == l.numGroups && ToNat(WordAt(b, 8 + 4 * l.numGroups)) == l.numStreams
    requires ToNat(WordAt(b, l.prefixAt)) == length
    ensures FindPlaces(b) == Some(l)
  {
    LastFound(b, l, length);
    StreamsFound(b, l.numGroups, l.numStreams);
    GroupsFound(b, l.numGroups);
  }

  lemma CwdRead(st: State, b: seq<byte>, junk: seq<byte>)
    requires StateOk(st) && |junk| == Size(st) == |b|
    requires b[CwdAt(st)..CwdAt(st) + MIG_SIZE] == Words(InfoWords(st.cwd, ReadWords(junk, CwdAt(st), 19)))
    ensures StreamOf(ReadWords(b, CwdAt(st), 19)) == Marked(st.cwd)
  {
    var before := ReadWords(junk, CwdAt(st), 19);
    ReadWordsInRun(b, CwdAt(st), InfoWords(st.cwd, before));
    StreamRoundTrip(st.cwd, before);
  }

  lemma PrefixRead(st: State, b: seq<byte>, junk: seq<byte>)
    requires StateOk(st) && |junk| == Size(st) == |b|
    requires b[PrefixAt(st)..CwdAt(st)] == PrefixBytes(st, junk)
    ensures ToNat(WordAt(b, PrefixAt(st))) == |st.prefix| && CString(b, PrefixAt(st) + 4) == st.prefix
  {
    NameRead(b, PrefixAt(st), st.prefix,
             Before(junk, PrefixAt(st) + 5 + |st.prefix|, Align(|st.prefix| + 1) - |st.prefix| - 1));
  }

  lemma StreamsSay(slots: seq<Option<Stream>>, b: seq<byte>, junk: seq<byte>, base: nat, i: nat)
    requires i < |slots| < 0x8000_0000 && base + Records(|slots|) <= |junk|
    requires base <= |b| && b[base..] == AllSlots(slots, |slots|, junk, base)
    requires slots[i].Some? ==> StreamOk(slots[i].value)
    ensures base + Records(i + 1) <= |b| && RecordSays(slots[i], i, b, base + Records(i))
  {
    var records := AllSlots(slots, |slots|, junk, base);
    SlotsLie(slots, |slots|, junk, base, i);
    SlotRead(slots[i], i, ReadWords(junk, base + Records(i) + 4, 19), b, base, records);
  }

  lemma StreamsRead(slots: seq<Option<Stream>>, b: seq<byte>, junk: seq<byte>, base: nat)
    requires |slots| < 0x8000_0000 && base + Records(|slots|) <= |junk|
    requires base <= |b| && b[base..] == AllSlots(slots, |slots|, junk, base)
    requires forall i :: 0 <= i < |slots| && slots[i].Some? ==> StreamOk(slots[i].value)
    ensures base + Records(|slots|) <= |b|
    ensures ReadSlots(b, base, 0, AllNil(|slots|)) == Some(Partly(slots, |slots|))
  {
    forall i | 0 <= i < |slots|
      ensures RecordSays(slots[i], i, b, base + Records(i))
    {
      StreamsSay(slots, b, junk, base, i);
    }
    SlotsRead(slots, b, base, 0);
    assert AllNil(|slots|) == Partly(slots, 0);
  }

  function PlacesOf(st: State): Places {
    Places(|st.groups|, |st.slots|, PrefixAt(st), CwdAt(st), SlotsAt(st))
  }

  lemma PlacesRead(st: State, b: seq<byte>, junk: seq<byte>)
    requires LaidOut(st, b, junk)
    ensures FindPlaces(b) == Some(PlacesOf(st))
  {
    HeaderRead(st, b);
    PrefixRead(st, b, junk);
    PlacesFound(b, PlacesOf(st), |st.prefix|);
  }

  /** The counted parts of b at the places l. */
  ghost predicate GroupsAre(b: seq<byte>, l: Places, d: Decoded) {
    Within(l, b) && ReadWords(b, 4, l.numGroups) == d.groups && WordAt(b, 4 + 4 * l.numGroups) == d.permissions
  }

  ghost predicate FlagsAre(b: seq<byte>, l: Places, d: Decoded) {
    Within(l, b) && b[12 + 4 * l.numGroups..12 + 4 * l.numGroups + l.numStreams] == d.flags
  }

  /** The records of the streams. */
  ghost predicate SlotsAre(b: seq<byte>, l: Places, d: Decoded) {
    Within(l, b) && ReadSlots(b, l.slotsAt, 0, AllNil(l.numStreams)) == Some(d.slots)
  }

  ghost predicate NameIs(b: seq<byte>, l: Places, d: Decoded) {
    Within(l, b) && CString(b, l.prefixAt + 4) == d.name
  }

  ghost predicate CwdIs(b: seq<byte>, l: Places, d: Decoded) {
    Within(l, b) && StreamOf(ReadWords(b, l.cwdAt, 19)) == d.cwd
  }

  lemma DecodeIs(b: seq<byte>, l: Places, d: Decoded)
    requires GroupsAre(b, l, d) && FlagsAre(b, l, d) && NameIs(b, l, d) && CwdIs(b, l, d) && SlotsAre(b, l, d)
    ensures DecodeAt(b, l) == Some(d)
  {
  }

  /** What the other host makes of st. */
  function Arrival(st: State): Decoded {
    Decoded(st.groups, st.permissions, st.flags, Partly(st.slots, |st.slots|), st.prefix, Marked(st.cwd))
  }

  lemma GroupsRead(st: State, b: seq<byte>, junk: seq<byte>)
    requires LaidOut(st, b, junk)
    ensures GroupsAre(b, PlacesOf(st), Arrival(st))
  {
    HeaderRead(st, b);
  }

  lemma FlagListRead(st: State, b: seq<byte>, junk: seq<byte>)
    requires LaidOut(st, b, junk)
    ensures FlagsAre(b, PlacesOf(st), Arrival(st))
  {
    FlagsRead(st, b, junk);
  }

  lemma SlotListRead(st: State, b: seq<byte>, junk: seq<byte>)
    requires LaidOut(st, b, junk)
    ensures SlotsAre(b, PlacesOf(st), Arrival(st))
  {
    StreamsRead(st.slots, b, junk, SlotsAt(st));
  }

  lemma PrefixNameRead(st: State, b: seq<byte>, junk: seq<byte>)
    requires LaidOut(st, b, junk)
    ensures NameIs(b, PlacesOf(st), Arrival(st))
  {
    PrefixRead(st, b, junk);
  }

  lemma DirectoryRead(st: State, b: seq<byte>, junk: seq<byte>)
    requires LaidOut(st, b, junk)
    ensures CwdIs(b, PlacesOf(st), Arrival(st))
  {
    CwdRead(st, b, junk);
  }

  /** What has arrived is what left: the groups, the permission mask, every flag byte, the prefix, the
      current directory, and every stream at its own index, with NIL slots staying NIL. The only
      difference is that each stream is marked as migrated. */
  ghost predicate Arrived(st: State, d: Decoded) {
    && d.groups == st.groups && d.permissions == st.permissions && d.flags == st.flags && d.name == st.prefix
    && Travelled(st.cwd, d.cwd) && |d.slots| == |st.slots|
    && (forall i :: 0 <= i < |st.slots| ==>
          if st.slots[i] == None then d.slots[i] == None
          else d.slots[i].Some? && Travelled(st.slots[i].value, d.slots[i].value))
  }

  lemma ArrivalArrives(st: State)
    ensures Arrived(st, Arrival(st))
  {
    MarkSets(st.cwd.flags);
    forall i | 0 <= i < |st.slots| && st.slots[i].Some?
      ensures Travelled(st.slots[i].value, Marked(st.slots[i].value))
    {
      MarkSets(st.slots[i].value.flags);
    }
  }

  /** Reading undoes writing, for every state and whatever the buffer held before. */
  lemma RoundTrip(st: State, junk: seq<byte>)
    requires StateOk(st) && |junk| == Size(st)
    ensures Decode(Encode(st, junk)) == Some(Arrival(st)) && Arrived(st, Decode(Encode(st, junk)).value)
  {
    ArrivalArrives(st);
    var b := Encode(st, junk);
    Layout(st, junk);
    PlacesRead(st, b, junk);
    GroupsRead(st, b, junk);
    FlagListRead(st, b, junk);
    PrefixNameRead(st, b, junk);
    DirectoryRead(st, b, junk);
    SlotListRead(st, b, junk);
    DecodeIs(b, PlacesOf(st), Arrival(st));
  }
}
