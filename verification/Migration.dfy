/** Fs_InitiateMigration, Fs_EncapFileState and Fs_DeencapFileState: a pointer moves through a
    buffer, writing a process's file system state on one host and reading it on the other. */
module Migration {
  import opened Common
  import opened MigrationSpec
  import opened MigrationArrival

  // ------------------------------------------------------------------ a buffer filled from the front

  /** The buffer holds `done` and then what it held before. */
  ghost predicate Filled(b: seq<byte>, done: seq<byte>, junk: seq<byte>) {
    |done| <= |junk| && b == done + junk[|done|..]
  }

  lemma FilledAll(b: seq<byte>, done: seq<byte>, junk: seq<byte>)
    requires Filled(b, done, junk) && |done| == |junk|
    ensures b == done
  {
    assert junk[|junk|..] == [];
  }

  lemma FilledMore(b: seq<byte>, b': seq<byte>, done: seq<byte>, junk: seq<byte>, s: seq<byte>)
    requires Filled(b, done, junk) && |done| + |s| <= |junk|
    requires b' == b[..|done|] + s + b[|done| + |s|..]
    ensures Filled(b', done + s, junk)
  {
    assert b[..|done|] == done;
    assert b[|done| + |s|..] == junk[|done| + |s|..];
  }

  lemma FilledSkip(b: seq<byte>, done: seq<byte>, junk: seq<byte>, n: nat)
    requires Filled(b, done, junk) && |done| + n <= |junk|
    ensures Filled(b, done + Before(junk, |done|, n), junk)
  {
    assert junk[|done|..] == Before(junk, |done|, n) + junk[|done| + n..];
  }

  /** bcopy: copy bytes to where the pointer is. */
  method Copy(buf: array<byte>, p: nat, s: seq<byte>, ghost done: seq<byte>, ghost junk: seq<byte>)
    requires Filled(buf[..], done, junk) && p == |done| && p + |s| <= |junk|
    modifies buf
    ensures Filled(buf[..], done + s, junk)
  {
    ghost var before := buf[..];
    for i := 0 to |s|
      invariant buf[..] == before[..p] + s[..i] + before[p + i..]
    {
      CopiedMore(buf[..], before, p, s, i);
      buf[p + i] := s[i];
    }
    assert s[..|s|] == s;
    FilledMore(before, buf[..], done, junk, s);
  }

  /** Byte_FillBuffer for each of a run of words. */
  method CopyWords(buf: array<byte>, p: nat, ws: seq<word>, ghost done: seq<byte>, ghost junk: seq<byte>)
    requires Filled(buf[..], done, junk) && p == |done| && p + 4 * |ws| <= |junk|
    modifies buf
    ensures Filled(buf[..], done + Words(ws), junk)
  {
    assert done + Words([]) == done;
    for i := 0 to |ws|
      invariant Filled(buf[..], done + Words(ws[..i]), junk)
    {
      Copy(buf, p + 4 * i, Bytes(ws[i]), done + Words(ws[..i]), junk);
      assert ws[..i + 1][..i] == ws[..i];
      assert done + Words(ws[..i]) + Bytes(ws[i]) == done + (Words(ws[..i]) + Bytes(ws[i]));
    }
    assert ws[..|ws|] == ws;
  }

  lemma {:induction false} WordsBoth(a: seq<word>, c: seq<word>)
    ensures Words(a + c) == Words(a) + Words(c)
  {
    if c == [] {
      assert a + c == a;
    } else {
      var n := |c| - 1;
      WordsBoth(a, c[..n]);
      assert (a + c)[..|a + c| - 1] == a + c[..n];
      assert Words(a) + Words(c) == Words(a) + Words(c[..n]) + Bytes(c[n]);
    }
  }

  lemma {:induction false} WordsOfRead(b: seq<byte>, p: nat, n: nat)
    requires p + 4 * n <= |b|
    ensures Words(ReadWords(b, p, n)) == b[p..p + 4 * n]
  {
    if n > 0 {
      WordsOfRead(b, p, n - 1);
      assert ReadWords(b, p, n)[..n - 1] == ReadWords(b, p, n - 1);
      assert Bytes(WordAt(b, p + 4 * (n - 1))) == b[p + 4 * (n - 1)..p + 4 * n];
    }
  }

  /** The words before and after the missing name information, and the seven that are skipped. */
  function FirstWords(s: Stream): (ws: seq<word>)
    requires s.nameInfo == None
    ensures |ws| == 9
  {
    IdWords(s.streamID) + IdWords(s.ioFileID) + [NIL]
  }

  function LastWords(s: Stream): (ws: seq<word>)
    ensures |ws| == 3
  {
    [s.srcClientID, s.offset, Mark(s.flags)]
  }

  lemma NamelessWords(s: Stream, done: seq<byte>, junk: seq<byte>)
    requires s.nameInfo == None && |done| + MIG_SIZE <= |junk|
    ensures done + Words(InfoWords(s, ReadWords(junk, |done|, 19))) ==
            done + Words(FirstWords(s)) + Before(junk, |done| + 36, 28) + Words(LastWords(s))
  {
    var before := ReadWords(junk, |done|, 19);
    var middle := before[9..16];
    assert middle == ReadWords(junk, |done| + 36, 7);
    WordsOfRead(junk, |done| + 36, 7);
    assert InfoWords(s, before) == FirstWords(s) + middle + LastWords(s);
    WordsBoth(FirstWords(s) + middle, LastWords(s));
    WordsBoth(FirstWords(s), middle);
  }

  /** Fsio_EncapStream. */
  method EncapStream(s: Stream, buf: array<byte>, p: nat, ghost done: seq<byte>, ghost junk: seq<byte>)
    requires Filled(buf[..], done, junk) && p == |done| && p + MIG_SIZE <= |junk|
    modifies buf
    ensures Filled(buf[..], done + Words(InfoWords(s, ReadWords(junk, p, 19))), junk)
  {
    if s.nameInfo == None {
      CopyWords(buf, p, FirstWords(s), done, junk);
      ghost var first := done + Words(FirstWords(s));
      FilledSkip(buf[..], first, junk, 28);
      CopyWords(buf, p + 64, LastWords(s), first + Before(junk, p + 36, 28), junk);
      NamelessWords(s, done, junk);
    } else {
      var name := s.nameInfo.value;
      ghost var before := ReadWords(junk, p, 19);
      var ws := IdWords(s.streamID) + IdWords(s.ioFileID) + (IdWords(name.fileID) + IdWords(name.rootID)) +
                LastWords(s);
      assert ws == InfoWords(s, before);
      CopyWords(buf, p, ws, done, junk);
    }
  }

  // ------------------------------------------------------------------ the process that leaves

  /** The first i slots are NIL. */
  function NilBelow(slots: seq<Option<Stream>>, i: nat): (r: seq<Option<Stream>>)
    ensures |r| == |slots|
  {
    seq(|slots|, k requires 0 <= k < |slots| => if k < i then None else slots[k])
  }

  lemma NilStep(slots: seq<Option<Stream>>, i: nat)
    requires i < |slots|
    ensures NilBelow(slots, i)[i] == slots[i] && NilBelow(slots, i)[i := None] == NilBelow(slots, i + 1)
  {
  }

  lemma SlotsMore(slots: seq<Option<Stream>>, i: nat, junk: seq<byte>, base: nat, done: seq<byte>, p: nat,
                  slot: Option<Stream>, filled: seq<byte>, more: seq<byte>)
    requires i < |slots| < 0x8000_0000 && base + Records(i + 1) <= |junk|
    requires p == base + Records(i) && slot == slots[i] && filled == done + AllSlots(slots, i, junk, base)
    requires more == done + AllSlots(slots, i + 1, junk, base)
    ensures more == filled + SlotBytes(slot, i, ReadWords(junk, p + 4, 19))
  {
    var front, record := AllSlots(slots, i, junk, base), RecordOf(slots, i, junk, base);
    assert AllSlots(slots, i + 1, junk, base) == front + record;
    Associate(done, front, record);
    assert base + Records(i) + 4 == p + 4;
  }

  /** The encoding, told from where the current directory lies. */
  lemma EncodeIs(st: State, junk: seq<byte>, p: nat)
    requires StateOk(st) && |junk| == Size(st) && p == CwdAt(st)
    ensures p == |Header(st) + FlagBytes(st, junk) + PrefixBytes(st, junk)|
    ensures p + MIG_SIZE + Records(|st.slots|) == |junk|
    ensures Header(st) + FlagBytes(st, junk) + PrefixBytes(st, junk) +
            Words(InfoWords(st.cwd, ReadWords(junk, p, 19))) +
            AllSlots(st.slots, |st.slots|, junk, p + MIG_SIZE) == Encode(st, junk)
  {
  }

  class FileState {
    const prefix: Option<seq<byte>>
    var groups: seq<word>
    var permissions: word
    var flags: seq<byte>
    var slots: seq<Option<Stream>>
    var cwd: Option<Stream>

    ghost function State(): State
      requires cwd.Some? && prefix.Some?
      reads this
    {
      MigrationSpec.State(groups, permissions, flags, slots, prefix.value, cwd.value)
    }

    /** A process has a current directory, whose name information leads to its prefix. */
    ghost predicate Valid()
      reads this
    {
      cwd.Some? && |flags| == |slots| && (prefix.Some? ==> StateOk(State()))
    }

    ghost predicate Named()
      reads this
    {
      cwd.Some? && cwd.value.nameInfo.Some? && prefix.Some?
    }

    /** Fs_InitiateMigration. */
    method InitiateMigration() returns (status: ReturnStatus, size: nat)
      requires Valid()
      ensures status == if Named() then SUCCESS else FAILURE
      ensures Named() ==> size == Size(State())
    {
      size := 0;
      if cwd.value.nameInfo == None || prefix == None {
        return FAILURE, size;
      }
      var cwdLength := Align(|prefix.value| + 1);
      var streamFlagsLen := Align(|slots|);
      size := (4 + |groups|) * 4 + streamFlagsLen + |slots| * (MIG_SIZE + 4) + MIG_SIZE + cwdLength;
      return SUCCESS, size;
    }

    /** The fixed part: groups, permissions and number of streams. */
    method EncapHeader(buf: array<byte>) returns (p: nat)
      requires Valid() && Named() && buf.Length == Size(State())
      modifies buf
      ensures p == FlagsAt(State()) && Filled(buf[..], Header(State()), old(buf[..]))
    {
      ghost var junk := buf[..];
      var n := |groups|;
      CopyWords(buf, 0, [FromNat(n)], [], junk);
      p := 4;
      if n > 0 {
        CopyWords(buf, p, groups, Words([FromNat(n)]), junk);
        p := p + 4 * n;
      }
      WordsBoth([FromNat(n)], groups);
      CopyWords(buf, p, [permissions, FromNat(|slots|)], Words([FromNat(n)] + groups), junk);
      WordsBoth([FromNat(n)] + groups, [permissions, FromNat(|slots|)]);
      p := p + 8;
    }

    /** The flag bytes and the prefix, each padded. */
    method EncapNames(buf: array<byte>, start: nat, ghost junk: seq<byte>) returns (p: nat)
      requires Valid() && Named() && |junk| == Size(State()) && start == FlagsAt(State())
      requires Filled(buf[..], Header(State()), junk)
      modifies buf
      ensures p == CwdAt(State())
      ensures Filled(buf[..], Header(State()) + FlagBytes(State(), junk) + PrefixBytes(State(), junk), junk)
    {
      p := EncapFlags(buf, start, Header(State()), junk);
      p := EncapPrefix(buf, p, prefix.value, Header(State()) + FlagBytes(State(), junk), junk);
    }

    /** The flag bytes, padded; nothing when there are no streams. */
    method EncapFlags(buf: array<byte>, start: nat, ghost done: seq<byte>, ghost junk: seq<byte>) returns (p: nat)
      requires |flags| == |slots| && start == |done| && start + Align(|slots|) <= |junk| && Filled(buf[..], done, junk)
      modifies buf
      ensures p == start + Align(|slots|)
      ensures Filled(buf[..], done + (flags + Before(junk, start + |slots|, Align(|slots|) - |slots|)), junk)
    {
      p := start;
      var n := |slots|;
      var flagsLen := Align(n);
      ghost var pad := Before(junk, start + n, flagsLen - n);
      assert done + flags + pad == done + (flags + pad);
      if n > 0 {
        Copy(buf, p, flags, done, junk);
        FilledSkip(buf[..], done + flags, junk, flagsLen - n);
        p := p + flagsLen;
      }
    }

    /** The counted prefix, its null byte, and padding. */
    static method EncapPrefix(buf: array<byte>, start: nat, name: seq<byte>,
                              ghost done: seq<byte>, ghost junk: seq<byte>)
      returns (p: nat)
      requires |name| < 0x8000_0000 && start == |done| && start + 4 + Align(|name| + 1) <= |junk|
      requires Filled(buf[..], done, junk)
      modifies buf
      ensures p == start + 4 + Align(|name| + 1)
      ensures Filled(buf[..], done + (Bytes(FromNat(|name|)) + name + [0] +
                Before(junk, start + 5 + |name|, Align(|name| + 1) - |name| - 1)), junk)
    {
      var length := |name|;
      var cwdLength := Align(length + 1);
      Copy(buf, start, Bytes(FromNat(length)), done, junk);
      ghost var counted := done + Bytes(FromNat(length));
      Copy(buf, start + 4, name, counted, junk);
      Copy(buf, start + 4 + length, [0], counted + name, junk);
      ghost var ended := counted + name + [0];
      FilledSkip(buf[..], ended, junk, cwdLength - length - 1);
      ghost var pad := Before(junk, start + 5 + length, cwdLength - length - 1);
      assert ended + pad == done + (Bytes(FromNat(length)) + name + [0] + pad);
      p := start + 4 + cwdLength;
    }

    /** One record: a stream, or the mark of a NIL slot and zeros. The slot becomes NIL. */
    method EncapSlot(buf: array<byte>, p: nat, i: nat, ghost done: seq<byte>, ghost junk: seq<byte>,
                     ghost more: seq<byte>)
      requires i < |slots| < 0x8000_0000 && p == |done| && p + 80 <= |junk| && Filled(buf[..], done, junk)
      requires more == done + SlotBytes(slots[i], i, ReadWords(junk, p + 4, 19))
      modifies this`slots, buf
      ensures slots == old(slots)[i := None] && Filled(buf[..], more, junk)
    {
      var slot := slots[i];
      if slot == None {
        Copy(buf, p, Bytes(NIL), done, junk);
        var zeros: seq<byte> := seq(MIG_SIZE, _ => 0);
        Copy(buf, p + 4, zeros, done + Bytes(NIL), junk);
        assert done + Bytes(NIL) + zeros == more;
      } else {
        Copy(buf, p, Bytes(FromNat(i)), done, junk);
        EncapStream(slot.value, buf, p + 4, done + Bytes(FromNat(i)), junk);
        ghost var info := Words(InfoWords(slot.value, ReadWords(junk, p + 4, 19)));
        assert done + Bytes(FromNat(i)) + info == more;
        slots := slots[i := None];
      }
    }

    /** The loop over the stream list. */
    method EncapSlots(buf: array<byte>, start: nat, ghost done: seq<byte>, ghost junk: seq<byte>)
      requires |slots| < 0x8000_0000 && start == |done| && start + Records(|slots|) == |junk|
      requires Filled(buf[..], done, junk)
      modifies this`slots, buf
      ensures slots == NilBelow(old(slots), |old(slots)|)
      ensures buf[..] == done + AllSlots(old(slots), |old(slots)|, junk, start)
    {
      ghost var was, filled := slots, done;
      var p := start;
      assert done + AllSlots(was, 0, junk, start) == done;
      for i := 0 to |slots|
        invariant slots == NilBelow(was, i) && p == start + Records(i) == |filled|
        invariant filled == done + AllSlots(was, i, junk, start) && Filled(buf[..], filled, junk)
      {
        ghost var more := done + AllSlots(was, i + 1, junk, start);
        NilStep(was, i);
        SlotsMore(was, i, junk, start, done, p, slots[i], filled, more);
        EncapSlot(buf, p, i, filled, junk, more);
        filled := more;
        p := p + 80;
      }
      FilledAll(buf[..], filled, junk);
    }

    /** The current directory and the stream list. */
    method EncapStreams(buf: array<byte>, p: nat, ghost done: seq<byte>, ghost junk: seq<byte>)
      requires cwd.Some? && |slots| < 0x8000_0000 && p == |done| && p + MIG_SIZE + Records(|slots|) == |junk|
      requires Filled(buf[..], done, junk)
      modifies this`slots, this`cwd, buf
      ensures cwd == None && slots == NilBelow(old(slots), |old(slots)|)
      ensures buf[..] == done + Words(InfoWords(old(cwd).value, ReadWords(junk, p, 19))) +
                         AllSlots(old(slots), |old(slots)|, junk, p + MIG_SIZE)
    {
      EncapStream(cwd.value, buf, p, done, junk);
      ghost var more := done + Words(InfoWords(cwd.value, ReadWords(junk, p, 19)));
      cwd := None;
      EncapSlots(buf, p + MIG_SIZE, more, junk);
    }

    /** Fs_EncapFileState, into the buffer whose announced size is its length. It refuses when the
        state no longer has that size; otherwise it fills the buffer exactly, and every reference
        has left the process. */
    method EncapFileState(buf: array<byte>) returns (status: ReturnStatus)
      requires Valid()
      modifies this`slots, this`cwd, buf
      ensures status == if old(Named()) && buf.Length == old(Size(State())) then SUCCESS else FAILURE
      ensures status == FAILURE ==> buf[..] == old(buf[..]) && slots == old(slots) && cwd == old(cwd)
      ensures status == SUCCESS ==> buf[..] == Encode(old(State()), old(buf[..]))
      ensures status == SUCCESS ==> cwd == None && slots == NilBelow(old(slots), |old(slots)|)
    {
      if cwd.value.nameInfo == None || prefix == None {
        return FAILURE;
      }
      ghost var st := State();
      var _, size := InitiateMigration();
      if size != buf.Length {
        return FAILURE;
      }
      ghost var junk := buf[..];
      var p := EncapHeader(buf);
      p := EncapNames(buf, p, junk);
      EncodeIs(st, junk, p);
      EncapStreams(buf, p, Header(st) + FlagBytes(st, junk) + PrefixBytes(st, junk), junk);
      return SUCCESS;
    }
  }

  // ------------------------------------------------------------------ the process that arrives

  /** The first record from i on whose stream cannot be obtained, or their number. */
  function FirstFailure(names: seq<Option<nat>>, i: nat, replies: seq<ReturnStatus>): (f: nat)
    requires i <= |names| == |replies|
    ensures i <= f <= |names|
    ensures f < |names| ==> names[f].Some? && replies[f] != SUCCESS
    ensures forall k :: i <= k < f ==> names[k] == None || replies[k] == SUCCESS
    decreases |names| - i
  {
    if i == |names| || (names[i].Some? && replies[i] != SUCCESS) then i else FirstFailure(names, i + 1, replies)
  }

  /** The streams behind the slots' references. */
  function Looked(streams: map<Ref, Stream>, slots: seq<Option<Ref>>): (r: seq<Option<Stream>>)
    ensures |r| == |slots|
  {
    seq(|slots|, j requires 0 <= j < |slots| =>
      if slots[j].Some? && slots[j].value in streams then Some(streams[slots[j].value]) else None)
  }

  /** Each of the first i records that names a slot has given its stream. */
  ghost predicate Given(names: seq<Option<nat>>, described: seq<Stream>, i: nat, streams: map<Ref, Stream>)
    requires i <= |names| == |described|
  {
    forall k :: 0 <= k < i && names[k].Some? ==> RecordRef(k) in streams && streams[RecordRef(k)] == described[k]
  }

  lemma LookedIsIn(names: seq<Option<nat>>, described: seq<Stream>, streams: map<Ref, Stream>)
    requires |names| == |described| && Given(names, described, |names|, streams)
    ensures Looked(streams, ListAfter(names, |names|)) == StreamsIn(described, ListAfter(names, |names|))
  {
    var slots := ListAfter(names, |names|);
    forall j | 0 <= j < |names|
      ensures Looked(streams, slots)[j] == StreamIn(described, slots[j])
    {
      var k := LastNamer(names, |names|, j);
    }
  }

  function NilRefs(n: nat): (slots: seq<Option<Ref>>)
    ensures |slots| == n && forall j :: 0 <= j < n ==> slots[j] == None
  {
    seq(n, _ => None)
  }

  lemma {:induction false} NothingIn(n: nat)
    ensures RefsIn(NilRefs(n)) == []
  {
    if n > 0 {
      assert NilRefs(n)[..n - 1] == NilRefs(n - 1);
      NothingIn(n - 1);
    }
  }

  lemma NothingEntered(names: seq<Option<nat>>)
    ensures ListAfter(names, 0) == NilRefs(|names|)
  {
  }

  lemma FirstPlaces(b: seq<byte>)
    requires FindPlaces(b).Some?
    ensures |b| >= 4 && FindPlaces(b) == PlacesAfter(b, ToNat(WordAt(b, 0)))
  {
  }

  lemma MiddlePlaces(b: seq<byte>, g: nat)
    requires PlacesAfter(b, g).Some?
    ensures |b| >= 12 + 4 * g && PlacesAfter(b, g) == PlacesBefore(b, g, ToNat(WordAt(b, 8 + 4 * g)))
  {
  }

  lemma LastPlaces(b: seq<byte>, g: nat, n: nat, l: Places)
    requires PlacesBefore(b, g, n) == Some(l)
    ensures l.numGroups == g && l.numStreams == n && l.prefixAt == 12 + 4 * g + Align(n) && Within(l, b)
    ensures l.cwdAt == l.prefixAt + 4 + Align(ToNat(WordAt(b, l.prefixAt)) + 1)
  {
  }

  /** The counts in the buffer, and where the pointer goes. */
  ghost predicate Counted(b: seq<byte>, l: Places) {
    && Within(l, b) && ToNat(WordAt(b, 0)) == l.numGroups
    && ToNat(WordAt(b, 8 + 4 * l.numGroups)) == l.numStreams
    && l.prefixAt == 12 + 4 * l.numGroups + Align(l.numStreams)
    && l.cwdAt == l.prefixAt + 4 + Align(ToNat(WordAt(b, l.prefixAt)) + 1)
  }

  lemma CountsFound(b: seq<byte>, l: Places)
    requires FindPlaces(b) == Some(l)
    ensures Counted(b, l)
  {
    FirstPlaces(b);
    var g := ToNat(WordAt(b, 0));
    MiddlePlaces(b, g);
    LastPlaces(b, g, ToNat(WordAt(b, 8 + 4 * g)), l);
  }

  /** The parts of b other than its streams. */
  ghost predicate Copied(b: seq<byte>, l: Places, groups: seq<word>, permissions: word, flags: seq<byte>,
                         name: seq<byte>)
  {
    && Within(l, b)
    && groups == ReadWords(b, 4, l.numGroups) && permissions == WordAt(b, 4 + 4 * l.numGroups)
    && flags == b[12 + 4 * l.numGroups..12 + 4 * l.numGroups + l.numStreams]
    && name == CString(b, l.prefixAt + 4)
  }

  /** The slots named in b, and the streams described there. */
  function NamesIn(b: seq<byte>, l: Places): (names: seq<Option<nat>>)
    requires Within(l, b)
    ensures |names| == l.numStreams
  {
    Names(b, l.slotsAt, l.numStreams)
  }

  function DescribedIn(b: seq<byte>, l: Places): (streams: seq<Stream>)
    requires Within(l, b)
    ensures |streams| == l.numStreams
  {
    Described(b, l.slotsAt, l.numStreams)
  }

  lemma SlotsDecoded(b: seq<byte>, l: Places, d: Decoded)
    requires Within(l, b) && InList(NamesIn(b, l))
    requires d.slots == StreamsIn(DescribedIn(b, l), ListAfter(NamesIn(b, l), l.numStreams))
    ensures SlotsAre(b, l, d)
  {
    ListIsRead(b, l.slotsAt, NamesIn(b, l), DescribedIn(b, l), 0);
    NothingEntered(NamesIn(b, l));
    assert StreamsIn(DescribedIn(b, l), ListAfter(NamesIn(b, l), 0)) == AllNil(l.numStreams);
  }

  /** A state filled from the parts of b is what b decodes to. */
  lemma CopiedIsDecoded(b: seq<byte>, l: Places, groups: seq<word>, permissions: word, flags: seq<byte>,
                        name: seq<byte>, streams: map<Ref, Stream>)
    requires FindPlaces(b) == Some(l) && Copied(b, l, groups, permissions, flags, name)
    requires InList(NamesIn(b, l)) && Given(NamesIn(b, l), DescribedIn(b, l), l.numStreams, streams)
    ensures Decode(b) == Some(Decoded(groups, permissions, flags,
                              Looked(streams, ListAfter(NamesIn(b, l), l.numStreams)), name, StreamAt(b, l.cwdAt)))
  {
    var d := Decoded(groups, permissions, flags, Looked(streams, ListAfter(NamesIn(b, l), l.numStreams)), name,
                     StreamAt(b, l.cwdAt));
    LookedIsIn(NamesIn(b, l), DescribedIn(b, l), streams);
    SlotsDecoded(b, l, d);
    DecodeIs(b, l, d);
  }

  /** What Fs_EncapFileState wrote, Fs_DeencapFileState can read to its end. */
  lemma EncodedIsReadable(st: State, junk: seq<byte>)
    requires StateOk(st) && |junk| == Size(st)
    ensures var b, l := Encode(st, junk), PlacesOf(st);
            FindPlaces(b) == Some(l) && Counted(b, l) && NamesIn(b, l) == OwnNames(st.slots)
  {
    var b, l := Encode(st, junk), PlacesOf(st);
    Layout(st, junk);
    PlacesRead(st, b, junk);
    CountsFound(b, l);
    EncodedNames(st, b, junk);
  }

  /** So a process that has arrived without a failure has the state it left with: groups, permission
      mask, flag bytes, directory, and every stream in its own slot. */
  lemma ArrivesAsItLeft(st: State, junk: seq<byte>, groups: seq<word>, permissions: word, flags: seq<byte>,
                        name: seq<byte>, streams: map<Ref, Stream>)
    requires StateOk(st) && |junk| == Size(st)
    requires Copied(Encode(st, junk), PlacesOf(st), groups, permissions, flags, name)
    requires var b, l := Encode(st, junk), PlacesOf(st);
             Given(NamesIn(b, l), DescribedIn(b, l), l.numStreams, streams)
    ensures Arrived(st, Decoded(groups, permissions, flags, Looked(streams, ListAfter(OwnNames(st.slots), |st.slots|)),
                                name, StreamAt(Encode(st, junk), PlacesOf(st).cwdAt)))
  {
    EncodedIsReadable(st, junk);
    CopiedIsDecoded(Encode(st, junk), PlacesOf(st), groups, permissions, flags, name, streams);
    RoundTrip(st, junk);
  }

  lemma GivenMore(names: seq<Option<nat>>, described: seq<Stream>, i: nat, streams: map<Ref, Stream>)
    requires i < |names| == |described| && Given(names, described, i, streams)
    ensures Given(names, described, i + 1, streams[RecordRef(i) := described[i]])
    ensures names[i] == None ==> Given(names, described, i + 1, streams)
  {
  }

  /** The record at p names a slot, or none, and describes a stream. */
  predicate RecordIs(b: seq<byte>, p: nat, name: Option<nat>, stream: Stream) {
    p + 80 <= |b| && name == Named(WordAt(b, p)) && stream == StreamAt(b, p + 4)
  }

  lemma RecordsAre(b: seq<byte>, l: Places, i: nat)
    requires Within(l, b) && i < l.numStreams
    ensures RecordIs(b, l.slotsAt + Records(i), NamesIn(b, l)[i], DescribedIn(b, l)[i])
  {
  }

  lemma MadeMore(first: seq<Ref>, names: seq<Option<nat>>, i: nat)
    requires i < |names| && names[i].Some?
    ensures first + Made(names, i) + [RecordRef(i)] == first + Made(names, i + 1)
  {
  }

  class NewState {
    var groups: seq<word>
    var permissions: word
    var flags: seq<byte>
    var slots: seq<Option<Ref>>
    var cwd: Option<Ref>
    /** What each reference refers to. */
    var streams: map<Ref, Stream>
    /** The name that was obtained, and the references obtained and given to Fs_Close, in order. */
    var name: seq<byte>
    var obtained: seq<Ref>
    var closed: seq<Ref>

    constructor ()
      ensures obtained == [] && closed == [] && cwd == None && slots == []
    {
      groups, permissions, flags, slots, cwd := [], NIL, [], [], None;
      name, obtained, closed, streams := [], [], [], map[];
    }

    /** Fs_CloseState, phase 1. */
    method CloseState()
      modifies this`closed, this`slots, this`cwd, this`groups
      ensures closed == old(closed) + (if old(cwd) == None then [] else [old(cwd).value]) + RefsIn(old(slots))
      ensures slots == [] && cwd == None && groups == [] && obtained == old(obtained) && name == old(name)
      ensures streams == old(streams)
    {
      if cwd != None {
        closed := closed + [cwd.value];
      }
      ghost var first := closed;
      for i := 0 to |slots|
        invariant slots == old(slots) && closed == first + RefsIn(slots[..i])
        invariant obtained == old(obtained) && name == old(name) && streams == old(streams)
      {
        assert slots[..i + 1][..i] == slots[..i];
        if slots[i] != None {
          closed := closed + [slots[i].value];
        }
      }
      assert slots[..|slots|] == slots;
      slots, cwd, groups := [], None, [];
    }

    /** Fsio_DeencapStream, when it succeeds: a reference on a new stream. */
    method DeencapStream(b: seq<byte>, p: nat, ref: Ref)
      requires p + MIG_SIZE <= |b|
      modifies this`obtained, this`streams
      ensures obtained == old(obtained) + [ref] && streams == old(streams)[ref := StreamOf(ReadWords(b, p, 19))]
    {
      streams := streams[ref := StreamOf(ReadWords(b, p, 19))];
      obtained := obtained + [ref];
    }

    /** What the loop over the records has done before record i. */
    ghost predicate Entered(names: seq<Option<nat>>, described: seq<Stream>, i: nat, before: seq<Ref>,
                            cwdStream: Stream)
      requires i <= |names| == |described|
      reads this
    {
      && slots == ListAfter(names, i) && obtained == before + Made(names, i) && Given(names, described, i, streams)
      && CwdRef in streams && streams[CwdRef] == cwdStream
    }

    /** A record that names a slot, when its stream can be obtained. */
    method EnterRecord(b: seq<byte>, p: nat, i: nat, at: nat, ghost names: seq<Option<nat>>,
                       ghost described: seq<Stream>, ghost before: seq<Ref>, ghost cwdStream: Stream)
      requires i < |names| == |described| && InList(names) && names[i] == Some(at)
      requires p + MIG_SIZE <= |b| && described[i] == StreamAt(b, p)
      requires Entered(names, described, i, before, cwdStream)
      modifies this`slots, this`obtained, this`streams
      ensures Entered(names, described, i + 1, before, cwdStream)
    {
      ListGrows(names, i);
      MadeMore(before, names, i);
      GivenMore(names, described, i, streams);
      slots := slots[at := Some(RecordRef(i))];
      DeencapStream(b, p, RecordRef(i));
    }

    /** One turn of the loop over the records. */
    method DeencapRecord(b: seq<byte>, p: nat, i: nat, reply: ReturnStatus, ghost names: seq<Option<nat>>,
                         ghost described: seq<Stream>, ghost before: seq<Ref>, ghost cwdStream: Stream)
      returns (status: ReturnStatus)
      requires i < |names| == |described| && InList(names)
      requires RecordIs(b, p, names[i], described[i])
      requires Entered(names, described, i, before, cwdStream)
      modifies this`slots, this`obtained, this`streams
      ensures if names[i].Some? && reply != SUCCESS then
                status == reply && slots == ListAtFailure(names, i) && obtained == old(obtained)
              else status == SUCCESS && Entered(names, described, i + 1, before, cwdStream)
    {
      var index := Named(WordAt(b, p));
      status := SUCCESS;
      if index == None {
        ListGrows(names, i);
        GivenMore(names, described, i, streams);
      } else if reply != SUCCESS {
        slots := slots[index.value := None];
        status := reply;
      } else {
        EnterRecord(b, p + 4, i, index.value, names, described, before, cwdStream);
      }
    }

    /** The loop over the records: it stops at the first stream that cannot be obtained. */
    method DeencapSlots(b: seq<byte>, base: nat, replies: seq<ReturnStatus>, ghost names: seq<Option<nat>>,
                        ghost described: seq<Stream>, ghost cwdStream: Stream)
      returns (status: ReturnStatus)
      requires |names| == |described| == |replies| && InList(names)
      requires forall i :: 0 <= i < |replies| ==> RecordIs(b, base + Records(i), names[i], described[i])
      requires Entered(names, described, 0, obtained, cwdStream)
      modifies this`slots, this`obtained, this`streams
      ensures var n := |replies|; var f := FirstFailure(names, 0, replies);
              if f < n then
                status == replies[f] && slots == ListAtFailure(names, f) && obtained == old(obtained) + Made(names, f)
              else status == SUCCESS && Entered(names, described, n, old(obtained), cwdStream)
    {
      ghost var before := obtained;
      for i := 0 to |replies|
        invariant Entered(names, described, i, before, cwdStream)
        invariant FirstFailure(names, 0, replies) == FirstFailure(names, i, replies)
      {
        status := DeencapRecord(b, base + Records(i), i, replies[i], names, described, before, cwdStream);
        if status != SUCCESS {
          return;
        }
      }
      return SUCCESS;
    }

    /** The groups, the permissions, the flag bytes and an empty stream list. */
    method DeencapHeader(b: seq<byte>, ghost l: Places) returns (p: nat)
      requires Counted(b, l)
      modifies this`groups, this`permissions, this`flags, this`slots
      ensures && p == l.prefixAt
              && groups == ReadWords(b, 4, l.numGroups) && permissions == WordAt(b, 4 + 4 * l.numGroups)
              && flags == b[12 + 4 * l.numGroups..12 + 4 * l.numGroups + l.numStreams]
              && slots == NilRefs(l.numStreams)
    {
      var numGroups := ToNat(WordAt(b, 0));
      p := 4;
      groups := [];
      if numGroups > 0 {
        groups := ReadWords(b, p, numGroups);
        p := p + 4 * numGroups;
      }
      permissions := WordAt(b, p);
      var numStreams := ToNat(WordAt(b, p + 4));
      p := p + 8;
      flags, slots := [], [];
      if numStreams > 0 {
        flags := b[p..p + numStreams];
        slots := NilRefs(numStreams);
        p := p + Align(numStreams);
      }
    }

    /** The streams, once the prefix is open: `p` is at the current directory. */
    method DeencapStreams(b: seq<byte>, p: nat, ghost l: Places, replies: seq<ReturnStatus>)
      returns (status: ReturnStatus)
      requires Within(l, b) && p == l.cwdAt && InList(NamesIn(b, l)) && |replies| == l.numStreams
      requires slots == NilRefs(l.numStreams) && cwd == None
      modifies this`slots, this`obtained, this`cwd, this`streams
      ensures var names, n := NamesIn(b, l), l.numStreams; var f := FirstFailure(names, 0, replies);
              && cwd == Some(CwdRef)
              && if f < n then
                   && status == replies[f] && slots == ListAtFailure(names, f)
                   && obtained == old(obtained) + [CwdRef] + Made(names, f)
                 else
                   && status == SUCCESS
                   && Entered(names, DescribedIn(b, l), n, old(obtained) + [CwdRef], StreamAt(b, l.cwdAt))
    {
      DeencapStream(b, p, CwdRef);
      cwd := Some(CwdRef);
      NothingEntered(NamesIn(b, l));
      assert obtained + Made(NamesIn(b, l), 0) == obtained;
      var q := p + MIG_SIZE;
      assert q == l.slotsAt;
      forall i | 0 <= i < l.numStreams
        ensures RecordIs(b, q + Records(i), NamesIn(b, l)[i], DescribedIn(b, l)[i])
      {
        RecordsAre(b, l, i);
      }
      status := DeencapSlots(b, q, replies, NamesIn(b, l), DescribedIn(b, l), StreamAt(b, l.cwdAt));
    }

    /** What DeencapFileState leaves once the prefix and the current directory are open. */
    ghost predicate Received(b: seq<byte>, l: Places, replies: seq<ReturnStatus>, status: ReturnStatus)
      requires Within(l, b) && InList(NamesIn(b, l)) && |replies| == l.numStreams
      reads this
    {
      var names, n := NamesIn(b, l), l.numStreams;
      var f := FirstFailure(names, 0, replies);
      if f < n then
        && status == replies[f] && obtained == [PrefixRef] + [CwdRef] + Made(names, f)
        && closed == [PrefixRef] + [CwdRef] + RefsIn(ListAtFailure(names, f))
      else
        && status == SUCCESS && closed == [PrefixRef] && cwd == Some(CwdRef)
        && Entered(names, DescribedIn(b, l), n, [PrefixRef] + [CwdRef], StreamAt(b, l.cwdAt))
        && Copied(b, l, groups, permissions, flags, name)
    }

    method DeencapRest(b: seq<byte>, p: nat, ghost l: Places, replies: seq<ReturnStatus>) returns (status: ReturnStatus)
      requires Within(l, b) && p == l.cwdAt && InList(NamesIn(b, l)) && |replies| == l.numStreams
      requires slots == NilRefs(l.numStreams) && cwd == None && obtained == [PrefixRef] && closed == [PrefixRef]
      requires Copied(b, l, groups, permissions, flags, name)
      modifies this
      ensures Received(b, l, replies, status) && name == old(name)
      ensures status != SUCCESS ==> slots == [] && cwd == None
    {
      status := DeencapStreams(b, p, l, replies);
      if status != SUCCESS {
        CloseState();
      }
    }

    /** Fs_DeencapFileState, on a fresh state. `openReply` is what opening the prefix returns, and
        `cwdReply` and `replies` what Fsio_DeencapStream returns for the current directory and for
        each record. On success the state is what decoding the buffer gives, and only the prefix
        has been closed. On failure the first bad reply is returned, and whatever is still in the
        stream list has been closed. */
    method DeencapFileState(b: seq<byte>, ghost l: Places, openReply: ReturnStatus, cwdReply: ReturnStatus,
                            replies: seq<ReturnStatus>)
      returns (status: ReturnStatus)
      requires Counted(b, l)
      requires InList(NamesIn(b, l)) && |replies| == l.numStreams
      requires obtained == [] && closed == [] && cwd == None
      modifies this
      ensures name == CString(b, l.prefixAt + 4)
      ensures openReply != SUCCESS ==> status == openReply && obtained == [] && closed == []
      ensures openReply == SUCCESS && cwdReply != SUCCESS ==>
                status == cwdReply && obtained == [PrefixRef] && closed == [PrefixRef]
      ensures openReply == SUCCESS && cwdReply == SUCCESS ==> Received(b, l, replies, status)
      ensures status != SUCCESS ==> slots == [] && cwd == None
    {
      var p := DeencapHeader(b, l);
      name := CString(b, p + 4);
      p := p + 4 + Align(ToNat(WordAt(b, p)) + 1);
      NothingIn(l.numStreams);
      if openReply != SUCCESS {
        CloseState();
        return openReply;
      }
      obtained := obtained + [PrefixRef];
      closed := closed + [PrefixRef];
      if cwdReply != SUCCESS {
        CloseState();
        return cwdReply;
      }
      assert obtained == [PrefixRef] && closed == [PrefixRef];
      status := DeencapRest(b, p, l, replies);
    }
  }
}
