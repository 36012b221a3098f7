/** The streams that Fs_DeencapFileState obtains on the new host, where it keeps them, and which of
    them a failure gives back. `names` lists the slot that each record names, if any. */
module MigrationArrival {
  import opened Common
  import opened MigrationSpec

  /** A reference that Fs_Open or Fsio_DeencapStream handed out: on the prefix of the current
      directory, on the current directory, or on the stream of a record. */
  datatype Ref = PrefixRef | CwdRef | RecordRef(record: nat)

  /** None names a slot outside the list. */
  predicate InList(names: seq<Option<nat>>) {
    forall k :: 0 <= k < |names| && names[k].Some? ==> names[k].value < |names|
  }

  /** The last of the first i records that names slot j. */
  function LastNamer(names: seq<Option<nat>>, i: nat, j: nat): (r: Option<nat>)
    requires i <= |names|
    ensures r.Some? ==> r.value < i && names[r.value] == Some(j)
    ensures r.Some? ==> forall k :: r.value < k < i ==> names[k] != Some(j)
    ensures r == None ==> forall k :: 0 <= k < i ==> names[k] != Some(j)
  {
    if i == 0 then None else if names[i - 1] == Some(j) then Some(i - 1) else LastNamer(names, i - 1, j)
  }

  function Held(names: seq<Option<nat>>, i: nat, j: nat): Option<Ref>
    requires i <= |names|
  {
    var k := LastNamer(names, i, j);
    if k == None then None else Some(RecordRef(k.value))
  }

  /** The stream list once the first i records have been entered. */
  function ListAfter(names: seq<Option<nat>>, i: nat): (slots: seq<Option<Ref>>)
    requires i <= |names|
    ensures |slots| == |names| && forall j :: 0 <= j < |slots| ==> slots[j] == Held(names, i, j)
  {
    seq(|names|, j requires 0 <= j < |names| => Held(names, i, j))
  }

  /** Every reference made from the first i records. */
  function Made(names: seq<Option<nat>>, i: nat): seq<Ref>
    requires i <= |names|
  {
    if i == 0 then []
    else if names[i - 1] == None then Made(names, i - 1)
    else Made(names, i - 1) + [RecordRef(i - 1)]
  }

  /** Entering record i. */
  lemma ListGrows(names: seq<Option<nat>>, i: nat)
    requires i < |names| && InList(names)
    ensures names[i] == None ==> ListAfter(names, i + 1) == ListAfter(names, i)
    ensures names[i].Some? ==>
              && names[i].value < |names|
              && ListAfter(names, i + 1) == ListAfter(names, i)[names[i].value := Some(RecordRef(i))]
  {
    forall j | 0 <= j < |names|
      ensures Held(names, i + 1, j) == if names[i] == Some(j) then Some(RecordRef(i)) else Held(names, i, j)
    {
    }
  }

  // ------------------------------------------------------------------ reading the records of a buffer

  /** The slots that n records name. */
  function Names(b: seq<byte>, base: nat, n: nat): (names: seq<Option<nat>>)
    requires base + Records(n) <= |b|
    ensures |names| == n && forall k :: 0 <= k < n ==> names[k] == Named(WordAt(b, base + Records(k)))
  {
    seq(n, k requires 0 <= k < n => Named(WordAt(b, base + Records(k))))
  }

  function Named(index: word): Option<nat> {
    if index == NIL then None else Some(ToNat(index))
  }

  /** The streams that n records describe. */
  function Described(b: seq<byte>, base: nat, n: nat): (streams: seq<Stream>)
    requires base + Records(n) <= |b|
    ensures |streams| == n && forall k :: 0 <= k < n ==> streams[k] == StreamAt(b, base + Records(k) + 4)
  {
    seq(n, k requires 0 <= k < n => StreamAt(b, base + Records(k) + 4))
  }

  function StreamAt(b: seq<byte>, p: nat): Stream
    requires p + MIG_SIZE <= |b|
  {
    StreamOf(ReadWords(b, p, 19))
  }

  /** The stream behind a slot's reference. */
  function StreamIn(streams: seq<Stream>, ref: Option<Ref>): Option<Stream> {
    if ref.Some? && ref.value.RecordRef? && ref.value.record < |streams| then Some(streams[ref.value.record]) else None
  }

  function StreamsIn(streams: seq<Stream>, slots: seq<Option<Ref>>): (r: seq<Option<Stream>>)
    ensures |r| == |slots| && forall j :: 0 <= j < |r| ==> r[j] == StreamIn(streams, slots[j])
  {
    seq(|slots|, j requires 0 <= j < |slots| => StreamIn(streams, slots[j]))
  }

  lemma ReadStep(b: seq<byte>, base: nat, i: nat, slots: seq<Option<Stream>>)
    requires base + Records(|slots|) <= |b| && i < |slots|
    ensures var name := Named(WordAt(b, base + Records(i)));
            && (name == None ==> ReadSlots(b, base, i, slots) == ReadSlots(b, base, i + 1, slots))
            && (name.Some? && name.value < |slots| ==>
                  ReadSlots(b, base, i, slots) ==
                  ReadSlots(b, base, i + 1, slots[name.value := Some(StreamAt(b, base + Records(i) + 4))]))
  {
  }

  lemma StreamsGrow(names: seq<Option<nat>>, streams: seq<Stream>, i: nat)
    requires i < |names| == |streams| && InList(names)
    ensures names[i] == None ==> StreamsIn(streams, ListAfter(names, i + 1)) == StreamsIn(streams, ListAfter(names, i))
    ensures names[i].Some? ==>
              && names[i].value < |names|
              && StreamsIn(streams, ListAfter(names, i + 1)) ==
                 StreamsIn(streams, ListAfter(names, i))[names[i].value := Some(streams[i])]
  {
    ListGrows(names, i);
  }

  /** When no record fails, the list holds the streams that reading the buffer gives. */
  lemma {:induction false} ListIsRead(b: seq<byte>, base: nat, names: seq<Option<nat>>, streams: seq<Stream>, i: nat)
    requires i <= |names| && base + Records(|names|) <= |b| && InList(names)
    requires names == Names(b, base, |names|) && streams == Described(b, base, |names|)
    ensures ReadSlots(b, base, i, StreamsIn(streams, ListAfter(names, i))) ==
            Some(StreamsIn(streams, ListAfter(names, |names|)))
    decreases |names| - i
  {
    if i < |names| {
      ListIsRead(b, base, names, streams, i + 1);
      ReadStep(b, base, i, StreamsIn(streams, ListAfter(names, i)));
      StreamsGrow(names, streams, i);
    }
  }

  // ------------------------------------------------------------------ closing after a failure

  /** The references in a list, in order: what Fs_CloseState closes. */
  function RefsIn(slots: seq<Option<Ref>>): seq<Ref> {
    if slots == [] then [] else
    var last := |slots| - 1;
    if slots[last] == None then RefsIn(slots[..last]) else RefsIn(slots[..last]) + [slots[last].value]
  }

  function Times(refs: seq<Ref>, r: Ref): nat {
    if refs == [] then 0
    else Times(refs[..|refs| - 1], r) + if refs[|refs| - 1] == r then 1 else 0
  }

  lemma TimesMore(refs: seq<Ref>, x: Ref, r: Ref)
    ensures Times(refs + [x], r) == Times(refs, r) + if x == r then 1 else 0
  {
    assert (refs + [x])[..|refs|] == refs;
  }

  /** A record's reference is made once if the record is entered; no other reference is made. */
  lemma {:induction false} MadeOnce(names: seq<Option<nat>>, i: nat, r: Ref)
    requires i <= |names|
    ensures Times(Made(names, i), r) == if r.RecordRef? && r.record < i && names[r.record].Some? then 1 else 0
  {
    if i > 0 {
      MadeOnce(names, i - 1, r);
      if names[i - 1] == None {
        assert Made(names, i) == Made(names, i - 1);
      } else {
        assert Made(names, i) == Made(names, i - 1) + [RecordRef(i - 1)];
        TimesMore(Made(names, i - 1), RecordRef(i - 1), r);
      }
    }
  }

  /** The list when record i fails: its slot is NIL. */
  function ListAtFailure(names: seq<Option<nat>>, i: nat): (slots: seq<Option<Ref>>)
    requires i < |names| && InList(names) && names[i].Some?
    ensures |slots| == |names|
  {
    ListAfter(names, i)[names[i].value := None]
  }

  /** Where a reference can be in a list. */
  lemma {:induction false} OnlyThere(slots: seq<Option<Ref>>, r: Ref, j: nat)
    requires forall m :: 0 <= m < |slots| && m != j ==> slots[m] != Some(r)
    ensures Times(RefsIn(slots), r) == if j < |slots| && slots[j] == Some(r) then 1 else 0
  {
    if slots != [] {
      var last := |slots| - 1;
      OnlyThere(slots[..last], r, j);
      if slots[last].Some? {
        TimesMore(RefsIn(slots[..last]), slots[last].value, r);
      }
    }
  }

  /** No later record up to i names the slot of record k. */
  predicate Alone(names: seq<Option<nat>>, k: nat, i: nat)
    requires k <= i < |names|
  {
    forall m :: k < m <= i ==> names[m] != names[k]
  }

  /** When record i fails, the stream of an earlier record is closed once exactly when no later record
      up to i names the same slot; otherwise it is never closed. */
  lemma ClosedOnce(names: seq<Option<nat>>, i: nat, k: nat)
    requires k < i < |names| && InList(names) && names[i].Some? && names[k].Some?
    ensures Times(RefsIn(ListAtFailure(names, i)), RecordRef(k)) == if Alone(names, k, i) then 1 else 0
  {
    var slots, j := ListAtFailure(names, i), names[k].value;
    var last := LastNamer(names, i, j);
    assert last.Some? && k <= last.value;
    assert last.value != k ==> !Alone(names, k, i);
    OnlyThere(slots, RecordRef(k), j);
  }

  /** Nothing that was not made is closed. */
  lemma ClosedOnlyIfMade(names: seq<Option<nat>>, i: nat, r: Ref)
    requires i < |names| && InList(names) && names[i].Some?
    requires r.RecordRef? && r.record < i ==> names[r.record] == None
    ensures Times(RefsIn(ListAtFailure(names, i)), r) == 0
  {
    OnlyThere(ListAtFailure(names, i), r, |names|);
  }

  /** In a buffer that encapsulation wrote, record k names slot k or none. */
  function OwnNames(slots: seq<Option<Stream>>): (names: seq<Option<nat>>)
    ensures |names| == |slots| && InList(names)
  {
    seq(|slots|, k requires 0 <= k < |slots| => if slots[k] == None then None else Some(k))
  }

  lemma EncodedNames(st: State, b: seq<byte>, junk: seq<byte>)
    requires LaidOut(st, b, junk)
    ensures SlotsAt(st) + Records(|st.slots|) <= |b| && Names(b, SlotsAt(st), |st.slots|) == OwnNames(st.slots)
  {
    forall k | 0 <= k < |st.slots|
      ensures Names(b, SlotsAt(st), |st.slots|)[k] == OwnNames(st.slots)[k]
    {
      StreamsSay(st.slots, b, junk, SlotsAt(st), k);
      NatRoundTrip(k);
    }
  }

  /** So when decoding the encoding of any process fails at any record, every stream obtained so far
      is closed as often as it was obtained, and nothing else is closed. */
  lemma FailureReleasesAll(slots: seq<Option<Stream>>, i: nat, r: Ref)
    requires i < |slots| && slots[i].Some?
    ensures Times(RefsIn(ListAtFailure(OwnNames(slots), i)), r) == Times(Made(OwnNames(slots), i), r)
  {
    var names := OwnNames(slots);
    MadeOnce(names, i, r);
    if r.RecordRef? && r.record < i && names[r.record].Some? {
      ClosedOnce(names, i, r.record);
    } else {
      ClosedOnlyIfMade(names, i, r);
    }
  }

  /** Two records that name one slot: the first stream is lost, neither closed nor kept. */
  lemma SharedSlotLosesStream()
    ensures var names := [Some(0), Some(0), Some(1)];
            && Times(Made(names, 2), RecordRef(0)) == 1
            && Times(RefsIn(ListAtFailure(names, 2)), RecordRef(0)) == 0
  {
    var names := [Some(0), Some(0), Some(1)];
    MadeOnce(names, 2, RecordRef(0));
    ClosedOnce(names, 2, 0);
    assert names[1] == names[0];
    assert !Alone(names, 0, 2);
  }
}
