/** Terminal output: a process moves bytes from the Td library's buffer into a small ring while
    interrupts take them out, without locks. One step is one load or store of a shared index or
    cell, and the two sides interleave in any order. */
module TtyOutput {
  import opened Common
  import opened Rings
  import opened Runs

  const TTY_OUT_BUF_SIZE := 10

  /** Where Transfer stands, with its locals. It runs under the monitor lock. */
  datatype Transfer =
    | NoTransfer
    | AtCount(oldDiff: int)                              // the loop head: compute count
    | AtCopy(oldDiff: int, count: nat, tmp: nat, k: nat) // Td_GetRaw has stored k of tmp bytes
    | AtInsert(oldDiff: int, count: nat, tmp: nat)       // insertOutput = next comes next
    | AtWake(oldDiff: int)                               // wake the device up if needed

  /** Where DevTtyOutputChar stands, with its locals. */
  datatype Device =
    | NoOutput
    | AtFetch                  // the ring was not empty; load the byte next
    | AtExtract(byte: int)     // extractOutput = next comes next
    | AtEmpty(byte: int)       // extractOutput == insertOutput comes next

  /** `td` is what Td still holds; `active` says whether the device goes on asking for bytes. */
  datatype State = State(
    outBuffer: seq<int>, insertOutput: nat, extractOutput: nat,
    td: seq<int>, transfer: Transfer, device: Device, active: bool, scheduled: nat,
    taken: seq<int>, sent: seq<int>)

  predicate Shape(s: State) {
    |s.outBuffer| == TTY_OUT_BUF_SIZE && s.insertOutput < TTY_OUT_BUF_SIZE && s.extractOutput < TTY_OUT_BUF_SIZE
  }

  datatype Event =
    | Output(bytes: seq<int>)   // Td gets output and calls Transfer through RawProc
    | StartScheduled            // TransferOutProc calls Transfer
    | TransferStep(give: nat)   // `give` limits how much Td_GetRaw hands out
    | Poll                      // an active device asks for the next byte
    | DeviceStep

  /** The largest block that fits without wrapping, given the extract index just loaded. */
  function Count(insert: nat, extract: nat): int {
    var count := extract as int - insert as int - 1;
    var room := if count < 0 then count + TTY_OUT_BUF_SIZE else count;
    if room > TTY_OUT_BUF_SIZE - insert then TTY_OUT_BUF_SIZE - insert else room
  }

  function BeginTransfer(s: State): State {
    s.(transfer := AtCount(s.insertOutput - s.extractOutput))
  }

  function StepTransfer(s: State, give: nat): State
    requires Shape(s)
  {
    match s.transfer
    case NoTransfer => s
    case AtCount(oldDiff) =>
      var count := Count(s.insertOutput, s.extractOutput);
      s.(transfer := if count <= 0 then AtWake(oldDiff)
                     else AtCopy(oldDiff, count, Min(give, Min(count, |s.td|)), 0))
    case AtCopy(oldDiff, count, tmp, k) =>
      if k == tmp then s.(transfer := AtInsert(oldDiff, count, tmp))
      else if s.insertOutput + k < TTY_OUT_BUF_SIZE && k < |s.td| then
        s.(outBuffer := s.outBuffer[s.insertOutput + k := s.td[k]], transfer := AtCopy(oldDiff, count, tmp, k + 1))
      else s
    case AtInsert(oldDiff, count, tmp) =>
      if s.insertOutput + tmp <= TTY_OUT_BUF_SIZE && tmp <= |s.td| then
        s.(insertOutput := Block(TTY_OUT_BUF_SIZE, s.insertOutput, tmp),
           td := s.td[tmp..], taken := s.taken + s.td[..tmp],
           transfer := if tmp < count then AtWake(oldDiff) else AtCount(oldDiff))
      else s
    case AtWake(oldDiff) =>
      s.(transfer := NoTransfer,
         active := s.active || (oldDiff == 0 && s.insertOutput != s.extractOutput))
  }

  function StepDevice(s: State): State
    requires Shape(s)
  {
    match s.device
    case NoOutput => s
    case AtFetch => s.(device := AtExtract(s.outBuffer[s.extractOutput]))
    case AtExtract(byte) =>
      s.(extractOutput := Next(TTY_OUT_BUF_SIZE, s.extractOutput), device := AtEmpty(byte))
    case AtEmpty(byte) =>
      s.(device := NoOutput, sent := s.sent + [byte],
         scheduled := if s.extractOutput == s.insertOutput then s.scheduled + 1 else s.scheduled)
  }

  /** One step; one that cannot happen now leaves the state alone. */
  function Step(s: State, e: Event): (s': State)
    ensures Shape(s) ==> Shape(s')
  {
    if !Shape(s) then s else
    match e
    case Output(bytes) =>
      if s.transfer == NoTransfer then BeginTransfer(s.(td := s.td + bytes)) else s
    case StartScheduled =>
      if s.transfer == NoTransfer && s.scheduled > 0
      then BeginTransfer(s.(scheduled := s.scheduled - 1)) else s
    case TransferStep(give) => StepTransfer(s, give)
    case Poll =>
      if !s.active || s.device != NoOutput then s
      else if s.extractOutput == s.insertOutput then s.(active := false)
      else s.(device := AtFetch)
    case DeviceStep => StepDevice(s)
  }

  predicate Init(s: State) {
    && Shape(s) && s.insertOutput == s.extractOutput == 0 && s.td == [] && !s.active && s.scheduled == 0
    && s.transfer == NoTransfer && s.device == NoOutput && s.taken == [] && s.sent == []
  }

  // ------------------------------------------------------------------ the invariant

  function InHand(d: Device): seq<int> {
    if d.AtEmpty? then [d.byte] else []
  }

  function Ring(s: State): seq<int>
    requires Shape(s)
  {
    Contents(s.outBuffer, s.extractOutput, s.insertOutput)
  }

  /** The block Transfer is filling is free, however far the device has come meanwhile. */
  predicate RoomFor(s: State, count: nat)
    requires Shape(s)
  {
    s.insertOutput + count <= TTY_OUT_BUF_SIZE &&
    Distance(TTY_OUT_BUF_SIZE, s.extractOutput, s.insertOutput) + count < TTY_OUT_BUF_SIZE
  }

  predicate TransferOk(s: State)
    requires Shape(s)
  {
    match s.transfer
    case AtCopy(_, count, tmp, k) =>
      k <= tmp <= count && tmp <= |s.td| && count > 0 && RoomFor(s, count)
      && s.outBuffer[s.insertOutput..s.insertOutput + k] == s.td[..k]
    case AtInsert(_, count, tmp) =>
      tmp <= count && tmp <= |s.td| && count > 0 && RoomFor(s, count)
      && s.outBuffer[s.insertOutput..s.insertOutput + tmp] == s.td[..tmp]
    case _ => true
  }

  predicate DeviceOk(s: State)
    requires Shape(s)
  {
    match s.device
    case AtFetch => Ring(s) != []
    case AtExtract(byte) => Ring(s) != [] && Ring(s)[0] == byte
    case _ => true
  }

  predicate Inv(s: State) {
    && Shape(s) && TransferOk(s) && DeviceOk(s)
    && s.taken == s.sent + InHand(s.device) + Ring(s)
  }

  lemma CopyMore(buf: seq<int>, td: seq<int>, i: nat, k: nat)
    requires i + k < |buf| && k < |td| && buf[i..i + k] == td[..k]
    ensures buf[i + k := td[k]][i..i + k + 1] == td[..k + 1]
  {
    assert buf[i + k := td[k]][i..i + k + 1] == buf[i..i + k] + [td[k]];
  }

  lemma CopyInv(s: State, give: nat)
    requires Inv(s) && s.transfer.AtCopy? && s.transfer.k < s.transfer.tmp
    ensures Inv(StepTransfer(s, give)) && Ring(StepTransfer(s, give)) == Ring(s)
  {
    var k, i := s.transfer.k, s.insertOutput;
    StoreBeyond(s.outBuffer, s.extractOutput, i, i + k, s.td[k]);
    CopyMore(s.outBuffer, s.td, i, k);
  }

  lemma InsertInv(s: State, give: nat)
    requires Inv(s) && s.transfer.AtInsert?
    ensures Inv(StepTransfer(s, give))
    ensures Ring(StepTransfer(s, give)) == Ring(s) + s.td[..s.transfer.tmp]
  {
    AdvanceBlock(s.outBuffer, s.extractOutput, s.insertOutput, s.transfer.tmp);
    assert s.sent + InHand(s.device) + (Ring(s) + s.td[..s.transfer.tmp]) ==
           s.sent + InHand(s.device) + Ring(s) + s.td[..s.transfer.tmp];
  }

  lemma TransferInv(s: State, give: nat)
    requires Inv(s)
    ensures Inv(StepTransfer(s, give))
  {
    match s.transfer
    case AtCopy(_, _, tmp, k) => if k < tmp { CopyInv(s, give); }
    case AtInsert(_, _, _) => InsertInv(s, give);
    case _ =>
  }

  lemma ExtractTakes(s: State)
    requires Shape(s) && TransferOk(s) && DeviceOk(s) && s.device.AtExtract?
    ensures var s' := StepDevice(s);
            TransferOk(s') && DeviceOk(s') && Ring(s) == [s.device.byte] + Ring(s')
  {
  }

  lemma DeviceInv(s: State)
    requires Inv(s)
    ensures Inv(StepDevice(s))
  {
    match s.device
    case AtExtract(byte) =>
      ExtractTakes(s);
      Moved(s.sent, byte, Ring(StepDevice(s)));
    case AtEmpty(byte) =>
      Moved(s.sent, byte, Ring(s));
    case _ =>
  }

  /** A transfer begins, or the device asks for a byte: the ring stays as it is. */
  lemma StartInv(s: State, e: Event)
    requires Inv(s) && !e.TransferStep? && !e.DeviceStep?
    ensures Inv(Step(s, e)) && Ring(Step(s, e)) == Ring(s)
  {
    assert s.extractOutput != s.insertOutput ==> Ring(s) != [];
  }

  lemma StepInv(s: State, e: Event)
    requires Inv(s)
    ensures Inv(Step(s, e))
  {
    match e
    case TransferStep(give) => TransferInv(s, give);
    case DeviceStep => DeviceInv(s);
    case _ => StartInv(s, e);
  }

  lemma {:induction false} RunInv(s: State, events: seq<Event>)
    requires Inv(s)
    ensures Inv(Run(Step, s, events))
    decreases |events|
  {
    if events != [] {
      StepInv(s, events[0]);
      RunInv(Step(s, events[0]), events[1..]);
    }
  }

  lemma InitInv(s: State)
    requires Init(s)
    ensures Inv(s)
  {
  }

  /** Between two opens, every byte that Transfer took from Td reaches the device once and in order,
      and a store into the ring never lands on an unread byte, however the device advances meanwhile. */
  lemma NothingOverwritten(start: State, events: seq<Event>, give: nat)
    requires Inv(start)
    ensures var s := Run(Step, start, events);
            && Shape(s) && s.taken == s.sent + InHand(s.device) + Ring(s)
            && Ring(s) <= Ring(StepTransfer(s, give))
  {
    RunInv(start, events);
    var s := Run(Step, start, events);
    match s.transfer
    case AtCopy(_, _, tmp, k) => if k < tmp { CopyInv(s, give); }
    case AtInsert(_, _, _) => InsertInv(s, give);
    case _ =>
  }

  /** DevTtyOpen of a closed terminal has reset both indices, and Td starts afresh. From here on the
      bytes that count are those taken from the new Td. */
  function Reopened(s: State): State {
    s.(insertOutput := 0, extractOutput := 0, td := [], taken := s.sent + InHand(s.device))
  }

  /** An open starts a run in which nothing is lost exactly when it does not find the device between
      its test of the ring and its store of extractOutput. */
  lemma OpenStartsAfresh(s: State)
    requires Shape(s) && s.transfer == NoTransfer
    ensures Inv(Reopened(s)) <==> !s.device.AtFetch? && !s.device.AtExtract?
  {
    var s' := Reopened(s);
    assert Ring(s') == [] && s.sent + InHand(s.device) + [] == s.sent + InHand(s.device);
  }

  /** Between the two resets a device that asks for a byte is given an old one exactly when the old
      extractOutput was not 0. */
  lemma OldByteBetweenResets(s: State)
    requires Shape(s) && s.active && s.device == NoOutput
    ensures var s' := Run(Step, s.(insertOutput := 0), [Poll, DeviceStep, DeviceStep, DeviceStep]);
            if s.extractOutput == 0 then s'.sent == s.sent
            else s'.sent == s.sent + [s.outBuffer[s.extractOutput]]
  {
    var events := [Poll, DeviceStep, DeviceStep, DeviceStep];
    var s0 := s.(insertOutput := 0);
    var s1 := Step(s0, events[0]);
    var s2 := Step(s1, events[1]);
    var s3 := Step(s2, events[2]);
    var s4 := Step(s3, events[3]);
    TraceEnds(Step, s0, events, [s1, s2, s3, s4]);
  }

  // ------------------------------------------------------------------ termination

  /** How far the current turn of the loop still has to go. */
  function Phase(s: State): nat {
    match s.transfer
    case NoTransfer => 0
    case AtWake(_) => 1
    case AtInsert(_, _, _) => 2
    case AtCopy(_, _, tmp, k) => if k <= tmp then tmp - k + 3 else 0
    case AtCount(_) => |s.td| + 4
  }

  /** Transfer ends: each of its steps either uses up bytes of Td or comes closer to the end of
      the loop's current turn, and the device's steps change neither. */
  lemma TransferEnds(s: State, give: nat)
    requires Inv(s) && s.transfer != NoTransfer
    ensures var s' := StepTransfer(s, give);
            |s'.td| < |s.td| || (|s'.td| == |s.td| && Phase(s') < Phase(s))
    ensures Phase(StepDevice(s)) == Phase(s) && StepDevice(s).td == s.td
  {
  }

  // ------------------------------------------------------------------ wake-ups

  /** A transfer is under way that found bytes in the ring when it began. */
  predicate SampledBytes(s: State) {
    s.transfer != NoTransfer && s.transfer.oldDiff != 0
  }

  /** The device finds the ring empty and goes idle during such a transfer. */
  predicate Idles(s: State, e: Event) {
    SampledBytes(s) && e == Poll && s.active && s.device == NoOutput && s.extractOutput == s.insertOutput
  }

  /** Transfer puts bytes in the ring. */
  predicate Stores(s: State, e: Event) {
    e.TransferStep? && s.transfer.AtInsert? && s.transfer.tmp > 0
  }

  /** The three ways things can stand. All is well: bytes in the ring have an active device, between
      transfers and during one that sampled bytes. */
  predicate Well(s: State) {
    && (s.device != NoOutput ==> s.active)
    && (s.transfer == NoTransfer && s.insertOutput != s.extractOutput ==> s.active)
    && (SampledBytes(s) ==> s.active)
  }

  /** The device has gone idle during a transfer that will not wake it, and the ring is empty. */
  predicate Doomed(s: State) {
    SampledBytes(s) && !s.active && s.device == NoOutput && s.insertOutput == s.extractOutput
  }

  /** The ring holds bytes, the device is idle, and no transfer under way will wake it. */
  predicate Stopped(s: State) {
    && !s.active && s.device == NoOutput && s.insertOutput != s.extractOutput
    && (s.transfer == NoTransfer || SampledBytes(s))
  }

  /** An insertion leaves the ring with bytes if it adds some, and as it was otherwise. */
  lemma InsertFills(s: State, give: nat)
    requires Inv(s) && s.transfer.AtInsert?
    ensures var s' := StepTransfer(s, give);
            s.transfer.tmp > 0 || s.insertOutput != s.extractOutput <==> s'.insertOutput != s'.extractOutput
  {
    InsertInv(s, give);
    assert |Ring(StepTransfer(s, give))| == |Ring(s)| + s.transfer.tmp;
  }

  /** A step from where all is well leads to trouble only if the device idles. */
  lemma WellStep(s: State, e: Event)
    requires Inv(s) && Well(s)
    ensures if Idles(s, e) then Doomed(Step(s, e)) else Well(Step(s, e))
  {
    if e.TransferStep? && s.transfer.AtInsert? {
      InsertFills(s, e.give);
    }
  }

  /** The doomed transfer either ends with the ring empty or stores something, and stops output. */
  lemma DoomedStep(s: State, e: Event)
    requires Inv(s) && Doomed(s)
    ensures var s' := Step(s, e);
            if Stores(s, e) then Stopped(s') else if s'.transfer == NoTransfer then Well(s') else Doomed(s')
  {
    if e.TransferStep? && s.transfer.AtInsert? {
      InsertFills(s, e.give);
    }
  }

  /** Once output has stopped, nothing starts it again. */
  lemma StoppedStays(s: State, e: Event)
    requires Inv(s) && Stopped(s)
    ensures Stopped(Step(s, e))
  {
    if e.TransferStep? && s.transfer.AtInsert? {
      InsertFills(s, e.give);
    }
  }

  /** At step i the device idles, and the same transfer is still under way after step n. */
  ghost predicate IdledAt(start: State, events: seq<Event>, i: nat, n: nat)
    requires i < n <= |events|
  {
    && Idles(At(Step, start, events, i), events[i])
    && (forall k :: i < k <= n ==> At(Step, start, events, k).transfer != NoTransfer)
  }

  ghost predicate Idled(start: State, events: seq<Event>, n: nat)
    requires n <= |events|
  {
    exists i :: 0 <= i < n && IdledAt(start, events, i, n)
  }

  /** At step i the device idles, and at step j the same transfer stores bytes. */
  ghost predicate StalledBy(start: State, events: seq<Event>, i: nat, j: nat)
    requires i < j < |events|
  {
    IdledAt(start, events, i, j) && Stores(At(Step, start, events, j), events[j])
  }

  ghost predicate Stalled(start: State, events: seq<Event>, n: nat)
    requires n <= |events|
  {
    exists i, j :: 0 <= i < j < n && StalledBy(start, events, i, j)
  }

  lemma IdledNext(start: State, events: seq<Event>, n: nat)
    requires n < |events|
    ensures var s, s' := At(Step, start, events, n), At(Step, start, events, n + 1);
            Idled(start, events, n + 1) <==>
              (Idles(s, events[n]) || Idled(start, events, n)) && s'.transfer != NoTransfer
  {
    var s, next := At(Step, start, events, n), n + 1;
    if At(Step, start, events, next).transfer != NoTransfer {
      if Idles(s, events[n]) {
        assert IdledAt(start, events, n, next);
      } else if i :| 0 <= i < n && IdledAt(start, events, i, n) {
        assert IdledAt(start, events, i, next);
      }
    }
    if i :| 0 <= i < next && IdledAt(start, events, i, next) {
      assert i < n ==> IdledAt(start, events, i, n);
    }
  }

  lemma StalledNext(start: State, events: seq<Event>, n: nat)
    requires n < |events|
    ensures Stalled(start, events, n + 1) <==>
            Stalled(start, events, n) || (Idled(start, events, n) && Stores(At(Step, start, events, n), events[n]))
  {
    if i :| 0 <= i < n && IdledAt(start, events, i, n) {
      assert Stores(At(Step, start, events, n), events[n]) ==> StalledBy(start, events, i, n);
    }
    var next := n + 1;
    if i, j :| 0 <= i < j < next && StalledBy(start, events, i, j) {
      assert j < n || IdledAt(start, events, i, n);
    }
  }

  /** How things stand: well, doomed or stopped, and what has led there. */
  ghost predicate Stands(s: State, idled: bool, stalled: bool) {
    && Inv(s) && (Well(s) || Doomed(s) || Stopped(s))
    && (Stopped(s) <==> stalled) && (Doomed(s) ==> idled) && (idled ==> !Well(s))
  }

  lemma StandsNext(s: State, e: Event, idled: bool, stalled: bool)
    requires Stands(s, idled, stalled)
    ensures Stands(Step(s, e), (Idles(s, e) || idled) && Step(s, e).transfer != NoTransfer,
                   stalled || (idled && Stores(s, e)))
  {
    StepInv(s, e);
    if Well(s) {
      WellStep(s, e);
    } else if Doomed(s) {
      DoomedStep(s, e);
    } else {
      StoppedStays(s, e);
    }
  }

  lemma {:induction false} StandsAt(start: State, events: seq<Event>, n: nat)
    requires Init(start) && n <= |events|
    ensures Stands(At(Step, start, events, n), Idled(start, events, n), Stalled(start, events, n))
  {
    if n == 0 {
      InitInv(start);
      AtEnds(Step, start, events);
    } else {
      var m := n - 1;
      StandsAt(start, events, m);
      AtNext(Step, start, events, m);
      IdledNext(start, events, m);
      StalledNext(start, events, m);
      StandsNext(At(Step, start, events, m), events[m], Idled(start, events, m), Stalled(start, events, m));
    }
  }

  /** Output stops exactly when the device has gone idle during a transfer that found bytes in the
      ring when it began, and that transfer has then stored something: over all runs, with the two
      sides interleaved in any way. Between transfers, to have stopped is to have bytes in the ring
      and an idle device. */
  lemma OutputStopsExactly(start: State, events: seq<Event>)
    requires Init(start)
    ensures Stopped(Run(Step, start, events)) <==> Stalled(start, events, |events|)
    ensures var s := Run(Step, start, events);
            s.transfer == NoTransfer ==>
              (s.insertOutput != s.extractOutput && !s.active <==> Stalled(start, events, |events|))
  {
    AtEnds(Step, start, events);
    StandsAt(start, events, |events|);
  }

  /** Td hands out all that fits. */
  predicate Generous(e: Event) {
    e.TransferStep? ==> e.give >= TTY_OUT_BUF_SIZE
  }

  /** Bytes left in Td have bytes in the ring ahead of them, or a transfer that is scheduled or about
      to be. */
  predicate Followed(s: State) {
    s.td != [] ==> s.insertOutput != s.extractOutput || s.scheduled > 0 || s.device.AtEmpty?
  }

  predicate TdFollows(s: State) {
    match s.transfer
    case NoTransfer => Followed(s)
    case AtWake(_) => Followed(s)
    case AtCopy(_, count, tmp, _) => tmp < count ==> tmp == |s.td|
    case AtInsert(_, count, tmp) => tmp < count ==> tmp == |s.td|
    case AtCount(_) => true
  }

  lemma TdFollowsStep(s: State, e: Event)
    requires Inv(s) && TdFollows(s) && Generous(e)
    ensures TdFollows(Step(s, e))
  {
  }

  lemma NoRoomIsFull(insert: nat, extract: nat)
    requires insert < TTY_OUT_BUF_SIZE && extract < TTY_OUT_BUF_SIZE
    ensures Count(insert, extract) <= 0 <==> Next(TTY_OUT_BUF_SIZE, insert) == extract
  {
  }

  /** A transfer that looks for room ends exactly when the ring is full. */
  lemma EndsWhenFull(s: State, give: nat)
    requires Shape(s) && s.transfer.AtCount?
    ensures var s' := StepTransfer(s, give);
            && (s'.transfer.AtWake? || s'.transfer.AtCopy?)
            && (s'.transfer.AtWake? <==> Next(TTY_OUT_BUF_SIZE, s.insertOutput) == s.extractOutput)
  {
    NoRoomIsFull(s.insertOutput, s.extractOutput);
  }

  /** One to which Td hands out all that fits ends after a block exactly when Td had less than the block
      has room for, and then it leaves Td empty; otherwise it looks for more room. */
  lemma EndsWhenDrained(s: State, give: nat)
    requires Inv(s) && TdFollows(s) && s.transfer.AtInsert?
    ensures var s' := StepTransfer(s, give);
            && (s'.transfer.AtWake? || s'.transfer.AtCount?)
            && (s'.transfer.AtWake? <==> |s.td| < s.transfer.count) && (s'.transfer.AtWake? ==> s'.td == [])
  {
  }

  /** The device schedules a transfer exactly when it has sent everything that was taken from Td. */
  lemma RefillsWhenAllSent(s: State)
    requires Inv(s)
    ensures var s' := StepDevice(s);
            s'.scheduled == s.scheduled + if s.device.AtEmpty? && s'.sent == s'.taken then 1 else 0
  {
  }

  lemma {:induction false} TdFollowsRun(s: State, events: seq<Event>)
    requires Inv(s) && TdFollows(s) && forall k :: 0 <= k < |events| ==> Generous(events[k])
    ensures TdFollows(Run(Step, s, events))
    decreases |events|
  {
    if events != [] {
      StepInv(s, events[0]);
      TdFollowsStep(s, events[0]);
      assert forall k :: 0 <= k < |events[1..]| ==> events[1..][k] == events[k + 1];
      TdFollowsRun(Step(s, events[0]), events[1..]);
    }
  }

  /** However Transfer and the device are interleaved: between transfers, bytes in the ring have an
      active device as long as the device has not gone idle during a transfer that found bytes in the
      ring; and as long as Td hands out all that fits, bytes left in Td are not forgotten. */
  lemma OutputFlows(start: State, events: seq<Event>)
    requires Init(start) && Run(Step, start, events).transfer == NoTransfer
    ensures var s := Run(Step, start, events);
            && ((forall i :: 0 <= i < |events| ==> !Idles(At(Step, start, events, i), events[i])) ==>
                  s.insertOutput != s.extractOutput ==> s.active)
            && ((forall k :: 0 <= k < |events| ==> Generous(events[k])) ==> Followed(s))
  {
    AtEnds(Step, start, events);
    StandsAt(start, events, |events|);
    InitInv(start);
    if forall k :: 0 <= k < |events| ==> Generous(events[k]) {
      TdFollowsRun(start, events);
    }
  }

  /** One byte is in the ring and the device is sending. */
  predicate Sending(s: State) {
    && Shape(s) && s.insertOutput == s.extractOutput + 1 < TTY_OUT_BUF_SIZE - 1
    && s.td == [] && s.active && s.transfer == NoTransfer && s.device == NoOutput && s.scheduled == 0
  }

  /** A transfer begins, and the device drains the ring after the transfer has sampled it. */
  function Sampled(byte: int): seq<Event> {
    [Output([byte]), Poll, DeviceStep, DeviceStep, DeviceStep, Poll]
  }

  const FIRST_TRANSFER: seq<Event> :=
    [TransferStep(1), TransferStep(1), TransferStep(1), TransferStep(1), TransferStep(1)]
  const SECOND_TRANSFER: seq<Event> :=
    [StartScheduled, TransferStep(1), TransferStep(1), TransferStep(1), TransferStep(1)]

  lemma AfterSample(s: State, byte: int)
    requires Sending(s)
    ensures Run(Step, s, Sampled(byte)) ==
            s.(td := [byte], transfer := AtCount(1), active := false, scheduled := 1,
               extractOutput := s.insertOutput, sent := s.sent + [s.outBuffer[s.extractOutput]])
  {
    var events := Sampled(byte);
    var s0 := Step(s, events[0]);
    var s1 := Step(s0, events[1]);
    var s2 := Step(s1, events[2]);
    var s3 := Step(s2, events[3]);
    var s4 := Step(s3, events[4]);
    var s5 := Step(s4, events[5]);
    TraceEnds(Step, s, events, [s0, s1, s2, s3, s4, s5]);
  }

  lemma AfterFirst(s: State, byte: int)
    requires Shape(s) && s.insertOutput == s.extractOutput < TTY_OUT_BUF_SIZE - 1 && s.td == [byte]
    requires s.transfer == AtCount(1)
    ensures Run(Step, s, FIRST_TRANSFER) ==
            s.(td := [], transfer := NoTransfer, insertOutput := s.insertOutput + 1,
               outBuffer := s.outBuffer[s.insertOutput := byte], taken := s.taken + [byte])
  {
    var s0 := Step(s, TransferStep(1));
    assert s0.transfer.AtCopy? && s0.transfer.tmp == 1 && s0.transfer.count > 1;
    var s1 := Step(s0, TransferStep(1));
    var s2 := Step(s1, TransferStep(1));
    assert s2 == s.(outBuffer := s.outBuffer[s.insertOutput := byte],
                    transfer := AtInsert(1, s0.transfer.count, 1));
    var s3 := Step(s2, TransferStep(1));
    var s4 := Step(s3, TransferStep(1));
    TraceEnds(Step, s, FIRST_TRANSFER, [s0, s1, s2, s3, s4]);
  }

  lemma AfterSecond(s: State)
    requires Shape(s) && s.insertOutput == s.extractOutput + 1 && s.td == [] && s.transfer == NoTransfer
    requires s.scheduled == 1
    ensures Run(Step, s, SECOND_TRANSFER) == s.(scheduled := 0)
  {
    var s0 := Step(s, StartScheduled);
    var s1 := Step(s0, TransferStep(1));
    assert s1.transfer.AtCopy? && s1.transfer.tmp == 0 < s1.transfer.count && s1.transfer.oldDiff == 1;
    var s2 := Step(s1, TransferStep(1));
    var s3 := Step(s2, TransferStep(1));
    assert s3 == s.(scheduled := 0, transfer := AtWake(1));
    var s4 := Step(s3, TransferStep(1));
    TraceEnds(Step, s, SECOND_TRANSFER, [s0, s1, s2, s3, s4]);
  }

  /** Transfer samples the ring once, before its loop. If the device empties the ring and goes idle
      after the sample, the bytes Transfer then inserts wake nobody up, and neither does the
      transfer that the device scheduled when it emptied the ring: output stops with a byte in the
      ring, an idle device and nothing scheduled. */
  lemma StaleSampleStopsOutput(s: State, byte: int)
    requires Sending(s)
    ensures var s' := Run(Step, Run(Step, Run(Step, s, Sampled(byte)), FIRST_TRANSFER), SECOND_TRANSFER);
            && Shape(s') && s'.transfer == NoTransfer && s'.device == NoOutput && !s'.active && s'.scheduled == 0
            && Ring(s') == [byte]
  {
    AfterSample(s, byte);
    var s1 := Run(Step, s, Sampled(byte));
    AfterFirst(s1, byte);
    var s2 := Run(Step, s1, FIRST_TRANSFER);
    AfterSecond(s2);
    assert Contents(s2.outBuffer, s2.extractOutput, s2.insertOutput) ==
           [byte] + Contents(s2.outBuffer, s2.insertOutput, s2.insertOutput);
  }
}
