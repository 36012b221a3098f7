/** The system log: a circular buffer with two indices, both -1 when it is empty. */
module SyslogSpec {
  import opened Common

  const SYSLOG_BUF_SIZE := 8192

  datatype State = State(buffer: seq<byte>, firstIndex: int, lastIndex: int)

  predicate Valid(s: State) {
    && |s.buffer| == SYSLOG_BUF_SIZE
    && ((s.firstIndex == -1 && s.lastIndex == -1)
        || (0 <= s.firstIndex < SYSLOG_BUF_SIZE && 0 <= s.lastIndex < SYSLOG_BUF_SIZE))
  }

  predicate Empty(s: State) {
    s.firstIndex == -1
  }

  predicate Wrapped(s: State) {
    s.firstIndex > s.lastIndex
  }

  /** What is in the log, oldest first. */
  function Contents(s: State): (c: seq<byte>)
    requires Valid(s)
    ensures |c| <= SYSLOG_BUF_SIZE && (c == [] <==> Empty(s))
  {
    if Empty(s) then []
    else if Wrapped(s) then s.buffer[s.firstIndex..] + s.buffer[..s.lastIndex + 1]
    else s.buffer[s.firstIndex..s.lastIndex + 1]
  }

  /** The bytes of `bytes` put at p. */
  function Put(buffer: seq<byte>, p: nat, bytes: seq<byte>): (b: seq<byte>)
    requires p + |bytes| <= |buffer|
    ensures |b| == |buffer|
  {
    buffer[..p] + bytes + buffer[p + |bytes|..]
  }

  // ------------------------------------------------------------------ writing

  /** The first part of a write: behind the last byte, up to the end of the buffer. */
  function FillEnd(s: State, bytes: seq<byte>): (r: (State, nat))
    requires Valid(s)
    ensures Valid(r.0) && r.1 <= |bytes|
  {
    if Empty(s) || Wrapped(s) then (s, 0) else
    var n := Min(SYSLOG_BUF_SIZE - (s.lastIndex + 1), |bytes|);
    (State(Put(s.buffer, s.lastIndex + 1, bytes[..n]), s.firstIndex, s.lastIndex + n), n)
  }

  /** What comes behind the last byte. */
  function NextIndex(s: State): int {
    if s.lastIndex + 1 == SYSLOG_BUF_SIZE then 0 else s.lastIndex + 1
  }

  /** No room. */
  predicate Full(s: State) {
    !Empty(s) && NextIndex(s) == s.firstIndex
  }

  /** The second part, when the buffer is not full: the bytes go to the start of the buffer. */
  function FillStart(s: State, bytes: seq<byte>): (r: (State, nat))
    requires Valid(s) && !Full(s) && (Empty(s) || Wrapped(s) || s.lastIndex == SYSLOG_BUF_SIZE - 1)
    ensures r.1 <= |bytes|
  {
    var n := Min(if Empty(s) then SYSLOG_BUF_SIZE else s.firstIndex - NextIndex(s), |bytes|);
    (State(Put(s.buffer, 0, bytes[..n]), if Empty(s) then 0 else s.firstIndex, NextIndex(s) + n - 1), n)
  }

  /** A write of `bytes` to the open log: the new state, how many bytes are stored, and how many go to
      the console because the log is full. */
  datatype Written = Written(state: State, stored: nat, printed: nat)

  function Write(s: State, bytes: seq<byte>): (w: Written)
    requires Valid(s)
    ensures Valid(w.state) && w.stored + w.printed <= |bytes|
  {
    var (s1, n1) := FillEnd(s, bytes);
    if n1 == |bytes| then Written(s1, n1, 0)
    else if Full(s1) then Written(s1, n1, |bytes| - n1)
    else
      var (s2, n2) := FillStart(s1, bytes[n1..]);
      Written(s2, n1 + n2, 0)
  }

  /** A write that is entered wrapped and finds room puts its bytes in the wrong place. */
  predicate Misplaces(s: State, length: nat) {
    Wrapped(s) && !Full(s) && length > 0
  }

  lemma FillEndAppends(s: State, bytes: seq<byte>)
    requires Valid(s)
    ensures var (s1, n1) := FillEnd(s, bytes);
            && Contents(s1) == Contents(s) + bytes[..n1]
            && (n1 < |bytes| ==> Empty(s1) || Wrapped(s1) || s1.lastIndex == SYSLOG_BUF_SIZE - 1)
  {
  }

  lemma PutAtStart(buffer: seq<byte>, bytes: seq<byte>, first: nat)
    requires |bytes| <= first <= |buffer|
    ensures Put(buffer, 0, bytes)[..|bytes|] == bytes && Put(buffer, 0, bytes)[first..] == buffer[first..]
  {
  }

  lemma FillStartAppends(s: State, bytes: seq<byte>)
    requires Valid(s) && !Full(s) && !Wrapped(s) && (Empty(s) || s.lastIndex == SYSLOG_BUF_SIZE - 1) && bytes != []
    ensures var (s2, n2) := FillStart(s, bytes);
            && Valid(s2) && Contents(s2) == Contents(s) + bytes[..n2]
            && n2 == Min(SYSLOG_BUF_SIZE - |Contents(s)|, |bytes|)
  {
    var n2 := FillStart(s, bytes).1;
    if Empty(s) {
      PutAtStart(s.buffer, bytes[..n2], |s.buffer|);
    } else {
      PutAtStart(s.buffer, bytes[..n2], s.firstIndex);
      assert Contents(s) == s.buffer[s.firstIndex..];
    }
  }

  /** The number of bytes a write stores: as many as there is room for. The rest goes to the console
      exactly when the log was full, or its oldest byte lies at the start of the buffer; otherwise it is
      lost, and not reported as written. */
  lemma WriteCounts(s: State, bytes: seq<byte>)
    requires Valid(s)
    ensures var w := Write(s, bytes);
            && w.stored == Min(SYSLOG_BUF_SIZE - |Contents(s)|, |bytes|)
            && |Contents(w.state)| == |Contents(s)| + w.stored
            && w.printed == (if w.stored == SYSLOG_BUF_SIZE - |Contents(s)| && (w.stored == 0 || s.firstIndex == 0)
                             then |bytes| - w.stored else 0)
            && (w.printed > 0 ==> Full(w.state))
  {
    FillEndAppends(s, bytes);
  }

  lemma BothParts(c: seq<byte>, bytes: seq<byte>, n1: nat, n2: nat)
    requires n1 + n2 <= |bytes|
    ensures c + bytes[..n1] + bytes[n1..][..n2] == c + bytes[..n1 + n2]
  {
    assert bytes[n1..][..n2] == bytes[n1..n1 + n2];
  }

  /** A write enqueues its bytes, up to the room there is, in every state in which it does not
      misplace them. */
  lemma WriteAppends(s: State, bytes: seq<byte>)
    requires Valid(s) && !Misplaces(s, |bytes|)
    ensures var w := Write(s, bytes);
            Contents(w.state) == Contents(s) + bytes[..w.stored]
  {
    var (s1, n1) := FillEnd(s, bytes);
    FillEndAppends(s, bytes);
    if n1 < |bytes| && !Full(s1) {
      FillStartAppends(s1, bytes[n1..]);
      BothParts(Contents(s), bytes, n1, FillStart(s1, bytes[n1..]).1);
    }
  }

  /** Whatever its bytes are, a write of this length enqueues them. */
  ghost predicate Enqueues(s: State, length: nat)
    requires Valid(s)
  {
    forall bytes :: |bytes| == length ==> Appended(s, bytes)
  }

  ghost predicate Appended(s: State, bytes: seq<byte>)
    requires Valid(s)
  {
    Contents(Write(s, bytes).state) == Contents(s) + bytes[..Write(s, bytes).stored]
  }

  /** Writes are right exactly when they are not entered wrapped with room left. */
  lemma EnqueuesExactly(s: State, length: nat)
    requires Valid(s)
    ensures Enqueues(s, length) <==> !Misplaces(s, length)
  {
    if Misplaces(s, length) {
      var x: byte := if s.buffer[0] == 0 then 1 else 0;
      var bytes := seq(length, _ => x);
      OverwritesOldest(s, bytes);
      assert !Appended(s, bytes);
    } else {
      forall bytes | |bytes| == length
        ensures Appended(s, bytes)
      {
        WriteAppends(s, bytes);
      }
    }
  }

  /** The byte at the start of the buffer, which is in the log, is lost. */
  lemma OverwritesOldest(s: State, bytes: seq<byte>)
    requires Valid(s) && Misplaces(s, |bytes|)
    ensures var w, k := Write(s, bytes), SYSLOG_BUF_SIZE - s.firstIndex;
            k < |Contents(s)| && Contents(s)[k] == s.buffer[0]
            && k < |Contents(w.state)| && Contents(w.state)[k] == bytes[0]
  {
    var w, k := Write(s, bytes), SYSLOG_BUF_SIZE - s.firstIndex;
    assert FillEnd(s, bytes) == (s, 0) && bytes[0..] == bytes;
    assert w.state.buffer[0] == bytes[0];
  }

  // ------------------------------------------------------------------ reading

  /** A read of up to n bytes: the new state and the bytes. */
  function Read(s: State, n: nat): (r: (State, seq<byte>))
    requires Valid(s)
  {
    if Empty(s) then (s, []) else
    var (s1, out) := ReadEnd(s, n);
    if n == |out| then (s1, out) else
    var (s2, more) := ReadStart(s1, n - |out|);
    (s2, out + more)
  }

  /** Of a wrapped log, what lies up to the end of the buffer. */
  function ReadEnd(s: State, n: nat): (r: (State, seq<byte>))
    requires Valid(s) && !Empty(s)
    ensures Valid(r.0) && !Empty(r.0) && |r.1| <= n && (|r.1| < n ==> !Wrapped(r.0))
  {
    if !Wrapped(s) then (s, []) else
    var toRead := SYSLOG_BUF_SIZE - s.firstIndex;
    if toRead <= n then (s.(firstIndex := 0), s.buffer[s.firstIndex..])
    else (s.(firstIndex := s.firstIndex + n), s.buffer[s.firstIndex..s.firstIndex + n])
  }

  /** The rest. */
  function ReadStart(s: State, n: nat): (r: (State, seq<byte>))
    requires Valid(s) && !Empty(s) && !Wrapped(s) && n > 0
    ensures Valid(r.0)
  {
    var toRead := s.lastIndex - s.firstIndex + 1;
    if toRead <= n then (s.(firstIndex := -1, lastIndex := -1), s.buffer[s.firstIndex..s.lastIndex + 1])
    else (s.(firstIndex := s.firstIndex + n), s.buffer[s.firstIndex..s.firstIndex + n])
  }

  lemma ReadEndTakes(s: State, n: nat)
    requires Valid(s) && !Empty(s)
    ensures var (s1, out) := ReadEnd(s, n); Contents(s) == out + Contents(s1)
  {
  }

  lemma ReadStartTakes(s: State, n: nat)
    requires Valid(s) && !Empty(s) && !Wrapped(s) && n > 0
    ensures var (s1, out) := ReadStart(s, n);
            Contents(s) == out + Contents(s1) && |out| == Min(n, |Contents(s)|)
  {
  }

  /** A read dequeues: it takes the oldest bytes, as many as were asked for and are there. */
  lemma ReadTakes(s: State, n: nat)
    requires Valid(s)
    ensures var (s', out) := Read(s, n);
            && Valid(s') && Contents(s) == out + Contents(s') && |out| == Min(n, |Contents(s)|)
  {
    if !Empty(s) {
      var (s1, out) := ReadEnd(s, n);
      ReadEndTakes(s, n);
      if |out| < n {
        ReadStartTakes(s1, n - |out|);
        var (s2, more) := ReadStart(s1, n - |out|);
        Associate(out, more, Contents(s2));
      }
    }
  }

  // ------------------------------------------------------------------ runs

  datatype Event = Writing(bytes: seq<byte>) | Reading(n: nat)

  /** The log, what has been stored, and what has been read. */
  datatype System = System(log: State, stored: seq<byte>, delivered: seq<byte>)

  function Step(t: System, e: Event): (t': System)
    requires Valid(t.log)
    ensures Valid(t'.log)
  {
    match e
    case Writing(bytes) =>
      var w := Write(t.log, bytes);
      System(w.state, t.stored + bytes[..w.stored], t.delivered)
    case Reading(n) =>
      ReadTakes(t.log, n);
      var (s, out) := Read(t.log, n);
      System(s, t.stored, t.delivered + out)
  }

  function Run(t: System, events: seq<Event>): (t': System)
    requires Valid(t.log)
    ensures Valid(t'.log)
    decreases |events|
  {
    if events == [] then t else Run(Step(t, events[0]), events[1..])
  }

  /** No write of the run is entered wrapped with room left. */
  predicate NeverMisplaces(t: System, events: seq<Event>)
    requires Valid(t.log)
    decreases |events|
  {
    events == [] ||
    (&& (events[0].Writing? ==> !Misplaces(t.log, |events[0].bytes|))
     && NeverMisplaces(Step(t, events[0]), events[1..]))
  }

  /** One step, whatever the two indices are: a bounded queue. A write that does not misplace its bytes
      enqueues as many of them as there is room for, and a read dequeues as many as it asks for. */
  lemma StepIsQueue(t: System, e: Event)
    requires Valid(t.log) && (e.Writing? ==> !Misplaces(t.log, |e.bytes|))
    ensures var t', c := Step(t, e), Contents(t.log);
            match e
            case Writing(bytes) =>
              var k := Min(8192 - |c|, |bytes|);
              Contents(t'.log) == c + bytes[..k] && t'.stored == t.stored + bytes[..k] && t'.delivered == t.delivered
            case Reading(n) =>
              var k := Min(n, |c|);
              Contents(t'.log) == c[k..] && t'.delivered == t.delivered + c[..k] && t'.stored == t.stored
  {
    match e
    case Writing(bytes) =>
      WriteCounts(t.log, bytes);
      WriteAppends(t.log, bytes);
    case Reading(n) =>
      ReadTakes(t.log, n);
  }

  /** A run is its events one after the other. */
  lemma {:induction false} RunGoesOn(t: System, events: seq<Event>, e: Event)
    requires Valid(t.log)
    ensures Run(t, []) == t && Run(t, events + [e]) == Step(Run(t, events), e)
    decreases |events|
  {
    if events == [] {
      assert [e][1..] == [];
    } else {
      RunGoesOn(Step(t, events[0]), events[1..], e);
      assert (events + [e])[1..] == events[1..] + [e];
    }
  }

  /** First in, first out, over every run in which no write misplaces its bytes. */
  lemma {:induction false} FirstInFirstOut(t: System, events: seq<Event>)
    requires Valid(t.log) && t.stored == t.delivered + Contents(t.log) && NeverMisplaces(t, events)
    ensures Run(t, events).stored == Run(t, events).delivered + Contents(Run(t, events).log)
    decreases |events|
  {
    if events != [] {
      StepKeepsOrder(t, events[0]);
      FirstInFirstOut(Step(t, events[0]), events[1..]);
    }
  }

  lemma WritingKeepsOrder(t: System, bytes: seq<byte>)
    requires Valid(t.log) && t.stored == t.delivered + Contents(t.log) && !Misplaces(t.log, |bytes|)
    ensures Step(t, Writing(bytes)).stored == t.delivered + Contents(Step(t, Writing(bytes)).log)
  {
    WriteAppends(t.log, bytes);
    Associate(t.delivered, Contents(t.log), bytes[..Write(t.log, bytes).stored]);
  }

  lemma ReadingKeepsOrder(t: System, n: nat)
    requires Valid(t.log) && t.stored == t.delivered + Contents(t.log)
    ensures t.stored == Step(t, Reading(n)).delivered + Contents(Step(t, Reading(n)).log)
  {
    ReadTakes(t.log, n);
    Associate(t.delivered, Read(t.log, n).1, Contents(Read(t.log, n).0));
  }

  lemma StepKeepsOrder(t: System, e: Event)
    requires Valid(t.log) && t.stored == t.delivered + Contents(t.log)
    requires e.Writing? ==> !Misplaces(t.log, |e.bytes|)
    ensures Step(t, e).stored == Step(t, e).delivered + Contents(Step(t, e).log)
  {
    match e
    case Writing(bytes) => WritingKeepsOrder(t, bytes);
    case Reading(n) => ReadingKeepsOrder(t, n);
  }
}
