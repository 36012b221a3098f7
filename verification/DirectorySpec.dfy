/** A directory file: records one after the other, in this host's byte order or in the other one,
    and the entries that getdents and getdirentries owe the user. */
module DirectorySpec {
  import opened Common

  /** FSLCL_DIR_BLOCK_SIZE, the header of a record, and sizeof(struct direct). */
  const BLOCK := 512
  const HEADER := 8
  const DIRECT := 264

  /** The signed 16-bit number at p, in this host's order. */
  function Short(b: seq<byte>, p: nat): int
    requires p + 2 <= |b|
  {
    Signed(b[p], b[p + 1])
  }

  function Signed(high: byte, low: byte): (r: int)
    ensures -0x8000 <= r < 0x8000
  {
    var u := high as int * 0x100 + low as int;
    if u >= 0x8000 then u - 0x1_0000 else u
  }

  function RecLen(b: seq<byte>, p: nat): int
    requires p + HEADER <= |b|
  {
    Short(b, p + 4)
  }

  function NamLen(b: seq<byte>, p: nat): int
    requires p + HEADER <= |b|
  {
    Short(b, p + 6)
  }

  /** A record with file number 0 is free. */
  predicate Live(b: seq<byte>, p: nat)
    requires p + HEADER <= |b|
  {
    b[p] != 0 || b[p + 1] != 0 || b[p + 2] != 0 || b[p + 3] != 0
  }

  /** DIRSIZ: the header, the name and its null byte, in whole words. */
  function DirSiz(b: seq<byte>, p: nat): int
    requires p + HEADER <= |b|
  {
    HEADER + (NamLen(b, p) / 4 + 1) * 4
  }

  /** The record's name is longer than a struct direct can hold. */
  predicate TooLong(b: seq<byte>, p: nat)
    requires p + HEADER <= |b|
  {
    DirSiz(b, p) > DIRECT
  }

  /** A whole record lies at p. */
  predicate Record(file: seq<byte>, p: nat) {
    && p + HEADER <= |file|
    && HEADER <= RecLen(file, p) <= BLOCK && RecLen(file, p) % 4 == 0 && p + RecLen(file, p) <= |file|
    && 0 <= NamLen(file, p)
    && (Listed(file, p) ==> DirSiz(file, p) <= RecLen(file, p))
  }

  /** The record is one that the user should get. */
  predicate Listed(b: seq<byte>, p: nat)
    requires p + HEADER <= |b|
  {
    Live(b, p) && !TooLong(b, p)
  }

  /** Records from p to the end of the file. */
  predicate WellFormed(file: seq<byte>, p: nat)
    decreases |file| - p
  {
    p <= |file| && (p < |file| ==> Record(file, p) && WellFormed(file, p + RecLen(file, p)))
  }

  /** q is where a record that follows p starts, or where the file ends. */
  predicate Reaches(file: seq<byte>, p: nat, q: nat)
    decreases |file| - p
  {
    p == q || (p < q && Record(file, p) && Reaches(file, p + RecLen(file, p), q))
  }

  lemma {:induction false} EndReached(file: seq<byte>, p: nat)
    requires WellFormed(file, p)
    ensures Reaches(file, p, |file|)
    decreases |file| - p
  {
    if p < |file| {
      EndReached(file, p + RecLen(file, p));
    }
  }

  /** Of two places reached from p, the lesser reaches the greater. */
  lemma {:induction false} ReachesOn(file: seq<byte>, p: nat, q: nat, r: nat)
    requires Reaches(file, p, q) && Reaches(file, p, r) && q <= r
    ensures Reaches(file, q, r)
    decreases |file| - p
  {
    if p < q {
      ReachesOn(file, p + RecLen(file, p), q, r);
    }
  }

  lemma {:induction false} ReachesFurther(file: seq<byte>, p: nat, q: nat)
    requires Reaches(file, p, q) && Record(file, q)
    ensures Reaches(file, p, q + RecLen(file, q))
    decreases |file| - p
  {
    if p < q {
      ReachesFurther(file, p + RecLen(file, p), q);
    } else {
      assert Reaches(file, q + RecLen(file, q), q + RecLen(file, q));
    }
  }

  /** A record with too long a name lies ahead of p. */
  ghost predicate LongAhead(file: seq<byte>, p: nat) {
    exists q :: LongAt(file, p, q)
  }

  ghost predicate LongAt(file: seq<byte>, p: nat, q: nat) {
    Reaches(file, p, q) && Record(file, q) && TooLong(file, q)
  }

  lemma LongFurther(file: seq<byte>, p: nat, q: nat)
    requires Reaches(file, p, q) && LongAhead(file, q)
    ensures LongAhead(file, p)
  {
    var r :| LongAt(file, q, r);
    ReachesAll(file, p, q, r);
    assert LongAt(file, p, r);
  }

  // ------------------------------------------------------------------ what the user gets

  function Int4(n: nat): (b: seq<byte>)
    ensures |b| == 4
  {
    [(n / 0x100_0000 % 0x100) as byte, (n / 0x1_0000 % 0x100) as byte, (n / 0x100 % 0x100) as byte, (n % 0x100) as byte]
  }

  function Short2(n: nat): (b: seq<byte>)
    requires n < 0x8000
    ensures |b| == 2
  {
    [(n / 0x100) as byte, (n % 0x100) as byte]
  }

  /** The record at p, without what pads it, and with the length `length`. */
  function Body(file: seq<byte>, p: nat, length: seq<byte>): (e: seq<byte>)
    requires Record(file, p) && Listed(file, p) && |length| == 2
    ensures |e| == DirSiz(file, p)
  {
    file[p..p + 4] + length + file[p + 6..p + DirSiz(file, p)]
  }

  /** The entry made of the record at p. A struct dirent also carries the record's offset. */
  function Entry(file: seq<byte>, p: nat, dents: bool): (e: seq<byte>)
    requires Record(file, p) && Listed(file, p)
    ensures |e| == DirSiz(file, p) + if dents then 4 else 0
  {
    if dents then Int4(p) + Body(file, p, Short2(DirSiz(file, p) + 4)) else Body(file, p, Short2(DirSiz(file, p)))
  }

  /** The entries of the live records from p on, in order. */
  function Entries(file: seq<byte>, p: nat, dents: bool): seq<seq<byte>>
    requires WellFormed(file, p)
    decreases |file| - p
  {
    if p == |file| then []
    else (if Listed(file, p) then [Entry(file, p, dents)] else []) + Entries(file, p + RecLen(file, p), dents)
  }

  function Flat(es: seq<seq<byte>>): seq<byte> {
    if es == [] then [] else Flat(es[..|es| - 1]) + es[|es| - 1]
  }

  lemma {:induction false} FlatBoth(a: seq<seq<byte>>, c: seq<seq<byte>>)
    ensures Flat(a + c) == Flat(a) + Flat(c)
  {
    if c == [] {
      assert a + c == a;
    } else {
      var n := |c| - 1;
      FlatBoth(a, c[..n]);
      assert (a + c)[..|a + c| - 1] == a + c[..n];
      assert Flat(a) + Flat(c) == Flat(a) + Flat(c[..n]) + c[n];
    }
  }

  /** The entries of the live records from p up to q. */
  function Between(file: seq<byte>, p: nat, q: nat, dents: bool): seq<seq<byte>>
    requires Reaches(file, p, q)
    decreases |file| - p
  {
    if p == q then []
    else (if Listed(file, p) then [Entry(file, p, dents)] else []) + Between(file, p + RecLen(file, p), q, dents)
  }

  lemma {:induction false} EntriesSplit(file: seq<byte>, p: nat, q: nat, dents: bool)
    requires WellFormed(file, p) && Reaches(file, p, q)
    ensures WellFormed(file, q) && Entries(file, p, dents) == Between(file, p, q, dents) + Entries(file, q, dents)
    decreases |file| - p
  {
    if p != q {
      var next := p + RecLen(file, p);
      EntriesSplit(file, next, q, dents);
      Associate(if Listed(file, p) then [Entry(file, p, dents)] else [], Between(file, next, q, dents),
                Entries(file, q, dents));
    } else {
      assert [] + Entries(file, q, dents) == Entries(file, q, dents);
    }
  }

  lemma {:induction false} BetweenBoth(file: seq<byte>, p: nat, q: nat, r: nat, dents: bool)
    requires Reaches(file, p, q) && Reaches(file, q, r) && Reaches(file, p, r)
    ensures Between(file, p, r, dents) == Between(file, p, q, dents) + Between(file, q, r, dents)
    decreases |file| - p
  {
    if p != q {
      var next := p + RecLen(file, p);
      ReachesUpTo(file, next, q);
      ReachesUpTo(file, q, r);
      BetweenBoth(file, next, q, r, dents);
      Associate(if Listed(file, p) then [Entry(file, p, dents)] else [], Between(file, next, q, dents),
                Between(file, q, r, dents));
    } else {
      assert [] + Between(file, q, r, dents) == Between(file, q, r, dents);
    }
  }

  lemma {:induction false} ReachesUpTo(file: seq<byte>, p: nat, q: nat)
    requires Reaches(file, p, q)
    ensures p <= q
    decreases |file| - p
  {
    if p != q {
      ReachesUpTo(file, p + RecLen(file, p), q);
    }
  }

  /** The call fails at the record at q: its name is too long, its header is in the page of `size` bytes
      that starts at `base`, and the entries of that page ahead of it leave room in the user's buffer. */
  ghost predicate BlockedAt(file: seq<byte>, base: nat, size: nat, dents: bool, q: nat) {
    && LongAt(file, base, q) && q + HEADER <= base + size
    && |Flat(Between(file, base, q, dents))| < size
  }

  ghost predicate Blocked(file: seq<byte>, base: nat, size: nat, dents: bool) {
    exists q :: BlockedAt(file, base, size, dents, q)
  }

  /** No record from p up to q has too long a name. */
  ghost predicate NoneLong(file: seq<byte>, p: nat, q: nat) {
    forall r :: LongAt(file, p, r) ==> q <= r
  }

  lemma NoneLongNext(file: seq<byte>, p: nat, q: nat, next: nat)
    requires Reaches(file, p, q) && NoneLong(file, p, q) && Record(file, q) && !TooLong(file, q)
    requires next == q + RecLen(file, q)
    ensures NoneLong(file, p, next)
  {
    forall r | LongAt(file, p, r)
      ensures next <= r
    {
      ReachesOn(file, p, q, r);
      ReachesUpTo(file, next, r);
    }
  }

  lemma SizeGrows(file: seq<byte>, p: nat, q: nat, r: nat, dents: bool)
    requires Reaches(file, p, q) && Reaches(file, q, r) && Reaches(file, p, r)
    ensures |Flat(Between(file, p, r, dents))| ==
            |Flat(Between(file, p, q, dents))| + |Flat(Between(file, q, r, dents))|
  {
    BetweenBoth(file, p, q, r, dents);
    FlatBoth(Between(file, p, q, dents), Between(file, q, r, dents));
  }

  /** A record whose own entry does not fit keeps every longer stretch from fitting. */
  lemma FirstEntry(file: seq<byte>, q: nat, r: nat, dents: bool)
    requires Reaches(file, q, r) && q < r && Listed(file, q)
    ensures q + DirSiz(file, q) <= r
    ensures |Flat(Between(file, q, r, dents))| >= DirSiz(file, q) + if dents then 4 else 0
  {
    var next, e := q + RecLen(file, q), Entry(file, q, dents);
    ReachesUpTo(file, next, r);
    FlatBoth([e], Between(file, next, r, dents));
    assert [e][..0] == [] && Flat([e]) == Flat([]) + e;
  }

  /** Whether a record is one the user gets or one a call fails at. */
  predicate Matters(file: seq<byte>, p: nat) {
    p + HEADER <= |file| && (Live(file, p) || TooLong(file, p))
  }

  /** A failing call leaves the file pointer behind the page it has read. Where that is a record's
      boundary, no later call delivers what the page held. */
  lemma FailureSkips(file: seq<byte>, base: nat, dents: bool, next: nat)
    requires WellFormed(file, base) && Reaches(file, base, next)
    ensures WellFormed(file, next)
    ensures Owed(file, base, dents) == Flat(Between(file, base, next, dents)) + Owed(file, next, dents)
  {
    EntriesSplit(file, base, next, dents);
    FlatBoth(Between(file, base, next, dents), Entries(file, next, dents));
  }

  /** One record with too long a name, 512 bytes long. */
  function LongRecord(): seq<byte> {
    [1, 0, 0, 0, 2, 0, 1, 0] + seq(504, _ => 0)
  }

  /** A boundary it need not be: a page of 268 bytes ends inside that record. */
  lemma FailureLeavesBoundary()
    ensures var file := LongRecord();
            WellFormed(file, 0) && Blocked(file, 0, 268, true) && Min(268, |file|) == 268 && !Reaches(file, 0, 268)
  {
    var file := LongRecord();
    assert RecLen(file, 0) == 512 && NamLen(file, 0) == 256 && TooLong(file, 0);
    assert Record(file, 0) && WellFormed(file, 512);
    assert Between(file, 0, 0, true) == [] && Flat([]) == [];
    assert BlockedAt(file, 0, 268, true, 0);
    if Reaches(file, 0, 268) {
      ReachesUpTo(file, 512, 268);
    }
  }

  /** One call at `offset` that leaves the file pointer at `next`: whole entries, in order, none
      skipped and none twice; none at all only when none is left. */
  ghost predicate Page(file: seq<byte>, offset: nat, dents: bool, nbytes: nat, next: nat, out: seq<byte>) {
    && WellFormed(file, offset) && Reaches(file, offset, next) && WellFormed(file, next) && |out| <= nbytes
    && (exists es :: Entries(file, offset, dents) == es + Entries(file, next, dents) && out == Flat(es))
    && (out == [] <==> Entries(file, offset, dents) == [])
    && (out == [] ==> next == |file|)
  }

  /** A run of calls, each with a size of its own. */
  datatype Call = Call(nbytes: nat, next: nat, out: seq<byte>)

  ghost predicate Calls(file: seq<byte>, offset: nat, dents: bool, calls: seq<Call>)
    decreases |calls|
  {
    calls != [] ==>
      && Page(file, offset, dents, calls[0].nbytes, calls[0].next, calls[0].out)
      && Calls(file, calls[0].next, dents, calls[1..])
  }

  function Output(calls: seq<Call>): seq<byte> {
    if calls == [] then [] else calls[0].out + Output(calls[1..])
  }

  function Ends(offset: nat, calls: seq<Call>): nat
    decreases |calls|
  {
    if calls == [] then offset else Ends(calls[0].next, calls[1..])
  }

  /** After any run of calls the file pointer is on a record boundary. */
  lemma {:induction false} OnBoundary(file: seq<byte>, offset: nat, dents: bool, calls: seq<Call>)
    requires WellFormed(file, offset) && Calls(file, offset, dents, calls)
    ensures Reaches(file, offset, Ends(offset, calls)) && WellFormed(file, Ends(offset, calls))
    decreases |calls|
  {
    if calls != [] {
      OnBoundary(file, calls[0].next, dents, calls[1..]);
      ReachesAll(file, offset, calls[0].next, Ends(offset, calls));
    }
  }

  /** What the directory still owes at p. */
  function Owed(file: seq<byte>, p: nat, dents: bool): seq<byte>
    requires WellFormed(file, p)
  {
    Flat(Entries(file, p, dents))
  }

  /** After any run of calls, what was delivered and what is still to come make up the directory. */
  lemma {:induction false} NothingLost(file: seq<byte>, offset: nat, dents: bool, calls: seq<Call>)
    requires WellFormed(file, offset) && Calls(file, offset, dents, calls)
    ensures WellFormed(file, Ends(offset, calls))
    ensures Owed(file, offset, dents) == Output(calls) + Owed(file, Ends(offset, calls), dents)
    decreases |calls|
  {
    if calls != [] {
      var c, rest, end := calls[0], calls[1..], Ends(offset, calls);
      NothingLost(file, c.next, dents, rest);
      PageParts(file, offset, dents, c);
      Associate(c.out, Output(rest), Owed(file, end, dents));
    }
  }

  lemma PageParts(file: seq<byte>, offset: nat, dents: bool, c: Call)
    requires Page(file, offset, dents, c.nbytes, c.next, c.out)
    ensures Owed(file, offset, dents) == c.out + Owed(file, c.next, dents)
  {
    var es :| Entries(file, offset, dents) == es + Entries(file, c.next, dents) && c.out == Flat(es);
    FlatBoth(es, Entries(file, c.next, dents));
  }

  lemma {:induction false} ReachesAll(file: seq<byte>, p: nat, q: nat, r: nat)
    requires Reaches(file, p, q) && Reaches(file, q, r)
    ensures Reaches(file, p, r)
    decreases |file| - p
  {
    if p < q {
      ReachesAll(file, p + RecLen(file, p), q, r);
    }
  }

  /** Once a call has returned nothing, the user has every live entry, each once and in order. */
  lemma AllDelivered(file: seq<byte>, dents: bool, calls: seq<Call>, last: Call)
    requires WellFormed(file, 0) && Calls(file, 0, dents, calls + [last]) && last.out == []
    ensures Output(calls) == Owed(file, 0, dents)
    ensures UserReads(Output(calls), dents) == Some(Holds(file, 0, dents))
  {
    CallsSplit(file, 0, dents, calls, last);
    NothingLost(file, 0, dents, calls);
    assert Output(calls) + [] == Output(calls);
    EndReached(file, 0);
    EntriesSplit(file, 0, |file|, dents);
    assert Between(file, 0, |file|, dents) + [] == Between(file, 0, |file|, dents);
    BetweenReads(file, 0, |file|, dents);
    HoldsSplit(file, 0, |file|, dents);
    assert HoldsUpTo(file, 0, |file|, dents) + [] == HoldsUpTo(file, 0, |file|, dents);
  }

  lemma {:induction false} CallsSplit(file: seq<byte>, offset: nat, dents: bool, calls: seq<Call>, last: Call)
    requires WellFormed(file, offset) && Calls(file, offset, dents, calls + [last])
    ensures Calls(file, offset, dents, calls)
    ensures Page(file, Ends(offset, calls), dents, last.nbytes, last.next, last.out)
    decreases |calls|
  {
    if calls != [] {
      assert (calls + [last])[0] == calls[0] && (calls + [last])[1..] == calls[1..] + [last];
      CallsSplit(file, calls[0].next, dents, calls[1..], last);
    }
  }

  /** As long as calls deliver something, fewer entries are left: the end comes after at most as
      many calls as there are entries. */
  lemma {:induction false} CallsMakeProgress(file: seq<byte>, offset: nat, dents: bool, calls: seq<Call>)
    requires WellFormed(file, offset) && Calls(file, offset, dents, calls)
    requires forall i :: 0 <= i < |calls| ==> calls[i].out != []
    ensures |calls| <= |Entries(file, offset, dents)|
    decreases |calls|
  {
    if calls != [] {
      var c := calls[0];
      assert forall i :: 0 <= i < |calls[1..]| ==> calls[1..][i] == calls[i + 1];
      CallsMakeProgress(file, c.next, dents, calls[1..]);
      var es :| Entries(file, offset, dents) == es + Entries(file, c.next, dents) && c.out == Flat(es);
      assert es != [];
    }
  }

  // ------------------------------------------------------------------ what a reader finds

  /** Unsigned numbers of two and four bytes at p. */
  function Number2(b: seq<byte>, p: nat): nat
    requires p + 2 <= |b|
  {
    b[p] as nat * 0x100 + b[p + 1] as nat
  }

  function Number4(b: seq<byte>, p: nat): nat
    requires p + 4 <= |b|
  {
    Number2(b, p) * 0x1_0000 + Number2(b, p + 2)
  }

  /** An entry as a program sees it. Only a struct dirent has an offset. */
  datatype UserEntry = UserEntry(offset: Option<nat>, ino: nat, name: seq<byte>)

  /** Where the fields that both structures have begin. */
  function FieldsAt(dents: bool): nat {
    if dents then 4 else 0
  }

  /** The first entry of the user's buffer, by the structure's own fields. */
  function FirstRead(out: seq<byte>, dents: bool): UserEntry
    requires |out| >= FieldsAt(dents) + 8 && FieldsAt(dents) + 8 + Number2(out, FieldsAt(dents) + 6) <= |out|
  {
    var p := FieldsAt(dents);
    UserEntry(if dents then Some(Number4(out, 0)) else None, Number4(out, p), out[p + 8..p + 8 + Number2(out, p + 6)])
  }

  /** A program that goes through its buffer by d_reclen. None when a length is 0 or leads out of the
      buffer, or a name leads out of its entry. */
  function UserReads(out: seq<byte>, dents: bool): Option<seq<UserEntry>>
    decreases |out|
  {
    if out == [] then Some([]) else
    var p := FieldsAt(dents);
    if |out| < p + 8 then None else
    var length, namlen := Number2(out, p + 4), Number2(out, p + 6);
    if length == 0 || length > |out| || p + 8 + namlen > length then None else
    var rest := UserReads(out[length..], dents);
    if rest == None then None else Some([FirstRead(out, dents)] + rest.value)
  }

  /** What a program should see of the record at p: its file number, its name and its offset. */
  function Seen(file: seq<byte>, p: nat, dents: bool): UserEntry
    requires p + 8 <= |file| && p + 8 + Number2(file, p + 6) <= |file|
  {
    UserEntry(if dents then Some(p % 0x1_0000_0000) else None, Number4(file, p),
              file[p + 8..p + 8 + Number2(file, p + 6)])
  }

  /** What the directory holds from p on for a program: the records that have a file number and a name
      of at most 255 bytes. */
  function Holds(file: seq<byte>, p: nat, dents: bool): seq<UserEntry>
    requires WellFormed(file, p)
    decreases |file| - p
  {
    if p == |file| then [] else
    (if Number4(file, p) != 0 && Number2(file, p + 6) <= 255 then [Seen(file, p, dents)] else []) +
    Holds(file, p + Number2(file, p + 4), dents)
  }

  /** DIRSIZ leaves room for the name and a null byte, and no more than fills the last word. */
  lemma DirSizIsTight(b: seq<byte>, p: nat)
    requires p + HEADER <= |b| && NamLen(b, p) >= 0
    ensures DirSiz(b, p) % 4 == 0 && 8 + NamLen(b, p) + 1 <= DirSiz(b, p) <= 8 + NamLen(b, p) + 4
  {
  }

  lemma Unsigned(b: seq<byte>, p: nat)
    requires p + 2 <= |b| && Short(b, p) >= 0
    ensures Number2(b, p) == Short(b, p)
  {
  }

  lemma Int4Reads(n: nat, rest: seq<byte>)
    ensures Number4(Int4(n) + rest, 0) == n % 0x1_0000_0000
  {
    var n1, n2, n3, n4 := n / 0x100, n / 0x1_0000, n / 0x100_0000, n / 0x1_0000_0000;
    assert n2 == n1 / 0x100 && n3 == n2 / 0x100 && n4 == n3 / 0x100;
    assert n == n4 * 0x1_0000_0000 + n3 % 0x100 * 0x100_0000 + n2 % 0x100 * 0x1_0000 + n1 % 0x100 * 0x100 + n % 0x100;
    var b := Int4(n) + rest;
    assert b[0] == Int4(n)[0] && b[1] == Int4(n)[1] && b[2] == Int4(n)[2] && b[3] == Int4(n)[3];
  }

  lemma MiddleSlice(front: seq<byte>, body: seq<byte>, rest: seq<byte>, i: nat, j: nat)
    requires i <= j <= |body|
    ensures (front + body + rest)[|front| + i..|front| + j] == body[i..j]
  {
  }

  /** Behind its length an entry's bytes are the record's. */
  lemma BodyAt(file: seq<byte>, p: nat, length: seq<byte>, k: nat)
    requires Record(file, p) && Listed(file, p) && |length| == 2 && 6 <= k < DirSiz(file, p)
    ensures Body(file, p, length)[k] == file[p + k]
  {
    var tail := file[p + 6..p + DirSiz(file, p)];
    assert Body(file, p, length)[k] == tail[k - 6];
  }

  lemma BodyName(file: seq<byte>, p: nat, length: seq<byte>, n: nat)
    requires Record(file, p) && Listed(file, p) && |length| == 2 && 8 + n <= DirSiz(file, p)
    ensures Body(file, p, length)[8..8 + n] == file[p + 8..p + 8 + n]
  {
    var l, r := Body(file, p, length)[8..8 + n], file[p + 8..p + 8 + n];
    forall k | 0 <= k < n
      ensures l[k] == r[k]
    {
      BodyAt(file, p, length, 8 + k);
    }
  }

  /** The bytes of a record's entry, field by field, whatever precedes and follows them. */
  lemma BodyFields(file: seq<byte>, p: nat, length: nat, front: seq<byte>, rest: seq<byte>)
    requires Record(file, p) && Listed(file, p) && length < 0x8000
    ensures var out, q, n := front + Body(file, p, Short2(length)) + rest, |front|, Number2(file, p + 6);
            && |out| >= q + DirSiz(file, p) && n <= 255 && 8 + n < DirSiz(file, p)
            && Number4(out, q) == Number4(file, p) && Number2(out, q + 4) == length && Number2(out, q + 6) == n
            && out[q + 8..q + 8 + n] == file[p + 8..p + 8 + n]
  {
    Unsigned(file, p + 6);
    DirSizIsTight(file, p);
    var body, q, n := Body(file, p, Short2(length)), |front|, Number2(file, p + 6);
    var out := front + body + rest;
    assert forall k :: 0 <= k < 8 ==> out[q + k] == body[k];
    MiddleSlice(front, body, rest, 8, 8 + n);
    BodyName(file, p, Short2(length), n);
  }

  lemma EntryReads(file: seq<byte>, p: nat, dents: bool, rest: seq<byte>)
    requires Record(file, p) && Listed(file, p)
    ensures var e := Entry(file, p, dents);
            var out, q := e + rest, FieldsAt(dents);
            && |out| >= q + 8 && Number2(out, q + 4) == |e| && q + 8 + Number2(out, q + 6) <= |e|
            && p + 8 + Number2(file, p + 6) <= |file| && FirstRead(out, dents) == Seen(file, p, dents)
  {
    var front := if dents then Int4(p) else [];
    var length := DirSiz(file, p) + FieldsAt(dents);
    BodyFields(file, p, length, front, rest);
    assert Entry(file, p, dents) + rest == front + Body(file, p, Short2(length)) + rest;
    if dents {
      Int4Reads(p, Body(file, p, Short2(length)) + rest);
      Associate(Int4(p), Body(file, p, Short2(length)), rest);
    }
  }

  /** A program that reads an entry goes on right behind it. */
  lemma EntryThenRest(file: seq<byte>, p: nat, dents: bool, rest: seq<byte>)
    requires Record(file, p) && Listed(file, p) && UserReads(rest, dents).Some?
    ensures p + 8 + Number2(file, p + 6) <= |file|
    ensures UserReads(Entry(file, p, dents) + rest, dents) ==
            Some([Seen(file, p, dents)] + UserReads(rest, dents).value)
  {
    var e := Entry(file, p, dents);
    EntryReads(file, p, dents, rest);
    assert (e + rest)[|e|..] == rest;
  }

  /** A live record of legal length is listed exactly when a program should see it. */
  lemma ListedIsHeld(file: seq<byte>, p: nat)
    requires Record(file, p)
    ensures Listed(file, p) <==> Number4(file, p) != 0 && Number2(file, p + 6) <= 255
    ensures Number2(file, p + 4) == RecLen(file, p)
  {
    Unsigned(file, p + 4);
    Unsigned(file, p + 6);
    DirSizIsTight(file, p);
  }

  lemma FlatFirst(e: seq<byte>, es: seq<seq<byte>>)
    ensures Flat([e] + es) == e + Flat(es)
  {
    FlatBoth([e], es);
    assert [e][..0] == [] && Flat([e]) == Flat([]) + e;
  }

  /** One record, and the entries es of those behind it. */
  lemma RecordReads(file: seq<byte>, p: nat, es: seq<seq<byte>>, dents: bool)
    requires Record(file, p) && UserReads(Flat(es), dents).Some?
    ensures Listed(file, p) ==> p + 8 + Number2(file, p + 6) <= |file|
    ensures UserReads(Flat((if Listed(file, p) then [Entry(file, p, dents)] else []) + es), dents) ==
            Some((if Listed(file, p) then [Seen(file, p, dents)] else []) + UserReads(Flat(es), dents).value)
  {
    ListedIsHeld(file, p);
    if Listed(file, p) {
      FlatFirst(Entry(file, p, dents), es);
      EntryThenRest(file, p, dents, Flat(es));
    } else {
      assert [] + es == es && [] + UserReads(Flat(es), dents).value == UserReads(Flat(es), dents).value;
    }
  }

  /** What a program should see of the records from p up to q. */
  function HoldsUpTo(file: seq<byte>, p: nat, q: nat, dents: bool): seq<UserEntry>
    requires Reaches(file, p, q)
    decreases |file| - p
  {
    if p == q then [] else
    ListedIsHeld(file, p);
    (if Listed(file, p) then [Seen(file, p, dents)] else []) + HoldsUpTo(file, p + RecLen(file, p), q, dents)
  }

  /** A program that reads the entries of those records. */
  lemma {:induction false} BetweenReads(file: seq<byte>, p: nat, q: nat, dents: bool)
    requires Reaches(file, p, q)
    ensures UserReads(Flat(Between(file, p, q, dents)), dents) == Some(HoldsUpTo(file, p, q, dents))
    decreases |file| - p
  {
    if p != q {
      BetweenReads(file, p + RecLen(file, p), q, dents);
      RecordReads(file, p, Between(file, p + RecLen(file, p), q, dents), dents);
    }
  }

  lemma {:induction false} HoldsSplit(file: seq<byte>, p: nat, q: nat, dents: bool)
    requires WellFormed(file, p) && Reaches(file, p, q)
    ensures WellFormed(file, q) && Holds(file, p, dents) == HoldsUpTo(file, p, q, dents) + Holds(file, q, dents)
    decreases |file| - p
  {
    if p == q {
      assert [] + Holds(file, q, dents) == Holds(file, q, dents);
    } else {
      var next := p + RecLen(file, p);
      ListedIsHeld(file, p);
      HoldsSplit(file, next, q, dents);
      Associate(if Listed(file, p) then [Seen(file, p, dents)] else [], HoldsUpTo(file, next, q, dents),
                Holds(file, q, dents));
    }
  }

  lemma PageIsBetween(file: seq<byte>, offset: nat, dents: bool, nbytes: nat, next: nat, out: seq<byte>)
    requires Page(file, offset, dents, nbytes, next, out)
    ensures out == Flat(Between(file, offset, next, dents))
  {
    var es :| Entries(file, offset, dents) == es + Entries(file, next, dents) && out == Flat(es);
    EntriesSplit(file, offset, next, dents);
    var b := Between(file, offset, next, dents);
    assert |es| == |b|;
    assert (es + Entries(file, next, dents))[..|es|] == es && (b + Entries(file, next, dents))[..|b|] == b;
  }

  /** What one call puts in the buffer, a program reads to its end by d_reclen: the next entries the
      directory holds, in order, with their numbers, names and offsets. */
  lemma PageReads(file: seq<byte>, offset: nat, dents: bool, nbytes: nat, next: nat, out: seq<byte>)
    requires Page(file, offset, dents, nbytes, next, out)
    ensures var read := UserReads(out, dents);
            read.Some? && Holds(file, offset, dents) == read.value + Holds(file, next, dents)
  {
    PageIsBetween(file, offset, dents, nbytes, next, out);
    BetweenReads(file, offset, next, dents);
    HoldsSplit(file, offset, next, dents);
  }

  // ------------------------------------------------------------------ the other byte order

  /** disk holds the records of file from p on with each header in the other byte order. */
  predicate Foreign(disk: seq<byte>, file: seq<byte>, p: nat)
    requires WellFormed(file, p)
    decreases |file| - p
  {
    && |disk| == |file|
    && (p < |file| ==>
          && ForeignHeader(disk, file, p)
          && disk[p + HEADER..p + RecLen(file, p)] == file[p + HEADER..p + RecLen(file, p)]
          && Foreign(disk, file, p + RecLen(file, p)))
  }

  predicate ForeignHeader(disk: seq<byte>, file: seq<byte>, p: nat)
    requires p + HEADER <= |file| == |disk|
  {
    && disk[p] == file[p + 3] && disk[p + 1] == file[p + 2] && disk[p + 2] == file[p + 1] && disk[p + 3] == file[p]
    && disk[p + 4] == file[p + 5] && disk[p + 5] == file[p + 4]
    && disk[p + 6] == file[p + 7] && disk[p + 7] == file[p + 6]
  }

  /** Numbers of two and four bytes at p whose least significant byte comes first. */
  function Backward2(b: seq<byte>, p: nat): nat
    requires p + 2 <= |b|
  {
    b[p] as nat + b[p + 1] as nat * 0x100
  }

  function Backward4(b: seq<byte>, p: nat): nat
    requires p + 4 <= |b|
  {
    Backward2(b, p) + Backward2(b, p + 2) * 0x1_0000
  }

  lemma SamePair(a: nat, b: nat, c: nat, d: nat)
    requires b < 0x100 && d < 0x100
    ensures a * 0x100 + b == c * 0x100 + d <==> a == c && b == d
  {
  }

  lemma SameFour(a: nat, b: nat, c: nat, d: nat)
    requires b < 0x1_0000 && d < 0x1_0000
    ensures a * 0x1_0000 + b == c * 0x1_0000 + d <==> a == c && b == d
  {
  }

  /** A header is in the other byte order exactly when reading its three fields backward gives the file
      number and the two lengths that the record has in this host's order. */
  lemma ForeignReads(disk: seq<byte>, file: seq<byte>, p: nat)
    requires p + HEADER <= |file| == |disk|
    ensures ForeignHeader(disk, file, p) <==>
            && Backward4(disk, p) == Number4(file, p)
            && Backward2(disk, p + 4) == Number2(file, p + 4) && Backward2(disk, p + 6) == Number2(file, p + 6)
  {
    SameFour(Backward2(disk, p + 2), Backward2(disk, p), Number2(file, p), Number2(file, p + 2));
    SamePair(disk[p + 3] as nat, disk[p + 2] as nat, file[p] as nat, file[p + 1] as nat);
    SamePair(disk[p + 1] as nat, disk[p] as nat, file[p + 2] as nat, file[p + 3] as nat);
    SamePair(disk[p + 5] as nat, disk[p + 4] as nat, file[p + 4] as nat, file[p + 5] as nat);
    SamePair(disk[p + 7] as nat, disk[p + 6] as nat, file[p + 6] as nat, file[p + 7] as nat);
  }

  lemma {:induction false} ForeignOn(disk: seq<byte>, file: seq<byte>, p: nat, q: nat)
    requires WellFormed(file, p) && Foreign(disk, file, p) && Reaches(file, p, q)
    ensures WellFormed(file, q) && Foreign(disk, file, q)
    decreases |file| - p
  {
    if p < q {
      ForeignOn(disk, file, p + RecLen(file, p), q);
    }
  }

  /** Of all the lengths in 8..512, one and only one is a length in either byte order: 257. */
  lemma SwapsIntoRange(high: byte, low: byte)
    requires HEADER <= Signed(high, low) <= BLOCK
    ensures HEADER <= Signed(low, high) <= BLOCK <==> Signed(high, low) == 257
  {
    if HEADER <= Signed(low, high) <= BLOCK {
      assert low < 3 && high < 3;
    }
  }

  /** A record length is never mistaken for one in the other order: 257 is no multiple of 4. */
  lemma SwappedLengthIsNoLength(high: byte, low: byte)
    requires HEADER <= Signed(high, low) <= BLOCK && Signed(high, low) % 4 == 0
    ensures Signed(low, high) < HEADER || Signed(low, high) > BLOCK
  {
    SwapsIntoRange(high, low);
  }
}
