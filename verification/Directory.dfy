/** Fs_GetdirInt, Fs_GetdentsStub and Fs_GetdirentriesStub: reading a page of a directory, bringing
    its headers into this host's byte order, and repacking its live records for the user. */
module Directory {
  import opened Common
  import opened DirectorySpec

  const DIR_BUF := 4096

  /** The first n bytes of b show the file from `off` on as far as `edge`, a record boundary past
      which no whole header lies in the buffer. */
  ghost predicate Shown(b: seq<byte>, n: nat, file: seq<byte>, off: nat, edge: nat) {
    && n <= |b| && n < edge + HEADER && off + n <= |file|
    && WellFormed(file, off) && Reaches(file, off, off + edge)
    && b[..Min(n, edge)] == file[off..off + Min(n, edge)]
  }

  // ------------------------------------------------------------------ byte order

  /** The header at p with each of its three fields reversed. */
  function SwappedHeader(b: seq<byte>, p: nat): (h: seq<byte>)
    requires p + HEADER <= |b|
    ensures |h| == HEADER
  {
    [b[p + 3], b[p + 2], b[p + 1], b[p], b[p + 5], b[p + 4], b[p + 7], b[p + 6]]
  }

  /** The header at p has its fields reversed, and nothing else is changed. */
  ghost predicate HeaderSwapped(was: seq<byte>, b: seq<byte>, p: nat) {
    && p + HEADER <= |was| == |b| && b[p..p + HEADER] == SwappedHeader(was, p)
    && b[..p] == was[..p] && b[p + HEADER..] == was[p + HEADER..]
  }

  method SwapHeader(buf: array<byte>, p: nat)
    requires p + HEADER <= buf.Length
    modifies buf
    ensures HeaderSwapped(old(buf[..]), buf[..], p)
  {
    buf[p], buf[p + 1], buf[p + 2], buf[p + 3] := buf[p + 3], buf[p + 2], buf[p + 1], buf[p];
    buf[p + 4], buf[p + 5] := buf[p + 5], buf[p + 4];
    buf[p + 6], buf[p + 7] := buf[p + 7], buf[p + 6];
  }

  /** How far the walk that swaps headers has come: up to `pos` the buffer shows the file, beyond it
      what is on the disk. */
  ghost predicate Walked(b: seq<byte>, n: nat, disk: seq<byte>, file: seq<byte>, off: nat, pos: nat) {
    && n <= |b| && off + n <= |file| && WellFormed(file, off) && Reaches(file, off, off + pos)
    && WellFormed(file, off + pos) && Foreign(disk, file, off + pos)
    && b[..Min(n, pos)] == file[off..off + Min(n, pos)]
    && (pos <= n ==> b[pos..n] == disk[off + pos..off + n])
  }

  lemma HeaderRestored(b: seq<byte>, b': seq<byte>, n: nat, disk: seq<byte>, file: seq<byte>, off: nat, pos: nat)
    requires Walked(b, n, disk, file, off, pos) && pos + HEADER <= n && HeaderSwapped(b, b', pos)
    ensures Record(file, off + pos) && b'[pos..pos + HEADER] == file[off + pos..off + pos + HEADER]
    ensures b'[..pos] == file[off..off + pos]
    ensures b'[pos + HEADER..n] == disk[off + pos + HEADER..off + n]
  {
    forall k | pos <= k < n
      ensures b[k] == disk[off + k]
    {
      assert b[pos..n][k - pos] == disk[off + pos..off + n][k - pos];
    }
    forall k | pos + HEADER <= k < n
      ensures b'[k] == disk[off + k]
    {
      assert b'[pos + HEADER..][k - pos - HEADER] == b[pos + HEADER..][k - pos - HEADER];
    }
  }

  /** The file's bytes up to the end of the record whose header has been restored. */
  lemma FrontOn(b: seq<byte>, n: nat, disk: seq<byte>, file: seq<byte>, off: nat, pos: nat, next: nat)
    requires pos + HEADER <= n <= |b| && off + n <= |file| == |disk| && pos + HEADER <= next && off + next <= |file|
    requires b[pos..pos + HEADER] == file[off + pos..off + pos + HEADER] && b[..pos] == file[off..off + pos]
    requires b[pos + HEADER..n] == disk[off + pos + HEADER..off + n]
    requires disk[off + pos + HEADER..off + next] == file[off + pos + HEADER..off + next]
    ensures b[..Min(n, next)] == file[off..off + Min(n, next)]
  {
    var body, m := pos + HEADER, Min(n, next);
    assert b[body..m] == file[off + body..off + m] by {
      SliceFront(b, body, m, n);
      SliceFront(disk, off + body, off + m, off + n);
      SliceFront(disk, off + body, off + m, off + next);
      SliceFront(file, off + body, off + m, off + next);
    }
    assert b[..m] == b[..pos] + b[pos..body] + b[body..m];
    assert file[off..off + m] == file[off..off + pos] + file[off + pos..off + body] + file[off + body..off + m];
  }

  /** What is on the disk behind that record. */
  lemma BackOn(b: seq<byte>, n: nat, disk: seq<byte>, off: nat, body: nat, next: nat)
    requires body <= next <= n <= |b| && off + n <= |disk| && b[body..n] == disk[off + body..off + n]
    ensures b[next..n] == disk[off + next..off + n]
  {
    SliceBack(b, body, next, n);
    SliceBack(disk, off + body, off + next, off + n);
  }

  /** The walk goes on to where the next record starts. */
  lemma NextPlace(disk: seq<byte>, file: seq<byte>, off: nat, pos: nat, next: nat)
    requires Reaches(file, off, off + pos) && WellFormed(file, off + pos) && Foreign(disk, file, off + pos)
    requires off + pos < |file| && next == pos + RecLen(file, off + pos)
    ensures pos + HEADER <= next && off + next <= |file| == |disk|
    ensures disk[off + pos + HEADER..off + next] == file[off + pos + HEADER..off + next]
    ensures Reaches(file, off, off + next) && WellFormed(file, off + next) && Foreign(disk, file, off + next)
  {
    ReachesFurther(file, off, off + pos);
    assert off + next == off + pos + RecLen(file, off + pos);
  }

  lemma WalkOn(b: seq<byte>, n: nat, disk: seq<byte>, file: seq<byte>, off: nat, pos: nat, next: nat)
    requires pos + HEADER <= n <= |b| && off + n <= |file| == |disk| && pos + HEADER <= next && off + next <= |file|
    requires WellFormed(file, off) && Reaches(file, off, off + next)
    requires WellFormed(file, off + next) && Foreign(disk, file, off + next)
    requires b[pos..pos + HEADER] == file[off + pos..off + pos + HEADER] && b[..pos] == file[off..off + pos]
    requires b[pos + HEADER..n] == disk[off + pos + HEADER..off + n]
    requires disk[off + pos + HEADER..off + next] == file[off + pos + HEADER..off + next]
    ensures Walked(b, n, disk, file, off, next)
  {
    FrontOn(b, n, disk, file, off, pos, next);
    if next <= n {
      BackOn(b, n, disk, off, pos + HEADER, next);
    }
  }

  /** A turn of the walk: the header at pos has been restored. */
  lemma Turn(before: seq<byte>, b: seq<byte>, n: nat, disk: seq<byte>, file: seq<byte>, off: nat, pos: nat, next: int)
    requires Walked(before, n, disk, file, off, pos) && pos + HEADER <= n && HeaderSwapped(before, b, pos)
    requires next == pos + RecLen(b, pos)
    ensures next > pos && Walked(b, n, disk, file, off, next)
  {
    HeaderRestored(before, b, n, disk, file, off, pos);
    assert b[pos..pos + HEADER][4] == b[pos + 4] && b[pos..pos + HEADER][5] == b[pos + 5];
    NextPlace(disk, file, off, pos, next);
    WalkOn(b, n, disk, file, off, pos, next);
  }

  /** One turn of the loop: the header at p is swapped, which gives its record's length. */
  method SwapRecord(buf: array<byte>, n: nat, ghost disk: seq<byte>, ghost file: seq<byte>, ghost off: nat, p: nat)
    returns (length: int, next: int)
    requires Walked(buf[..], n, disk, file, off, p) && p + HEADER <= n
    modifies buf
    ensures length > 0 && next == p + length && Walked(buf[..], n, disk, file, off, next)
  {
    SwapHeader(buf, p);
    length := RecLen(buf[..], p);
    next := p + length;
    Turn(old(buf[..]), buf[..], n, disk, file, off, p, next);
  }

  lemma WalkedIsShown(b: seq<byte>, n: nat, disk: seq<byte>, file: seq<byte>, off: nat, pos: nat)
    requires Walked(b, n, disk, file, off, pos) && n < pos + HEADER
    ensures Shown(b, n, file, off, pos)
  {
  }

  lemma WalkStarts(b: seq<byte>, n: nat, disk: seq<byte>, file: seq<byte>, off: nat)
    requires n <= |b| && off + n <= |file| == |disk| && WellFormed(file, off) && Foreign(disk, file, off)
    requires b[..n] == disk[off..off + n]
    ensures Walked(b, n, disk, file, off, 0)
  {
    assert off + 0 == off && b[0..n] == b[..n];
    assert b[..Min(n, 0)] == [] && file[off..off + Min(n, 0)] == [];
  }

  lemma AllShown(b: seq<byte>, n: nat, file: seq<byte>, off: nat, edge: nat)
    requires n <= |b| && off + n <= |file| && WellFormed(file, off) && edge == |file| - off
    requires b[..n] == file[off..off + n]
    ensures Shown(b, n, file, off, edge)
  {
    EndReached(file, off);
    assert off + edge == |file|;
  }

  /** The loop that swaps the headers of the first n bytes. */
  method SwapHeaders(buf: array<byte>, n: nat, ghost disk: seq<byte>, ghost file: seq<byte>, ghost off: nat)
    returns (ok: bool, ghost edge: nat)
    requires Walked(buf[..], n, disk, file, off, 0)
    modifies buf
    ensures ok && Shown(buf[..], n, file, off, edge)
  {
    var i: int := n;
    var p := 0;
    edge := 0;
    while i >= HEADER
      invariant i == n - p && Walked(buf[..], n, disk, file, off, p)
      decreases i
    {
      var length, next := SwapRecord(buf, n, disk, file, off, p);
      if length <= 0 {
        ok := false;
        return;
      }
      i := i - length;
      p := next;
    }
    WalkedIsShown(buf[..], n, disk, file, off, p);
    return true, p;
  }

  // ------------------------------------------------------------------ one page

  /** A record whose header lies in the buffer shows there as far as the buffer goes. */
  lemma RecordShown(b: seq<byte>, n: nat, file: seq<byte>, off: nat, edge: nat, used: nat)
    requires Shown(b, n, file, off, edge) && Reaches(file, off, off + used) && used + HEADER <= n
    ensures Record(file, off + used)
    ensures forall k :: used <= k < used + RecLen(file, off + used) && k < n ==> b[k] == file[off + k]
    ensures RecLen(b, used) == RecLen(file, off + used) && NamLen(b, used) == NamLen(file, off + used)
    ensures Live(b, used) == Live(file, off + used)
  {
    ReachesOn(file, off, off + used, off + edge);
    forall k | used <= k < used + RecLen(file, off + used) && k < n
      ensures b[k] == file[off + k]
    {
      assert b[..Min(n, edge)][k] == file[off..off + Min(n, edge)][k];
    }
  }

  lemma ShownBytes(b: seq<byte>, n: nat, file: seq<byte>, off: nat, used: nat, d: nat)
    requires used + d <= n <= |b| && off + n <= |file|
    requires forall k :: used <= k < used + d ==> b[k] == file[off + k]
    ensures b[used..used + d] == file[off + used..off + used + d]
  {
  }

  /** Store a few bytes. */
  method Put(buf: array<byte>, p: nat, s: seq<byte>)
    requires p + |s| <= buf.Length
    modifies buf
    ensures buf[p..p + |s|] == s
    ensures buf[..p] == old(buf[..p]) && buf[p + |s|..] == old(buf[p + |s|..])
  {
    for k := 0 to |s|
      invariant buf[p..p + k] == s[..k]
      invariant buf[..p] == old(buf[..p]) && buf[p + |s|..] == old(buf[p + |s|..])
    {
      buf[p + k] := s[k];
    }
  }

  /** A copied record whose length field is then replaced is the record's entry. */
  lemma LengthReplaced(b: seq<byte>, b': seq<byte>, at: nat, offset: nat, file: seq<byte>, length: seq<byte>)
    requires Record(file, offset) && Listed(file, offset) && at + DirSiz(file, offset) <= |b| == |b'| && |length| == 2
    requires b[at..at + DirSiz(file, offset)] == file[offset..offset + DirSiz(file, offset)]
    requires b'[at + 4..at + 6] == length && b'[..at + 4] == b[..at + 4] && b'[at + 6..] == b[at + 6..]
    ensures b'[at..at + DirSiz(file, offset)] == Body(file, offset, length)
    ensures b'[..at] == b[..at]
  {
    var d := DirSiz(file, offset);
    var r := Body(file, offset, length);
    forall k | at <= k < at + d
      ensures b'[k] == r[k - at]
    {
      assert b[at..at + d][k - at] == file[offset..offset + d][k - at];
      if k < at + 4 {
        assert b'[..at + 4][k] == b[..at + 4][k];
      } else if k < at + 6 {
        assert b'[at + 4..at + 6][k - at - 4] == length[k - at - 4];
      } else {
        assert b'[at + 6..][k - at - 6] == b[at + 6..][k - at - 6];
      }
    }
    assert b'[..at] == b'[..at + 4][..at] == b[..at + 4][..at];
  }

  lemma SliceKept(b: seq<byte>, b': seq<byte>, p: nat, lo: nat, hi: nat)
    requires p <= lo <= hi <= |b| == |b'| && b'[p..] == b[p..]
    ensures b'[lo..hi] == b[lo..hi]
  {
    forall k | lo <= k < hi
      ensures b'[k] == b[k]
    {
      assert b'[p..][k - p] == b[p..][k - p];
    }
  }

  /** bcopy of a record, whose length then changes. */
  method PutBody(record: seq<byte>, length: seq<byte>, buf: array<byte>, at: nat,
                 ghost offset: nat, ghost file: seq<byte>)
    requires Record(file, offset) && Listed(file, offset) && record == file[offset..offset + DirSiz(file, offset)]
    requires at + |record| <= buf.Length && |length| == 2
    modifies buf
    ensures buf[at..at + |record|] == Body(file, offset, length) && buf[..at] == old(buf[..at])
  {
    Put(buf, at, record);
    ghost var copied := buf[..];
    assert copied[at..at + |record|] == record && copied[..at] == old(buf[..at]);
    Put(buf, at + 4, length);
    LengthReplaced(copied, buf[..], at, offset, file, length);
  }

  lemma FrontKept(b: seq<byte>, b': seq<byte>, i: nat, j: nat)
    requires i <= j <= |b| == |b'| && b[..j] == b'[..j]
    ensures b[..i] == b'[..i]
  {
    assert b[..i] == b[..j][..i];
    assert b'[..i] == b'[..j][..i];
  }

  lemma ThreeParts(b: seq<byte>, i: nat, j: nat, k: nat)
    requires i <= j <= k <= |b|
    ensures b[..k] == b[..i] + b[i..j] + b[j..k]
  {
  }

  /** A struct dirent: the record's offset, then the record. */
  method PutDirent(record: seq<byte>, buf: array<byte>, stored: nat, offset: nat, ghost file: seq<byte>)
    requires Record(file, offset) && Listed(file, offset) && record == file[offset..offset + DirSiz(file, offset)]
    requires stored + 4 + |record| <= buf.Length
    modifies buf
    ensures buf[..stored + 4 + |record|] == old(buf[..stored]) + Entry(file, offset, true)
  {
    var d := |record|;
    ghost var was := buf[..];
    PutBody(record, Short2(d + 4), buf, stored + 4, offset, file);
    ghost var ended := buf[..];
    FrontKept(ended, was, stored, stored + 4);
    Put(buf, stored, Int4(offset));
    SliceKept(ended, buf[..], stored + 4, stored + 4, stored + 4 + d);
    ThreeParts(buf[..], stored, stored + 4, stored + 4 + d);
    Associate(was[..stored], Int4(offset), Body(file, offset, Short2(d + 4)));
  }

  /** A struct direct: the record alone. */
  method PutDirect(record: seq<byte>, buf: array<byte>, stored: nat, ghost offset: nat, ghost file: seq<byte>)
    requires Record(file, offset) && Listed(file, offset) && record == file[offset..offset + DirSiz(file, offset)]
    requires stored + |record| <= buf.Length
    modifies buf
    ensures buf[..stored + |record|] == old(buf[..stored]) + Entry(file, offset, false)
  {
    var d := |record|;
    ghost var front := buf[..stored];
    PutBody(record, Short2(d), buf, stored, offset, file);
    assert buf[..stored + d] == buf[..stored] + buf[stored..stored + d];
    assert front + Body(file, offset, Short2(d)) == front + Entry(file, offset, false);
  }

  /** The user's form of a record: a struct dirent or a struct direct. */
  method PutEntry(record: seq<byte>, buf: array<byte>, stored: nat, dents: bool, offset: nat, ghost file: seq<byte>)
    returns (stored': nat)
    requires Record(file, offset) && Listed(file, offset) && record == file[offset..offset + DirSiz(file, offset)]
    requires stored + |record| + (if dents then 4 else 0) <= buf.Length
    modifies buf
    ensures stored' == stored + |record| + (if dents then 4 else 0)
    ensures buf[..stored'] == old(buf[..stored]) + Entry(file, offset, dents)
  {
    if dents {
      PutDirent(record, buf, stored, offset, file);
      stored' := stored + 4 + |record|;
    } else {
      PutDirect(record, buf, stored, offset, file);
      stored' := stored + |record|;
    }
  }

  /** What the loop over the records of a page has done: `used` bytes of the page are taken, and the
      entries es lie in the user's buffer. */
  ghost predicate Taken(file: seq<byte>, off: nat, dents: bool, used: nat, es: seq<seq<byte>>, out: seq<byte>) {
    && WellFormed(file, off) && Reaches(file, off, off + used) && WellFormed(file, off + used)
    && Entries(file, off, dents) == es + Entries(file, off + used, dents) && out == Flat(es)
    && (out == [] <==> es == [])
  }

  lemma TakeFree(file: seq<byte>, off: nat, dents: bool, used: nat, es: seq<seq<byte>>, out: seq<byte>, next: nat)
    requires Taken(file, off, dents, used, es, out) && off + used < |file| && !Listed(file, off + used)
    requires next == used + RecLen(file, off + used)
    ensures Taken(file, off, dents, next, es, out)
  {
    ReachesFurther(file, off, off + used);
    assert off + next == off + used + RecLen(file, off + used);
    assert Entries(file, off + used, dents) == Entries(file, off + next, dents);
  }

  lemma TakeLive(file: seq<byte>, off: nat, dents: bool, used: nat, es: seq<seq<byte>>, out: seq<byte>, next: nat)
    requires Taken(file, off, dents, used, es, out) && off + used < |file| && Listed(file, off + used)
    requires next == used + RecLen(file, off + used)
    ensures var e := Entry(file, off + used, dents);
            Taken(file, off, dents, next, es + [e], out + e)
  {
    var e := Entry(file, off + used, dents);
    ReachesFurther(file, off, off + used);
    assert off + next == off + used + RecLen(file, off + used);
    Associate(es, [e], Entries(file, off + next, dents));
    assert (es + [e])[..|es|] == es;
  }

  /** Taking records from the n bytes read at off may stop at `used`, with `stored` bytes stored: no
      header is left, or the user's buffer is full, or the next entry does not fit in one or the other. */
  predicate MayStop(file: seq<byte>, off: nat, n: nat, nbytes: nat, dents: bool, used: nat, stored: nat) {
    || n < used + HEADER || stored >= nbytes
    || (&& off + used + HEADER <= |file| && Listed(file, off + used)
        && (|| n < used + DirSiz(file, off + used)
            || nbytes < stored + DirSiz(file, off + used) + if dents then 4 else 0))
  }

  lemma TakenIsBetween(file: seq<byte>, off: nat, dents: bool, used: nat, es: seq<seq<byte>>, out: seq<byte>)
    requires Taken(file, off, dents, used, es, out)
    ensures es == Between(file, off, off + used, dents) && out == Flat(Between(file, off, off + used, dents))
  {
    EntriesSplit(file, off, off + used, dents);
    var rest := Entries(file, off + used, dents);
    assert |es| == |Between(file, off, off + used, dents)|;
    assert (es + rest)[..|es|] == es;
    assert (Between(file, off, off + used, dents) + rest)[..|es|] == Between(file, off, off + used, dents);
  }

  /** Where taking records may stop, no long record further on makes the call fail. */
  lemma StopsUnblocked(file: seq<byte>, off: nat, n: nat, nbytes: nat, dents: bool, used: nat, es: seq<seq<byte>>,
                       out: seq<byte>, q: nat)
    requires off <= |file| && n == Min(nbytes, |file| - off)
    requires Taken(file, off, dents, used, es, out) && MayStop(file, off, n, nbytes, dents, used, |out|)
    requires NoneLong(file, off, off + used) && LongAt(file, off, q)
    ensures !BlockedAt(file, off, nbytes, dents, q)
  {
    var p := off + used;
    ReachesOn(file, off, p, q);
    TakenIsBetween(file, off, dents, used, es, out);
    SizeGrows(file, off, p, q, dents);
    if p < q && Listed(file, p) {
      FirstEntry(file, p, q, dents);
    }
  }

  lemma NotBlocked(file: seq<byte>, off: nat, n: nat, nbytes: nat, dents: bool, used: nat, es: seq<seq<byte>>,
                   out: seq<byte>)
    requires off <= |file| && n == Min(nbytes, |file| - off)
    requires Taken(file, off, dents, used, es, out) && MayStop(file, off, n, nbytes, dents, used, |out|)
    requires NoneLong(file, off, off + used)
    ensures !Blocked(file, off, nbytes, dents)
  {
    forall q | LongAt(file, off, q)
      ensures !BlockedAt(file, off, nbytes, dents, q)
    {
      StopsUnblocked(file, off, n, nbytes, dents, used, es, out, q);
    }
  }

  lemma BlockedHere(file: seq<byte>, off: nat, nbytes: nat, dents: bool, used: nat, es: seq<seq<byte>>, out: seq<byte>)
    requires Taken(file, off, dents, used, es, out) && |out| < nbytes && used + HEADER <= nbytes
    requires Record(file, off + used) && TooLong(file, off + used)
    ensures Blocked(file, off, nbytes, dents)
  {
    TakenIsBetween(file, off, dents, used, es, out);
    assert BlockedAt(file, off, nbytes, dents, off + used);
  }

  /** A live record that fits is stored. */
  method StoreRecord(record: seq<byte>, kBuf2: array<byte>, stored: nat, dents: bool, off: nat, used: nat,
                     ghost file: seq<byte>, ghost es: seq<seq<byte>>, ghost next: nat)
    returns (stored': nat, ghost es': seq<seq<byte>>)
    requires stored + |record| + (if dents then 4 else 0) <= kBuf2.Length
    requires Taken(file, off, dents, used, es, kBuf2[..stored]) && off + used < |file| && Listed(file, off + used)
    requires record == file[off + used..off + used + DirSiz(file, off + used)]
    requires next == used + RecLen(file, off + used)
    modifies kBuf2
    ensures stored' == stored + |record| + if dents then 4 else 0
    ensures Taken(file, off, dents, next, es', kBuf2[..stored'])
  {
    ghost var out, e := kBuf2[..stored], Entry(file, off + used, dents);
    stored' := PutEntry(record, kBuf2, stored, dents, off + used, file);
    assert kBuf2[..stored'] == out + e;
    TakeLive(file, off, dents, used, es, out, next);
    es' := es + [e];
  }

  /** One turn of the loop over the records of a page. It fails at a name that is too long; `more` is
      false when the record does not fit. */
  method TakeRecord(kBuf: array<byte>, n: nat, kBuf2: array<byte>, nbytes: nat, off: nat, dents: bool,
                    used: nat, stored: nat, ghost file: seq<byte>, ghost edge: nat, ghost es: seq<seq<byte>>)
    returns (ok: bool, more: bool, used': nat, stored': nat, ghost es': seq<seq<byte>>)
    requires kBuf != kBuf2 && nbytes <= kBuf2.Length && stored < nbytes && used + HEADER <= n
    requires DIRECT + (if dents then 4 else 0) <= nbytes && off <= |file| && n == Min(nbytes, |file| - off)
    requires Shown(kBuf[..], n, file, off, edge) && Taken(file, off, dents, used, es, kBuf2[..stored])
    requires (used == 0 ==> stored == 0) && NoneLong(file, off, off + used)
    modifies kBuf2
    ensures !ok ==> Blocked(file, off, nbytes, dents)
    ensures ok ==> stored' <= nbytes && Taken(file, off, dents, used', es', kBuf2[..stored'])
    ensures ok ==> if more then used < used' else used' == used && 0 < used && stored' == stored
    ensures ok ==> NoneLong(file, off, off + used')
    ensures ok && !more ==> MayStop(file, off, n, nbytes, dents, used, stored)
  {
    RecordShown(kBuf[..], n, file, off, edge, used);
    var dirsiz := DirSiz(kBuf[..], used);
    var recLen := RecLen(kBuf[..], used);
    if dirsiz > DIRECT || recLen > BLOCK {
      BlockedHere(file, off, nbytes, dents, used, es, kBuf2[..stored]);
      return false, false, used, stored, es;
    }
    used' := used + recLen;
    NoneLongNext(file, off, off + used, off + used');
    if !Live(kBuf[..], used) {
      TakeFree(file, off, dents, used, es, kBuf2[..stored], used');
      return true, true, used', stored, es;
    }
    if used + dirsiz > n || stored + dirsiz + (if dents then 4 else 0) > nbytes {
      return true, false, used, stored, es;
    }
    ShownBytes(kBuf[..], n, file, off, used, dirsiz);
    stored', es' := StoreRecord(kBuf[used..used + dirsiz], kBuf2, stored, dents, off, used, file, es, used');
    return stored' <= nbytes, true, used', stored', es';
  }

  /** The loop over the records of a page. When it stores nothing it still moves on; it fails exactly
      when a name that is too long blocks the page. */
  method TakeRecords(kBuf: array<byte>, n: nat, kBuf2: array<byte>, nbytes: nat, off: nat, dents: bool,
                     ghost file: seq<byte>, ghost edge: nat)
    returns (ok: bool, used: nat, stored: nat, ghost es: seq<seq<byte>>)
    requires kBuf != kBuf2 && nbytes <= kBuf2.Length
    requires DIRECT + (if dents then 4 else 0) <= nbytes && off <= |file| && n == Min(nbytes, |file| - off)
    requires off < |file| && Shown(kBuf[..], n, file, off, edge)
    modifies kBuf2
    ensures ok ==> 0 < used && stored <= nbytes && Taken(file, off, dents, used, es, kBuf2[..stored])
    ensures ok ==> MayStop(file, off, n, nbytes, dents, used, stored)
    ensures ok <==> !Blocked(file, off, nbytes, dents)
  {
    used, stored, es := 0, 0, [];
    var more := true;
    while more && used + HEADER <= n && stored < nbytes
      invariant stored <= nbytes && Taken(file, off, dents, used, es, kBuf2[..stored])
      invariant used == 0 ==> more && stored == 0
      invariant !more ==> MayStop(file, off, n, nbytes, dents, used, stored)
      invariant NoneLong(file, off, off + used)
      invariant kBuf[..] == old(kBuf[..])
      decreases n - used, more
    {
      ok, more, used, stored, es := TakeRecord(kBuf, n, kBuf2, nbytes, off, dents, used, stored, file, edge, es);
      if !ok {
        return;
      }
    }
    NotBlocked(file, off, n, nbytes, dents, used, es, kBuf2[..stored]);
    return true, used, stored, es;
  }

  /** A call that started at `start` may read a page at p: nothing listed lies in between. */
  ghost predicate Sought(file: seq<byte>, start: nat, p: nat, dents: bool) {
    && WellFormed(file, start) && Reaches(file, start, p) && WellFormed(file, p) && p <= |file|
    && Entries(file, p, dents) == Entries(file, start, dents) && (Matters(file, start) ==> p == start)
  }

  /** The page at `base` has given the entries in out, and ends at `next`. */
  ghost predicate Found(file: seq<byte>, start: nat, base: nat, size: nat, dents: bool, next: nat, out: seq<byte>) {
    && Reaches(file, start, next) && WellFormed(file, next) && WellFormed(file, base) && base <= next && base <= |file|
    && (exists es :: Entries(file, base, dents) == es + Entries(file, next, dents) && out == Flat(es) && es != [])
    && MayStop(file, base, Min(size, |file| - base), size, dents, next - base, |out|)
    && !Blocked(file, base, size, dents)
  }

  // ------------------------------------------------------------------ the system calls

  /** An open directory. `file` is its contents with every header in this host's order; the disk
      may hold either order. */
  class OpenDirectory {
    const disk: seq<byte>
    ghost const file: seq<byte>
    var offset: nat

    ghost predicate Valid()
      reads this
    {
      Contents() && Reaches(file, 0, offset) && WellFormed(file, offset)
    }

    ghost predicate Contents() {
      WellFormed(file, 0) && |disk| == |file| && (disk == file || Foreign(disk, file, 0))
    }

    /** Fs_Read of the directory: short only at its end. */
    method Read(buf: array<byte>, n: nat) returns (bytesRead: nat)
      requires offset <= |disk| && n <= buf.Length
      modifies this`offset, buf
      ensures bytesRead == Min(n, |disk| - old(offset)) && offset == old(offset) + bytesRead
      ensures buf[..bytesRead] == disk[old(offset)..offset]
    {
      bytesRead := Min(n, |disk| - offset);
      Put(buf, 0, disk[offset..offset + bytesRead]);
      assert buf[..bytesRead] == buf[0..0 + bytesRead];
      offset := offset + bytesRead;
    }

    /** Fs_GetdirInt: whatever order the disk holds, every whole header in the buffer is in this
        host's order. */
    method GetdirInt(nbytes: nat, buf: array<byte>) returns (bytesRead: int, off: nat, ghost edge: nat)
      requires Valid() && nbytes <= buf.Length
      modifies this`offset, buf
      ensures nbytes < DIRECT ==> bytesRead == -1 && offset == old(offset)
      ensures nbytes >= DIRECT ==>
                && off == old(offset) <= |file| && bytesRead == Min(nbytes, |file| - off) && offset == off + bytesRead
                && Shown(buf[..], bytesRead, file, off, edge)
    {
      off, edge := offset, 0;
      if nbytes < DIRECT {
        return -1, off, edge;
      }
      var n := Read(buf, nbytes);
      bytesRead := n;
      edge := |file| - off;
      ghost var b := buf[..];
      assert b[..n] == disk[off..off + n];
      if n == 0 {
        EndReached(file, off);
        return;
      }
      FirstLength(b, n, off);
      if RecLen(buf[..], 0) > BLOCK || RecLen(buf[..], 0) < HEADER {
        ForeignHere(off);
        WalkStarts(b, n, disk, file, off);
        var good;
        good, edge := SwapHeaders(buf, n, disk, file, off);
        if !good {
          return -1, off, edge;
        }
      } else {
        NativeHere(off);
        AllShown(b, n, file, off, edge);
      }
    }

    lemma FirstLength(b: seq<byte>, n: nat, off: nat)
      requires Contents() && WellFormed(file, off) && off < |file| && n <= |b| && off + n <= |file| && n > 0
      requires b[..n] == disk[off..off + n] && (n >= DIRECT || off + n == |file|)
      ensures n >= HEADER && RecLen(b, 0) == RecLen(disk, off)
    {
      assert b[..n][4] == disk[off..off + n][4] && b[..n][5] == disk[off..off + n][5];
    }

    /** A first length outside 8..512 tells the other order from this one. */
    lemma ForeignHere(off: nat)
      requires Contents() && WellFormed(file, off) && Reaches(file, 0, off) && off < |file|
      requires RecLen(disk, off) > BLOCK || RecLen(disk, off) < HEADER
      ensures Foreign(disk, file, off)
    {
      if disk != file {
        ForeignOn(disk, file, 0, off);
      }
    }

    lemma NativeHere(off: nat)
      requires Contents() && WellFormed(file, off) && Reaches(file, 0, off) && off < |file|
      requires HEADER <= RecLen(disk, off) <= BLOCK
      ensures disk == file
    {
      if disk != file {
        ForeignOn(disk, file, 0, off);
        SwappedLengthIsNoLength(file[off + 4], file[off + 5]);
      }
    }

    /** One page, starting where the file pointer is: fill the user's buffer and set the pointer to
        the record after the last one taken. */
    method NextPage(nbytes: nat, dents: bool, kBuf: array<byte>, kBuf2: array<byte>, off: nat, n: nat, ghost edge: nat)
      returns (ok: bool, used: nat, stored: nat, ghost es: seq<seq<byte>>)
      requires Contents() && kBuf != kBuf2 && nbytes <= kBuf2.Length
      requires DIRECT + (if dents then 4 else 0) <= nbytes && off < |file| && n == Min(nbytes, |file| - off)
      requires offset == off + n && Reaches(file, 0, off) && Shown(kBuf[..], n, file, off, edge)
      modifies this`offset, kBuf2
      ensures ok ==> Valid() && offset == off + used && 0 < used && stored <= nbytes
      ensures ok ==> Taken(file, off, dents, used, es, kBuf2[..stored])
      ensures ok ==> MayStop(file, off, n, nbytes, dents, used, stored)
      ensures (ok <==> !Blocked(file, off, nbytes, dents)) && (!ok ==> offset == old(offset))
    {
      ok, used, stored, es := TakeRecords(kBuf, n, kBuf2, nbytes, off, dents, file, edge);
      if !ok {
        return;
      }
      ReachesAll(file, 0, off, off + used);
      if used != n {
        offset := off + used;
      }
      assert offset == off + used;
    }

    /** One turn of the outer loop: read a page and repack it. Nothing is left when the read
        returns nothing. */
    method ReadPage(nbytes: nat, dents: bool, kBuf: array<byte>, kBuf2: array<byte>)
      returns (bytesRead: int, used: nat, stored: nat, ghost es: seq<seq<byte>>)
      requires Valid() && kBuf != kBuf2 && nbytes <= kBuf.Length && nbytes <= kBuf2.Length
      requires DIRECT + (if dents then 4 else 0) <= nbytes
      modifies this`offset, kBuf, kBuf2
      ensures old(offset) <= |file| && (bytesRead >= 0 ==> Valid() && stored <= nbytes)
      ensures bytesRead < 0 <==> Blocked(file, old(offset), nbytes, dents)
      ensures bytesRead < 0 ==> bytesRead == -1 && offset == old(offset) + Min(nbytes, |file| - old(offset))
      ensures bytesRead == 0 ==> old(offset) == offset == |file| && stored == 0
      ensures bytesRead > 0 ==> 0 < used && offset == old(offset) + used &&
                                Taken(file, old(offset), dents, used, es, kBuf2[..stored])
      ensures bytesRead > 0 ==>
                MayStop(file, old(offset), Min(nbytes, |file| - old(offset)), nbytes, dents, used, stored)
    {
      EndReached(file, offset);
      ReachesUpTo(file, offset, |file|);
      used, stored, es := 0, 0, [];
      var off;
      ghost var edge;
      bytesRead, off, edge := GetdirInt(nbytes, kBuf);
      if bytesRead <= 0 {
        EndUnblocked(file, off, nbytes, dents);
        return;
      }
      var ok;
      ok, used, stored, es := NextPage(nbytes, dents, kBuf, kBuf2, off, bytesRead, edge);
      if !ok {
        bytesRead := -1;
      }
    }

    /** The outer loop: pages until one stores something. A page that holds only free records stores
        nothing. */
    method ReadPages(size: nat, dents: bool, kBuf: array<byte>, kBuf2: array<byte>)
      returns (result: int, base: nat)
      requires Valid() && kBuf != kBuf2 && size <= kBuf.Length && size <= kBuf2.Length
      requires DIRECT + (if dents then 4 else 0) <= size
      modifies this`offset, kBuf, kBuf2
      ensures Sought(file, old(offset), base, dents) && result <= size
      ensures result < 0 <==> Blocked(file, base, size, dents)
      ensures result < 0 ==> result == -1 && offset == base + Min(size, |file| - base)
      ensures result >= 0 ==> Valid()
      ensures result == 0 ==> base == offset == |file|
      ensures result > 0 ==> Found(file, old(offset), base, size, dents, offset, kBuf2[..result])
    {
      base := offset;
      var stored: nat := 0;
      ghost var start := offset;
      EndReached(file, start);
      ReachesUpTo(file, start, |file|);
      while stored == 0
        invariant Valid() && stored <= size
        invariant Sought(file, start, base, dents) && (stored == 0 ==> Sought(file, start, offset, dents))
        invariant stored > 0 ==> Found(file, start, base, size, dents, offset, kBuf2[..stored])
        decreases |file| - offset, stored == 0
      {
        base := offset;
        var bytesRead, used;
        ghost var es;
        bytesRead, used, stored, es := ReadPage(size, dents, kBuf, kBuf2);
        if bytesRead <= 0 {
          return bytesRead, base;
        }
        PageTaken(file, start, base, size, dents, used, offset, es, kBuf2[..stored]);
      }
      return stored, base;
    }

    /** Fs_GetdentsStub, when `dents`, and Fs_GetdirentriesStub: one call delivers whole entries in
        order, as Page says, unless it refuses a buffer that may be too small for one, or fails.
        `base` is where the last page read starts: at the file pointer, unless all that lies there is
        free. A call fails exactly when a record with too long a name blocks that page, and then leaves
        the file pointer behind the page. A call that succeeds stops only where the next entry does not
        fit, either in that page or in the user's buffer. */
    method Getdents(nbytes: nat, dents: bool) returns (result: int, out: seq<byte>, base: nat)
      requires Valid()
      modifies this`offset
      ensures nbytes < DIRECT + (if dents then 4 else 0) ==> result == -1 && out == [] && offset == old(offset)
      ensures nbytes >= DIRECT + (if dents then 4 else 0) ==>
                && Sought(file, old(offset), base, dents)
                && (result < 0 <==> Blocked(file, base, Min(nbytes, DIR_BUF), dents))
      ensures nbytes >= DIRECT + (if dents then 4 else 0) && result < 0 ==>
                && result == -1 && out == [] && LongAhead(file, old(offset))
                && offset == base + Min(Min(nbytes, DIR_BUF), |file| - base)
      ensures result >= 0 ==>
                && result == |out| && Page(file, old(offset), dents, nbytes, offset, out)
                && Valid() && base <= offset && UserReads(out, dents).Some?
                && Holds(file, old(offset), dents) == UserReads(out, dents).value + Holds(file, offset, dents)
                && (out != [] ==>
                      MayStop(file, base, Min(Min(nbytes, DIR_BUF), |file| - base), Min(nbytes, DIR_BUF), dents,
                              offset - base, |out|))
    {
      out, base := [], offset;
      if nbytes < DIRECT + (if dents then 4 else 0) {
        return -1, out, base;
      }
      var size := Min(nbytes, DIR_BUF);
      var kBuf, kBuf2 := new byte[DIR_BUF], new byte[DIR_BUF];
      result, base := ReadPages(size, dents, kBuf, kBuf2);
      if result < 0 {
        BlockedAhead(file, old(offset), base, size, dents);
      } else if result == 0 {
        NothingLeft(file, old(offset), base, nbytes, dents);
      } else {
        out := kBuf2[..result];
        FoundIsPage(file, old(offset), base, size, dents, nbytes, offset, out);
      }
      if result >= 0 {
        PageReads(file, old(offset), dents, nbytes, offset, out);
      }
    }
  }

  lemma EndUnblocked(file: seq<byte>, off: nat, nbytes: nat, dents: bool)
    ensures Blocked(file, off, nbytes, dents) ==> off < |file|
  {
    forall q | BlockedAt(file, off, nbytes, dents, q)
      ensures off < |file|
    {
      ReachesUpTo(file, off, q);
    }
  }

  /** A page that stores nothing and does not fail holds nothing that matters at its start. */
  lemma EmptyPage(file: seq<byte>, off: nat, size: nat, dents: bool, used: nat, es: seq<seq<byte>>)
    requires Taken(file, off, dents, used, es, []) && used > 0 && !Blocked(file, off, size, dents) && HEADER <= size
    ensures !Matters(file, off)
  {
    TakenIsBetween(file, off, dents, used, es, []);
    if TooLong(file, off) {
      assert Between(file, off, off, dents) == [] && Flat([]) == [];
      assert BlockedAt(file, off, size, dents, off);
    }
  }

  lemma BlockedAhead(file: seq<byte>, start: nat, base: nat, size: nat, dents: bool)
    requires Reaches(file, start, base) && Blocked(file, base, size, dents)
    ensures LongAhead(file, start)
  {
    var q :| BlockedAt(file, base, size, dents, q);
    LongFurther(file, start, base);
  }

  lemma NothingLeft(file: seq<byte>, start: nat, base: nat, nbytes: nat, dents: bool)
    requires Sought(file, start, base, dents) && base == |file|
    ensures Page(file, start, dents, nbytes, base, [])
  {
    assert Entries(file, start, dents) == [] + Entries(file, base, dents) && Flat([]) == [];
  }

  /** A page that did not fail: it stored entries, or the next one starts where it ended. */
  lemma PageTaken(file: seq<byte>, start: nat, base: nat, size: nat, dents: bool, used: nat, next: nat,
                  es: seq<seq<byte>>, out: seq<byte>)
    requires Sought(file, start, base, dents) && 0 < used && next == base + used && HEADER <= size
    requires Taken(file, base, dents, used, es, out) && !Blocked(file, base, size, dents)
    requires MayStop(file, base, Min(size, |file| - base), size, dents, used, |out|)
    ensures out == [] ==> Sought(file, start, next, dents)
    ensures out != [] ==> Found(file, start, base, size, dents, next, out)
  {
    ReachesAll(file, start, base, next);
    if out == [] {
      EndReached(file, next);
      ReachesUpTo(file, next, |file|);
      EmptyPage(file, base, size, dents, used, es);
      assert Entries(file, base, dents) == [] + Entries(file, next, dents);
    }
  }

  lemma FoundIsPage(file: seq<byte>, start: nat, base: nat, size: nat, dents: bool, nbytes: nat, next: nat,
                    out: seq<byte>)
    requires Sought(file, start, base, dents) && Found(file, start, base, size, dents, next, out)
    requires |out| <= nbytes && out != []
    ensures Page(file, start, dents, nbytes, next, out)
  {
    var es :| Entries(file, base, dents) == es + Entries(file, next, dents) && out == Flat(es) && es != [];
    assert Entries(file, start, dents) == es + Entries(file, next, dents);
  }
}
