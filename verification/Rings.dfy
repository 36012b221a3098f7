/** A circular buffer of n cells with an insert and an extract index, as the tty driver keeps
    them: equal indices mean empty, and one cell always stays unused. */
module Rings {

  /** The next index, wrapping around. */
  function Next(n: nat, i: nat): (j: nat)
    requires i < n
    ensures j < n
  {
    if i + 1 >= n then 0 else i + 1
  }

  function Distance(n: nat, e: nat, i: nat): (d: nat)
    requires e < n && i < n
    ensures d < n && (d == 0 <==> e == i)
  {
    if e <= i then i - e else n - e + i
  }

  /** The unread cells, oldest first. */
  function Contents<T>(buf: seq<T>, e: nat, i: nat): (c: seq<T>)
    requires e < |buf| && i < |buf|
    ensures |c| == Distance(|buf|, e, i)
    decreases Distance(|buf|, e, i)
  {
    if e == i then [] else [buf[e]] + Contents(buf, Next(|buf|, e), i)
  }

  lemma {:induction false} StoreFree<T>(buf: seq<T>, e: nat, i: nat, v: T)
    requires e < |buf| && i < |buf|
    ensures Contents(buf[i := v], e, i) == Contents(buf, e, i)
    decreases Distance(|buf|, e, i)
  {
    if e != i {
      StoreFree(buf, Next(|buf|, e), i, v);
    }
  }

  lemma {:induction false} Advance<T>(buf: seq<T>, e: nat, i: nat)
    requires e < |buf| && i < |buf| && Next(|buf|, i) != e
    ensures Contents(buf, e, Next(|buf|, i)) == Contents(buf, e, i) + [buf[i]]
    decreases Distance(|buf|, e, i)
  {
    if e != i {
      Advance(buf, Next(|buf|, e), i);
    } else {
      assert Contents(buf, Next(|buf|, e), Next(|buf|, i)) == [];
    }
  }

  /** A store into any cell that is not unread leaves the unread cells alone. */
  lemma {:induction false} StoreBeyond<T>(buf: seq<T>, e: nat, i: nat, j: nat, v: T)
    requires e < |buf| && i < |buf| && j < |buf| && Distance(|buf|, e, i) <= Distance(|buf|, e, j)
    ensures Contents(buf[j := v], e, i) == Contents(buf, e, i)
    decreases Distance(|buf|, e, i)
  {
    if e != i {
      StoreBeyond(buf, Next(|buf|, e), i, j, v);
    }
  }

  /** A value that goes from the ring to the reader's hand, and from there to those read, keeps its place. */
  lemma Moved<T>(read: seq<T>, v: T, rest: seq<T>)
    ensures read + [] + ([v] + rest) == read + [v] + rest
    ensures read + [v] + rest == read + [v] + [] + rest
  {
  }

  /** The index k cells after i, when the block does not wrap. */
  function Block(n: nat, i: nat, k: nat): (j: nat)
    requires i < n && i + k <= n
    ensures j < n
  {
    if i + k >= n then 0 else i + k
  }

  /** Filling a block of free cells appends the block. */
  lemma {:induction false} AdvanceBlock<T>(buf: seq<T>, e: nat, i: nat, k: nat)
    requires e < |buf| && i < |buf| && i + k <= |buf| && Distance(|buf|, e, i) + k < |buf|
    ensures Contents(buf, e, Block(|buf|, i, k)) == Contents(buf, e, i) + buf[i..i + k]
    decreases k
  {
    if k > 0 {
      AdvanceBlock(buf, e, i, k - 1);
      Advance(buf, e, i + k - 1);
      assert buf[i..i + k] == buf[i..i + k - 1] + [buf[i + k - 1]];
      assert Contents(buf, e, i) + buf[i..i + k] == Contents(buf, e, i) + buf[i..i + k - 1] + [buf[i + k - 1]];
    }
  }
}
