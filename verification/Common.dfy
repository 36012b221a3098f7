/** What the models share: the Option idiom, the kernel's return statuses, and a few small facts. */
module Common {

  datatype Option<+T> = None | Some(value: T)

  newtype byte = x: int | 0 <= x < 0x100

  function Min(a: nat, b: nat): nat {
    if a < b then a else b
  }

  function Max(a: nat, b: nat): nat {
    if a < b then b else a
  }

  lemma Associate<T>(a: seq<T>, b: seq<T>, c: seq<T>)
    ensures a + (b + c) == a + b + c
  {
  }

  /** One more element of s has been copied to where s belongs. */
  lemma CopiedMore<T>(b: seq<T>, was: seq<T>, p: nat, s: seq<T>, i: nat)
    requires i < |s| && p + |s| <= |was| && b == was[..p] + s[..i] + was[p + i..]
    ensures b[p + i := s[i]] == was[..p] + s[..i + 1] + was[p + i + 1..]
  {
  }

  lemma SliceFront<T>(s: seq<T>, a: nat, b: nat, c: nat)
    requires a <= b <= c <= |s|
    ensures s[a..b] == s[a..c][..b - a]
  {
  }

  lemma SliceOfFront<T>(front: seq<T>, last: seq<T>, a: nat, b: nat)
    requires a <= b <= |front|
    ensures (front + last)[a..b] == front[a..b]
  {
  }

  lemma SliceBack<T>(s: seq<T>, a: nat, b: nat, c: nat)
    requires a <= b <= c <= |s|
    ensures s[b..c] == s[a..c][b - a..]
  {
  }

  /** ReturnStatus values that the modelled code tests by name; every other code is `Other`. */
  datatype ReturnStatus =
    | SUCCESS
    | FAILURE
    | GEN_INVALID_ARG
    | GEN_ABORTED_BY_SIGNAL
    | SYS_ARG_NOACCESS
    | SYS_INVALID_ARG
    | FS_INVALID_ARG
    | FS_NEW_ID_TOO_BIG
    | FS_NO_ACCESS
    | FS_WOULD_BLOCK
    | FS_STALE_HANDLE
    | FS_TIMEOUT
    | FS_BROKEN_PIPE
    | RPC_TIMEOUT
    | RPC_SERVICE_DISABLED
    | DEV_INVALID_ARG
    | Other(code: int)

  /** The statuses after which the file system waits for the server and tries again. */
  predicate Recoverable(status: ReturnStatus) {
    status == RPC_TIMEOUT || status == FS_STALE_HANDLE || status == RPC_SERVICE_DISABLED
  }
}
