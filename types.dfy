/** Values the GitLab accessor layer passes around once the client library is
    abstracted away: errors (returned ones and Go runtime panics), results, and
    the two kinds of record the core looks into. */
module GitlabTypes {

  datatype Option<+T> = None | Some(value: T)

  /** Every way an operation of the core can end without a value. */
  datatype Error =
    | ClientError(message: string)               // an error returned by the GitLab client library
    | CapOutOfRange(cap: int)                    // Go runtime panic: make([]T, 0, cap) with a cap it cannot allocate
    | IndexOutOfRange(index: int, length: int)   // Go runtime panic: slice index out of range
    | UnexpectedStatus(code: int, expected: int) // "status code %d not expected, expecting %d"
    | NoCommits                                  // "this repo has no commits"

  datatype Result<+T> = Ok(value: T) | Err(error: Error)

  /** The Go runtime's maxAlloc on 64-bit Linux: no allocation may exceed 2^48 bytes. */
  const MaxAlloc: int := 0x1_0000_0000_0000

  /** The largest cap that passes make([]*T, 0, cap)'s range check. */
  const MaxPointerSliceCap: int := 0x2000_0000_0000

  /** make([]*T, 0, cap) passes its range check exactly for these caps (the
      cap is not negative and its 8-byte pointers do not exceed maxAlloc); any other
      cap panics. */
  predicate CapFits(cap: int): (ok: bool)
    ensures ok <==> 0 <= cap && cap * 8 <= MaxAlloc
  {
    0 <= cap <= MaxPointerSliceCap
  }

  /** The position where `x` first appears in `s`. */
  function FirstIndex<T(==)>(s: seq<T>, x: T): (k: nat)
    requires x in s
    ensures k < |s| && s[k] == x
    ensures forall j :: 0 <= j < k ==> s[j] != x
  {
    if s[0] == x then 0 else 1 + FirstIndex(s[1..], x)
  }

  /** net/http's StatusOK. */
  const StatusOK: int := 200

  /** The fields of gitlab.Group and gitlab.Commit that the core reads. */
  datatype Group = Group(fullPath: string)
  datatype Commit = Commit(id: string)
}
