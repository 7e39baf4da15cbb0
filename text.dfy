/** Shared vocabulary of the model: bytes, optional values and results, and the
    few byte-slice operations of Go's `bytes` and `strings` packages that the
    core relies on (bytes.Index, bytes.HasPrefix, strings.ToLower, and writing
    over a sub-slice in place). */
module Text {

  type Byte = b: int | 0 <= b < 256
  type Bytes = seq<Byte>

  datatype Option<T> = None | Some(value: T)

  datatype Result<T, E> = Ok(value: T) | Err(error: E)

  const NUL: Byte := 0
  const LF: Byte := 10
  const SP: Byte := 32

  /** True when pat occurs in s starting at position k. */
  predicate OccursAt(s: Bytes, pat: Bytes, k: nat)
  {
    k + |pat| <= |s| && s[k..k + |pat|] == pat
  }

  /** bytes.Index: the first position at which pat occurs in s, if any. */
  function Index(s: Bytes, pat: Bytes): (r: Option<nat>)
    ensures r.Some? ==> OccursAt(s, pat, r.value)
    ensures r.Some? ==> forall k: nat :: k < r.value ==> !OccursAt(s, pat, k)
    ensures r.None? <==> forall k: nat :: !OccursAt(s, pat, k)
  {
    IndexFrom(s, pat, 0)
  }

  /** The first occurrence of pat in s at or after position from. */
  function IndexFrom(s: Bytes, pat: Bytes, from: nat): (r: Option<nat>)
    ensures r.Some? ==> from <= r.value && OccursAt(s, pat, r.value)
    ensures r.Some? ==> forall k: nat :: from <= k < r.value ==> !OccursAt(s, pat, k)
    ensures r.None? ==> forall k: nat :: from <= k ==> !OccursAt(s, pat, k)
    decreases |s| - from
  {
    if from + |pat| > |s| then None
    else if s[from..from + |pat|] == pat then Some(from)
    else IndexFrom(s, pat, from + 1)
  }

  /** bytes.HasPrefix. */
  predicate HasPrefix(s: Bytes, prefix: Bytes)
    ensures HasPrefix(s, prefix) <==> |prefix| <= |s| && forall k :: 0 <= k < |prefix| ==> s[k] == prefix[k]
  {
    |prefix| <= |s| && s[..|prefix|] == prefix
  }

  /** s with the bytes at [at, at + |d|) replaced by d: what writing d over a
      sub-slice of a buffer does. The length never changes. */
  function Put(s: Bytes, at: nat, d: Bytes): (r: Bytes)
    requires at + |d| <= |s|
    ensures |r| == |s|
    ensures forall k :: 0 <= k < |s| && !(at <= k < at + |d|) ==> r[k] == s[k]
    ensures r[at..at + |d|] == d
  {
    s[..at] + d + s[at + |d|..]
  }

  predicate IsUpper(c: Byte)
  {
    'A' as int <= c <= 'Z' as int
  }

  /** strings.ToLower restricted to ASCII: upper-case letters become lower
      case, every other byte is kept. */
  function ToLower(s: Bytes): (r: Bytes)
    ensures |r| == |s|
    ensures forall k :: 0 <= k < |s| ==> !IsUpper(r[k])
    ensures forall k :: 0 <= k < |s| && !IsUpper(s[k]) ==> r[k] == s[k]
    ensures forall k :: 0 <= k < |s| && IsUpper(s[k]) ==> r[k] == s[k] + 32
  {
    seq(|s|, k requires 0 <= k < |s| => if IsUpper(s[k]) then s[k] + 32 else s[k])
  }
}
