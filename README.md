# gitbrute core in Dafny

gitbrute rewrites the author and committer dates of the HEAD commit until
the commit's SHA-1 starts with a chosen hex prefix. This project models the
three Go files in which that search happens, and proves properties of the model:

- **explore.go**: the generator of candidate pairs `(commitBehind,
  authorBehind)`. They are seconds to subtract from the start time. The pairs
  are walked frontier by frontier: frontier `m` holds the `2m+1` pairs whose
  larger coordinate is `m`. `splitExplore(n)` splits the walk across `n`
  generators with stride `n`. The function `Explore.Nth` is the reference
  definition of the order. The class `Explore.Explorer` is the Go closure,
  with its captured `max`, `i`, `j` as fields; its `Next` method is proved to
  produce `Nth(start, stride, count)`. The lemmas prove:
  - the order is the one in the Go tests;
  - the frontiers visited are `start + b·stride`, ascending;
  - no pair is repeated;
  - every pair is covered;
  - a split into `n` generators partitions the pairs by frontier mod `n`.
- **solver.go**: `newChecker` as the function `Solver.NewChecker`, and the
  checker as the class `Solver.Checker`. `Check` overwrites the two seconds
  fields of its byte buffer in place. It then hashes the buffer, writes the
  lower-case hex of the digest into the second buffer, and tests the prefix.
  SHA-1 is a parameter `sha1: Bytes -> Digest`, a function returning 20 bytes.
- **commit.go**: `extractCommitMessage`, `date.String` and `getDate`.
  `getDate`'s regular expression is a parameter `rx`, which returns the span
  of its first capture group, or `None` when there is no match.
  `log.Fatalf` becomes an error result.

Helper modules model the standard-library pieces the core depends on:
- `Text`: `bytes.Index`, `bytes.HasPrefix`, ASCII `strings.ToLower`, and
  writing into a sub-slice.
- `Strconv`: `strconv.AppendInt` and `strconv.ParseInt`, base 10 and 64 bits.
- `HexCodec`: `hex.Encode`. It also holds `Decode`, the model's inverse of `Encode`, which the source never calls.

Taking the split generators' outputs in turn does not give back the
stride-1 sequence. The generators' blocks have different lengths, so for
`n = 2` the third pair already differs: `Explore.RoundRobinIsNotUniform`
proves this. What a split does guarantee holds exactly:
- every pair comes from exactly one generator, number `frontier mod n`
  (`Explore.SplitPartition`);
- each block of a split generator is, pair for pair, the matching block of
  the stride-1 generator (`Explore.SplitBlockIsUniformBlock`).

## Model

| member | source | states |
|---|---|---|
| Explore.BlockAt | explore.go:39-47 | the o-th pair of frontier m is non-negative and has larger coordinate m |
| Explore.OffsetIn | explore.go:39-47 | every non-negative pair has a place in its frontier's block, and BlockAt of that place gives the pair back |
| Explore.Nth | explore.go:30-48 | every pair the generator yields is non-negative and lies on a frontier at least the start |
| Explore.FrontierAfterIs | explore.go:35-38 | after b frontier advances the frontier is start + b·stride |
| Explore.NextBlock | explore.go:35-38 | one advance adds stride to the frontier and one whole block of 2m+1 pairs to the count produced |
| Explore.NthInBlock | explore.go:34-48 | block b of the sequence is exactly the pairs (0,f)..(f-1,f),(f,0)..(f,f) of its frontier f, in that order |
| Explore.Locate | explore.go:34-48 | every index of the sequence falls inside exactly the block the function names |
| Explore.NthOnFrontier | explore.go:35-38 | the k-th pair lies on frontier start + b·stride, where b is the block of k |
| Explore.IndexOf | explore.go:34-48 | every non-negative pair on a visited frontier is produced at the index returned |
| Explore.Produces | explore.go:30-48 | a generator produces a non-negative pair if and only if the pair's frontier is one it visits |
| Explore.UniformCovers | explore.go:8-24 | Explorer(0, 1) produces every non-negative pair |
| Explore.FrontierMonotone | explore.go:35-38 | the frontier never decreases along the sequence |
| Explore.NoRepeats | explore.go:30-48 | with a positive stride, two different indices give two different pairs |
| Explore.SplitPartition | explore.go:51-91 | generator k of a split into n produces a pair if and only if the pair's frontier is k mod n, so each pair comes from exactly one generator |
| Explore.SplitBlockIsUniformBlock | explore.go:51-91 | block b of generator k in a split into n equals block k + b·n of Explorer(0, 1), pair for pair |
| Explore.RoundRobinIsNotUniform | explore.go:26-28 | taking the two generators of a split into 2 in turn does not give the Explorer(0, 1) order |
| Explore.UniformSequence | explore_test.go:17-56 | the first 26 pairs of Explorer(0, 1) are those the test lists |
| Explore.StrideSequences | explore_test.go:57-105 | Explorer(0, 2) and Explorer(1, 2) yield all 27 pairs the tests list, in order |
| Explore.Explorer.constructor | explore.go:30-32 | the generator starts on frontier start with i = j = 0 and nothing produced |
| Explore.Explorer.Next | explore.go:34-48 | each call returns Nth(start, stride, count) and counts one more; the frontier grows by stride exactly when the old one was used up, and the cursor resets then; the pair lies on the current frontier |
| Explore.SplitExplore | explore.go:83-92 | no generators for n <= 0; otherwise n distinct fresh generators, the k-th being Explorer(k, n) in its initial state |
| Text.Index | commit.go:28 | the first occurrence of the pattern, or None exactly when there is none |
| Text.HasPrefix | solver.go:99 | true exactly when the prefix is no longer than the text and agrees with it byte by byte |
| Text.Put | solver.go:94-95 | writing into a sub-slice keeps the length, puts the new bytes at the index and leaves every other byte alone |
| Text.ToLower | solver.go:79 | same length, no upper-case letter remains, upper-case letters move by 32 and every other byte is kept |
| Strconv.Decimal | solver.go:94-95 | the base-10 text of an integer is non-empty, starts with a minus sign exactly when the integer is negative, and holds no space or NUL |
| Strconv.ParseInt | commit.go:62 | a success is a signed 64-bit value read from non-empty text without spaces |
| Strconv.ParseDecimal | commit.go:62 | ParseInt base 10 reads back every 64-bit integer from its decimal text |
| Strconv.AppendIntInPlace | solver.go:94-95 | the buffer afterwards is the old buffer with the decimal text of n written from the index on, and nothing else changed |
| HexCodec.Encode | solver.go:98 | two lower-case digits per byte, high nibble first |
| HexCodec.DecodeEncode | solver.go:98 | decoding the hex text of any bytes gives the bytes back |
| HexCodec.EncodeDecode | solver.go:98 | lower-case hex text of even length decodes, and re-encodes to itself |
| HexCodec.EncodeInto | solver.go:98 | the destination's first 2·n bytes become the encoding of the source and the rest of it is unchanged |
| Commit.ExtractCommitMessage | commit.go:27-34 | an error if and only if the object has no blank line; otherwise the suffix after the first blank line |
| Commit.MessageAfterHeader | commit.go:27-34 | a header without a blank line, followed by a blank line and a message, gives back exactly that message |
| Commit.ParseDate | commit.go:57-66 | text without a space is an error, and every error is UnexpectedDate of the text; a success splits at the first space, with the seconds before it read as a 64-bit integer and the zone after it |
| Commit.ParseDateAtFirstSpace | commit.go:58-66 | with a first space present, the result is the date made from that split when the seconds text parses, and UnexpectedDate otherwise |
| Commit.DateString | commit.go:42 | the text is the decimal seconds, a space and the zone, and its first space is the one after the seconds; DateRoundTrip and DateStringOfParsed relate it to ParseDate |
| Commit.DateRoundTrip | commit.go:42 | reading back the text of a date with 64-bit seconds gives the same date |
| Commit.DateStringOfParsed | commit.go:42 | a parsed date prints as its source text if and only if its seconds were written in canonical decimal |
| Commit.GetDate | commit.go:52-67 | no match gives NoMatch; otherwise it succeeds exactly when the captured text parses, fails with UnexpectedDate of the capture when it does not, and on success returns as index the start of the capture, where the seconds begin |
| Commit.SecondsWidth | commit.go:58-66 | the width of the seconds text at the returned index, which parses as the returned seconds |
| Commit.GetDateOfString | commit.go:52-67 | a capture that is the text of a date yields that date, with its canonical seconds at the returned index |
| Solver.CommitObject | solver.go:74 | the blob is "commit ", then the decimal length of the object, then a NUL, then the object, each at its position |
| Solver.ParseCommitObjectInverse | solver.go:74 | the wrapped object can be unwrapped to the original from the blob alone |
| Solver.NewChecker | solver.go:73-88 | fails exactly when either date cannot be found or read, with the author's error if it has one and the committer's otherwise; on success the blob is the wrapped object, the wanted prefix is ToLower of the prefix, and the dates and indices are those getDate returns |
| Solver.StampDates | solver.go:94-95 | only the two seconds fields change; the committer field holds its new text, and so does the author field when the fields are separate |
| Solver.StampForgetsHistory | solver.go:94-95 | two buffers that agree outside the seconds fields are equal after stamping, so what an earlier check wrote does not matter |
| Solver.StampedReadsBack | solver.go:92-95 | when the fields stay apart, the stamped buffer holds the new seconds of both dates as parseable text |
| Solver.PrefixMatchable | solver.go:97-99 | some digest's hex starts with the prefix if and only if the prefix is lower-case hex of at most 40 digits |
| Solver.LoweredHexPrefix | solver.go:79 | lowering a hex prefix of either case gives lower-case hex |
| Solver.Checker.constructor | solver.go:78-87 | the checker holds the config's values and a fresh copy of the blob, plus a separate fresh 40-byte hex buffer |
| Solver.Checker.Check | solver.go:90-100 | the new dates are the start time minus the try's offsets, with the original zones; the blob is the template with both new seconds written in, whatever was checked before; hexBuf holds the hex of the blob's SHA-1; ok exactly when hexBuf starts with the wanted prefix, and always for an empty prefix |
| Solver.CheckIsDeterministic | solver.go:90-100 | checking the same try again, after any other try, gives the same dates and the same verdict |

## Left out

- `Solve` and `solver` (solver.go:14-50): the goroutines, the context cancellation and the winner channel are concurrency.
- `time.Now` (solver.go:15) is I/O. The start time is the parameter `startUnix`.
- SHA-1 is a parameter function. Its internals are not part of this model.
- Regular expressions: `authorDateRx` and `committerDateRx` (commit.go:44-47) are parameters that return the first group's span.
- `currentHash` (commit.go:13-24) and gitbrute.go are left out. They cover the flags, running git, amending the commit, and checking the prefix with `strconv.ParseInt(prefix, 16, 64)`. That check accepts a leading sign; `Solver.PrefixMatchable` shows such a prefix can never match.
- Integer widths: Go's `int` and `int64` are unbounded integers here. `startUnix - behind` does not wrap.
- Explore.Explorer.constructor: requires `start >= 0` and `stride >= 0`. Go accepts any ints, but `splitExplore` only passes `0 <= k < n`, and a negative frontier only yields degenerate pairs.
- Solver.Checker.Check: requires both new seconds texts to be as wide as the original ones. When a width changes, `strconv.AppendInt` on the shortened slice writes over the space after the field and then the zone when the text grows, or leaves an old digit behind when it shrinks. That case is not modelled.
- Text.ToLower: models `strings.ToLower` for ASCII only. Non-ASCII letters cannot appear in a hex prefix that can match.
- Strconv.ParseInt: Go's syntax error and range error both become `None`.
- `log.Fatalf` ends the program. Here it is an error result of `Commit.GetDate` and `Solver.NewChecker`.
- The Go `checker` struct has no `awidth`, `cwidth` or `template`. They are ghost or config values that only state the in-place contract.
- The benchmarks and helper calls in solver_test.go, and any test not listed above, are not modelled.
