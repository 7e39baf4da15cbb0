/** The candidate checker of solver.go. A checker is built once per worker:
    it wraps the commit object the way git hashes it, finds the two dates in
    the header, and lowers the wanted prefix. Each check then writes the
    candidate's seconds over the dates in its own buffer, in place, hashes the
    buffer, writes the lower-case hex of the digest into a second buffer, and
    tests the prefix. SHA-1 is a parameter: a function to 20 bytes. */
module Solver {
  import opened Text
  import opened Strconv
  import opened HexCodec
  import opened Explore
  import opened Commit

  /** sha1.Size */
  const Sha1Size: nat := 20
  /** hex.EncodedLen(sha1.Size) */
  const HexSize: nat := 2 * Sha1Size

  type Digest = d: Bytes | |d| == Sha1Size witness seq(20, _ => 0)

  /** "commit " */
  const CommitTag: Bytes := [99, 111, 109, 109, 105, 116, 32]

  /** The two dates a candidate stands for. */
  datatype Solution = Solution(author: Date, committer: Date)

  /** The object git hashes for a commit: "commit <len>\x00<obj>". */
  function CommitObject(obj: Bytes): (blob: Bytes)
    ensures var t, n := |CommitTag|, |Decimal(|obj|)|;
      && |blob| == t + n + 1 + |obj|
      && blob[..t] == CommitTag
      && blob[t..t + n] == Decimal(|obj|)
      && blob[t + n] == NUL
      && blob[t + n + 1..] == obj
  {
    CommitTag + Decimal(|obj|) + [NUL] + obj
  }

  /** Reads a wrapped commit object back: the tag, the decimal length up to
      the first NUL, and a body of exactly that length. */
  function ParseCommitObject(blob: Bytes): (r: Option<Bytes>)
    ensures r.Some? ==> |r.value| < |blob| && blob[|blob| - |r.value|..] == r.value
  {
    if |blob| < |CommitTag| || blob[..|CommitTag|] != CommitTag then None
    else
      var rest := blob[|CommitTag|..];
      match Index(rest, [NUL])
      case None => None
      case Some(z) =>
        match ParseInt(rest[..z])
        case None => None
        case Some(len) =>
          if len == |rest| - z - 1 then
            assert blob[|blob| - |rest[z + 1..]|..] == rest[z + 1..];
            Some(rest[z + 1..])
          else None
  }

  /** Unwrapping undoes wrapping. */
  lemma ParseCommitObjectInverse(obj: Bytes)
    requires |obj| <= MaxInt64
    ensures ParseCommitObject(CommitObject(obj)) == Some(obj)
  {
    var blob, len := CommitObject(obj), Decimal(|obj|);
    assert blob[..|CommitTag|] == CommitTag;
    var rest := blob[|CommitTag|..];
    assert rest == len + [NUL] + obj;
    assert OccursAt(rest, [NUL], |len|) by { assert rest[|len|..|len| + 1] == [NUL]; }
    forall k: nat | k < |len|
      ensures !OccursAt(rest, [NUL], k)
    {
      assert rest[k..k + 1] == [len[k]];
    }
    assert Index(rest, [NUL]) == Some(|len|);
    assert rest[..|len|] == len && rest[|len| + 1..] == obj;
    ParseDecimal(|obj|);
  }

  /** What newChecker computes, before any buffer is allocated. The widths
      of the two seconds texts are kept so that the in-place overwrite can
      be required to keep them. */
  datatype Config = Config(
    wantHexPrefix: Bytes,
    startUnix: int,
    blob: Bytes,
    authorDate: Date,
    commitDate: Date,
    adatei: nat,
    cdatei: nat,
    awidth: nat,
    cwidth: nat)

  /** Each date's seconds text lies at its index, free of spaces and followed
      by one. */
  predicate ConfigValid(c: Config)
  {
    SecondsAt(c.blob, c.adatei, c.awidth, c.authorDate.n) && SecondsAt(c.blob, c.cdatei, c.cwidth, c.commitDate.n)
  }

  /** newChecker(obj, prefix, startUnix). The two header regular expressions
      are the parameters authorRx and committerRx; a failure to find or read
      a date (log.Fatalf in the source) is an error result, the author's
      reported first. */
  function NewChecker(obj: Bytes, prefix: Bytes, startUnix: int,
                      authorRx: Bytes -> Option<Capture>, committerRx: Bytes -> Option<Capture>): (r: Result<Config, DateError>)
    requires CaptureWithin(authorRx(CommitObject(obj)), |CommitObject(obj)|)
    requires CaptureWithin(committerRx(CommitObject(obj)), |CommitObject(obj)|)
    ensures r.Err? <==> GetDate(CommitObject(obj), authorRx).Err? || GetDate(CommitObject(obj), committerRx).Err?
    ensures GetDate(CommitObject(obj), authorRx).Err? ==> r == Err(GetDate(CommitObject(obj), authorRx).error)
    ensures r.Ok? ==> ConfigValid(r.value)
    ensures r.Ok? ==> r.value.blob == CommitObject(obj) && r.value.startUnix == startUnix
    ensures GetDate(CommitObject(obj), authorRx).Ok? && GetDate(CommitObject(obj), committerRx).Err? ==>
      r == Err(GetDate(CommitObject(obj), committerRx).error)
    ensures r.Ok? ==> r.value.wantHexPrefix == ToLower(prefix)
    ensures r.Ok? ==>
      && Found(r.value.authorDate, r.value.adatei) == GetDate(CommitObject(obj), authorRx).value
      && Found(r.value.commitDate, r.value.cdatei) == GetDate(CommitObject(obj), committerRx).value
  {
    var blob := CommitObject(obj);
    match GetDate(blob, authorRx)
    case Err(e) => Err(e)
    case Ok(a) =>
      match GetDate(blob, committerRx)
      case Err(e) => Err(e)
      case Ok(c) =>
        Ok(Config(ToLower(prefix), startUnix, blob, a.date, c.date, a.idx, c.idx,
                  SecondsWidth(blob, authorRx), SecondsWidth(blob, committerRx)))
  }

  /** x and y are the same length and agree outside [a, a+wa) and [c, c+wc). */
  ghost predicate SameOutside(x: Bytes, y: Bytes, a: nat, wa: nat, c: nat, wc: nat)
  {
    |x| == |y| && forall k :: 0 <= k < |x| && !(a <= k < a + wa) && !(c <= k < c + wc) ==> x[k] == y[k]
  }

  /** The two in-place writes of check: da over s at a, then dc at c. */
  function StampDates(s: Bytes, a: nat, da: Bytes, c: nat, dc: Bytes): (r: Bytes)
    requires a + |da| <= |s| && c + |dc| <= |s|
    ensures SameOutside(r, s, a, |da|, c, |dc|)
    ensures r[c..c + |dc|] == dc
    ensures (a + |da| <= c || c + |dc| <= a) ==> r[a..a + |da|] == da
  {
    var s1 := Put(s, a, da);
    var r := Put(s1, c, dc);
    assert (a + |da| <= c || c + |dc| <= a) ==> r[a..a + |da|] == s1[a..a + |da|];
    r
  }

  /** Overwriting both fields at their full width forgets whatever they held:
      the result depends only on the bytes outside them. */
  lemma StampForgetsHistory(x: Bytes, y: Bytes, a: nat, da: Bytes, c: nat, dc: Bytes)
    requires a + |da| <= |y| && c + |dc| <= |y|
    requires SameOutside(x, y, a, |da|, c, |dc|)
    ensures StampDates(x, a, da, c, dc) == StampDates(y, a, da, c, dc)
  {
    var rx, ry := StampDates(x, a, da, c, dc), StampDates(y, a, da, c, dc);
    forall k | 0 <= k < |ry|
      ensures rx[k] == ry[k]
    {
      if c <= k < c + |dc| {
        assert rx[c..c + |dc|][k - c] == ry[c..c + |dc|][k - c];
      } else if a <= k < a + |da| {
        assert Put(x, a, da)[a..a + |da|][k - a] == Put(y, a, da)[a..a + |da|][k - a];
      }
    }
  }

  /** When the two fields and the space after each stay apart, the stamped
      buffer reads back as the candidate's seconds in both places. */
  lemma StampedReadsBack(s: Bytes, a: nat, wa: nat, na: int, c: nat, wc: nat, nc: int)
    requires a + wa < |s| && s[a + wa] == SP && c + wc < |s| && s[c + wc] == SP
    requires a + wa < c || c + wc < a
    requires |Decimal(na)| == wa && |Decimal(nc)| == wc
    requires MinInt64 <= na <= MaxInt64 && MinInt64 <= nc <= MaxInt64
    ensures var r := StampDates(s, a, Decimal(na), c, Decimal(nc));
      SecondsAt(r, a, wa, na) && SecondsAt(r, c, wc, nc)
  {
    var r := StampDates(s, a, Decimal(na), c, Decimal(nc));
    assert r[a + wa] == SP && r[c + wc] == SP;
    FieldReadsBack(r, a, na);
    FieldReadsBack(r, c, nc);
  }

  /** Decimal text followed by a space reads back as its number. */
  lemma FieldReadsBack(r: Bytes, a: nat, n: int)
    requires a + |Decimal(n)| < |r| && r[a..a + |Decimal(n)|] == Decimal(n) && r[a + |Decimal(n)|] == SP
    requires MinInt64 <= n <= MaxInt64
    ensures SecondsAt(r, a, |Decimal(n)|, n)
  {
    var d := Decimal(n);
    ParseDecimal(n);
    forall k | a <= k < a + |d| ensures r[k] != SP {
      assert r[a..a + |d|][k - a] == d[k - a];
    }
  }

  /** A search can only succeed when its lowered prefix is lower-case hex of
      at most 40 digits, and then some digest matches it. */
  lemma PrefixMatchable(p: Bytes)
    ensures (exists d: Digest :: HasPrefix(Encode(d), p)) <==> |p| <= HexSize && AllLowerHex(p)
  {
    if exists d: Digest :: HasPrefix(Encode(d), p) {
      var d: Digest :| HasPrefix(Encode(d), p);
      assert forall k :: 0 <= k < |p| ==> p[k] == Encode(d)[k];
    }
    if |p| <= HexSize && AllLowerHex(p) {
      var q := p + seq(HexSize - |p|, _ => '0' as int);
      assert AllLowerHex(q);
      EncodeDecode(q);
      var d: Digest := Decode(q).value;
      assert Encode(d)[..|p|] == p;
      assert HasPrefix(Encode(d), p);
    }
  }

  /** Lowering a hex prefix of either case gives lower-case hex, so a valid
      prefix typed in upper case can still be matched. */
  lemma LoweredHexPrefix(prefix: Bytes)
    requires forall k :: 0 <= k < |prefix| ==> IsHex(prefix[k])
    ensures AllLowerHex(ToLower(prefix))
  {
  }

  /** The per-worker checker. blob and hexBuf are the reusable buffers of
      the source; template is the blob as newChecker built it. */
  class Checker {
    const wantHexPrefix: Bytes
    const startUnix: int
    const blob: array<Byte>
    const authorDate: Date
    const commitDate: Date
    const adatei: nat
    const cdatei: nat
    const hexBuf: array<Byte>
    ghost const template: Bytes
    ghost const awidth: nat
    ghost const cwidth: nat

    /** The buffers are separate, hexBuf holds one encoded digest, and blob
        differs from the template at most inside the two seconds fields. */
    ghost predicate Valid()
      reads this, blob
    {
      && blob != hexBuf
      && hexBuf.Length == HexSize
      && blob.Length == |template|
      && adatei + awidth <= |template| && cdatei + cwidth <= |template|
      && SameOutside(blob[..], template, adatei, awidth, cdatei, cwidth)
    }

    constructor (cfg: Config)
      requires ConfigValid(cfg)
      ensures Valid() && fresh(blob) && fresh(hexBuf)
      ensures blob[..] == cfg.blob && template == cfg.blob
      ensures wantHexPrefix == cfg.wantHexPrefix && startUnix == cfg.startUnix
      ensures authorDate == cfg.authorDate && commitDate == cfg.commitDate
      ensures adatei == cfg.adatei && cdatei == cfg.cdatei
      ensures awidth == cfg.awidth && cwidth == cfg.cwidth
    {
      wantHexPrefix := cfg.wantHexPrefix;
      startUnix := cfg.startUnix;
      blob := new Byte[|cfg.blob|](k requires 0 <= k < |cfg.blob| => cfg.blob[k]);
      authorDate := cfg.authorDate;
      commitDate := cfg.commitDate;
      adatei := cfg.adatei;
      cdatei := cfg.cdatei;
      hexBuf := new Byte[HexSize];
      template := cfg.blob;
      awidth := cfg.awidth;
      cwidth := cfg.cwidth;
      new;
      assert blob[..] == cfg.blob;
    }

    /** The new seconds of a try keep both fields' widths. */
    ghost predicate FitsInPlace(t: Try)
    {
      |Decimal(startUnix - t.authorBehind)| == awidth && |Decimal(startUnix - t.commitBehind)| == cwidth
    }

    /** The buffer a try stamps: the template with both new seconds written in. */
    ghost function Stamped(t: Try): Bytes
      requires FitsInPlace(t)
      requires adatei + awidth <= |template| && cdatei + cwidth <= |template|
    {
      StampDates(template, adatei, Decimal(startUnix - t.authorBehind), cdatei, Decimal(startUnix - t.commitBehind))
    }

    /** check(t): the candidate dates, and whether the hash of the stamped
        object starts with the wanted prefix. */
    method Check(t: Try, sha1: Bytes -> Digest) returns (newdate: Solution, ok: bool)
      requires Valid() && FitsInPlace(t)
      modifies blob, hexBuf
      ensures Valid()
      ensures newdate.author == Date(startUnix - t.authorBehind, authorDate.tz)
      ensures newdate.committer == Date(startUnix - t.commitBehind, commitDate.tz)
      ensures blob[..] == StampDates(old(blob[..]), adatei, Decimal(newdate.author.n), cdatei, Decimal(newdate.committer.n))
      ensures blob[..] == Stamped(t)
      ensures hexBuf[..] == Encode(sha1(blob[..]))
      ensures ok == HasPrefix(hexBuf[..], wantHexPrefix)
      ensures wantHexPrefix == [] ==> ok
    {
      newdate := Solution(Date(startUnix - t.authorBehind, authorDate.tz),
                          Date(startUnix - t.commitBehind, commitDate.tz));
      ghost var before := blob[..];
      AppendIntInPlace(blob, adatei, newdate.author.n);
      AppendIntInPlace(blob, cdatei, newdate.committer.n);
      StampForgetsHistory(before, template, adatei, Decimal(newdate.author.n), cdatei, Decimal(newdate.committer.n));
      var sum := sha1(blob[..]);
      EncodeInto(hexBuf, sum);
      assert hexBuf[..] == hexBuf[..2 * |sum|];
      ok := HasPrefix(hexBuf[..], wantHexPrefix);
    }
  }

  /** Checking the same try twice gives the same answer and leaves the same
      buffer, whatever was checked in between. */
  method CheckIsDeterministic(c: Checker, t: Try, u: Try, sha1: Bytes -> Digest)
      returns (first: Solution, firstOk: bool, again: Solution, againOk: bool)
    requires c.Valid() && c.FitsInPlace(t) && c.FitsInPlace(u)
    modifies c.blob, c.hexBuf
    ensures first == again && firstOk == againOk
  {
    first, firstOk := c.Check(t, sha1);
    ghost var stamped := c.blob[..];
    var _, _ := c.Check(u, sha1);
    again, againOk := c.Check(t, sha1);
    assert c.blob[..] == stamped;
  }
}
