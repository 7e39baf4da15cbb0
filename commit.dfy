/** The commit-header helpers of commit.go: cutting the message off a commit
    object, the `date` value with its text form, and reading a date out of a
    header line once the header regular expression has located it. */
module Commit {
  import opened Text
  import opened Strconv

  const BlankLine: Bytes := [LF, LF]

  datatype MessageError = NoBlankLine(obj: Bytes)

  /** extractCommitMessage: everything after the first blank line. */
  function ExtractCommitMessage(obj: Bytes): (r: Result<Bytes, MessageError>)
    ensures r.Err? <==> forall k: nat :: !OccursAt(obj, BlankLine, k)
    ensures r.Err? ==> r.error == NoBlankLine(obj)
    ensures r.Ok? ==> |r.value| + 2 <= |obj| && obj[|obj| - |r.value|..] == r.value
    ensures r.Ok? ==> OccursAt(obj, BlankLine, |obj| - |r.value| - 2)
    ensures r.Ok? ==> forall k: nat :: k < |obj| - |r.value| - 2 ==> !OccursAt(obj, BlankLine, k)
  {
    match Index(obj, BlankLine)
    case None => Err(NoBlankLine(obj))
    case Some(i) => Ok(obj[i + 2..])
  }

  /** A header with no blank line in it (and not ending in a line feed,
      which would make one with the separator) gives its message back. */
  lemma MessageAfterHeader(header: Bytes, msg: Bytes)
    requires forall k: nat :: !OccursAt(header + [LF], BlankLine, k)
    ensures ExtractCommitMessage(header + BlankLine + msg) == Ok(msg)
  {
    var obj := header + BlankLine + msg;
    assert OccursAt(obj, BlankLine, |header|) by {
      assert obj[|header|..|header| + 2] == BlankLine;
    }
    forall k: nat | k < |header|
      ensures !OccursAt(obj, BlankLine, k)
    {
      assert !OccursAt(header + [LF], BlankLine, k);
      assert obj[k..k + 2] == (header + [LF])[k..k + 2];
    }
    assert Index(obj, BlankLine) == Some(|header|);
    assert obj[|header| + 2..] == msg;
  }

  /** A git date: unix seconds and the time-zone text. */
  datatype Date = Date(n: int, tz: Bytes)

  /** date.String: "<seconds> <tz>". The first space of the text is the one
      after the seconds, whatever spaces the zone holds. */
  function DateString(d: Date): (r: Bytes)
    ensures var w := |Decimal(d.n)|;
      && |r| == w + 1 + |d.tz|
      && r[..w] == Decimal(d.n) && r[w + 1..] == d.tz
      && Index(r, [SP]) == Some(w)
  {
    var s, r := Decimal(d.n), Decimal(d.n) + [SP] + d.tz;
    FirstSpace(r, |s|);
    r
  }

  datatype DateError = NoMatch | UnexpectedDate(text: Bytes)

  /** The bytes h[at .. at+w) are the decimal seconds text of n, free of
      spaces and followed by one. */
  predicate SecondsAt(h: Bytes, at: nat, w: nat, n: int)
  {
    && at + w < |h|
    && (forall k :: at <= k < at + w ==> h[k] != SP)
    && h[at + w] == SP
    && ParseInt(h[at..at + w]) == Some(n)
  }

  /** sp is where v's first space is. */
  predicate FirstSpaceAt(v: Bytes, sp: int)
  {
    0 <= sp < |v| && v[sp] == SP && forall k :: 0 <= k < sp ==> v[k] != SP
  }

  /** The first space of v, found byte by byte, is the one bytes.Index finds. */
  lemma FirstSpace(v: Bytes, sp: nat)
    requires FirstSpaceAt(v, sp)
    ensures Index(v, [SP]) == Some(sp)
  {
    assert OccursAt(v, [SP], sp) by { assert v[sp..sp + 1] == [SP]; }
    forall k: nat | k < sp
      ensures !OccursAt(v, [SP], k)
    {
      assert v[k..k + 1] == [v[k]];
    }
  }

  /** The part of getDate after the match: split the captured text at its
      first space, parse the seconds before it, keep the rest as the zone. */
  function ParseDate(v: Bytes): (r: Result<Date, DateError>)
    ensures r.Err? ==> r.error == UnexpectedDate(v)
    ensures (forall k :: 0 <= k < |v| ==> v[k] != SP) ==> r.Err?
    ensures r.Ok? ==> |r.value.tz| < |v| && SecondsAt(v, 0, |v| - |r.value.tz| - 1, r.value.n)
    ensures r.Ok? ==> v[|v| - |r.value.tz|..] == r.value.tz
  {
    match Index(v, [SP])
    case None => Err(UnexpectedDate(v))
    case Some(sp) =>
      assert v[sp] == SP by { assert v[sp..sp + 1] == [SP]; }
      assert forall k :: 0 <= k < sp ==> v[k] != SP by {
        forall k | 0 <= k < sp ensures v[k] != SP {
          assert !OccursAt(v, [SP], k);
          assert v[k..k + 1] == [v[k]];
        }
      }
      match ParseInt(v[..sp])
      case None => Err(UnexpectedDate(v))
      case Some(n) => Ok(Date(n, v[sp + 1..]))
  }

  /** Text with a first space is split there: the date when the text
      before it is 64-bit decimal, otherwise an error. */
  lemma ParseDateAtFirstSpace(v: Bytes, sp: nat)
    requires FirstSpaceAt(v, sp)
    ensures ParseInt(v[..sp]).Some? ==> ParseDate(v) == Ok(Date(ParseInt(v[..sp]).value, v[sp + 1..]))
    ensures ParseInt(v[..sp]).None? ==> ParseDate(v) == Err(UnexpectedDate(v))
  {
    FirstSpace(v, sp);
  }

  /** Reading back the text of a date gives the date. */
  lemma DateRoundTrip(d: Date)
    requires MinInt64 <= d.n <= MaxInt64
    ensures ParseDate(DateString(d)) == Ok(d)
  {
    ParseDecimal(d.n);
  }

  /** A parsed date prints as its source text exactly when the seconds were
      written the way Decimal writes them (no sign '+', no leading zeros). */
  lemma DateStringOfParsed(v: Bytes)
    requires ParseDate(v).Ok?
    ensures var d := ParseDate(v).value;
      DateString(d) == v <==> v[..|v| - |d.tz| - 1] == Decimal(d.n)
  {
    var d := ParseDate(v).value;
    var w := |v| - |d.tz| - 1;
    assert v == v[..w] + [SP] + d.tz;
    if DateString(d) == v {
      assert |Decimal(d.n)| == w;
      assert v[..w] == DateString(d)[..w];
    }
  }

  /** The span of the regular expression's first group in h. */
  datatype Capture = Capture(lo: nat, hi: nat)

  predicate CaptureWithin(m: Option<Capture>, n: nat)
  {
    m.Some? ==> m.value.lo <= m.value.hi <= n
  }

  /** Seconds text found in a captured span sits at the same place in the
      whole header. */
  lemma SecondsInCapture(h: Bytes, lo: nat, hi: nat, w: nat, n: int)
    requires lo <= hi <= |h| && SecondsAt(h[lo..hi], 0, w, n)
    ensures SecondsAt(h, lo, w, n)
  {
    var v := h[lo..hi];
    assert v[0..w] == h[lo..lo + w];
    assert v[w] == h[lo + w];
    forall k | lo <= k < lo + w ensures h[k] != SP {
      assert v[k - lo] == h[k];
    }
  }

  /** A date parsed from a captured span lies, seconds and zone, at the
      matching places of the whole header. */
  lemma DateInHeader(h: Bytes, lo: nat, hi: nat, d: Date)
    requires lo <= hi <= |h| && ParseDate(h[lo..hi]) == Ok(d)
    ensures var w := hi - lo - |d.tz| - 1;
      w >= 0 && SecondsAt(h, lo, w, d.n) && h[hi - |d.tz|..hi] == d.tz
  {
    var v := h[lo..hi];
    SecondsInCapture(h, lo, hi, |v| - |d.tz| - 1, d.n);
    assert v[|v| - |d.tz|..] == h[hi - |d.tz|..hi];
  }

  /** A date found in a header, and where its seconds begin. */
  datatype Found = Found(date: Date, idx: nat)

  /** getDate(h, rx). The regular expression is the parameter rx: it returns
      the span of its first group, or None when it does not match. */
  function GetDate(h: Bytes, rx: Bytes -> Option<Capture>): (r: Result<Found, DateError>)
    requires CaptureWithin(rx(h), |h|)
    ensures rx(h).None? ==> r == Err(NoMatch)
    ensures rx(h).Some? ==> (r.Ok? <==> ParseDate(h[rx(h).value.lo..rx(h).value.hi]).Ok?)
    ensures rx(h).Some? && r.Err? ==> r == Err(UnexpectedDate(h[rx(h).value.lo..rx(h).value.hi]))
    ensures r.Ok? ==> rx(h).Some? && r.value.idx == rx(h).value.lo
    ensures r.Ok? ==>
      var c := rx(h).value;
      var w := c.hi - c.lo - |r.value.date.tz| - 1;
      w >= 0 && SecondsAt(h, c.lo, w, r.value.date.n) && h[c.hi - |r.value.date.tz|..c.hi] == r.value.date.tz
  {
    match rx(h)
    case None => Err(NoMatch)
    case Some(c) =>
      var v := h[c.lo..c.hi];
      match ParseDate(v)
      case Err(e) =>
        assert e == UnexpectedDate(v);
        Err(e)
      case Ok(d) =>
        DateInHeader(h, c.lo, c.hi, d);
        Ok(Found(d, c.lo))
  }

  /** How long the seconds text of a date found by GetDate is. */
  function SecondsWidth(h: Bytes, rx: Bytes -> Option<Capture>): (w: nat)
    requires CaptureWithin(rx(h), |h|) && GetDate(h, rx).Ok?
    ensures SecondsAt(h, GetDate(h, rx).value.idx, w, GetDate(h, rx).value.date.n)
  {
    rx(h).value.hi - rx(h).value.lo - |GetDate(h, rx).value.date.tz| - 1
  }

  /** A header whose captured text is the text of a date yields that date,
      with its seconds in canonical form at the returned index. */
  lemma GetDateOfString(h: Bytes, rx: Bytes -> Option<Capture>, d: Date)
    requires CaptureWithin(rx(h), |h|) && rx(h).Some?
    requires h[rx(h).value.lo..rx(h).value.hi] == DateString(d)
    requires MinInt64 <= d.n <= MaxInt64
    ensures GetDate(h, rx) == Ok(Found(d, rx(h).value.lo))
    ensures var lo := rx(h).value.lo; h[lo..lo + |Decimal(d.n)|] == Decimal(d.n)
  {
    var c := rx(h).value;
    var v := h[c.lo..c.hi];
    DateRoundTrip(d);
    assert ParseDate(v) == Ok(d);
    CanonicalSeconds(h, c.lo, c.hi, d);
  }

  lemma CanonicalSeconds(h: Bytes, lo: nat, hi: nat, d: Date)
    requires lo <= hi <= |h| && h[lo..hi] == DateString(d)
    ensures h[lo..lo + |Decimal(d.n)|] == Decimal(d.n)
  {
    var s := Decimal(d.n);
    assert h[lo..lo + |s|] == h[lo..hi][..|s|];
  }
}
