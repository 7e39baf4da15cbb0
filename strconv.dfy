/** Decimal text of integers as Go's strconv package produces and reads it
    (base 10 only): strconv.AppendInt / fmt's %d verb, and strconv.ParseInt
    with base 10 and bit size 64. */
module Strconv {
  import opened Text

  const MinInt64: int := -0x8000_0000_0000_0000
  const MaxInt64: int := 0x7fff_ffff_ffff_ffff

  const Minus: Byte := '-' as int
  const Plus: Byte := '+' as int

  predicate IsDigit(c: Byte)
  {
    '0' as int <= c <= '9' as int
  }

  predicate AllDigits(s: Bytes)
  {
    forall k :: 0 <= k < |s| ==> IsDigit(s[k])
  }

  /** The decimal digits of n, most significant first, without leading zeros. */
  function Digits(n: nat): (r: Bytes)
    ensures 1 <= |r| && AllDigits(r)
    ensures |r| > 1 ==> r[0] != '0' as int
    decreases n
  {
    if n < 10 then [48 + n] else Digits(n / 10) + [48 + n % 10]
  }

  /** The base-10 text of n: a minus sign for negative values, then the digits. */
  function Decimal(n: int): (r: Bytes)
    ensures 1 <= |r|
    ensures (r[0] == Minus) <==> n < 0
    ensures forall k :: 0 <= k < |r| ==> r[k] != SP && r[k] != NUL
  {
    if n < 0 then [Minus] + Digits(-n) else Digits(n)
  }

  /** The number a string of decimal digits denotes (leading zeros allowed). */
  function ValueOf(s: Bytes): nat
    requires AllDigits(s)
  {
    if s == [] then 0 else ValueOf(s[..|s| - 1]) * 10 + (s[|s| - 1] - 48)
  }

  /** strconv.ParseInt(s, 10, 64). An optional sign, then one or more decimal
      digits; the value must fit 64 bits. Go distinguishes a syntax error from
      a range error; both are None here. */
  function ParseInt(s: Bytes): (r: Option<int>)
    ensures r.Some? ==> MinInt64 <= r.value <= MaxInt64
    ensures r.Some? ==> 1 <= |s| && forall k :: 0 <= k < |s| ==> s[k] != SP
  {
    if s == [] then None
    else
      var body := if s[0] == Plus || s[0] == Minus then s[1..] else s;
      if body == [] || !AllDigits(body) then None
      else
        var v: int := if s[0] == Minus then -(ValueOf(body) as int) else ValueOf(body);
        if MinInt64 <= v <= MaxInt64 then Some(v) else None
  }

  lemma {:induction false} ValueOfDigits(n: nat)
    ensures ValueOf(Digits(n)) == n
    decreases n
  {
    if n >= 10 {
      var d := Digits(n);
      assert d[..|d| - 1] == Digits(n / 10);
      ValueOfDigits(n / 10);
    }
  }

  /** Every 64-bit value survives formatting and parsing back. */
  lemma ParseDecimal(n: int)
    requires MinInt64 <= n <= MaxInt64
    ensures ParseInt(Decimal(n)) == Some(n)
  {
    var s := Decimal(n);
    if n < 0 {
      ValueOfDigits(-n);
      assert s[0] == Minus && s[1..] == Digits(-n);
    } else {
      ValueOfDigits(n);
      assert s == Digits(n) && IsDigit(s[0]);
    }
  }

  /** strconv.AppendInt(buf[:at], n, 10) when the digits fit the buffer's
      length: the text of n is written over buf from position at on. */
  method AppendIntInPlace(buf: array<Byte>, at: nat, n: int)
    requires at + |Decimal(n)| <= buf.Length
    modifies buf
    ensures buf[..] == Put(old(buf[..]), at, Decimal(n))
  {
    var d := Decimal(n);
    var i := 0;
    while i < |d|
      invariant 0 <= i <= |d|
      invariant forall k :: 0 <= k < buf.Length && !(at <= k < at + i) ==> buf[k] == old(buf[k])
      invariant forall k :: 0 <= k < i ==> buf[at + k] == d[k]
    {
      buf[at + i] := d[i];
      i := i + 1;
    }
    assert buf[..] == Put(old(buf[..]), at, d) by {
      var p := Put(old(buf[..]), at, d);
      forall k | 0 <= k < buf.Length
        ensures buf[k] == p[k]
      {
        if at <= k < at + |d| {
          assert p[at..at + |d|][k - at] == d[k - at];
        }
      }
    }
  }
}
