/** The pair enumerator of explore.go. A generator walks the lattice of
    non-negative pairs frontier by frontier: for frontier m it yields
    (0,m) .. (m-1,m) and then (m,0) .. (m,m), after which the frontier grows by
    the stride. Nth below is the reference definition of that order; the
    Explorer class is the stateful generator, proved to follow Nth. */
module Explore {

  /** A pair of offsets, in seconds behind the start time (solver.go). The
      generator fills commitBehind with its first and authorBehind with its
      second coordinate. */
  datatype Try = Try(commitBehind: int, authorBehind: int)

  /** The frontier a pair belongs to: its larger coordinate. */
  function MaxOf(t: Try): int
  {
    if t.commitBehind < t.authorBehind then t.authorBehind else t.commitBehind
  }

  predicate NonNegative(t: Try)
  {
    t.commitBehind >= 0 && t.authorBehind >= 0
  }

  /** How many pairs frontier m holds. */
  function BlockLen(m: nat): nat
  {
    2 * m + 1
  }

  /** The o-th pair of frontier m. */
  function BlockAt(m: nat, o: nat): (t: Try)
    requires o < BlockLen(m)
    ensures NonNegative(t) && MaxOf(t) == m
  {
    if o < m then Try(o, m) else Try(m, o - m)
  }

  /** Where a pair sits in its frontier's block: the inverse of BlockAt. */
  function OffsetIn(t: Try): (o: nat)
    requires NonNegative(t)
    ensures o < BlockLen(MaxOf(t)) && BlockAt(MaxOf(t), o) == t
  {
    if t.commitBehind < t.authorBehind then t.commitBehind else t.commitBehind + t.authorBehind
  }

  /** The k-th pair (counting from 0) of a generator whose first frontier is m
      and whose frontier grows by stride once a block is used up. */
  function Nth(m: nat, stride: nat, k: nat): (t: Try)
    ensures NonNegative(t) && MaxOf(t) >= m
    decreases k
  {
    if k < BlockLen(m) then BlockAt(m, k) else Nth(m + stride, stride, k - BlockLen(m))
  }

  /** The frontier after b advances. */
  function FrontierAfter(m: nat, stride: nat, b: nat): nat
    decreases b
  {
    if b == 0 then m else FrontierAfter(m + stride, stride, b - 1)
  }

  /** How many pairs come before the b-th block. */
  function Base(m: nat, stride: nat, b: nat): nat
    decreases b
  {
    if b == 0 then 0 else BlockLen(m) + Base(m + stride, stride, b - 1)
  }

  /** The b-th frontier is start + b·stride. */
  lemma {:induction false} FrontierAfterIs(m: nat, stride: nat, b: nat)
    ensures FrontierAfter(m, stride, b) == m + b * stride
    decreases b
  {
    if b > 0 {
      FrontierAfterIs(m + stride, stride, b - 1);
      assert (b - 1) * stride + stride == b * stride;
    }
  }

  /** One more advance adds stride to the frontier and a whole block to the
      count of pairs already produced. */
  lemma {:induction false} NextBlock(m: nat, stride: nat, b: nat)
    ensures FrontierAfter(m, stride, b + 1) == FrontierAfter(m, stride, b) + stride
    ensures Base(m, stride, b + 1) == Base(m, stride, b) + BlockLen(FrontierAfter(m, stride, b))
    decreases b
  {
    if b > 0 {
      NextBlock(m + stride, stride, b - 1);
    }
  }

  /** Block b is exactly the 2f+1 pairs of frontier f = FrontierAfter(b), in
      block order, starting at index Base(b). */
  lemma {:induction false} NthInBlock(m: nat, stride: nat, b: nat, o: nat)
    requires o < BlockLen(FrontierAfter(m, stride, b))
    ensures Nth(m, stride, Base(m, stride, b) + o) == BlockAt(FrontierAfter(m, stride, b), o)
    decreases b
  {
    if b > 0 {
      NthInBlock(m + stride, stride, b - 1, o);
    }
  }

  /** The block the k-th pair belongs to. */
  function Locate(m: nat, stride: nat, k: nat): (b: nat)
    ensures Base(m, stride, b) <= k < Base(m, stride, b) + BlockLen(FrontierAfter(m, stride, b))
    decreases k
  {
    if k < BlockLen(m) then 0 else 1 + Locate(m + stride, stride, k - BlockLen(m))
  }

  /** Every pair produced lies on a visited frontier start + b·stride. */
  lemma NthOnFrontier(m: nat, stride: nat, k: nat)
    ensures MaxOf(Nth(m, stride, k)) == FrontierAfter(m, stride, Locate(m, stride, k))
    ensures MaxOf(Nth(m, stride, k)) == m + Locate(m, stride, k) * stride
  {
    var b := Locate(m, stride, k);
    NthInBlock(m, stride, b, k - Base(m, stride, b));
    FrontierAfterIs(m, stride, b);
  }

  /** The index at which the generator produces t, for t on the b-th frontier. */
  function IndexOf(m: nat, stride: nat, b: nat, t: Try): (k: nat)
    requires NonNegative(t) && MaxOf(t) == FrontierAfter(m, stride, b)
    ensures Nth(m, stride, k) == t
    decreases b
  {
    if b == 0 then OffsetIn(t) else BlockLen(m) + IndexOf(m + stride, stride, b - 1, t)
  }

  /** A generator produces exactly the non-negative pairs whose frontier is one
      it visits. */
  lemma Produces(m: nat, stride: nat, t: Try)
    requires NonNegative(t)
    ensures (exists k: nat :: Nth(m, stride, k) == t) <==> (exists b: nat :: FrontierAfter(m, stride, b) == MaxOf(t))
  {
    if exists k: nat :: Nth(m, stride, k) == t {
      var k: nat :| Nth(m, stride, k) == t;
      NthOnFrontier(m, stride, k);
    }
    if exists b: nat :: FrontierAfter(m, stride, b) == MaxOf(t) {
      var b: nat :| FrontierAfter(m, stride, b) == MaxOf(t);
      var k := IndexOf(m, stride, b, t);
    }
  }

  /** The stride-1 generator from 0 produces every non-negative pair. */
  lemma UniformCovers(t: Try)
    requires NonNegative(t)
    ensures exists k: nat :: Nth(0, 1, k) == t
  {
    FrontierAfterIs(0, 1, MaxOf(t));
    var k := IndexOf(0, 1, MaxOf(t), t);
  }

  /** The frontier never decreases along the sequence, so every pair of one
      frontier comes before every pair of a larger one. */
  lemma {:induction false} FrontierMonotone(m: nat, stride: nat, k1: nat, k2: nat)
    requires k1 <= k2
    ensures MaxOf(Nth(m, stride, k1)) <= MaxOf(Nth(m, stride, k2))
    decreases k1
  {
    if k1 >= BlockLen(m) {
      FrontierMonotone(m + stride, stride, k1 - BlockLen(m), k2 - BlockLen(m));
    }
  }

  /** With a positive stride no pair is produced twice. */
  lemma {:induction false} NoRepeats(m: nat, stride: nat, k1: nat, k2: nat)
    requires stride >= 1 && k1 != k2
    ensures Nth(m, stride, k1) != Nth(m, stride, k2)
    decreases k1 + k2
  {
    if k1 < BlockLen(m) && k2 < BlockLen(m) {
      assert OffsetIn(BlockAt(m, k1)) == k1 && OffsetIn(BlockAt(m, k2)) == k2;
    } else if k1 < BlockLen(m) {
      assert MaxOf(Nth(m, stride, k2)) >= m + stride;
    } else if k2 < BlockLen(m) {
      assert MaxOf(Nth(m, stride, k1)) >= m + stride;
    } else {
      NoRepeats(m + stride, stride, k1 - BlockLen(m), k2 - BlockLen(m));
    }
  }

  lemma MulAtLeast(d: int, n: int)
    requires d >= 1 && n > 0
    ensures d * n >= n
  {
  }

  /** Quotient and remainder are unique. */
  lemma DivModUnique(x: int, n: int, q: int, r: int)
    requires n > 0 && 0 <= r < n && x == q * n + r
    ensures x % n == r && x / n == q
  {
    assert x == (x / n) * n + x % n;
    if q > x / n { MulAtLeast(q - x / n, n); }
    if x / n > q { MulAtLeast(x / n - q, n); }
  }

  /** Generator k of a split into n produces a pair exactly when the pair's
      frontier is k modulo n; so each pair comes from exactly one generator. */
  lemma SplitPartition(n: nat, k: nat, t: Try)
    requires 1 <= n && k < n && NonNegative(t)
    ensures (exists idx: nat :: Nth(k, n, idx) == t) <==> MaxOf(t) % n == k
  {
    Produces(k, n, t);
    if exists b: nat :: FrontierAfter(k, n, b) == MaxOf(t) {
      var b: nat :| FrontierAfter(k, n, b) == MaxOf(t);
      FrontierAfterIs(k, n, b);
      DivModUnique(MaxOf(t), n, b, k);
    }
    if MaxOf(t) % n == k {
      var b: nat := MaxOf(t) / n;
      FrontierAfterIs(k, n, b);
      assert FrontierAfter(k, n, b) == MaxOf(t);
    }
  }

  /** Block b of generator k in a split into n is, pair for pair, block k + b·n
      of the stride-1 generator from 0. */
  lemma SplitBlockIsUniformBlock(n: nat, k: nat, b: nat, o: nat)
    requires 1 <= n && k < n && o < BlockLen(k + b * n)
    ensures Nth(k, n, Base(k, n, b) + o) == Nth(0, 1, Base(0, 1, k + b * n) + o)
  {
    FrontierAfterIs(k, n, b);
    FrontierAfterIs(0, 1, k + b * n);
    NthInBlock(k, n, b, o);
    NthInBlock(0, 1, k + b * n, o);
  }

  /** The sequence Explorer(0, 1) yields (explore_test.go, "uniform sequence"). */
  lemma UniformSequence()
    ensures Nth(0, 1, 0) == Try(0, 0)
    ensures Nth(0, 1, 1) == Try(0, 1) && Nth(0, 1, 2) == Try(1, 0) && Nth(0, 1, 3) == Try(1, 1)
    ensures Nth(0, 1, 4) == Try(0, 2) && Nth(0, 1, 5) == Try(1, 2) && Nth(0, 1, 6) == Try(2, 0)
    ensures Nth(0, 1, 7) == Try(2, 1) && Nth(0, 1, 8) == Try(2, 2)
    ensures Nth(0, 1, 9) == Try(0, 3) && Nth(0, 1, 10) == Try(1, 3) && Nth(0, 1, 11) == Try(2, 3)
    ensures Nth(0, 1, 12) == Try(3, 0) && Nth(0, 1, 13) == Try(3, 1) && Nth(0, 1, 14) == Try(3, 2)
    ensures Nth(0, 1, 15) == Try(3, 3)
    ensures Nth(0, 1, 16) == Try(0, 4) && Nth(0, 1, 17) == Try(1, 4) && Nth(0, 1, 18) == Try(2, 4)
    ensures Nth(0, 1, 19) == Try(3, 4) && Nth(0, 1, 20) == Try(4, 0) && Nth(0, 1, 21) == Try(4, 1)
    ensures Nth(0, 1, 22) == Try(4, 2) && Nth(0, 1, 23) == Try(4, 3) && Nth(0, 1, 24) == Try(4, 4)
    ensures Nth(0, 1, 25) == Try(0, 5)
  {
  }

  /** The sequences Explorer(0, 2) and Explorer(1, 2) yield
      (explore_test.go, "stride sequence" and "offset stride sequence"). */
  lemma StrideSequences()
    ensures Nth(0, 2, 0) == Try(0, 0)
    ensures Nth(0, 2, 1) == Try(0, 2) && Nth(0, 2, 2) == Try(1, 2) && Nth(0, 2, 3) == Try(2, 0)
    ensures Nth(0, 2, 4) == Try(2, 1) && Nth(0, 2, 5) == Try(2, 2)
    ensures Nth(0, 2, 6) == Try(0, 4) && Nth(0, 2, 7) == Try(1, 4) && Nth(0, 2, 8) == Try(2, 4)
    ensures Nth(0, 2, 9) == Try(3, 4) && Nth(0, 2, 10) == Try(4, 0) && Nth(0, 2, 11) == Try(4, 1)
    ensures Nth(0, 2, 12) == Try(4, 2) && Nth(0, 2, 13) == Try(4, 3) && Nth(0, 2, 14) == Try(4, 4)
    ensures Nth(0, 2, 15) == Try(0, 6)
    ensures Nth(1, 2, 0) == Try(0, 1) && Nth(1, 2, 1) == Try(1, 0) && Nth(1, 2, 2) == Try(1, 1)
    ensures Nth(1, 2, 3) == Try(0, 3) && Nth(1, 2, 4) == Try(1, 3) && Nth(1, 2, 5) == Try(2, 3)
    ensures Nth(1, 2, 6) == Try(3, 0) && Nth(1, 2, 7) == Try(3, 1) && Nth(1, 2, 8) == Try(3, 2)
    ensures Nth(1, 2, 9) == Try(3, 3)
    ensures Nth(1, 2, 10) == Try(0, 5)
  {
  }

  /** Taking one pair from each of the two generators of a split in turn does
      not give the stride-1 order: the third pair already differs, because
      the blocks of the two generators have different lengths. What a split
      preserves is the partition by frontier (SplitPartition) and the blocks
      themselves (SplitBlockIsUniformBlock). */
  lemma RoundRobinIsNotUniform()
    ensures [Nth(0, 2, 0), Nth(1, 2, 0), Nth(0, 2, 1), Nth(1, 2, 1)] != [Nth(0, 1, 0), Nth(0, 1, 1), Nth(0, 1, 2), Nth(0, 1, 3)]
  {
    assert Nth(0, 2, 1) == Try(0, 2) && Nth(0, 1, 2) == Try(1, 0);
  }

  /** The generator Explorer(start, stride) returns: the cursor (max, i, j)
      the Go closure captures, with the ghost state that ties it to Nth. */
  class Explorer {
    var max: int
    var i: int
    var j: int
    const stride: int
    ghost const start: nat
    /** How many times the frontier has advanced. */
    ghost var block: nat
    /** How many pairs have been produced. */
    ghost var count: nat

    ghost predicate Valid()
      reads this
    {
      && stride >= 0
      && max == FrontierAfter(start, stride, block)
      && 0 <= i <= max && 0 <= j <= max + 1
      && (j > 0 ==> i == max)
      && count == Base(start, stride, block) + i + j
    }

    /** The current frontier is used up. */
    predicate Exhausted()
      reads this
    {
      i >= max && j > max
    }

    constructor (start: int, stride: int)
      requires start >= 0 && stride >= 0
      ensures Valid()
      ensures this.start == start && this.stride == stride
      ensures max == start && i == 0 && j == 0
      ensures block == 0 && count == 0
    {
      this.start := start;
      this.stride := stride;
      max := start;
      i, j := 0, 0;
      block, count := 0, 0;
    }

    /** One call of the generator: the next pair of the sequence. */
    method Next() returns (t: Try)
      requires Valid()
      modifies this
      ensures Valid()
      ensures t == Nth(start, stride, old(count))
      ensures count == old(count) + 1
      ensures old(Exhausted()) ==> max == old(max) + stride && block == old(block) + 1 && i + j == 1
      ensures !old(Exhausted()) ==> max == old(max) && block == old(block) && i + j == old(i + j) + 1
      ensures NonNegative(t) && MaxOf(t) == max
    {
      if i >= max && j > max {
        NextBlock(start, stride, block);
        i, j := 0, 0;
        max := max + stride;
        block := block + 1;
      }
      assert count == Base(start, stride, block) + i + j;
      NthInBlock(start, stride, block, i + j);
      if i <= max - 1 {
        var ri := i;
        i := i + 1;
        count := count + 1;
        return Try(ri, max);
      }
      assert j <= max;
      var rj := j;
      j := j + 1;
      count := count + 1;
      return Try(max, rj);
    }
  }

  /** splitExplore(n): n independent generators, the k-th being
      Explorer(k, n); none at all when n <= 0. */
  method SplitExplore(n: int) returns (res: array<Explorer?>)
    ensures fresh(res)
    ensures res.Length == if n <= 0 then 0 else n
    ensures forall k :: 0 <= k < res.Length ==>
      && res[k] != null && fresh(res[k]) && res[k].Valid()
      && res[k].start == k && res[k].stride == n && res[k].count == 0
      && res[k].max == k && res[k].i == 0 && res[k].j == 0
    ensures forall k1, k2 :: 0 <= k1 < k2 < res.Length ==> res[k1] != res[k2]
  {
    if n <= 0 {
      return new Explorer?[0];
    }
    res := new Explorer?[n];
    var k := 0;
    while k < n
      invariant 0 <= k <= n
      invariant forall p :: 0 <= p < k ==>
        && res[p] != null && fresh(res[p]) && res[p].Valid()
        && res[p].start == p && res[p].stride == n && res[p].count == 0
        && res[p].max == p && res[p].i == 0 && res[p].j == 0
      invariant forall p1, p2 :: 0 <= p1 < p2 < k ==> res[p1] != res[p2]
    {
      res[k] := new Explorer(k, n);
      k := k + 1;
    }
  }
}
