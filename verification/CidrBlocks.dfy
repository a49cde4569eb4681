/**
 The arithmetic of CIDR blocks (section 3.1 of RFC 4632), on plain numbers: an address
 is a number below 2^w and a prefix of length m is a block of 2^(w-m) addresses that
 starts at a multiple of its own size.

 Decompose is the block list that IpRange.Subnets produces; this module shows what is
 good about that list.
 */
module CidrBlocks {
  import opened Powers

  /** The block [base, base + 2^bits - 1]; bits is the number of free (host) bits. */
  datatype Block = Block(base: nat, bits: nat) {
    ghost function Last(): int { base + Pow2(bits) - 1 }

    ghost predicate Aligned() { base % Pow2(bits) == 0 }

    ghost predicate Has(v: int) { base <= v <= Last() }
  }

  /** The number of trailing zero bits of a w-bit number. */
  function TrailingZeros(s: nat, w: nat): (k: nat)
    ensures k <= w
  {
    if w == 0 || s % 2 == 1 then 0 else 1 + TrailingZeros(s / 2, w - 1)
  }

  /** The largest k' <= k whose block at s ends at or before e. */
  function Fit(s: nat, e: nat, k: nat): (r: nat)
    requires s <= e
    ensures r <= k && s + Pow2(r) - 1 <= e
    ensures r < k ==> s + Pow2(r + 1) - 1 > e
  {
    if k == 0 || s + Pow2(k) - 1 <= e then k else Fit(s, e, k - 1)
  }

  function FreeBits(s: nat, e: nat, w: nat): nat
    requires s <= e
  {
    Fit(s, e, TrailingZeros(s, w))
  }

  function Decompose(s: nat, e: nat, w: nat): seq<Block>
    requires s <= e
    decreases e - s
  {
    var k := FreeBits(s, e, w);
    var last := s + Pow2(k) - 1;
    [Block(s, k)] + if last == e then [] else Decompose(last + 1, e, w)
  }

  lemma {:induction false} TrailingZerosExact(s: nat, w: nat, j: nat)
    requires j <= w
    ensures s % Pow2(j) == 0 <==> j <= TrailingZeros(s, w)
  {
    if j > 0 {
      if s % 2 == 1 {
        OddNotMultiple(s, j);
      } else {
        HalfMultiple(s, j - 1);
        TrailingZerosExact(s / 2, w - 1, j - 1);
      }
    }
  }

  /** What one step of the greedy algorithm starts from. */
  lemma FirstBlock(s: nat, e: nat, w: nat)
    requires s <= e < Pow2(w)
    ensures var b := Block(s, FreeBits(s, e, w));
            b.bits <= w && b.Aligned() && b.Last() <= e
  {
    TrailingZerosExact(s, w, FreeBits(s, e, w));
  }

  /** Blocks lie end to end from s to e. */
  ghost predicate Tiles(bs: seq<Block>, s: nat, e: nat)
    decreases |bs|
  {
    && |bs| > 0
    && bs[0].base == s
    && if |bs| == 1 then bs[0].Last() == e else bs[0].Last() < e && Tiles(bs[1..], bs[0].Last() + 1, e)
  }

  ghost predicate WellFormed(bs: seq<Block>, w: nat) {
    forall i :: 0 <= i < |bs| ==> bs[i].bits <= w && bs[i].Aligned()
  }

  lemma {:induction false} DecomposeTiles(s: nat, e: nat, w: nat)
    requires s <= e < Pow2(w)
    ensures Tiles(Decompose(s, e, w), s, e) && WellFormed(Decompose(s, e, w), w)
    decreases e - s
  {
    FirstBlock(s, e, w);
    var b := Block(s, FreeBits(s, e, w));
    if b.Last() < e {
      var rest := Decompose(b.Last() + 1, e, w);
      DecomposeTiles(b.Last() + 1, e, w);
      assert Decompose(s, e, w) == [b] + rest;
      assert ([b] + rest)[1..] == rest;
    }
  }

  ghost predicate Covered(bs: seq<Block>, v: int) {
    exists i :: 0 <= i < |bs| && bs[i].Has(v)
  }

  /** End-to-end blocks cover exactly [s, e], in ascending order and without overlap. */
  lemma {:induction false} TilesMeaning(bs: seq<Block>, s: nat, e: nat)
    requires Tiles(bs, s, e)
    ensures s <= e
    ensures forall i :: 0 <= i < |bs| ==> s <= bs[i].base && bs[i].Last() <= e
    ensures forall i, j :: 0 <= i < j < |bs| ==> bs[i].Last() < bs[j].base
    ensures forall v: int :: Covered(bs, v) <==> s <= v <= e
    decreases |bs|
  {
    if |bs| == 1 {
      assert forall v: int :: s <= v <= e ==> bs[0].Has(v);
    } else {
      var rest := bs[1..];
      var m := bs[0].Last() + 1;
      TilesMeaning(rest, m, e);
      assert forall i :: 1 <= i < |bs| ==> bs[i] == rest[i - 1];
      forall v: int
        ensures Covered(bs, v) <==> s <= v <= e
      {
        if s <= v <= e {
          if v < m {
            assert bs[0].Has(v);
          } else {
            assert Covered(rest, v);
            var i :| 0 <= i < |rest| && rest[i].Has(v);
            assert bs[i + 1].Has(v);
          }
        }
      }
    }
  }

  // ---- Minimality ----

  /** cover is made of aligned blocks and covers exactly [s, e]; its blocks may overlap. */
  ghost predicate ExactCover(cover: set<Block>, s: nat, e: nat) {
    && (forall c :: c in cover ==> c.Aligned() && s <= c.base && c.Last() <= e)
    && (forall v: int :: s <= v <= e ==> CoveredBy(cover, v))
  }

  ghost predicate CoveredBy(cover: set<Block>, v: int) {
    exists c :: c in cover && c.Has(v)
  }

  /** An aligned block inside [s, e] that meets the first greedy block lies inside it. */
  lemma FirstBlockAbsorbs(c: Block, s: nat, e: nat, w: nat)
    requires s <= e < Pow2(w)
    requires c.Aligned() && s <= c.base && c.Last() <= e
    requires c.base <= s + Pow2(FreeBits(s, e, w)) - 1
    ensures c.Last() <= s + Pow2(FreeBits(s, e, w)) - 1
  {
    FirstBlock(s, e, w);
    var k := FreeBits(s, e, w);
    Pow2Below(c.bits, w);
    if c.base == s {
      TrailingZerosExact(s, w, c.bits);
      if c.bits > k {
        if k + 1 < c.bits {
          Pow2Monotone(k + 1, c.bits);
        }
      } else if c.bits < k {
        Pow2Monotone(c.bits, k);
      }
    } else {
      if c.bits >= k {
        CoarserMultiple(c.base, k, c.bits);
        MultiplesApart(s, c.base, Pow2(k));
      }
      PowIsMultiple(c.bits, k);
      CoarserMultiple(s, c.bits, k);
      SumOfMultiples(s, Pow2(k), Pow2(c.bits));
      MultiplesApart(c.base, s + Pow2(k), Pow2(c.bits));
    }
  }

  /** The blocks that do not meet the first greedy block still cover the rest. */
  lemma RestIsCovered(cover: set<Block>, tail: set<Block>, s: nat, e: nat, w: nat)
    requires s <= e < Pow2(w) && ExactCover(cover, s, e)
    requires tail == set c | c in cover && c.base >= s + Pow2(FreeBits(s, e, w))
    ensures ExactCover(tail, s + Pow2(FreeBits(s, e, w)), e)
  {
    var m := s + Pow2(FreeBits(s, e, w));
    forall v: int | m <= v <= e
      ensures CoveredBy(tail, v)
    {
      assert CoveredBy(cover, v);
      var c :| c in cover && c.Has(v);
      if c.base < m {
        FirstBlockAbsorbs(c, s, e, w);
      }
      assert c in tail;
    }
  }

  lemma ProperSubset(a: set<Block>, b: set<Block>, x: Block)
    requires a <= b && x in b && x !in a
    ensures |a| + 1 <= |b|
  {
    assert |b - a| == |b| - |a|;
    assert |b - a - {x}| == |b - a| - 1;
  }

  /** The greedy list is a shortest list of prefixes that covers exactly [s, e]. */
  lemma {:induction false} DecomposeIsMinimal(cover: set<Block>, s: nat, e: nat, w: nat)
    requires s <= e < Pow2(w) && ExactCover(cover, s, e)
    ensures |Decompose(s, e, w)| <= |cover|
    decreases e - s
  {
    FirstBlock(s, e, w);
    var m := s + Pow2(FreeBits(s, e, w));
    var tail := set c | c in cover && c.base >= m;
    assert CoveredBy(cover, s);
    var first :| first in cover && first.Has(s);
    ProperSubset(tail, cover, first);
    if m <= e {
      RestIsCovered(cover, tail, s, e, w);
      DecomposeIsMinimal(tail, m, e, w);
    }
  }

  // ---- Every prefix length occurs at most twice ----

  function CountBits(bs: seq<Block>, k: nat): nat {
    if |bs| == 0 then 0 else (if bs[0].bits == k then 1 else 0) + CountBits(bs[1..], k)
  }

  lemma {:induction false} ShortRangeSmallBlocks(s: nat, e: nat, w: nat, k: nat)
    requires s <= e && e - s + 1 < Pow2(k)
    ensures CountBits(Decompose(s, e, w), k) == 0
    decreases e - s
  {
    var b := Block(s, FreeBits(s, e, w));
    if b.Last() < e {
      ShortRangeSmallBlocks(b.Last() + 1, e, w, k);
      assert Decompose(s, e, w)[1..] == Decompose(b.Last() + 1, e, w);
    }
  }

  /**
   Block sizes first grow, as long as alignment limits them, and then shrink. So a size
   occurs at most twice, and at most once if it is smaller than what s is aligned to.
   */
  lemma {:induction false} EachPrefixAtMostTwice(s: nat, e: nat, w: nat, k: nat)
    requires s <= e < Pow2(w)
    ensures CountBits(Decompose(s, e, w), k) <= 2
    ensures k < TrailingZeros(s, w) ==> CountBits(Decompose(s, e, w), k) <= 1
    decreases e - s
  {
    FirstBlock(s, e, w);
    var b := Block(s, FreeBits(s, e, w));
    var z := TrailingZeros(s, w);
    var d := Decompose(s, e, w);
    var n := b.Last() + 1;
    if n <= e {
      var rest := Decompose(n, e, w);
      assert d[0] == b && d[1..] == rest;
      EachPrefixAtMostTwice(n, e, w, k);
      TrailingZerosExact(s, w, b.bits);
      if b.bits == z {
        NextIsBetterAligned(s, w);
      } else {
        // the range itself limits the block, so everything after it is smaller
        PowIsMultiple(b.bits, b.bits);
        SumOfMultiples(s, Pow2(b.bits), Pow2(b.bits));
        TrailingZerosExact(n, w, b.bits);
        assert e - n + 1 < Pow2(b.bits);
        if k >= b.bits {
          if k > b.bits {
            Pow2Monotone(b.bits, k);
          }
          ShortRangeSmallBlocks(n, e, w, k);
        }
      }
    } else {
      assert d == [b];
      assert d[1..] == [];
    }
  }

  lemma RegroupTwice(p: nat, d: nat, h: nat)
    requires d == 2 * p
    ensures p * (2 * h) == d * h
  {
  }

  /** An odd multiple of p plus p is a multiple of d = 2p. */
  lemma OddPlusOne(s: nat, p: nat, d: nat)
    requires p > 0 && d == 2 * p && s % p == 0 && s % d != 0
    ensures (s + p) % d == 0
  {
    var q := s / p;
    var h := (q + 1) / 2;
    RegroupTwice(p, d, h);
    if q == 2 * h {
      MultipleIff(s, d, h);
    } else {
      assert s + p == p * (q + 1);
      MultipleIff(s + p, d, h);
    }
  }

  lemma NextIsBetterAligned(s: nat, w: nat)
    requires s + Pow2(TrailingZeros(s, w)) < Pow2(w)
    ensures TrailingZeros(s, w) < TrailingZeros(s + Pow2(TrailingZeros(s, w)), w)
  {
    var z := TrailingZeros(s, w);
    TrailingZerosExact(s, w, z);
    TrailingZerosExact(s, w, z + 1);
    OddPlusOne(s, Pow2(z), Pow2(z + 1));
    TrailingZerosExact(s + Pow2(z), w, z + 1);
  }

  /** The sum over all sizes below n of how often each occurs. */
  function CountBelow(bs: seq<Block>, n: nat): nat {
    if n == 0 then 0 else CountBits(bs, n - 1) + CountBelow(bs, n - 1)
  }

  lemma {:induction false} CountBelowCons(b: Block, bs: seq<Block>, n: nat)
    ensures CountBelow([b] + bs, n) == CountBelow(bs, n) + if b.bits < n then 1 else 0
  {
    if n > 0 {
      CountBelowCons(b, bs, n - 1);
      assert ([b] + bs)[1..] == bs;
    }
  }

  lemma {:induction false} CountBelowIsLength(bs: seq<Block>, n: nat)
    requires forall i :: 0 <= i < |bs| ==> bs[i].bits < n
    ensures CountBelow(bs, n) == |bs|
    decreases |bs|
  {
    if |bs| == 0 {
      EmptyCountBelow(n);
    } else {
      CountBelowIsLength(bs[1..], n);
      CountBelowCons(bs[0], bs[1..], n);
      assert [bs[0]] + bs[1..] == bs;
    }
  }

  lemma {:induction false} EmptyCountBelow(n: nat)
    ensures CountBelow([], n) == 0
  {
    if n > 0 {
      EmptyCountBelow(n - 1);
    }
  }

  lemma {:induction false} CountBelowBound(s: nat, e: nat, w: nat, n: nat)
    requires s <= e < Pow2(w)
    ensures CountBelow(Decompose(s, e, w), n) <= 2 * n
  {
    if n > 0 {
      CountBelowBound(s, e, w, n - 1);
      EachPrefixAtMostTwice(s, e, w, n - 1);
    }
  }

  /** A w-bit range never needs more than 2w prefixes (one if w is 0). */
  lemma AtMostTwoPerBit(s: nat, e: nat, w: nat)
    requires s <= e < Pow2(w)
    ensures |Decompose(s, e, w)| == 1 || |Decompose(s, e, w)| <= 2 * w
  {
    if e - s + 1 == Pow2(w) {
      TrailingZerosExact(0, w, w);
    } else {
      SmallBlocks(s, e, w);
      CountBelowIsLength(Decompose(s, e, w), w);
      CountBelowBound(s, e, w, w);
    }
  }

  lemma SmallBlocks(s: nat, e: nat, w: nat)
    requires s <= e < Pow2(w) && e - s + 1 < Pow2(w)
    ensures forall b :: b in Decompose(s, e, w) ==> b.bits < w
  {
    var d := Decompose(s, e, w);
    DecomposeTiles(s, e, w);
    TilesMeaning(d, s, e);
    forall i | 0 <= i < |d|
      ensures d[i].bits < w
    {
      Pow2Below(d[i].bits, w);
    }
  }
}
