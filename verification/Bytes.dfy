/**
 Big-endian byte strings of any width and the numbers they stand for.

 The functions here are what the loops of IpAddress and IpRange compute; each one is tied
 to plain arithmetic on Val.
 */
module Bytes {
  import opened Powers
  import Cidr = CidrBlocks

  newtype byte = x: int | 0 <= x < 256

  function Width(b: seq<byte>): nat { 8 * |b| }

  function Val(b: seq<byte>): nat {
    if b == [] then 0 else 256 * Val(b[..|b| - 1]) + b[|b| - 1] as nat
  }

  predicate AllZero(b: seq<byte>) { forall i :: 0 <= i < |b| ==> b[i] == 0 }

  predicate AllOnes(b: seq<byte>) { forall i :: 0 <= i < |b| ==> b[i] == 0xff }

  function Fill(n: nat, x: byte): (r: seq<byte>)
    ensures |r| == n && forall i :: 0 <= i < n ==> r[i] == x
  {
    seq(n, i => x)
  }

  lemma Pow2Eight(n: nat)
    ensures Pow2(n + 8) == 256 * Pow2(n)
  {
    Pow2Add(n, 8);
    assert Pow2(8) == 256;
  }

  lemma {:induction false} ValBound(b: seq<byte>)
    ensures Val(b) < Pow2(Width(b))
    decreases |b|
  {
    if b != [] {
      ValBound(b[..|b| - 1]);
      Pow2Eight(Width(b[..|b| - 1]));
    }
  }

  /** A byte string is determined by its width and its value. */
  lemma {:induction false} ValInjective(a: seq<byte>, b: seq<byte>)
    requires |a| == |b| && Val(a) == Val(b)
    ensures a == b
    decreases |a|
  {
    if a != [] {
      var n := |a| - 1;
      assert a[n] as nat < 256 && b[n] as nat < 256;
      ValInjective(a[..n], b[..n]);
      assert a == a[..n] + [a[n]] && b == b[..n] + [b[n]];
    }
  }

  lemma Regroup(v: nat, p: nat, q: nat, x: nat, t: nat)
    requires q == 256 * p
    ensures 256 * (v * p + x) + t == v * q + (256 * x + t)
  {
    assert v * q == v * (256 * p) == 256 * (v * p);
  }

  /** The byte string of width n with a given value. */
  ghost function FromVal(n: nat, v: nat): (b: seq<byte>)
    requires v < Pow2(8 * n)
    ensures |b| == n && Val(b) == v
  {
    if n == 0 then []
    else
      Pow2Eight(8 * (n - 1));
      FromVal(n - 1, v / 256) + [(v % 256) as byte]
  }

  lemma {:induction false} ValConcat(a: seq<byte>, b: seq<byte>)
    ensures Val(a + b) == Val(a) * Pow2(Width(b)) + Val(b)
    decreases |b|
  {
    if b == [] {
      assert a + b == a;
    } else {
      var n := |b| - 1;
      var c := b[..n];
      ValConcat(a, c);
      assert (a + b)[..|a + b| - 1] == a + c;
      Pow2Eight(Width(c));
      Regroup(Val(a), Pow2(Width(c)), Pow2(Width(b)), Val(c), b[n] as nat);
    }
  }

  lemma {:induction false} ZerosAndOnes(b: seq<byte>)
    ensures AllZero(b) <==> Val(b) == 0
    ensures AllOnes(b) <==> Val(b) == Pow2(Width(b)) - 1
    decreases |b|
  {
    if b != [] {
      var n := |b| - 1;
      ZerosAndOnes(b[..n]);
      ValBound(b[..n]);
      Pow2Eight(Width(b[..n]));
      assert b == b[..n] + [b[n]];
      assert AllZero(b) <==> AllZero(b[..n]) && b[n] as nat == 0;
      assert AllOnes(b) <==> AllOnes(b[..n]) && b[n] as nat == 255;
    }
  }

  // ---- Comparison ----

  /** Kotlin's compareTo: shorter addresses first, then the first byte that differs. */
  function Compare(a: seq<byte>, b: seq<byte>): int {
    if |a| != |b| then |a| - |b| else CompareFrom(a, b, 0)
  }

  function CompareFrom(a: seq<byte>, b: seq<byte>, i: nat): int
    requires |a| == |b| && i <= |a|
    decreases |a| - i
  {
    if i == |a| then 0
    else if a[i] != b[i] then a[i] as int - b[i] as int
    else CompareFrom(a, b, i + 1)
  }

  predicate Less(a: seq<byte>, b: seq<byte>) { Compare(a, b) < 0 }

  predicate AtMost(a: seq<byte>, b: seq<byte>) { Compare(a, b) <= 0 }

  lemma Lexicographic(p: nat, x: nat, u: nat, y: nat, v: nat)
    requires u < p && v < p && x < y
    ensures x * p + u < y * p + v
  {
    MulMonotone(p, x + 1, y);
    assert p * (x + 1) == p * x + p;
  }

  lemma {:induction false} CompareFromIsNumeric(a: seq<byte>, b: seq<byte>, i: nat)
    requires |a| == |b| && i <= |a|
    ensures CompareFrom(a, b, i) < 0 <==> Val(a[i..]) < Val(b[i..])
    ensures CompareFrom(a, b, i) > 0 <==> Val(a[i..]) > Val(b[i..])
    decreases |a| - i
  {
    if i < |a| {
      CompareFromIsNumeric(a, b, i + 1);
      var p := Pow2(Width(a[i + 1..]));
      LeadingByte(a, i);
      LeadingByte(b, i);
      ValBound(a[i + 1..]);
      ValBound(b[i + 1..]);
      if a[i] < b[i] {
        Lexicographic(p, a[i] as nat, Val(a[i + 1..]), b[i] as nat, Val(b[i + 1..]));
      } else if b[i] < a[i] {
        Lexicographic(p, b[i] as nat, Val(b[i + 1..]), a[i] as nat, Val(a[i + 1..]));
      }
    }
  }

  lemma LeadingByte(a: seq<byte>, i: nat)
    requires i < |a|
    ensures Val(a[i..]) == (a[i] as nat) * Pow2(Width(a[i + 1..])) + Val(a[i + 1..])
  {
    var head := [a[i]];
    assert a[i..] == head + a[i + 1..];
    ValConcat(head, a[i + 1..]);
    assert Val(head) == a[i] as nat by {
      assert Val(head[..0]) == 0;
    }
  }

  /** Addresses are ordered by family first and by numeric value inside a family. */
  lemma CompareIsNumeric(a: seq<byte>, b: seq<byte>)
    ensures Compare(a, b) < 0 <==> |a| < |b| || (|a| == |b| && Val(a) < Val(b))
    ensures Compare(a, b) == 0 <==> a == b
    ensures Compare(a, b) > 0 <==> |a| > |b| || (|a| == |b| && Val(a) > Val(b))
  {
    if |a| == |b| {
      CompareFromIsNumeric(a, b, 0);
      assert a[0..] == a && b[0..] == b;
      if Val(a) == Val(b) {
        ValInjective(a, b);
      }
    }
  }

  // ---- Increment and decrement ----

  /** Adding one to an unsigned byte wraps around. */
  function Succ(x: byte): byte { if x == 0xff then 0 else x + 1 }

  function Pred(x: byte): byte { if x == 0 then 0xff else x - 1 }

  function Increment(b: seq<byte>): (r: seq<byte>)
    requires !AllOnes(b)
    ensures |r| == |b| && Val(r) == Val(b) + 1
    decreases |b|
  {
    var n := |b| - 1;
    if b[n] != 0xff then
      b[..n] + [Succ(b[n])]
    else
      assert b == b[..n] + [b[n]];
      Increment(b[..n]) + [0]
  }

  function Decrement(b: seq<byte>): (r: seq<byte>)
    requires !AllZero(b)
    ensures |r| == |b| && Val(r) == Val(b) - 1
    decreases |b|
  {
    var n := |b| - 1;
    if b[n] != 0 then
      b[..n] + [Pred(b[n])]
    else
      assert b == b[..n] + [b[n]];
      Decrement(b[..n]) + [0xff]
  }

  /** The carry runs through the 0xff bytes at the end and stops at the byte before them. */
  lemma {:induction false} IncrementCarry(b: seq<byte>, i: nat)
    requires i < |b| && b[i] != 0xff
    requires forall k :: i < k < |b| ==> b[k] == 0xff
    ensures Increment(b)[..i] == b[..i] && Increment(b)[i] == Succ(b[i])
    ensures forall k :: i < k < |b| ==> Increment(b)[k] == 0
    decreases |b|
  {
    var n := |b| - 1;
    if i < n {
      var c := b[..n];
      IncrementCarry(c, i);
      assert Increment(b) == Increment(c) + [0];
      assert c[..i] == b[..i];
    }
  }

  lemma {:induction false} DecrementBorrow(b: seq<byte>, i: nat)
    requires i < |b| && b[i] != 0
    requires forall k :: i < k < |b| ==> b[k] == 0
    ensures Decrement(b)[..i] == b[..i] && Decrement(b)[i] == Pred(b[i])
    ensures forall k :: i < k < |b| ==> Decrement(b)[k] == 0xff
    decreases |b|
  {
    var n := |b| - 1;
    if i < n {
      var c := b[..n];
      DecrementBorrow(c, i);
      assert Decrement(b) == Decrement(c) + [0xff];
      assert c[..i] == b[..i];
    }
  }

  /** inc and dec undo each other wherever they are defined. */
  lemma IncrementDecrement(b: seq<byte>)
    ensures !AllOnes(b) ==> !AllZero(Increment(b)) && Decrement(Increment(b)) == b
    ensures !AllZero(b) ==> !AllOnes(Decrement(b)) && Increment(Decrement(b)) == b
  {
    if !AllOnes(b) {
      ZerosAndOnes(Increment(b));
      ValInjective(Decrement(Increment(b)), b);
    }
    if !AllZero(b) {
      ZerosAndOnes(Decrement(b));
      ValBound(b);
      ValInjective(Increment(Decrement(b)), b);
    }
  }

  // ---- Bits ----

  /** Bitwise and, digit by digit. */
  function BitAnd(x: nat, y: nat): (r: nat)
    ensures r <= x && r <= y
  {
    if x == 0 || y == 0 then 0
    else (if x % 2 == 1 && y % 2 == 1 then 1 else 0) + 2 * BitAnd(x / 2, y / 2)
  }

  /** Bitwise or, digit by digit. */
  function BitOr(x: nat, y: nat): nat {
    if x == 0 then y
    else if y == 0 then x
    else (if x % 2 == 1 || y % 2 == 1 then 1 else 0) + 2 * BitOr(x / 2, y / 2)
  }

  lemma {:induction false} BitOrBound(x: nat, y: nat, w: nat)
    requires x < Pow2(w) && y < Pow2(w)
    ensures BitOr(x, y) < Pow2(w)
  {
    if x != 0 && y != 0 {
      BitOrBound(x / 2, y / 2, w - 1);
    }
  }

  function And(x: byte, y: byte): byte { BitAnd(x as nat, y as nat) as byte }

  function Or(x: byte, y: byte): byte {
    assert Pow2(8) == 256;
    BitOrBound(x as nat, y as nat, 8);
    BitOr(x as nat, y as nat) as byte
  }

  function Inv(x: byte): byte { 255 - x }

  /** Kotlin's (0xffu shl t).toUByte(): shifted left, cut down to the low byte. */
  function HighMask(t: nat): byte { ((255 * Pow2(t)) % 256) as byte }

  lemma AndEven(x: nat, h: nat)
    ensures BitAnd(x, 2 * h) == 2 * BitAnd(x / 2, h)
  {
    assert (2 * h) % 2 == 0 && (2 * h) / 2 == h;
  }

  lemma AndOdd(x: nat, h: nat)
    ensures BitAnd(x, 2 * h + 1) == x % 2 + 2 * BitAnd(x / 2, h)
  {
  }

  lemma OrOdd(x: nat, h: nat)
    ensures BitOr(x, 2 * h + 1) == 1 + 2 * BitOr(x / 2, h)
  {
  }

  lemma FloorZero(x: nat)
    ensures Pow2(0) == 1 && Floor(x, 0) == x
  {
  }

  lemma {:induction false} AndAllBits(x: nat, w: nat)
    requires x < Pow2(w)
    ensures BitAnd(x, Pow2(w) - 1) == x
    decreases w
  {
    if w > 0 {
      AndAllBits(x / 2, w - 1);
      AndOdd(x, Pow2(w - 1) - 1);
    }
  }

  lemma {:induction false} AndHighBits(x: nat, t: nat, w: nat)
    requires t <= w && x < Pow2(w)
    ensures Pow2(t) <= Pow2(w) && BitAnd(x, Pow2(w) - Pow2(t)) == Floor(x, t)
    decreases w
  {
    if t == 0 {
      FloorZero(x);
      AndAllBits(x, w);
    } else {
      AndHighBits(x / 2, t - 1, w - 1);
      AndEven(x, Pow2(w - 1) - Pow2(t - 1));
      FloorHalf(x, t);
    }
  }

  lemma FloorHalf(x: nat, t: nat)
    requires t > 0
    ensures Floor(x, t) == 2 * Floor(x / 2, t - 1)
  {
    RoundHalf(x, Pow2(t - 1), Pow2(t));
  }

  lemma RoundHalf(x: nat, d: nat, e: nat)
    requires d > 0 && e == 2 * d
    ensures x % e == 2 * ((x / 2) % d) + x % 2
  {
    var h := x / 2;
    assert h == d * (h / d) + h % d;
    assert e * (h / d) == 2 * (d * (h / d));
    DivModUnique(x, e, h / d, 2 * (h % d) + x % 2);
  }

  lemma OrLowStep(x: nat, h: nat, m: nat, f: int)
    requires m == 2 * h + 1 && BitOr(x / 2, h) == f + h
    ensures BitOr(x, m) == 2 * f + m
  {
    OrOdd(x, h);
  }

  lemma {:induction false} OrLowBits(x: nat, t: nat)
    ensures BitOr(x, Pow2(t) - 1) == Floor(x, t) + Pow2(t) - 1
  {
    if t == 0 {
      FloorZero(x);
    } else {
      OrLowBits(x / 2, t - 1);
      OrLowStep(x, Pow2(t - 1) - 1, Pow2(t) - 1, Floor(x / 2, t - 1));
      FloorHalf(x, t);
    }
  }

  lemma HighMaskValue(t: nat)
    ensures t <= 8 ==> HighMask(t) as nat == 256 - Pow2(t)
    ensures t >= 8 ==> HighMask(t) == 0
  {
    assert Pow2(8) == 256;
    if t <= 8 {
      if t < 8 {
        Pow2Monotone(t, 8);
      }
      DivModUnique(255 * Pow2(t), 256, Pow2(t) - 1, 256 - Pow2(t));
    }
    if t >= 8 {
      PowIsMultiple(8, t);
      MultipleIff(255 * Pow2(t), 256, 255 * (Pow2(t) / 256));
    }
  }

  lemma MaskClears(x: byte, t: nat)
    requires t <= 8
    ensures And(x, HighMask(t)) as nat == Floor(x as nat, t)
  {
    HighMaskValue(t);
    assert Pow2(8) == 256;
    AndHighBits(x as nat, t, 8);
  }

  lemma MaskSets(x: byte, t: nat)
    requires t <= 8
    ensures Or(x, Inv(HighMask(t))) as nat == Floor(x as nat, t) + Pow2(t) - 1
  {
    HighMaskValue(t);
    OrLowBits(x as nat, t);
  }

  /** Masking with the high mask clears, and or-ing its inverse sets, the t low bits of x. */
  lemma MaskIsArithmetic(x: byte, t: nat)
    requires t <= 8
    ensures And(x, HighMask(t)) as nat == Floor(x as nat, t)
    ensures Or(x, Inv(HighMask(t))) as nat == Floor(x as nat, t) + Pow2(t) - 1
  {
    MaskClears(x, t);
    MaskSets(x, t);
  }

  lemma OrAllOnes(x: byte)
    ensures Or(x, 0xff) == 0xff
  {
    assert Pow2(8) == 256;
    OrLowBits(x as nat, 8);
  }

  /** Kotlin's UByte.countTrailingZeroBits, which is 8 for zero. */
  function CountTrailingZeroBits(x: byte): nat {
    Cidr.TrailingZeros(x as nat, 8)
  }

  /** The zero bits at the end of a byte string. */
  function TrailingZeroBits(b: seq<byte>): nat
    decreases |b|
  {
    if b == [] then 0
    else
      var k := CountTrailingZeroBits(b[|b| - 1]);
      if k == 8 then 8 + TrailingZeroBits(b[..|b| - 1]) else k
  }

  lemma {:induction false} TrailingZerosSplit(p: nat, x: nat, j: nat, w: nat)
    requires x < Pow2(j)
    ensures Cidr.TrailingZeros(Pow2(j) * p + x, w + j)
         == if x == 0 then j + Cidr.TrailingZeros(p, w) else Cidr.TrailingZeros(x, j)
  {
    if j > 0 {
      var h := Pow2(j - 1) * p;
      assert Pow2(j) * p == 2 * h;
      assert (2 * h + x) / 2 == h + x / 2 && (2 * h + x) % 2 == x % 2;
      TrailingZerosSplit(p, x / 2, j - 1, w);
    }
  }

  lemma {:induction false} TrailingZeroBitsIsNumeric(b: seq<byte>)
    ensures TrailingZeroBits(b) == Cidr.TrailingZeros(Val(b), Width(b))
    decreases |b|
  {
    if b != [] {
      var c, x := b[..|b| - 1], b[|b| - 1] as nat;
      TrailingZeroBitsIsNumeric(c);
      assert Pow2(8) == 256;
      TrailingZerosSplit(Val(c), x, 8, Width(c));
      AllZeroByte(x);
    }
  }

  lemma AllZeroByte(x: nat)
    requires x < 256
    ensures Cidr.TrailingZeros(x, 8) == 8 <==> x == 0
  {
    assert Pow2(8) == 256;
    Cidr.TrailingZerosExact(x, 8, 8);
  }

  /** b with its r low bits cleared. */
  function ClearLow(b: seq<byte>, r: nat): (c: seq<byte>)
    requires r <= Width(b)
    ensures |c| == |b|
    decreases |b|
  {
    var n := |b| - 1;
    if r == 0 then b
    else if r > 8 then ClearLow(b[..n], r - 8) + [0]
    else b[..n] + [And(b[n], HighMask(r))]
  }

  /** b with its r low bits set. */
  function SetLow(b: seq<byte>, r: nat): (c: seq<byte>)
    requires r <= Width(b)
    ensures |c| == |b|
    decreases |b|
  {
    var n := |b| - 1;
    if r == 0 then b
    else if r > 8 then SetLow(b[..n], r - 8) + [0xff]
    else b[..n] + [Or(b[n], Inv(HighMask(r)))]
  }

  lemma ValPush(b: seq<byte>, x: byte)
    ensures Val(b + [x]) == 256 * Val(b) + x as nat
  {
    assert (b + [x])[..|b + [x]| - 1] == b;
  }

  lemma ClearLowValue(b: seq<byte>, r: nat)
    requires 0 < r <= Width(b)
    ensures var n := |b| - 1;
            Val(ClearLow(b, r)) == if r > 8 then 256 * Val(ClearLow(b[..n], r - 8))
                                   else 256 * Val(b[..n]) + And(b[n], HighMask(r)) as nat
  {
    var n := |b| - 1;
    if r > 8 {
      ValPush(ClearLow(b[..n], r - 8), 0);
    } else {
      ValPush(b[..n], And(b[n], HighMask(r)));
    }
  }

  lemma SetLowValue(b: seq<byte>, r: nat)
    requires 0 < r <= Width(b)
    ensures var n := |b| - 1;
            Val(SetLow(b, r)) == if r > 8 then 256 * Val(SetLow(b[..n], r - 8)) + 255
                                 else 256 * Val(b[..n]) + Or(b[n], Inv(HighMask(r))) as nat
  {
    var n := |b| - 1;
    if r > 8 {
      ValPush(SetLow(b[..n], r - 8), 0xff);
    } else {
      ValPush(b[..n], Or(b[n], Inv(HighMask(r))));
    }
  }

  lemma {:induction false} ClearLowIsFloor(b: seq<byte>, r: nat)
    requires r <= Width(b)
    ensures Val(ClearLow(b, r)) == Floor(Val(b), r)
    decreases |b|
  {
    if r == 0 {
      FloorZero(Val(b));
    } else {
      var c, x := b[..|b| - 1], b[|b| - 1];
      ClearLowValue(b, r);
      FloorSplit(Val(c), x as nat, r);
      if r > 8 {
        ClearLowIsFloor(c, r - 8);
      } else {
        MaskIsArithmetic(x, r);
      }
    }
  }

  lemma MaskGap(x: byte, t: nat)
    requires t <= 8
    ensures Or(x, Inv(HighMask(t))) as nat == And(x, HighMask(t)) as nat + Pow2(t) - 1
  {
    MaskIsArithmetic(x, t);
  }

  /** From the first address of a block to its last. */
  lemma {:induction false} SetLowAboveClearLow(b: seq<byte>, r: nat)
    requires r <= Width(b)
    ensures Val(SetLow(b, r)) == Val(ClearLow(b, r)) + Pow2(r) - 1
    decreases |b|
  {
    if r > 0 {
      SetLowValue(b, r);
      ClearLowValue(b, r);
      if r > 8 {
        Pow2Eight(r - 8);
        SetLowAboveClearLow(b[..|b| - 1], r - 8);
      } else {
        MaskGap(b[|b| - 1], r);
      }
    }
  }

  lemma SetLowIsFloor(b: seq<byte>, r: nat)
    requires r <= Width(b)
    ensures Val(SetLow(b, r)) == Floor(Val(b), r) + Pow2(r) - 1
  {
    ClearLowIsFloor(b, r);
    SetLowAboveClearLow(b, r);
  }
}
