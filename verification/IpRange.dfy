/**
 IpRange.kt: inclusive address ranges, their union, difference and CIDR decomposition.

 A range's two addresses are never written after it is built, so a range holds their bytes.
 */
module IpRanges {
  import opened Outcomes
  import opened Powers
  import opened Bytes
  import opened IpAddresses
  import Cidr = CidrBlocks

  /** InetNetwork.kt: a data class, equal when address bytes and mask are equal. */
  datatype InetNetwork = InetNetwork(address: seq<byte>, mask: int)
  {
    function IsIpv4(): bool { |address| == 4 }
  }

  datatype RawRange = IpRange(start: seq<byte>, end: seq<byte>)
  {
    ghost predicate Valid() { |start| == |end| && Lo() <= Hi() }

    ghost function Size(): nat { |start| }
    ghost function Lo(): nat { Val(start) }
    ghost function Hi(): nat { Val(end) }

    /** The address a lies in the range. */
    ghost predicate Has(a: seq<byte>) { |a| == Size() && Lo() <= Val(a) <= Hi() }

    ghost function Addresses(): iset<seq<byte>> { iset a | Has(a) }
  }

  type IpRange = r: RawRange | r.Valid() witness IpRange([], [])

  /** The constructor's checks. */
  function Create(start: seq<byte>, end: seq<byte>): (r: Result<IpRange>)
    ensures r.Success? <==> |start| == |end| && Val(start) <= Val(end)
    ensures r.Success? ==> r.value.start == start && r.value.end == end
  {
    CompareIsNumeric(start, end);
    if |start| != |end| then Result<IpRange>.Failure("Unable to create a range between IPv4 and IPv6 addresses")
    else if !AtMost(start, end) then Result<IpRange>.Failure("Start IP is greater then end IP")
    else Success(RawRange.IpRange(start, end))
  }

  /** The range lies inside other (the Kotlin operator `in`). */
  predicate Within(r: IpRange, other: IpRange) {
    AtMost(other.start, r.start) && !Less(other.end, r.end)
  }

  predicate IsIntersect(r: IpRange, other: IpRange) {
    AtMost(r.start, other.end) && !Less(r.end, other.start)
  }

  function MinOf(a: seq<byte>, b: seq<byte>): seq<byte> { if AtMost(a, b) then a else b }

  function MaxOf(a: seq<byte>, b: seq<byte>): seq<byte> { if Less(a, b) then b else a }

  /** The two ranges overlap or are adjacent. */
  ghost predicate Touch(r: IpRange, other: IpRange) {
    r.Size() == other.Size() && r.Lo() <= other.Hi() + 1 && other.Lo() <= r.Hi() + 1
  }

  lemma OrderFacts(r: IpRange, other: IpRange)
    ensures Less(other.end, r.start) <==> other.Size() < r.Size() || (r.Size() == other.Size() && other.Hi() < r.Lo())
    ensures Less(r.end, other.start) <==> r.Size() < other.Size() || (r.Size() == other.Size() && r.Hi() < other.Lo())
    ensures Less(r.start, other.start) <==> r.Size() < other.Size() || (r.Size() == other.Size() && r.Lo() < other.Lo())
    ensures Less(other.end, r.end) <==> other.Size() < r.Size() || (r.Size() == other.Size() && other.Hi() < r.Hi())
    ensures IsIntersect(r, other) <==> r.Size() == other.Size() && r.Lo() <= other.Hi() && other.Lo() <= r.Hi()
    ensures Within(r, other) <==> r.Size() == other.Size() && other.Lo() <= r.Lo() && r.Hi() <= other.Hi()
  {
    CompareIsNumeric(other.end, r.start);
    CompareIsNumeric(r.start, other.end);
    CompareIsNumeric(r.end, other.start);
    CompareIsNumeric(r.start, other.start);
    CompareIsNumeric(other.start, r.start);
    CompareIsNumeric(other.end, r.end);
  }

  /** Union: absent exactly when the union is not one range. */
  function Plus(r: IpRange, other: IpRange): (u: Option<IpRange>)
    ensures u.Some? <==> Touch(r, other)
    ensures u.Some? ==> u.value.Size() == r.Size()
    ensures u.Some? ==> u.value.Lo() == if r.Lo() <= other.Lo() then r.Lo() else other.Lo()
    ensures u.Some? ==> u.value.Hi() == if r.Hi() >= other.Hi() then r.Hi() else other.Hi()
  {
    OrderFacts(r, other);
    if Less(other.end, r.start) && !AllZero(r.start) && Decrement(r.start) == other.end then
      Some(RawRange.IpRange(other.start, r.end))
    else if Less(r.end, other.start) && !AllOnes(r.end) && Increment(r.end) == other.start then
      Some(RawRange.IpRange(r.start, other.end))
    else
      NotAdjacent(r, other);
      if !IsIntersect(r, other) then None
      else
        MinMax(r, other);
        Some(RawRange.IpRange(MinOf(r.start, other.start), MaxOf(r.end, other.end)))
  }

  lemma MinMax(r: IpRange, other: IpRange)
    requires IsIntersect(r, other)
    ensures var u := RawRange.IpRange(MinOf(r.start, other.start), MaxOf(r.end, other.end));
            && u.Valid() && u.Size() == r.Size()
            && u.Lo() == (if r.Lo() <= other.Lo() then r.Lo() else other.Lo())
            && u.Hi() == (if r.Hi() >= other.Hi() then r.Hi() else other.Hi())
  {
    OrderFacts(r, other);
    CompareIsNumeric(r.start, other.start);
    CompareIsNumeric(r.end, other.end);
  }

  lemma NotAdjacent(r: IpRange, other: IpRange)
    requires !(Less(other.end, r.start) && !AllZero(r.start) && Decrement(r.start) == other.end)
    requires !(Less(r.end, other.start) && !AllOnes(r.end) && Increment(r.end) == other.start)
    ensures Touch(r, other) <==> IsIntersect(r, other)
  {
    OrderFacts(r, other);
    ValBound(other.start);
    if r.Size() == other.Size() && other.Hi() + 1 == r.Lo() {
      ZerosAndOnes(r.start);
      ValInjective(Decrement(r.start), other.end);
    }
    if r.Size() == other.Size() && r.Hi() + 1 == other.Lo() {
      ZerosAndOnes(r.end);
      ValInjective(Increment(r.end), other.start);
    }
  }

  /** Difference: absent when the ranges do not meet, else what is left on each side. */
  function Minus(r: IpRange, other: IpRange): (d: Option<seq<IpRange>>)
    ensures d.None? <==> !IsIntersect(r, other)
    ensures d.Some? ==> |d.value| == (if r.Lo() < other.Lo() then 1 else 0) + (if other.Hi() < r.Hi() then 1 else 0)
    ensures d.Some? && r.Lo() < other.Lo() ==>
              d.value[0].Size() == r.Size() && d.value[0].Lo() == r.Lo() && d.value[0].Hi() == other.Lo() - 1
    ensures d.Some? && other.Hi() < r.Hi() ==>
              var last := d.value[|d.value| - 1];
              last.Size() == r.Size() && last.Lo() == other.Hi() + 1 && last.Hi() == r.Hi()
  {
    OrderFacts(r, other);
    if Within(r, other) then Some([])
    else if !IsIntersect(r, other) then None
    else
      var left := if Less(r.start, other.start) then [LeftPart(r, other)] else [];
      var right := if Less(other.end, r.end) then [RightPart(r, other)] else [];
      Some(left + right)
  }

  function LeftPart(r: IpRange, other: IpRange): (p: IpRange)
    requires IsIntersect(r, other) && Less(r.start, other.start)
    ensures p.Size() == r.Size() && p.Lo() == r.Lo() && p.Hi() == other.Lo() - 1
  {
    OrderFacts(r, other);
    ZerosAndOnes(other.start);
    RawRange.IpRange(r.start, Decrement(other.start))
  }

  function RightPart(r: IpRange, other: IpRange): (p: IpRange)
    requires IsIntersect(r, other) && Less(other.end, r.end)
    ensures p.Size() == r.Size() && p.Lo() == other.Hi() + 1 && p.Hi() == r.Hi()
  {
    OrderFacts(r, other);
    ValBound(r.end);
    ZerosAndOnes(other.end);
    RawRange.IpRange(Increment(other.end), r.end)
  }

  /** Kotlin's compareTo on ranges: by start, then by end. */
  function CompareRanges(r: IpRange, other: IpRange): int {
    var d := Compare(r.start, other.start);
    if d == 0 then Compare(r.end, other.end) else d
  }

  /** Ranges are ordered by family, then by start, then by end; equal is identical. */
  lemma CompareRangesExactly(r: IpRange, other: IpRange)
    ensures CompareRanges(r, other) < 0
       <==> || r.Size() < other.Size()
            || (r.Size() == other.Size() && (r.Lo() < other.Lo() || (r.Lo() == other.Lo() && r.Hi() < other.Hi())))
    ensures CompareRanges(r, other) == 0 <==> r == other
  {
    CompareIsNumeric(r.start, other.start);
    CompareIsNumeric(r.end, other.end);
  }

  lemma RangeInjective(r: IpRange, other: IpRange)
    requires r.Size() == other.Size() && r.Lo() == other.Lo() && r.Hi() == other.Hi()
    ensures r == other
  {
    ValInjective(r.start, other.start);
    ValInjective(r.end, other.end);
  }

  // ---- Networks to ranges ----

  /** How many low bits a mask leaves free; masks beyond the width leave none. */
  function FreeBits(n: InetNetwork): (h: nat)
    ensures h <= Width(n.address)
  {
    if n.mask >= Width(n.address) then 0
    else if n.mask < 0 then Width(n.address)
    else Width(n.address) - n.mask
  }

  /** The block of addresses that a network stands for. */
  function RangeOf(n: InetNetwork): (r: IpRange)
    ensures r.Size() == |n.address|
  {
    var h := FreeBits(n);
    ClearLowIsFloor(n.address, h);
    SetLowIsFloor(n.address, h);
    RawRange.IpRange(ClearLow(n.address, h), SetLow(n.address, h))
  }

  /** It is the aligned block of 2^FreeBits addresses that contains the network's address. */
  lemma RangeIsBlock(n: InetNetwork)
    ensures RangeOf(n).Lo() == Floor(Val(n.address), FreeBits(n))
    ensures RangeOf(n).Hi() == Floor(Val(n.address), FreeBits(n)) + Pow2(FreeBits(n)) - 1
    ensures RangeOf(n).Lo() % Pow2(FreeBits(n)) == 0 && RangeOf(n).Has(n.address)
  {
    ClearLowIsFloor(n.address, FreeBits(n));
    SetLowIsFloor(n.address, FreeBits(n));
    FloorIsMultiple(Val(n.address), FreeBits(n));
  }

  /** Kotlin's integer division and remainder truncate toward zero. */
  function TruncDiv(a: int, d: nat): int
    requires d > 0
  {
    if a >= 0 then a / d else -((-a) / d)
  }

  function TruncRem(a: int, d: nat): int
    requires d > 0
  {
    a - d * TruncDiv(a, d)
  }

  /** Byte i is where clearing stops; every byte after it is 0. */
  lemma {:induction false} ClearLowBytes(b: seq<byte>, i: nat, t: nat)
    requires i < |b| && 1 <= t <= 8
    ensures var c := ClearLow(b, 8 * (|b| - i - 1) + t);
            && c[..i] == b[..i] && c[i] == And(b[i], HighMask(t))
            && forall k :: i < k < |b| ==> c[k] == 0
    decreases |b|
  {
    var n := |b| - 1;
    if i < n {
      var r := 8 * (n - i) + t;
      ClearLowBytes(b[..n], i, t);
      assert ClearLow(b, r) == ClearLow(b[..n], r - 8) + [0];
      assert b[..n][..i] == b[..i];
    }
  }

  /** Byte i is where setting stops; every byte after it is 0xff. */
  lemma {:induction false} SetLowBytes(b: seq<byte>, i: nat, t: nat)
    requires i < |b| && 1 <= t <= 8
    ensures var c := SetLow(b, 8 * (|b| - i - 1) + t);
            && c[..i] == b[..i] && c[i] == Or(b[i], Inv(HighMask(t)))
            && forall k :: i < k < |b| ==> c[k] == 0xff
    decreases |b|
  {
    var n := |b| - 1;
    if i < n {
      var r := 8 * (n - i) + t;
      SetLowBytes(b[..n], i, t);
      assert SetLow(b, r) == SetLow(b[..n], r - 8) + [0xff];
      assert b[..n][..i] == b[..i];
    }
  }

  lemma ClearLowShape(b: seq<byte>, i: nat, t: nat)
    requires i < |b| && 1 <= t <= 8
    ensures ClearLow(b, 8 * (|b| - i - 1) + t) == b[..i] + [And(b[i], HighMask(t))] + Bytes.Fill(|b| - i - 1, 0)
  {
    ClearLowBytes(b, i, t);
  }

  lemma SetLowShape(b: seq<byte>, i: nat, t: nat)
    requires i < |b| && 1 <= t <= 8
    ensures SetLow(b, 8 * (|b| - i - 1) + t) == b[..i] + [Or(b[i], Inv(HighMask(t)))] + Bytes.Fill(|b| - i - 1, 0xff)
  {
    SetLowBytes(b, i, t);
  }

  /** IpRange(inetNetwork): the two addresses are built byte by byte, from the front. */
  method From(n: InetNetwork) returns (r: IpRange)
    requires n.mask > -8  // below that the source indexes the array at a negative position
    ensures r == RangeOf(n)
  {
    var start := new IpAddress(n.address);
    var end := new IpAddress(n.address);
    var lastByte := TruncDiv(n.mask, 8);
    if lastByte < start.address.Length {
      NetworkBits(n);
      var t := 8 - TruncRem(n.mask, 8);
      var byteMask := HighMask(t);
      start.Set(lastByte, And(start.address[lastByte], byteMask));
      end.Set(lastByte, Or(end.address[lastByte], Inv(byteMask)));
      start.Fill(0, lastByte + 1);
      end.Fill(0xff, lastByte + 1);
      BytesOfNetwork(n, lastByte, t, start.address[..], end.address[..]);
    }
    var made := Create(start.address[..], end.address[..]);
    r := made.value;
  }

  /** A mask splits into whole bytes and bits of one byte; a negative one acts like 0. */
  lemma NetworkBits(n: InetNetwork)
    requires n.mask > -8 && TruncDiv(n.mask, 8) < |n.address|
    ensures var i, t := TruncDiv(n.mask, 8), 8 - TruncRem(n.mask, 8);
            && i >= 0 && 1 <= t <= 15
            && (t > 8 ==> i == 0)
            && FreeBits(n) == 8 * (|n.address| - i - 1) + (if t <= 8 then t else 8)
  {
  }

  lemma MaskStopsAtByte(t: nat)
    ensures HighMask(t) == HighMask(if t <= 8 then t else 8)
  {
    HighMaskValue(t);
    HighMaskValue(8);
  }

  lemma BytesOfNetwork(n: InetNetwork, i: nat, t: nat, s: seq<byte>, e: seq<byte>)
    requires n.mask > -8 && i == TruncDiv(n.mask, 8) < |n.address| && t == 8 - TruncRem(n.mask, 8)
    requires s == n.address[..i] + [And(n.address[i], HighMask(t))] + Bytes.Fill(|n.address| - i - 1, 0)
    requires e == n.address[..i] + [Or(n.address[i], Inv(HighMask(t)))] + Bytes.Fill(|n.address| - i - 1, 0xff)
    ensures s == RangeOf(n).start && e == RangeOf(n).end
  {
    NetworkBits(n);
    var u := if t <= 8 then t else 8;
    MaskStopsAtByte(t);
    EdgesOfBytes(n, i, u);
  }

  lemma EdgesOfBytes(n: InetNetwork, i: nat, t: nat)
    requires i < |n.address| && 1 <= t <= 8 && FreeBits(n) == 8 * (|n.address| - i - 1) + t
    ensures RangeOf(n).start == n.address[..i] + [And(n.address[i], HighMask(t))] + Bytes.Fill(|n.address| - i - 1, 0)
    ensures RangeOf(n).end
         == n.address[..i] + [Or(n.address[i], Inv(HighMask(t)))] + Bytes.Fill(|n.address| - i - 1, 0xff)
  {
    ClearLowShape(n.address, i, t);
    SetLowShape(n.address, i, t);
  }

  // ---- CIDR decomposition ----

  /** ns are the blocks bs as networks over addresses of n bytes. */
  ghost predicate Encodes(ns: seq<InetNetwork>, bs: seq<Cidr.Block>, n: nat) {
    && |ns| == |bs|
    && forall i :: 0 <= i < |ns| ==> EncodesBlock(ns[i], bs[i], n)
  }

  ghost predicate EncodesBlock(net: InetNetwork, b: Cidr.Block, n: nat) {
    |net.address| == n && Val(net.address) == b.base && net.mask == 8 * n - b.bits
  }

  /** The shortest prefix that the low zero bits of ip allow. */
  method GetPossibleMaxMask(ip: IpAddress) returns (mask: nat)
    ensures mask == ip.MaxMask() - Cidr.TrailingZeros(Val(ip.address[..]), ip.MaxMask())
  {
    mask := ip.MaxMask();
    ghost var b := ip.address[..];
    TrailingZeroBitsIsNumeric(b);
    var i := ip.address.Length;
    assert b[..i] == b;
    while i > 0
      invariant 0 <= i <= |b| && mask == 8 * i
      invariant TrailingZeroBits(b) == 8 * (|b| - i) + TrailingZeroBits(b[..i])
    {
      i := i - 1;
      assert b[..i + 1][..i] == b[..i];
      var lastZeroBits := CountTrailingZeroBits(ip.address[i]);
      mask := mask - lastZeroBits;
      if lastZeroBits != 8 {
        break;
      }
    }
  }

  lemma ReplaceByte(b: seq<byte>, i: nat, tail: seq<byte>)
    requires i < |b|
    ensures (b[..i + 1] + tail)[i] == b[i]
    ensures forall x :: (b[..i + 1] + tail)[i := x] == b[..i] + [x] + tail == b[..i] + ([x] + tail)
  {
  }

  /** The last address of the block of ip with that mask; ip itself when nothing is free. */
  method GetLastIpForMask(ip: IpAddress, mask: nat) returns (lastIp: IpAddress)
    requires mask <= ip.MaxMask()
    ensures lastIp.address[..] == SetLow(ip.address[..], ip.MaxMask() - mask)
    ensures if mask == ip.MaxMask() then lastIp == ip else fresh(lastIp) && fresh(lastIp.address)
  {
    var remainingBits: int := ip.MaxMask() - mask;
    if remainingBits == 0 {
      return ip;
    }
    ghost var b, r := ip.address[..], remainingBits;
    var i := ip.address.Length - 1;
    lastIp := ip.Copy();
    while remainingBits > 0 && i >= 0
      invariant -1 <= i < |b| == lastIp.address.Length
      invariant fresh(lastIp) && fresh(lastIp.address)
      invariant remainingBits == r - 8 * (|b| - i - 1)
      invariant remainingBits > 0 ==> lastIp.address[..] == b[..i + 1] + Bytes.Fill(|b| - i - 1, 0xff)
      invariant remainingBits <= 0 ==> lastIp.address[..] == SetLow(b, r)
      decreases i
    {
      ReplaceByte(b, i, Bytes.Fill(|b| - i - 1, 0xff));
      if remainingBits > 8 {
        OrAllOnes(lastIp.address[i]);
        lastIp.Set(i, Or(lastIp.address[i], 0xff));
        assert [0xff] + Bytes.Fill(|b| - i - 1, 0xff) == Bytes.Fill(|b| - i, 0xff);
      } else {
        lastIp.Set(i, Or(lastIp.address[i], Inv(HighMask(remainingBits))));
        SetLowShape(b, i, remainingBits);
      }
      remainingBits := remainingBits - 8;
      i := i - 1;
    }
  }

  /** The blocks that Subnets produces for a range. */
  ghost function Blocks(r: IpRange): seq<Cidr.Block> {
    Cidr.Decompose(r.Lo(), r.Hi(), 8 * r.Size())
  }

  /** What is still to be produced when the loop stands at cur. */
  ghost function BlocksFrom(cur: nat, e: nat, w: nat): seq<Cidr.Block> {
    if cur <= e then Cidr.Decompose(cur, e, w) else []
  }

  lemma LastOfBlock(b: seq<byte>, end: seq<byte>, r: nat)
    requires |b| == |end| && r <= Cidr.TrailingZeros(Val(b), Width(b))
    ensures Val(SetLow(b, r)) == Val(b) + Pow2(r) - 1
    ensures Compare(SetLow(b, r), end) > 0 <==> Val(b) + Pow2(r) - 1 > Val(end)
  {
    SetLowIsFloor(b, r);
    Cidr.TrailingZerosExact(Val(b), Width(b), r);
    CompareIsNumeric(SetLow(b, r), end);
  }

  /** The networks produced so far encode the first blocks; the rest start at cur. */
  ghost predicate Produced(ns: seq<InetNetwork>, r: IpRange, cur: nat) {
    && |ns| <= |Blocks(r)|
    && Encodes(ns, Blocks(r)[..|ns|], r.Size())
    && Blocks(r)[|ns|..] == BlocksFrom(cur, r.Hi(), 8 * r.Size())
  }

  lemma ProducedNext(ns: seq<InetNetwork>, r: IpRange, net: InetNetwork, next: nat)
    requires |net.address| == r.Size() && Val(net.address) <= r.Hi() && Produced(ns, r, Val(net.address))
    requires 0 <= net.mask <= 8 * r.Size()
    requires 8 * r.Size() - net.mask == Cidr.FreeBits(Val(net.address), r.Hi(), 8 * r.Size())
    requires next == Val(net.address) + Pow2(8 * r.Size() - net.mask)
    ensures Produced(ns + [net], r, next)
  {
    var all, i := Blocks(r), |ns|;
    var b := Cidr.Block(Val(net.address), 8 * r.Size() - net.mask);
    assert all[i..] == [b] + BlocksFrom(next, r.Hi(), 8 * r.Size());
    assert all[i] == all[i..][0] == b;
    assert all[i + 1..] == all[i..][1..];
    assert all[..i + 1] == all[..i] + [b];
    assert EncodesBlock(net, b, r.Size());
  }

  /** With that mask the block at v is aligned, and none that is larger and aligned ends within e. */
  ghost predicate Candidate(v: nat, e: nat, w: nat, mask: nat) {
    && v <= e && w - Cidr.TrailingZeros(v, w) <= mask <= w
    && Cidr.FreeBits(v, e, w) == Cidr.Fit(v, e, w - mask)
  }

  lemma FirstCandidate(v: nat, e: nat, w: nat)
    requires v <= e
    ensures Candidate(v, e, w, w - Cidr.TrailingZeros(v, w))
  {
  }

  lemma BlockFits(v: nat, e: nat, w: nat, mask: nat)
    requires Candidate(v, e, w, mask) && v + Pow2(w - mask) - 1 <= e
    ensures w - mask == Cidr.FreeBits(v, e, w)
  {
  }

  lemma BlockTooLong(v: nat, e: nat, w: nat, mask: nat)
    requires Candidate(v, e, w, mask) && v + Pow2(w - mask) - 1 > e
    ensures Candidate(v, e, w, mask + 1)
  {
    assert Pow2(0) == 1;
  }

  /** The last address for a mask that the alignment of currentIp allows, compared with end. */
  method LastIpAgainst(currentIp: IpAddress, mask: nat, end: IpAddress) returns (lastIp: IpAddress, beyond: int)
    requires |currentIp.address[..]| == |end.address[..]| && mask <= currentIp.MaxMask()
    requires currentIp.MaxMask() - mask <= Cidr.TrailingZeros(Val(currentIp.address[..]), currentIp.MaxMask())
    ensures |lastIp.address[..]| == |currentIp.address[..]|
    ensures Val(lastIp.address[..]) == Val(currentIp.address[..]) + Pow2(currentIp.MaxMask() - mask) - 1
    ensures beyond > 0 <==> Val(lastIp.address[..]) > Val(end.address[..])
  {
    lastIp := GetLastIpForMask(currentIp, mask);
    beyond := lastIp.CompareTo(end);
    LastOfBlock(currentIp.address[..], end.address[..], currentIp.MaxMask() - mask);
  }

  /** The largest block at currentIp that ends at or before end, and its last address. */
  method LargestBlock(currentIp: IpAddress, end: IpAddress) returns (mask: nat, lastIp: IpAddress)
    requires |currentIp.address[..]| == |end.address[..]|
    requires Val(currentIp.address[..]) <= Val(end.address[..])
    ensures mask <= currentIp.MaxMask()
    ensures currentIp.MaxMask() - mask
         == Cidr.FreeBits(Val(currentIp.address[..]), Val(end.address[..]), currentIp.MaxMask())
    ensures |lastIp.address[..]| == |currentIp.address[..]|
    ensures Val(lastIp.address[..]) == Val(currentIp.address[..]) + Pow2(currentIp.MaxMask() - mask) - 1
  {
    ghost var b, c, w := currentIp.address[..], end.address[..], currentIp.MaxMask();
    ghost var v, e := Val(b), Val(c);
    FirstCandidate(v, e, w);
    mask := GetPossibleMaxMask(currentIp);
    var beyond;
    lastIp, beyond := LastIpAgainst(currentIp, mask, end);
    while beyond > 0
      invariant currentIp.address[..] == b && end.address[..] == c
      invariant Candidate(v, e, w, mask)
      invariant |lastIp.address[..]| == |currentIp.address[..]|
      invariant Val(lastIp.address[..]) == v + Pow2(w - mask) - 1
      invariant beyond > 0 <==> v + Pow2(w - mask) - 1 > e
      decreases w - mask
    {
      BlockTooLong(v, e, w, mask);
      mask := mask + 1;
      lastIp, beyond := LastIpAgainst(currentIp, mask, end);
    }
    BlockFits(v, e, w, mask);
  }

  /** Behind the all-ones address there is nothing left of any range. */
  lemma NothingBehindMax(last: seq<byte>, r: IpRange)
    requires |last| == r.Size() && AllOnes(last)
    ensures r.Hi() < Val(last) + 1
  {
    ZerosAndOnes(last);
    ValBound(r.end);
  }

  lemma InRange(c: seq<byte>, r: IpRange)
    requires |c| == r.Size()
    ensures Compare(c, r.end) <= 0 <==> Val(c) <= r.Hi()
  {
    CompareIsNumeric(c, r.end);
  }

  method Subnets(r: IpRange) returns (subnets: seq<InetNetwork>)
    ensures Encodes(subnets, Blocks(r), r.Size())
  {
    var currentIp := new IpAddress(r.start);
    var end := new IpAddress(r.end);
    subnets := [];
    InRange(r.start, r);
    ghost var cur := r.Lo();
    var order := currentIp.CompareTo(end);
    while order <= 0
      invariant end.address[..] == r.end && |currentIp.address[..]| == r.Size()
      invariant cur == Val(currentIp.address[..]) && (order <= 0 <==> cur <= r.Hi())
      invariant Produced(subnets, r, cur)
      decreases r.Hi() - cur
    {
      ghost var bytes := currentIp.address[..];
      var mask, lastIp := LargestBlock(currentIp, end);
      assert currentIp.address[..] == bytes && end.address[..] == r.end;
      var net := InetNetwork(currentIp.address[..], mask);
      cur := Val(lastIp.address[..]) + 1;
      ProducedNext(subnets, r, net, cur);
      subnets := subnets + [net];
      var isMax := lastIp.IsMaxIp();
      if isMax {
        NothingBehindMax(lastIp.address[..], r);
        break;
      }
      var inc := lastIp.Inc();
      currentIp := inc.value;
      InRange(currentIp.address[..], r);
      order := currentIp.CompareTo(end);
    }
  }
}
