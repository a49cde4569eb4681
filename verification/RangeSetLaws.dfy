/**
 Laws of the address set as a whole: the ranges are a canonical form of the set they
 denote, and its prefixes are exact, disjoint, fewest possible, and rebuild the set.
 */
module RangeSetLaws {
  import opened Bytes
  import opened IpRanges
  import opened IpRangeSets
  import Cidr = CidrBlocks

  // ---- One range or two ----

  /** plus yields a range exactly when the two ranges together form one, and it is that range. */
  lemma UnionIsOneRange(r: IpRange, other: IpRange)
    ensures Plus(r, other).Some? <==> exists u: IpRange :: u.Addresses() == r.Addresses() + other.Addresses()
    ensures Plus(r, other).Some? ==> Plus(r, other).value.Addresses() == r.Addresses() + other.Addresses()
  {
    if Plus(r, other).Some? {
      var u := Plus(r, other).value;
      forall a
        ensures u.Has(a) <==> r.Has(a) || other.Has(a)
      {
      }
      assert u.Addresses() == r.Addresses() + other.Addresses();
    }
    if u: IpRange :| u.Addresses() == r.Addresses() + other.Addresses() {
      forall a
        ensures u.Has(a) <==> r.Has(a) || other.Has(a)
      {
        assert a in u.Addresses() <==> a in r.Addresses() || a in other.Addresses();
      }
      assert u.Has(r.start) && u.Has(r.end) && u.Has(other.start) && u.Has(other.end);
      if r.Hi() + 1 < other.Lo() {
        var a := AddressInGap(r, other, u);
      } else if other.Hi() + 1 < r.Lo() {
        var a := AddressInGap(other, r, u);
      }
    }
  }

  /** An address in the gap between two ranges. */
  lemma AddressInGap(r: IpRange, other: IpRange, u: IpRange) returns (a: seq<byte>)
    requires r.Size() == other.Size() == u.Size() && r.Hi() + 1 < other.Lo()
    requires u.Lo() <= r.Lo() && other.Hi() <= u.Hi()
    ensures u.Has(a) && !r.Has(a) && !other.Has(a)
  {
    ValBound(other.start);
    ZerosAndOnes(r.end);
    a := Increment(r.end);
  }

  // ---- Canonicity ----

  lemma NotInTail(rs: seq<IpRange>, a: seq<byte>)
    requires Normal(rs) && rs != [] && |a| == rs[0].Size() && Val(a) <= rs[0].Hi() + 1
    ensures !In(rs[1..], a)
  {
    forall r | r in rs[1..]
      ensures !r.Has(a)
    {
      var i :| 0 < i < |rs| && rs[i] == r;
      assert Before(rs[0], rs[i]);
    }
  }

  /** The first range starts no later, and ends no later, than that of an equal set. */
  lemma FirstRangeBounds(rs: seq<IpRange>, ss: seq<IpRange>)
    requires Normal(rs) && Normal(ss) && rs != [] && ss != [] && Denotes(rs) == Denotes(ss)
    ensures rs[0].Size() <= ss[0].Size()
    ensures rs[0].Size() == ss[0].Size() ==> rs[0].Lo() <= ss[0].Lo()
    ensures rs[0].Size() == ss[0].Size() && rs[0].Lo() == ss[0].Lo() ==> ss[0].Hi() <= rs[0].Hi()
  {
    var a := ss[0].start;
    assert ss[0] in ss && ss[0].Has(a);
    assert a in Denotes(rs);
    var r :| r in rs && r.Has(a);
    var i :| 0 <= i < |rs| && rs[i] == r;
    assert 0 < i ==> Before(rs[0], rs[i]);
    if rs[0].Size() == ss[0].Size() && rs[0].Lo() == ss[0].Lo() && rs[0].Hi() < ss[0].Hi() {
      ValBound(ss[0].end);
      ZerosAndOnes(rs[0].end);
      var b := Increment(rs[0].end);
      assert ss[0].Has(b) && b in Denotes(rs);
      GapAfterFirst(rs, b);
    }
  }

  lemma GapAfterFirst(rs: seq<IpRange>, a: seq<byte>)
    requires Normal(rs) && rs != [] && |a| == rs[0].Size() && Val(a) == rs[0].Hi() + 1
    ensures !In(rs, a)
  {
    NotInTail(rs, a);
    assert rs == [rs[0]] + rs[1..];
  }

  lemma FirstIsIn(rs: seq<IpRange>)
    requires rs != []
    ensures rs[0].start in Denotes(rs)
  {
    assert rs[0] in rs && rs[0].Has(rs[0].start);
  }

  /** Two normal lists that stand for the same addresses are the same list. */
  lemma {:induction false} Canonical(rs: seq<IpRange>, ss: seq<IpRange>)
    requires Normal(rs) && Normal(ss) && Denotes(rs) == Denotes(ss)
    ensures rs == ss
    decreases |rs|
  {
    if rs == [] {
      if ss != [] {
        FirstIsIn(ss);
      }
    } else {
      FirstIsIn(rs);
      FirstRangeBounds(rs, ss);
      FirstRangeBounds(ss, rs);
      RangeInjective(rs[0], ss[0]);
      TailDenotes(rs);
      TailDenotes(ss);
      Canonical(rs[1..], ss[1..]);
    }
  }

  lemma TailDenotes(rs: seq<IpRange>)
    requires Normal(rs) && rs != []
    ensures Denotes(rs[1..]) == Denotes(rs) - rs[0].Addresses()
  {
    forall a
      ensures In(rs[1..], a) <==> In(rs, a) && !rs[0].Has(a)
    {
      if rs[0].Has(a) {
        NotInTail(rs, a);
      }
      assert rs == [rs[0]] + rs[1..];
    }
  }

  // ---- Runs of the set ----

  datatype Op = Include(r: IpRange) | Exclude(r: IpRange)

  ghost predicate Step(before: seq<IpRange>, op: Op, after: seq<IpRange>) {
    match op
    case Include(r) => Adds(before, r, after)
    case Exclude(r) => Removes(before, r, after)
  }

  /** states is what an empty set goes through under ops, one call after the other. */
  ghost predicate Run(ops: seq<Op>, states: seq<seq<IpRange>>) {
    && |states| == |ops| + 1
    && states[0] == []
    && forall i :: 0 <= i < |ops| ==> Step(states[i], ops[i], states[i + 1])
  }

  /** The plain set-theoretic meaning of a list of calls. */
  ghost function Meaning(ops: seq<Op>): iset<seq<byte>> {
    if ops == [] then iset{}
    else
      var before, op := Meaning(ops[..|ops| - 1]), ops[|ops| - 1];
      match op
      case Include(r) => before + r.Addresses()
      case Exclude(r) => before - r.Addresses()
  }

  lemma {:induction false} RunMeaning(ops: seq<Op>, states: seq<seq<IpRange>>)
    requires Run(ops, states)
    ensures Normal(states[|ops|]) && Denotes(states[|ops|]) == Meaning(ops)
    decreases |ops|
  {
    if ops != [] {
      var n := |ops| - 1;
      RunMeaning(ops[..n], states[..n + 1]);
      assert Step(states[n], ops[n], states[n + 1]);
    }
  }

  /** Runs that mean the same set end in identical ranges, whatever calls they consist of. */
  lemma HistoryDoesNotMatter(ops: seq<Op>, states: seq<seq<IpRange>>, ops': seq<Op>, states': seq<seq<IpRange>>)
    requires Run(ops, states) && Run(ops', states') && Meaning(ops) == Meaning(ops')
    ensures states[|ops|] == states'[|ops'|]
  {
    RunMeaning(ops, states);
    RunMeaning(ops', states');
    Canonical(states[|ops|], states'[|ops'|]);
  }

  // ---- Prefixes of one range ----

  /** A network that encodes an aligned block denotes exactly that block. */
  lemma BlockRange(net: InetNetwork, b: Cidr.Block, n: nat)
    requires EncodesBlock(net, b, n) && b.Aligned() && b.bits <= 8 * n
    ensures RangeOf(net).Size() == n && RangeOf(net).Lo() == b.base && RangeOf(net).Hi() == b.Last()
  {
    RangeIsBlock(net);
  }

  /** The networks of a range: exact, ascending, disjoint, each of them a proper prefix. */
  lemma SubnetsOfRange(ns: seq<InetNetwork>, r: IpRange)
    requires Encodes(ns, Blocks(r), r.Size())
    ensures |ns| > 0
    ensures forall i :: 0 <= i < |ns| ==> 0 <= ns[i].mask <= 8 * r.Size() && RangeOf(ns[i]).Size() == r.Size()
    ensures forall i :: 0 <= i < |ns| ==> r.Lo() <= RangeOf(ns[i]).Lo() && RangeOf(ns[i]).Hi() <= r.Hi()
    ensures forall i :: 0 <= i < |ns| ==> RangeOf(ns[i]).start == ns[i].address
    ensures forall i, j :: 0 <= i < j < |ns| ==> RangeOf(ns[i]).Hi() < RangeOf(ns[j]).Lo()
    ensures forall a :: r.Has(a) <==> Routed(ns, a)
  {
    var bs := Blocks(r);
    ValBound(r.end);
    Cidr.DecomposeTiles(r.Lo(), r.Hi(), 8 * r.Size());
    Cidr.TilesMeaning(bs, r.Lo(), r.Hi());
    forall i | 0 <= i < |ns|
      ensures 0 <= ns[i].mask <= 8 * r.Size() && RangeOf(ns[i]).Size() == r.Size()
      ensures RangeOf(ns[i]).Lo() == bs[i].base && RangeOf(ns[i]).Hi() == bs[i].Last()
      ensures RangeOf(ns[i]).start == ns[i].address
    {
      assert EncodesBlock(ns[i], bs[i], r.Size());
      BlockRange(ns[i], bs[i], r.Size());
      ValInjective(RangeOf(ns[i]).start, ns[i].address);
    }
    forall a
      ensures r.Has(a) <==> Routed(ns, a)
    {
      if r.Has(a) {
        assert Cidr.Covered(bs, Val(a));
        var i :| 0 <= i < |bs| && bs[i].Has(Val(a));
        assert RangeOf(ns[i]).Has(a);
      }
    }
  }

  function CountMask(ns: seq<InetNetwork>, mask: int): nat {
    if ns == [] then 0 else (if ns[0].mask == mask then 1 else 0) + CountMask(ns[1..], mask)
  }

  lemma {:induction false} CountMaskIsCountBits(ns: seq<InetNetwork>, bs: seq<Cidr.Block>, n: nat, k: nat)
    requires Encodes(ns, bs, n)
    ensures CountMask(ns, 8 * n - k) == Cidr.CountBits(bs, k)
    decreases |ns|
  {
    if ns != [] {
      assert EncodesBlock(ns[0], bs[0], n);
      forall i | 0 <= i < |ns[1..]|
        ensures EncodesBlock(ns[1..][i], bs[1..][i], n)
      {
        assert EncodesBlock(ns[i + 1], bs[i + 1], n);
      }
      CountMaskIsCountBits(ns[1..], bs[1..], n, k);
    }
  }

  /** In the subnets of a range every prefix length occurs at most twice. */
  lemma RangeSubnetsAreFew(ns: seq<InetNetwork>, r: IpRange, mask: int)
    requires Encodes(ns, Blocks(r), r.Size())
    ensures mask <= 8 * r.Size() ==> CountMask(ns, mask) <= 2
    ensures |ns| == 1 || |ns| <= 2 * (8 * r.Size())
  {
    ValBound(r.end);
    Cidr.AtMostTwoPerBit(r.Lo(), r.Hi(), 8 * r.Size());
    if mask <= 8 * r.Size() {
      CountMaskIsCountBits(ns, Blocks(r), r.Size(), 8 * r.Size() - mask);
      Cidr.EachPrefixAtMostTwice(r.Lo(), r.Hi(), 8 * r.Size(), 8 * r.Size() - mask);
    }
  }

  /** Some network of the list contains a. */
  ghost predicate Routed(ns: seq<InetNetwork>, a: seq<byte>) {
    exists i :: 0 <= i < |ns| && RangeOf(ns[i]).Has(a)
  }

  // ---- Prefixes of the whole set ----

  /** The set's subnets contain exactly its addresses. */
  lemma {:induction false} SubnetsAreExact(ns: seq<InetNetwork>, rs: seq<IpRange>, a: seq<byte>)
    requires EncodesAll(ns, rs)
    ensures Routed(ns, a) <==> In(rs, a)
    decreases |rs|
  {
    if rs != [] {
      var n := |Blocks(rs[0])|;
      var head, tail := ns[..n], ns[n..];
      SubnetsAreExact(tail, rs[1..], a);
      SubnetsOfRange(head, rs[0]);
      assert rs[0].Has(a) <==> Routed(head, a);
      assert rs == [rs[0]] + rs[1..];
      assert In(rs, a) <==> rs[0].Has(a) || In(rs[1..], a);
      RoutedSplit(ns, n, a);
    }
  }

  lemma RoutedSplit(ns: seq<InetNetwork>, n: nat, a: seq<byte>)
    requires n <= |ns|
    ensures Routed(ns, a) <==> Routed(ns[..n], a) || Routed(ns[n..], a)
  {
    if Routed(ns, a) {
      var i :| 0 <= i < |ns| && RangeOf(ns[i]).Has(a);
      if i < n {
        assert RangeOf(ns[..n][i]).Has(a);
      } else {
        assert RangeOf(ns[n..][i - n]).Has(a);
      }
    }
    if Routed(ns[n..], a) {
      var i :| 0 <= i < |ns[n..]| && RangeOf(ns[n..][i]).Has(a);
      assert RangeOf(ns[i + n]).Has(a);
    }
  }

  /** Every prefix lies inside one of the ranges. */
  lemma {:induction false} SubnetsLieInRanges(ns: seq<InetNetwork>, rs: seq<IpRange>, i: nat) returns (k: nat)
    requires EncodesAll(ns, rs) && i < |ns|
    ensures k < |rs| && Inside(ns[i], rs[k])
    decreases |rs|
  {
    var n := |Blocks(rs[0])|;
    SubnetsOfRange(ns[..n], rs[0]);
    k := 0;
    if i < n {
      assert ns[..n][i] == ns[i];
    } else {
      var j := SubnetsLieInRanges(ns[n..], rs[1..], i - n);
      k := j + 1;
    }
  }

  ghost predicate Inside(net: InetNetwork, r: IpRange) {
    |net.address| == r.Size() && r.Lo() <= RangeOf(net).Lo() && RangeOf(net).Hi() <= r.Hi()
  }

  /** All of r's addresses come before all of s's. */
  ghost predicate Precedes(r: IpRange, s: IpRange) {
    r.Size() < s.Size() || (r.Size() == s.Size() && r.Hi() < s.Lo())
  }

  /** The set's subnets are ascending and pairwise disjoint, across all ranges and families. */
  lemma SubnetsAscend(ns: seq<InetNetwork>, rs: seq<IpRange>, i: nat, j: nat)
    requires Normal(rs) && EncodesAll(ns, rs) && i < j < |ns|
    ensures Precedes(RangeOf(ns[i]), RangeOf(ns[j]))
  {
    TwoSubnetsAscend(ns, rs, i, j, ns[i], ns[j]);
  }

  lemma {:induction false} TwoSubnetsAscend(
    ns: seq<InetNetwork>, rs: seq<IpRange>, i: nat, j: nat, x: InetNetwork, y: InetNetwork
  )
    requires Normal(rs) && EncodesAll(ns, rs) && i < j < |ns| && ns[i] == x && ns[j] == y
    ensures Precedes(RangeOf(x), RangeOf(y))
    decreases |rs|
  {
    var n := |Blocks(rs[0])|;
    var head, tail := ns[..n], ns[n..];
    if j < n {
      FirstSubnets(head, rs[0], j);
      assert head[i] == x && head[j] == y;
    } else if n <= i {
      TwoSubnetsAscend(tail, rs[1..], i - n, j - n, x, y);
    } else {
      FirstSubnets(head, rs[0], i);
      SubnetsAfterFirst(tail, rs, x, j - n);
    }
  }

  lemma FirstSubnets(ns: seq<InetNetwork>, r: IpRange, i: nat)
    requires Encodes(ns, Blocks(r), r.Size()) && i < |ns|
    ensures Inside(ns[i], r)
    ensures forall j :: 0 <= j < i ==> Precedes(RangeOf(ns[j]), RangeOf(ns[i]))
  {
    SubnetsOfRange(ns, r);
  }

  lemma SubnetsAfterFirst(tail: seq<InetNetwork>, rs: seq<IpRange>, net: InetNetwork, j: nat)
    requires Normal(rs) && rs != [] && EncodesAll(tail, rs[1..]) && j < |tail| && Inside(net, rs[0])
    ensures Precedes(RangeOf(net), RangeOf(tail[j]))
  {
    var k := SubnetsLieInRanges(tail, rs[1..], j);
    assert Before(rs[0], rs[k + 1]);
  }

  // ---- Fewest prefixes ----

  ghost predicate RoutedBy(cover: set<InetNetwork>, a: seq<byte>) {
    exists net :: net in cover && RangeOf(net).Has(a)
  }

  ghost function BlockOf(net: InetNetwork): Cidr.Block {
    Cidr.Block(RangeOf(net).Lo(), FreeBits(net))
  }

  lemma BlockOfIsAligned(net: InetNetwork)
    ensures BlockOf(net).Aligned() && BlockOf(net).Last() == RangeOf(net).Hi()
  {
    RangeIsBlock(net);
  }

  lemma {:induction false} NoMoreValuesThanKeys<K, V>(m: map<K, V>)
    ensures |m.Values| <= |m.Keys|
    decreases |m.Keys|
  {
    if m.Keys == {} {
      assert m.Values == {};
    } else {
      var k :| k in m.Keys;
      var rest := m - {k};
      assert rest.Keys == m.Keys - {k};
      NoMoreValuesThanKeys(rest);
      assert m.Values <= rest.Values + {m[k]} by {
        forall v | v in m.Values
          ensures v in rest.Values + {m[k]}
        {
          var x :| x in m.Keys && m[x] == v;
          assert x != k ==> x in rest.Keys && rest[x] == v;
        }
      }
      SubsetSize(m.Values, rest.Values + {m[k]});
    }
  }

  lemma {:induction false} SubsetSize<T>(a: set<T>, b: set<T>)
    requires a <= b
    ensures |a| <= |b|
  {
    assert b == a + (b - a);
  }

  /** No set of prefixes that covers exactly one range has fewer members than its subnets. */
  lemma RangeMinimal(cover: set<InetNetwork>, r: IpRange)
    requires forall net :: net in cover ==> Inside(net, r)
    requires forall a :: r.Has(a) ==> RoutedBy(cover, a)
    ensures |Blocks(r)| <= |cover|
  {
    var blocks := map net | net in cover :: BlockOf(net);
    var image := blocks.Values;
    NoMoreValuesThanKeys(blocks);
    assert blocks.Keys == cover;
    ValBound(r.end);
    forall b | b in image
      ensures b.Aligned() && r.Lo() <= b.base && b.Last() <= r.Hi()
    {
      var net :| net in cover && BlockOf(net) == b;
      BlockOfIsAligned(net);
    }
    forall v: int | r.Lo() <= v <= r.Hi()
      ensures Cidr.CoveredBy(image, v)
    {
      var a := FromVal(r.Size(), v);
      assert RoutedBy(cover, a);
      var net :| net in cover && RangeOf(net).Has(a);
      BlockOfIsAligned(net);
      assert blocks[net] in image && BlockOf(net).Has(v);
    }
    Cidr.DecomposeIsMinimal(image, r.Lo(), r.Hi(), 8 * r.Size());
  }

  /** Because ranges never touch, an interval of addresses of the set lies in one range. */
  lemma IntervalInOneRange(rs: seq<IpRange>, x: IpRange) returns (k: nat)
    requires Normal(rs) && forall a :: x.Has(a) ==> In(rs, a)
    ensures k < |rs| && rs[k].Size() == x.Size() && rs[k].Lo() <= x.Lo() && x.Hi() <= rs[k].Hi()
  {
    assert x.Has(x.start);
    var r :| r in rs && r.Has(x.start);
    k :| 0 <= k < |rs| && rs[k] == r;
    if r.Hi() < x.Hi() {
      ValBound(x.end);
      ZerosAndOnes(r.end);
      var b := Increment(r.end);
      assert x.Has(b);
      JustAfter(rs, k, b);
    }
  }

  lemma JustAfter(rs: seq<IpRange>, k: nat, a: seq<byte>)
    requires Normal(rs) && k < |rs| && |a| == rs[k].Size() && Val(a) == rs[k].Hi() + 1
    ensures !In(rs, a)
  {
    forall s | s in rs
      ensures !s.Has(a)
    {
      var j :| 0 <= j < |rs| && rs[j] == s;
      assert j < k ==> Before(rs[j], rs[k]);
      assert k < j ==> Before(rs[k], rs[j]);
    }
  }

  /** No set of prefixes that denotes the same addresses has fewer members than Subnets. */
  lemma {:induction false} SubnetsAreFewest(cover: set<InetNetwork>, ns: seq<InetNetwork>, rs: seq<IpRange>)
    requires Normal(rs) && EncodesAll(ns, rs)
    requires forall a :: RoutedBy(cover, a) <==> In(rs, a)
    ensures |ns| <= |cover|
    decreases |rs|
  {
    if rs != [] {
      var n := |Blocks(rs[0])|;
      var here := set net | net in cover && Inside(net, rs[0]);
      var rest := cover - here;
      TailDenotes(rs);
      forall a
        ensures rs[0].Has(a) ==> RoutedBy(here, a)
        ensures RoutedBy(rest, a) <==> In(rs[1..], a)
      {
        SplitCover(cover, here, rs, a);
      }
      RangeMinimal(here, rs[0]);
      SubnetsAreFewest(rest, ns[n..], rs[1..]);
      assert here !! rest && cover == here + rest;
    }
  }

  /** A cover splits into the networks inside the first range and those for the rest. */
  lemma SplitCover(cover: set<InetNetwork>, here: set<InetNetwork>, rs: seq<IpRange>, a: seq<byte>)
    requires Normal(rs) && rs != []
    requires forall b :: RoutedBy(cover, b) <==> In(rs, b)
    requires here == set net | net in cover && Inside(net, rs[0])
    ensures rs[0].Has(a) ==> RoutedBy(here, a)
    ensures RoutedBy(cover - here, a) <==> In(rs[1..], a)
  {
    assert rs == [rs[0]] + rs[1..];
    forall net | net in cover && RangeOf(net).Has(a)
      ensures net in here <==> rs[0].Has(a)
    {
      forall b | RangeOf(net).Has(b)
        ensures In(rs, b)
      {
        assert RoutedBy(cover, b);
      }
      var k := IntervalInOneRange(rs, RangeOf(net));
      assert k > 0 ==> Before(rs[0], rs[k]);
    }
    assert RoutedBy(cover, a) <==> In(rs, a);
    assert In(rs, a) <==> rs[0].Has(a) || In(rs[1..], a);
    if rs[0].Has(a) {
      assert rs[0] in rs;
      var net :| net in cover && RangeOf(net).Has(a);
      NotInTail(rs, a);
    }
  }

  // ---- Round trip ----

  ghost function Includes(ns: seq<InetNetwork>): (ops: seq<Op>)
    ensures |ops| == |ns|
    decreases |ns|
  {
    if ns == [] then [] else Includes(ns[..|ns| - 1]) + [Include(RangeOf(ns[|ns| - 1]))]
  }

  lemma MeaningOfMore(ops: seq<Op>, r: IpRange, a: seq<byte>)
    ensures a in Meaning(ops + [Include(r)]) <==> a in Meaning(ops) || r.Has(a)
  {
    var all := ops + [Include(r)];
    assert all[..|all| - 1] == ops;
  }

  lemma RoutedOfMore(ns: seq<InetNetwork>, net: InetNetwork, a: seq<byte>)
    ensures Routed(ns + [net], a) <==> Routed(ns, a) || RangeOf(net).Has(a)
  {
    var all := ns + [net];
    assert all[|ns|] == net && forall i :: 0 <= i < |ns| ==> all[i] == ns[i];
  }

  lemma {:induction false} IncludesMeanUnion(ns: seq<InetNetwork>, a: seq<byte>)
    ensures a in Meaning(Includes(ns)) <==> Routed(ns, a)
    decreases |ns|
  {
    if ns != [] {
      var n := |ns| - 1;
      assert ns == ns[..n] + [ns[n]];
      IncludesMeanUnion(ns[..n], a);
      MeaningOfMore(Includes(ns[..n]), RangeOf(ns[n]), a);
      RoutedOfMore(ns[..n], ns[n], a);
    }
  }

  /** Adding a set's subnets to an empty set, in any order, gives back the very same ranges. */
  lemma RebuildFromSubnets(rs: seq<IpRange>, ns: seq<InetNetwork>, order: seq<InetNetwork>, states: seq<seq<IpRange>>)
    requires Normal(rs) && EncodesAll(ns, rs)
    requires forall net :: net in order <==> net in ns
    requires Run(Includes(order), states)
    ensures states[|order|] == rs
  {
    RunMeaning(Includes(order), states);
    forall a
      ensures In(states[|order|], a) <==> In(rs, a)
    {
      assert a in Denotes(states[|order|]) <==> a in Meaning(Includes(order));
      IncludesMeanUnion(order, a);
      SubnetsAreExact(ns, rs, a);
      SameElementsSameRoutes(order, ns, a);
      SameElementsSameRoutes(ns, order, a);
    }
    Canonical(states[|order|], rs);
  }

  lemma SameElementsSameRoutes(ns: seq<InetNetwork>, ms: seq<InetNetwork>, a: seq<byte>)
    requires forall net :: net in ns ==> net in ms
    ensures Routed(ns, a) ==> Routed(ms, a)
  {
    if Routed(ns, a) {
      var i :| 0 <= i < |ns| && RangeOf(ns[i]).Has(a);
      assert ns[i] in ms;
      var j :| 0 <= j < |ms| && ms[j] == ns[i];
      assert RangeOf(ms[j]).Has(a);
    }
  }
}
