/**
 ProtocolConfig.kt: the VPN route list of a configuration under construction.

 Routes sit in an insertion-ordered set. Later routes win over earlier ones; for older
 platforms the list is flattened, in that order, into the prefixes of an address set.
 */
module Routes {
  import opened Outcomes
  import opened Powers
  import opened Bytes
  import opened IpRanges
  import opened IpRangeSets
  import opened RangeSetLaws
  import opened Sequences

  datatype Route = Route(inetNetwork: InetNetwork, included: bool)

  // ---- Insertion-ordered sets ----

  /** Adding keeps the first position of a route that is already there. */
  function Added(rs: seq<Route>, r: Route): (added: seq<Route>)
    ensures rs <= added
    ensures forall x :: x in added <==> x in rs || x == r
    ensures Distinct(rs) ==> Distinct(added)
  {
    if r in rs then rs else rs + [r]
  }

  function AddAll(rs: seq<Route>, more: seq<Route>): (all: seq<Route>)
    ensures rs <= all
    ensures forall x :: x in all <==> x in rs || x in more
    ensures Distinct(rs) ==> Distinct(all)
    decreases |more|
  {
    if more == [] then rs else AddAll(Added(rs, more[0]), more[1..])
  }

  function RemoveIf(rs: seq<Route>, p: Route -> bool): seq<Route> {
    if rs == [] then []
    else (if p(rs[0]) then [] else [rs[0]]) + RemoveIf(rs[1..], p)
  }

  /** Where r first occurs in rs; |rs| if it does not. */
  ghost function FirstIndex(rs: seq<Route>, r: Route): (i: nat)
    ensures i <= |rs| && (i < |rs| <==> r in rs) && (i < |rs| ==> rs[i] == r)
    ensures forall j :: 0 <= j < i ==> rs[j] != r
  {
    if rs == [] || rs[0] == r then 0 else 1 + FirstIndex(rs[1..], r)
  }

  /** The elements of rs come in the order in which they first occur in ss. */
  ghost predicate OrderedAsIn(rs: seq<Route>, ss: seq<Route>) {
    forall i, j :: 0 <= i < j < |rs| ==> FirstIndex(ss, rs[i]) < FirstIndex(ss, rs[j])
  }

  /** Members and order determine a list: this is what makes the contracts below complete. */
  lemma {:induction false} MembersAndOrder(rs: seq<Route>, rs': seq<Route>, ss: seq<Route>)
    requires OrderedAsIn(rs, ss) && OrderedAsIn(rs', ss) && forall r :: r in rs <==> r in rs'
    ensures rs == rs'
    decreases |rs|
  {
    if rs != [] && rs' != [] {
      assert rs[0] in rs && rs'[0] in rs';
      FirstIsEarliest(rs, ss, rs'[0]);
      FirstIsEarliest(rs', ss, rs[0]);
      forall r
        ensures r in rs[1..] <==> r in rs'[1..]
      {
        AllButFirst(rs, ss, r);
        AllButFirst(rs', ss, r);
      }
      MembersAndOrder(rs[1..], rs'[1..], ss);
    } else if rs != [] {
      var r := Member(rs);
    } else if rs' != [] {
      var r := Member(rs');
    }
  }

  lemma FirstIsEarliest(rs: seq<Route>, ss: seq<Route>, r: Route)
    requires OrderedAsIn(rs, ss) && r in rs
    ensures r == rs[0] || FirstIndex(ss, rs[0]) < FirstIndex(ss, r)
  {
    var i :| 0 <= i < |rs| && rs[i] == r;
  }

  lemma AllButFirst(rs: seq<Route>, ss: seq<Route>, r: Route)
    requires rs != [] && OrderedAsIn(rs, ss)
    ensures r in rs[1..] <==> r in rs && r != rs[0]
  {
    if r in rs[1..] {
      var i :| 0 <= i < |rs[1..]| && rs[1..][i] == r;
      assert FirstIndex(ss, rs[0]) < FirstIndex(ss, rs[i + 1]);
    }
  }

  lemma {:induction false} FirstIndexConcat(rs: seq<Route>, more: seq<Route>, r: Route)
    ensures FirstIndex(rs + more, r) == if r in rs then FirstIndex(rs, r) else |rs| + FirstIndex(more, r)
  {
    if rs == [] {
      assert rs + more == more;
    } else {
      assert (rs + more)[1..] == rs[1..] + more && rs == [rs[0]] + rs[1..];
      FirstIndexConcat(rs[1..], more, r);
    }
  }

  lemma AddAllStep(rs: seq<Route>, more: seq<Route>, i: nat)
    requires i < |more|
    ensures AddAll(rs, more[..i + 1]) == Added(AddAll(rs, more[..i]), more[i])
  {
    assert more[..i + 1] == more[..i] + [more[i]];
    AddAllLast(rs, more[..i], more[i]);
  }

  /** A longer list orders what was there as before, and a new member after it. */
  lemma OrderedInLonger(rs: seq<Route>, ss: seq<Route>, r: Route)
    requires OrderedAsIn(rs, ss) && forall x :: x in rs <==> x in ss
    ensures OrderedAsIn(Added(rs, r), ss + [r])
  {
    forall x | x in ss
      ensures FirstIndex(ss + [r], x) == FirstIndex(ss, x) < |ss|
    {
      FirstIndexConcat(ss, [r], x);
    }
    if r !in rs {
      FirstIndexConcat(ss, [r], r);
    }
  }

  /** Adding to an empty set leaves the first occurrences, in order. */
  lemma {:induction false} AddAllKeepsFirsts(rs: seq<Route>)
    ensures OrderedAsIn(AddAll([], rs), rs)
    decreases |rs|
  {
    if rs != [] {
      var before, r := rs[..|rs| - 1], rs[|rs| - 1];
      assert rs == before + [r];
      AddAllKeepsFirsts(before);
      AddAllLast([], before, r);
      OrderedInLonger(AddAll([], before), before, r);
    }
  }

  lemma {:induction false} AddAllConcat(rs: seq<Route>, some: seq<Route>, more: seq<Route>)
    ensures AddAll(rs, some + more) == AddAll(AddAll(rs, some), more)
    decreases |some|
  {
    if some == [] {
      assert some + more == more;
    } else {
      assert (some + more)[1..] == some[1..] + more;
      AddAllConcat(Added(rs, some[0]), some[1..], more);
    }
  }

  lemma OrderedBehind(x: Route, rest: seq<Route>, tail: seq<Route>)
    requires OrderedAsIn(rest, tail) && x !in rest && forall r :: r in rest ==> r in tail
    ensures OrderedAsIn(rest, [x] + tail) && OrderedAsIn([x] + rest, [x] + tail)
  {
    forall r | r in rest
      ensures FirstIndex([x] + tail, r) == 1 + FirstIndex(tail, r)
    {
      FirstIndexConcat([x], tail, r);
    }
  }

  lemma {:induction false} RemoveIfKeepsOrder(rs: seq<Route>, p: Route -> bool)
    requires Distinct(rs)
    ensures OrderedAsIn(RemoveIf(rs, p), rs)
  {
    if rs != [] {
      var rest := RemoveIf(rs[1..], p);
      RemoveIfKeepsOrder(rs[1..], p);
      RemoveIfSubset(rs[1..], p);
      DistinctTail(rs);
      OrderedBehind(rs[0], rest, rs[1..]);
      assert rs == [rs[0]] + rs[1..] && [] + rest == rest;
    }
  }

  lemma {:induction false} AddAllLast(rs: seq<Route>, more: seq<Route>, r: Route)
    ensures AddAll(rs, more + [r]) == Added(AddAll(rs, more), r)
    decreases |more|
  {
    if more == [] {
      assert (more + [r])[1..] == [];
    } else {
      assert (more + [r])[1..] == more[1..] + [r];
      AddAllLast(Added(rs, more[0]), more[1..], r);
    }
  }

  lemma {:induction false} AddAllDistinct(rs: seq<Route>, more: seq<Route>)
    requires Distinct(rs + more)
    ensures AddAll(rs, more) == rs + more
    decreases |more|
  {
    if more != [] {
      assert more[0] !in rs by {
        forall i | 0 <= i < |rs|
          ensures rs[i] != more[0]
        {
          assert (rs + more)[i] != (rs + more)[|rs|];
        }
      }
      assert rs + more == (rs + [more[0]]) + more[1..];
      AddAllDistinct(rs + [more[0]], more[1..]);
    }
  }

  // ---- Well-known networks ----

  const V4_DEFAULT := InetNetwork(Bytes.Fill(4, 0), 0)
  const V6_DEFAULT := InetNetwork(Bytes.Fill(16, 0), 0)
  const V6_GLOBAL := InetNetwork([0x20] + Bytes.Fill(15, 0), 3)
  const V4_LOOPBACK := InetNetwork([127] + Bytes.Fill(3, 0), 8)
  const V6_LOOPBACK := InetNetwork(Bytes.Fill(15, 0) + [1], 128)
  const TIRAMISU := 33

  ghost predicate IsLoopback(a: seq<byte>) {
    (|a| == 4 && a[0] == 127) || a == V6_LOOPBACK.address
  }

  /** The first byte's high bits that a mask of at most 8 keeps. */
  ghost function KeptBits(net: InetNetwork): int
    requires |net.address| > 0 && 0 <= net.mask <= 8
  {
    Floor(net.address[0] as nat, 8 - net.mask)
  }

  lemma FirstByteRange(net: InetNetwork, p: nat)
    requires |net.address| > 0 && 0 <= net.mask <= 8 && p == Pow2(8 * (|net.address| - 1))
    ensures RangeOf(net).Lo() == KeptBits(net) * p
    ensures RangeOf(net).Hi() == KeptBits(net) * p + Pow2(8 - net.mask) * p - 1
  {
    var b, t := net.address, 8 - net.mask;
    Pow2Add(t, 8 * (|b| - 1));
    assert FreeBits(net) == t + 8 * (|b| - 1);
    RangeIsBlock(net);
    FirstByteFloor(b, t, p);
  }

  /** Clearing bits down into the first byte leaves that byte's high bits only. */
  lemma FirstByteFloor(b: seq<byte>, t: nat, p: nat)
    requires |b| > 0 && t <= 8 && p == Pow2(8 * (|b| - 1))
    ensures Floor(Val(b), t + 8 * (|b| - 1)) == Floor(b[0] as nat, t) * p
  {
    LeadingByte(b, 0);
    ValBound(b[1..]);
    assert b[0..] == b;
    Pow2Add(t, 8 * (|b| - 1));
    RoundWords(b[0] as nat, Val(b[1..]), p, Pow2(t));
  }

  /** A mask of at most 8 constrains only the first byte. */
  lemma FirstByteNetwork(net: InetNetwork, a: seq<byte>)
    requires |net.address| > 0 && |a| == |net.address| && 0 <= net.mask <= 8
    ensures RangeOf(net).Has(a) <==> KeptBits(net) <= a[0] as int < KeptBits(net) + Pow2(8 - net.mask)
  {
    var p := Pow2(8 * (|a| - 1));
    FirstByteRange(net, p);
    LeadingByte(a, 0);
    ValBound(a[1..]);
    assert a[0..] == a;
    FloorIsMultiple(net.address[0] as nat, 8 - net.mask);
    Between(KeptBits(net), Pow2(8 - net.mask), p, a[0] as nat, Val(a[1..]));
  }

  lemma RoundWords(x: nat, u: nat, p: nat, q: nat)
    requires u < p && q > 0
    ensures var v := x * p + u; v - v % (q * p) == (x - x % q) * p
  {
    var k, r := x / q, x % q;
    assert x * p == (q * k + r) * p == (q * p) * k + r * p;
    assert r * p + u < q * p by {
      MulMonotone(p, r + 1, q);
      assert p * (r + 1) == r * p + p && p * q == q * p;
    }
    assert r * p >= 0;
    DivModUnique(x * p + u, q * p, k, r * p + u);
    assert (q * p) * k == (q * k) * p;
  }

  lemma Between(lo: nat, q: nat, p: nat, y: nat, w: nat)
    requires w < p
    ensures lo * p <= y * p + w < lo * p + q * p <==> lo <= y < lo + q
  {
    assert lo * p + q * p == (lo + q) * p;
    if y < lo {
      Lexicographic(p, y, w, lo, 0);
    } else if y >= lo + q {
      MulMonotone(p, lo + q, y);
    } else {
      MulMonotone(p, lo, y);
      Lexicographic(p, y, w, lo + q, 0);
    }
  }

  /** A mask of 0 leaves all addresses of the family. */
  lemma WholeFamily(net: InetNetwork, a: seq<byte>)
    requires net.mask == 0
    ensures RangeOf(net).Has(a) <==> |a| == |net.address|
  {
    ValBound(net.address);
    RangeIsBlock(net);
    if |a| == |net.address| {
      ValBound(a);
      SmallRemainder(Val(net.address), Pow2(Width(a)));
    }
  }

  lemma SmallRemainder(v: nat, p: nat)
    requires v < p
    ensures v % p == v
  {
  }

  lemma DefaultV4Network(a: seq<byte>)
    ensures RangeOf(V4_DEFAULT).Has(a) <==> |a| == 4
  {
    WholeFamily(V4_DEFAULT, a);
  }

  lemma DefaultV6Network(a: seq<byte>)
    ensures RangeOf(V6_DEFAULT).Has(a) <==> |a| == 16
  {
    WholeFamily(V6_DEFAULT, a);
  }

  lemma GlobalNetwork(a: seq<byte>)
    ensures RangeOf(V6_GLOBAL).Has(a) <==> |a| == 16 && 0x20 <= a[0] <= 0x3f
  {
    assert Pow2(5) == 32;
    if |a| == 16 {
      FirstByteNetwork(V6_GLOBAL, a);
    }
  }

  lemma LoopbackNetworks(a: seq<byte>)
    ensures RangeOf(V4_LOOPBACK).Has(a) || RangeOf(V6_LOOPBACK).Has(a) <==> IsLoopback(a)
  {
    assert Pow2(0) == 1;
    if |a| == 4 {
      FirstByteNetwork(V4_LOOPBACK, a);
    } else if |a| == 16 && Val(a) == Val(V6_LOOPBACK.address) {
      ValInjective(a, V6_LOOPBACK.address);
    }
  }

  /** 0.0.0.0, ::, 2000::, 127.0.0.0 and ::1 as numbers, with their widths and masks. */
  lemma WellKnownNetworks()
    ensures |V4_DEFAULT.address| == 4 && Val(V4_DEFAULT.address) == 0 && V4_DEFAULT.mask == 0
    ensures |V6_DEFAULT.address| == 16 && Val(V6_DEFAULT.address) == 0 && V6_DEFAULT.mask == 0
    ensures |V6_GLOBAL.address| == 16 && Val(V6_GLOBAL.address) == 0x20 * Pow2(120) && V6_GLOBAL.mask == 3
    ensures |V4_LOOPBACK.address| == 4 && Val(V4_LOOPBACK.address) == 127 * Pow2(24) && V4_LOOPBACK.mask == 8
    ensures |V6_LOOPBACK.address| == 16 && Val(V6_LOOPBACK.address) == 1 && V6_LOOPBACK.mask == 128
  {
    ZerosAndOnes(V4_DEFAULT.address);
    ZerosAndOnes(V6_DEFAULT.address);
    FirstByteThenZeros(0x20, 15);
    FirstByteThenZeros(127, 3);
    ZerosThenOne(15);
  }

  lemma ZerosThenOne(n: nat)
    ensures Val(Bytes.Fill(n, 0) + [1]) == 1
  {
    var zeros := Bytes.Fill(n, 0);
    ZerosAndOnes(zeros);
    ValPush(zeros, 1);
  }

  lemma FirstByteThenZeros(b: byte, n: nat)
    ensures Val([b] + Bytes.Fill(n, 0)) == (b as nat) * Pow2(8 * n)
  {
    var all := [b] + Bytes.Fill(n, 0);
    LeadingByte(all, 0);
    assert all[0..] == all && all[1..] == Bytes.Fill(n, 0);
    ZerosAndOnes(Bytes.Fill(n, 0));
  }

  /** Loopback is 127.x.x.x, and the IPv6 address 1. */
  lemma LoopbackAddresses(a: seq<byte>)
    ensures IsLoopback(a) <==> (|a| == 4 && a[0] == 127) || (|a| == 16 && Val(a) == 1)
  {
    WellKnownNetworks();
    if |a| == 16 && Val(a) == 1 {
      ValInjective(a, V6_LOOPBACK.address);
    }
  }

  // ---- What a route list means ----

  /** Which networks contain the address a. */
  ghost function Hits(a: seq<byte>): InetNetwork -> bool { (n: InetNetwork) => RangeOf(n).Has(a) }

  /** Whether the last route that is hit includes; absent if no route is hit. */
  ghost function LastMatch(rs: seq<Route>, hit: InetNetwork -> bool): Option<bool> {
    if rs == [] then None
    else
      var r := rs[|rs| - 1];
      if hit(r.inetNetwork) then Some(r.included) else LastMatch(rs[..|rs| - 1], hit)
  }

  /** Route i is hit and no later route is. */
  ghost predicate LastHit(rs: seq<Route>, hit: InetNetwork -> bool, i: int) {
    && 0 <= i < |rs| && hit(rs[i].inetNetwork)
    && forall j :: i < j < |rs| ==> !hit(rs[j].inetNetwork)
  }

  lemma {:induction false} LastMatchIsLast(rs: seq<Route>, hit: InetNetwork -> bool, b: bool)
    ensures LastMatch(rs, hit) == Some(b) <==> exists i :: LastHit(rs, hit, i) && rs[i].included == b
    decreases |rs|
  {
    if rs != [] {
      var n := |rs| - 1;
      LastMatchIsLast(rs[..n], hit, b);
      if hit(rs[n].inetNetwork) {
        assert LastHit(rs, hit, n);
      } else {
        forall i
          ensures LastHit(rs, hit, i) <==> LastHit(rs[..n], hit, i)
        {
        }
      }
    }
  }

  /** The addresses a route list sends through the tunnel: last writer wins. */
  ghost function Wanted(rs: seq<Route>): iset<seq<byte>> { iset a | LastMatch(rs, Hits(a)) == Some(true) }

  ghost function Loopback(): iset<seq<byte>> { iset a | IsLoopback(a) }

  /** nets is the prefix list of the set `want` in normal form: exact, disjoint, fewest, unique. */
  ghost predicate IsTableFor(nets: seq<InetNetwork>, want: iset<seq<byte>>) {
    exists rs :: Normal(rs) && EncodesAll(nets, rs) && Denotes(rs) == want
  }

  function IncludeAll(nets: seq<InetNetwork>): (rs: seq<Route>)
    ensures |rs| == |nets| && forall i :: 0 <= i < |nets| ==> rs[i] == Route(nets[i], true)
  {
    seq(|nets|, i requires 0 <= i < |nets| => Route(nets[i], true))
  }

  function ExcludeAll(nets: seq<InetNetwork>): (rs: seq<Route>)
    ensures |rs| == |nets| && forall i :: 0 <= i < |nets| ==> rs[i] == Route(nets[i], false)
  {
    seq(|nets|, i requires 0 <= i < |nets| => Route(nets[i], false))
  }

  lemma TableIsExact(nets: seq<InetNetwork>, want: iset<seq<byte>>, a: seq<byte>)
    requires IsTableFor(nets, want)
    ensures a in want <==> Routed(nets, a)
  {
    var rs :| Normal(rs) && EncodesAll(nets, rs) && Denotes(rs) == want;
    SubnetsAreExact(nets, rs, a);
  }

  lemma TableIsDistinct(nets: seq<InetNetwork>, want: iset<seq<byte>>)
    requires IsTableFor(nets, want)
    ensures Distinct(nets)
  {
    var rs :| Normal(rs) && EncodesAll(nets, rs) && Denotes(rs) == want;
    forall i, j | 0 <= i < j < |nets|
      ensures nets[i] != nets[j]
    {
      SubnetsAscend(nets, rs, i, j);
    }
  }

  /** A prefix of the table starts at its own address, which is therefore wanted. */
  lemma TableAddressIsWanted(nets: seq<InetNetwork>, want: iset<seq<byte>>, i: nat)
    requires IsTableFor(nets, want) && i < |nets|
    ensures nets[i].address in want
  {
    TableIsExact(nets, want, nets[i].address);
    RangeIsBlock(nets[i]);
  }

  predicate LoopbackRoute(r: Route) {
    if r.inetNetwork.IsIpv4() then r.inetNetwork.address[0] == 127
    else r.inetNetwork == V6_LOOPBACK
  }

  lemma {:induction false} RemoveNothing(rs: seq<Route>, p: Route -> bool)
    requires forall r :: r in rs ==> !p(r)
    ensures RemoveIf(rs, p) == rs
  {
    if rs != [] {
      RemoveNothing(rs[1..], p);
      assert rs == [rs[0]] + rs[1..];
    }
  }

  /** On the flattened path the final loopback filter has nothing left to remove. */
  lemma LoopbackFilterIsIdle(nets: seq<InetNetwork>, want: iset<seq<byte>>)
    requires IsTableFor(nets, want - Loopback())
    ensures RemoveIf(IncludeAll(nets), LoopbackRoute) == IncludeAll(nets)
  {
    var rs := IncludeAll(nets);
    forall r | r in rs
      ensures !LoopbackRoute(r)
    {
      var i :| 0 <= i < |rs| && rs[i] == r;
      TableAddressIsWanted(nets, want - Loopback(), i);
    }
    RemoveNothing(rs, LoopbackRoute);
  }

  // ---- The steps of configBuild as relations on route lists ----

  /** prependRoutes: the block's routes first, then the saved ones that are not among them. */
  function Prepended(block: seq<Route>, rs: seq<Route>): seq<Route> {
    AddAll(AddAll([], block), rs)
  }

  /** A list with the members of both, in the order of their first occurrence, is no other. */
  lemma PrependedIs(block: seq<Route>, rs: seq<Route>, all: seq<Route>)
    requires OrderedAsIn(all, block + rs) && forall r :: r in all <==> r in block || r in rs
    ensures all == Prepended(block, rs)
  {
    AddAllConcat([], block, rs);
    AddAllKeepsFirsts(block + rs);
    MembersAndOrder(all, Prepended(block, rs), block + rs);
  }

  /** The contract of AddRoute and ExcludeRoute leaves one list only. */
  lemma AddedIs(rs: seq<Route>, r: Route, all: seq<Route>)
    requires Distinct(all) && rs <= all && forall x :: x in all <==> x in rs || x == r
    ensures all == Added(rs, r)
  {
    var n := |rs|;
    assert all == rs + all[n..];
    assert |all| > n + 1 ==> all[n] != all[n + 1];
    forall k | n <= k < |all|
      ensures all[k] == r && r !in rs
    {
      assert all[k] in all && forall i :: 0 <= i < n ==> all[i] != all[k];
    }
    assert |all| > n ==> all[n] == r && r !in rs;
    assert r in all;
    if r in rs {
      assert all[n..] == [];
    } else {
      assert all[n..] == [r];
    }
  }

  lemma WithoutNetworkIs(rs: seq<Route>, net: InetNetwork, kept: seq<Route>)
    requires Distinct(rs) && OrderedAsIn(kept, rs)
    requires forall r :: r in kept <==> r in rs && r.inetNetwork != net
    ensures kept == WithoutNetwork(rs, net)
  {
    RemoveIfSubset(rs, OnNetwork(net));
    RemoveIfKeepsOrder(rs, OnNetwork(net));
    MembersAndOrder(kept, WithoutNetwork(rs, net), rs);
  }

  /** order lists the members of an unordered set. */
  ghost predicate IsOrder(order: seq<InetNetwork>, s: set<InetNetwork>) {
    Distinct(order) && forall x :: x in order <==> x in s
  }

  function WithoutNetwork(rs: seq<Route>, net: InetNetwork): seq<Route> {
    RemoveIf(rs, OnNetwork(net))
  }

  function OnNetwork(net: InetNetwork): Route -> bool { (r: Route) => r.inetNetwork == net }

  predicate IncludesV6Default(r: Route) { r == Route(V6_DEFAULT, true) }

  function WithoutDefaults(rs: seq<Route>): seq<Route> {
    WithoutNetwork(WithoutNetwork(WithoutNetwork(rs, V4_DEFAULT), V6_DEFAULT), V6_GLOBAL)
  }

  const EVERYTHING := [Route(V4_DEFAULT, true), Route(V6_GLOBAL, true)]

  ghost predicate SplitTunneled(before: seq<Route>, after: seq<Route>, inc: set<InetNetwork>, exc: set<InetNetwork>) {
    if inc != {} then
      exists order :: IsOrder(order, inc) && after == Prepended(IncludeAll(order), WithoutDefaults(before))
    else if exc != {} then
      exists order :: IsOrder(order, exc) && after == Prepended(EVERYTHING + ExcludeAll(order), before)
    else
      after == before
  }

  /** ::/0, when included, gives way to 2000::/3 in first position. */
  function DefaultReplaced(rs: seq<Route>): seq<Route> {
    var kept := RemoveIf(rs, IncludesV6Default);
    if |kept| < |rs| then Prepended([Route(V6_GLOBAL, true)], kept) else rs
  }

  predicate HasExclude(rs: seq<Route>) { exists r :: r in rs && !r.included }

  ghost predicate Processed(before: seq<Route>, after: seq<Route>, sdk: int) {
    var rs := DefaultReplaced(before);
    if sdk < TIRAMISU && HasExclude(rs) then
      exists nets :: after == IncludeAll(nets) && IsTableFor(nets, Wanted(rs) - Loopback())
    else
      after == RemoveIf(rs, LoopbackRoute)
  }

  /** Every mask is one that IpRange.from accepts (it fails for masks of -8 and below). */
  ghost predicate UsableMasks(rs: seq<Route>) {
    forall r :: r in rs ==> r.inetNetwork.mask > -8
  }

  class Builder {
    var addresses: set<InetNetwork>
    var routes: seq<Route>
    var includedAddresses: set<InetNetwork>
    var excludedAddresses: set<InetNetwork>
    var mtu: int

    /** The route set holds nothing twice. */
    ghost predicate Valid()
      reads this`routes
    {
      Distinct(routes)
    }

    constructor ()
      ensures Valid()
      ensures routes == [] && addresses == includedAddresses == excludedAddresses == {} && mtu == 0
    {
      addresses, includedAddresses, excludedAddresses := {}, {}, {};
      routes, mtu := [], 0;
    }

    /** What was there stays in front, and the include is there now. */
    method AddRoute(route: InetNetwork)
      requires Valid()
      modifies this`routes
      ensures Valid() && old(routes) <= routes
      ensures forall r :: r in routes <==> r in old(routes) || r == Route(route, true)
    {
      routes := Added(routes, Route(route, true));
    }

    /** What was there stays in front, and the exclude is there now. */
    method ExcludeRoute(route: InetNetwork)
      requires Valid()
      modifies this`routes
      ensures Valid() && old(routes) <= routes
      ensures forall r :: r in routes <==> r in old(routes) || r == Route(route, false)
    {
      routes := Added(routes, Route(route, false));
    }

    method AddEach(more: seq<Route>)
      modifies this`routes
      ensures routes == AddAll(old(routes), more)
    {
      for i := 0 to |more|
        invariant routes == AddAll(old(routes), more[..i])
      {
        AddAllStep(old(routes), more, i);
        routes := Added(routes, more[i]);
      }
      assert more[..|more|] == more;
    }

    /** Exactly the routes on that network go, include or exclude; the others keep their order. */
    method RemoveRoute(route: InetNetwork)
      requires Valid()
      modifies this`routes
      ensures Valid() && OrderedAsIn(routes, old(routes))
      ensures forall r :: r in routes <==> r in old(routes) && r.inetNetwork != route
    {
      RemoveIfSubset(routes, OnNetwork(route));
      RemoveIfKeepsOrder(routes, OnNetwork(route));
      routes := RemoveIf(routes, OnNetwork(route));
    }

    /**
     block stands for the routes that the block passed to prependRoutes adds. They come first,
     then the old ones that are not among them, everything once and in its order.
     */
    method PrependRoutes(block: seq<Route>)
      requires Valid()
      modifies this`routes
      ensures Valid() && OrderedAsIn(routes, block + old(routes))
      ensures forall r :: r in routes <==> r in block || r in old(routes)
    {
      var savedRoutes := routes;
      routes := [];
      AddEach(block);
      AddEach(savedRoutes);
      AddAllConcat([], block, savedRoutes);
      AddAllKeepsFirsts(block + savedRoutes);
    }

    /** A hash set is walked in an order that nothing is known about. */
    method Listed(s: set<InetNetwork>) returns (order: seq<InetNetwork>)
      ensures IsOrder(order, s)
    {
      order := [];
      var rest := s;
      while rest != {}
        invariant Distinct(order) && rest <= s
        invariant forall x :: x in order <==> x in s && x !in rest
      {
        var x :| x in rest;
        order, rest := order + [x], rest - {x};
      }
    }

    method RemoveDefaults()
      requires Valid()
      modifies this`routes
      ensures Valid() && routes == WithoutDefaults(old(routes))
    {
      ghost var rs0 := routes;
      RemoveRoute(V4_DEFAULT);
      ghost var rs1 := routes;
      RemoveRoute(V6_DEFAULT);
      ghost var rs2 := routes;
      RemoveRoute(V6_GLOBAL);
      WithoutNetworkIs(rs0, V4_DEFAULT, rs1);
      WithoutNetworkIs(rs1, V6_DEFAULT, rs2);
      WithoutNetworkIs(rs2, V6_GLOBAL, routes);
    }

    method ProcessSplitTunneling() returns (r: Result<()>)
      requires Valid()
      modifies this`routes
      ensures Valid()
      ensures r.Failure? <==> includedAddresses != {} && excludedAddresses != {}
      ensures r.Failure? ==> routes == old(routes)
      ensures r.Success? ==> SplitTunneled(old(routes), routes, includedAddresses, excludedAddresses)
    {
      if includedAddresses != {} && excludedAddresses != {} {
        return Failure("Config contains addresses for inclusive and exclusive split tunneling at the same time");
      }
      if includedAddresses != {} {
        RemoveDefaults();
        var order := Listed(includedAddresses);
        ghost var kept := routes;
        PrependRoutes(IncludeAll(order));
        PrependedIs(IncludeAll(order), kept, routes);
      } else if excludedAddresses != {} {
        var order := Listed(excludedAddresses);
        PrependRoutes(EVERYTHING + ExcludeAll(order));
        PrependedIs(EVERYTHING + ExcludeAll(order), old(routes), routes);
      }
      return Success(());
    }

    /** The routes, applied in order to an address set that starts empty, as prefixes. */
    method Flatten() returns (nets: seq<InetNetwork>)
      requires UsableMasks(routes)
      ensures IsTableFor(nets, Wanted(routes) - Loopback())
    {
      var ipRangeSet := new IpRangeSet();
      for i := 0 to |routes|
        invariant Normal(ipRangeSet.ranges) && Denotes(ipRangeSet.ranges) == Wanted(routes[..i])
      {
        var r := routes[i];
        var range := From(r.inetNetwork);
        if r.included {
          ipRangeSet.Add(range);
        } else {
          ipRangeSet.Remove(range);
        }
        WantedStep(routes, i);
      }
      assert routes[..|routes|] == routes;
      var v4 := From(V4_LOOPBACK);
      ipRangeSet.Remove(v4);
      var v6 := From(V6_LOOPBACK);
      ipRangeSet.Remove(v6);
      LoopbackRemoved(Wanted(routes), Denotes(ipRangeSet.ranges));
      nets := ipRangeSet.Subnets();
    }

    method ProcessRoutes(sdk: int)
      requires Valid() && UsableMasks(routes)
      modifies this`routes
      ensures Valid() && Processed(old(routes), routes, sdk)
    {
      ReplaceDefault();
      if sdk < TIRAMISU && HasExclude(routes) {
        ghost var want := Wanted(routes) - Loopback();
        var nets := Flatten();
        routes := [];
        TableIsDistinct(nets, want);
        AddAllDistinct([], IncludeAll(nets));
        assert [] + IncludeAll(nets) == IncludeAll(nets);
        AddEach(IncludeAll(nets));
        LoopbackFilterIsIdle(nets, Wanted(DefaultReplaced(old(routes))));
      }
      RemoveIfKeepsOrder(routes, LoopbackRoute);
      routes := RemoveIf(routes, LoopbackRoute);
    }

    method ReplaceDefault()
      requires Valid()
      modifies this`routes
      ensures Valid() && routes == DefaultReplaced(old(routes))
      ensures UsableMasks(old(routes)) ==> UsableMasks(routes)
    {
      var before := |routes|;
      RemoveIfSubset(routes, IncludesV6Default);
      RemoveIfKeepsOrder(routes, IncludesV6Default);
      routes := RemoveIf(routes, IncludesV6Default);
      if |routes| < before {
        ghost var kept := routes;
        PrependRoutes([Route(V6_GLOBAL, true)]);
        PrependedIs([Route(V6_GLOBAL, true)], kept, routes);
      }
    }

    method Validate() returns (r: Result<()>)
      ensures r.Success? <==> addresses != {} && routes != [] && mtu != 0
    {
      var errorMessage := (if addresses == {} then "VPN interface network address not specified.\n" else "")
                          + (if routes == [] then "VPN interface route not specified.\n" else "")
                          + (if mtu == 0 then "MTU not set.\n" else "");
      r := if errorMessage != "" then Failure(errorMessage) else Success(());
    }

    /** Split tunnelling, then route processing, then validation of the result. */
    method ConfigBuild(sdk: int) returns (r: Result<()>)
      requires Valid() && UsableMasks(routes)
      requires forall n :: n in includedAddresses + excludedAddresses ==> n.mask > -8
      modifies this`routes
      ensures Valid()
      ensures includedAddresses != {} && excludedAddresses != {} ==> r.Failure? && routes == old(routes)
      ensures includedAddresses == {} || excludedAddresses == {} ==>
                && Built(old(routes), routes, includedAddresses, excludedAddresses, sdk)
                && (r.Success? <==> addresses != {} && routes != [] && mtu != 0)
    {
      r := ProcessSplitTunneling();
      if r.Success? {
        ghost var mid := routes;
        SplitTunneledMembers(old(routes), routes, includedAddresses, excludedAddresses);
        ProcessRoutes(sdk);
        assert SplitTunneled(old(routes), mid, includedAddresses, excludedAddresses) && Processed(mid, routes, sdk);
        r := Validate();
      }
    }
  }

  /** What configBuild does to the routes when at most one split-tunnelling set is given. */
  ghost predicate Built(before: seq<Route>, after: seq<Route>, inc: set<InetNetwork>, exc: set<InetNetwork>, sdk: int) {
    exists mid :: SplitTunneled(before, mid, inc, exc) && Processed(mid, after, sdk)
  }

  lemma SplitTunneledMembers(before: seq<Route>, after: seq<Route>, inc: set<InetNetwork>, exc: set<InetNetwork>)
    requires SplitTunneled(before, after, inc, exc)
    ensures forall r :: r in after ==> r in before || r.inetNetwork in inc + exc || r in EVERYTHING
  {
    if inc != {} {
      var order :| IsOrder(order, inc) && after == Prepended(IncludeAll(order), WithoutDefaults(before));
      RemoveIfSubset(before, OnNetwork(V4_DEFAULT));
      RemoveIfSubset(WithoutNetwork(before, V4_DEFAULT), OnNetwork(V6_DEFAULT));
      RemoveIfSubset(WithoutNetwork(WithoutNetwork(before, V4_DEFAULT), V6_DEFAULT), OnNetwork(V6_GLOBAL));
    } else if exc != {} {
      var order :| IsOrder(order, exc) && after == Prepended(EVERYTHING + ExcludeAll(order), before);
    }
  }

  lemma WantedStep(rs: seq<Route>, i: nat)
    requires i < |rs|
    ensures Wanted(rs[..i + 1]) == if rs[i].included then Wanted(rs[..i]) + RangeOf(rs[i].inetNetwork).Addresses()
                                   else Wanted(rs[..i]) - RangeOf(rs[i].inetNetwork).Addresses()
  {
    assert rs[..i + 1][..i] == rs[..i];
  }

  lemma LoopbackRemoved(want: iset<seq<byte>>, left: iset<seq<byte>>)
    requires left == want - RangeOf(V4_LOOPBACK).Addresses() - RangeOf(V6_LOOPBACK).Addresses()
    ensures left == want - Loopback()
  {
    forall a
      ensures a in left <==> a in want && a !in Loopback()
    {
      LoopbackNetworks(a);
    }
  }

  lemma {:induction false} RemoveIfSubset(rs: seq<Route>, p: Route -> bool)
    ensures |RemoveIf(rs, p)| <= |rs|
    ensures |RemoveIf(rs, p)| == |rs| ==> RemoveIf(rs, p) == rs
    ensures forall r :: r in RemoveIf(rs, p) <==> r in rs && !p(r)
  {
    if rs != [] {
      RemoveIfSubset(rs[1..], p);
      assert rs == [rs[0]] + rs[1..];
    }
  }

  // ---- Last writer wins, end to end ----

  /** The finished list covers the address a. */
  ghost predicate Covered(after: seq<Route>, a: seq<byte>) {
    exists r :: r in after && Hits(a)(r.inetNetwork)
  }

  /** The last route of rs that contains a includes it. */
  ghost predicate LastIncludes(rs: seq<Route>, a: seq<byte>) {
    exists i :: LastHit(rs, Hits(a), i) && rs[i].included
  }

  /**
   On the legacy path the finished list routes an address exactly when the last route that
   contains it includes it and it is not a loopback address.
   */
  lemma LegacyIsLastWriterWins(before: seq<Route>, after: seq<Route>, sdk: int, a: seq<byte>)
    requires Processed(before, after, sdk) && sdk < TIRAMISU && HasExclude(DefaultReplaced(before))
    ensures (forall r :: r in after ==> r.included)
    ensures Covered(after, a) <==> !IsLoopback(a) && LastIncludes(DefaultReplaced(before), a)
  {
    var rs := DefaultReplaced(before);
    var nets :| after == IncludeAll(nets) && IsTableFor(nets, Wanted(rs) - Loopback());
    TableIsExact(nets, Wanted(rs) - Loopback(), a);
    LastMatchIsLast(rs, Hits(a), true);
    RoutedIsHit(nets, a);
  }

  lemma SomeHit(nets: seq<InetNetwork>, hit: InetNetwork -> bool)
    ensures (exists i :: 0 <= i < |nets| && hit(nets[i]))
       <==> exists r :: r in IncludeAll(nets) && hit(r.inetNetwork)
  {
    var rs := IncludeAll(nets);
    if i :| 0 <= i < |nets| && hit(nets[i]) {
      assert rs[i] in rs && hit(rs[i].inetNetwork);
    }
    if r :| r in rs && hit(r.inetNetwork) {
      var i :| 0 <= i < |rs| && rs[i] == r;
      assert hit(nets[i]);
    }
  }

  lemma RoutedIsHit(nets: seq<InetNetwork>, a: seq<byte>)
    ensures Routed(nets, a) <==> exists r :: r in IncludeAll(nets) && Hits(a)(r.inetNetwork)
  {
    var hit := Hits(a);
    SomeHit(nets, hit);
    assert forall i :: 0 <= i < |nets| ==> (hit(nets[i]) <==> RangeOf(nets[i]).Has(a));
  }

  // ---- What ::/0 does to the caller's list ----

  /** The routes that ::/0 and its replacement push around. */
  predicate IsDefaultV6(r: Route) { r == Route(V6_DEFAULT, true) || r == Route(V6_GLOBAL, true) }

  function Others(rs: seq<Route>): seq<Route> { RemoveIf(rs, IsDefaultV6) }

  function Is(r: Route): Route -> bool { (x: Route) => x == r }

  lemma FirstThenRest(g: Route, rs: seq<Route>)
    requires Distinct(rs)
    ensures Prepended([g], rs) == [g] + RemoveIf(rs, Is(g))
  {
    var rest := RemoveIf(rs, Is(g));
    RemoveIfSubset(rs, Is(g));
    RemoveIfKeepsOrder(rs, Is(g));
    OrderedBehind(g, rest, rs);
    PrependedIs([g], rs, [g] + rest);
  }

  lemma {:induction false} RemoveTwice(rs: seq<Route>)
    ensures RemoveIf(RemoveIf(rs, IncludesV6Default), Is(Route(V6_GLOBAL, true))) == Others(rs)
  {
    if rs != [] {
      RemoveTwice(rs[1..]);
      var rest := RemoveIf(rs[1..], IncludesV6Default);
      assert ([rs[0]] + rest)[1..] == rest && [] + rest == rest;
    }
  }

  /** An included ::/0 sends 2000::/3 to the front, from wherever it was, and disappears. */
  lemma DefaultReplacedIs(rs: seq<Route>)
    requires Distinct(rs)
    ensures DefaultReplaced(rs) ==
              if Route(V6_DEFAULT, true) in rs then [Route(V6_GLOBAL, true)] + Others(rs) else rs
  {
    var kept, g := RemoveIf(rs, IncludesV6Default), Route(V6_GLOBAL, true);
    RemoveIfSubset(rs, IncludesV6Default);
    if Route(V6_DEFAULT, true) in rs {
      assert |kept| < |rs|;
      RemoveIfKeepsOrder(rs, IncludesV6Default);
      FirstThenRest(g, kept);
      RemoveTwice(rs);
    } else {
      RemoveNothing(rs, IncludesV6Default);
    }
  }

  lemma {:induction false} LastMatchBehind(r: Route, rs: seq<Route>, hit: InetNetwork -> bool)
    ensures LastMatch([r] + rs, hit)
         == LastMatch(rs, hit).OrElse(if hit(r.inetNetwork) then Some(r.included) else None)
    decreases |rs|
  {
    var all := [r] + rs;
    if rs == [] {
      assert all[..0] == [];
    } else {
      assert all[..|all| - 1] == [r] + rs[..|rs| - 1];
      LastMatchBehind(r, rs[..|rs| - 1], hit);
    }
  }

  /** What the caller's list comes to: with ::/0 in it, the other routes decide, then 2000::/3. */
  ghost function RoutedAs(rs: seq<Route>, hit: InetNetwork -> bool): Option<bool> {
    if Route(V6_DEFAULT, true) in rs then
      LastMatch(Others(rs), hit).OrElse(if hit(V6_GLOBAL) then Some(true) else None)
    else
      LastMatch(rs, hit)
  }

  lemma ReplacedMeaning(rs: seq<Route>, hit: InetNetwork -> bool)
    requires Distinct(rs)
    ensures LastMatch(DefaultReplaced(rs), hit) == RoutedAs(rs, hit)
  {
    DefaultReplacedIs(rs);
    LastMatchBehind(Route(V6_GLOBAL, true), Others(rs), hit);
  }

  /** Route i is hit, is not one of the two default routes, and only those are hit after it. */
  ghost predicate LastOther(rs: seq<Route>, hit: InetNetwork -> bool, i: int) {
    && 0 <= i < |rs| && !IsDefaultV6(rs[i]) && hit(rs[i].inetNetwork)
    && forall k :: i < k < |rs| ==> IsDefaultV6(rs[k]) || !hit(rs[k].inetNetwork)
  }

  lemma {:induction false} LastOtherDecides(rs: seq<Route>, hit: InetNetwork -> bool, b: bool)
    ensures LastMatch(Others(rs), hit) == Some(b) <==> exists i :: LastOther(rs, hit, i) && rs[i].included == b
    decreases |rs|
  {
    if rs != [] {
      var n := |rs| - 1;
      var before, r := rs[..n], rs[n];
      assert rs == before + [r];
      RemoveIfConcat(before, [r], IsDefaultV6);
      LastOtherDecides(before, hit, b);
      if IsDefaultV6(r) || !hit(r.inetNetwork) {
        OthersWithoutLast(before, r, hit);
        forall i
          ensures LastOther(rs, hit, i) <==> LastOther(before, hit, i)
        {
        }
      } else {
        assert RemoveIf([r], IsDefaultV6) == [r];
        assert (Others(before) + [r])[..|Others(before)|] == Others(before);
        assert LastOther(rs, hit, n);
      }
    }
  }

  lemma OthersWithoutLast(before: seq<Route>, r: Route, hit: InetNetwork -> bool)
    requires IsDefaultV6(r) || !hit(r.inetNetwork)
    ensures LastMatch(Others(before + [r]), hit) == LastMatch(Others(before), hit)
  {
    RemoveIfConcat(before, [r], IsDefaultV6);
    if IsDefaultV6(r) {
      assert Others([r]) == [] && Others(before) + [] == Others(before);
    } else {
      assert Others([r]) == [r];
      assert (Others(before) + [r])[..|Others(before)|] == Others(before);
    }
  }

  /** Outside 2000::/3, and in no route but ::/0: no longer routed. */
  ghost predicate DefaultLost(rs: seq<Route>, hit: InetNetwork -> bool) {
    hit(V6_DEFAULT) && !hit(V6_GLOBAL) && forall r :: r in rs && !IsDefaultV6(r) ==> !hit(r.inetNetwork)
  }

  /** An exclude stands before a default route that was to win over it, and wins now. */
  ghost predicate DefaultDemoted(rs: seq<Route>, hit: InetNetwork -> bool) {
    exists i, j ::
      && LastOther(rs, hit, i) && !rs[i].included
      && i < j < |rs| && IsDefaultV6(rs[j]) && hit(rs[j].inetNetwork)
  }

  lemma {:induction false} NoMatch(rs: seq<Route>, hit: InetNetwork -> bool)
    ensures LastMatch(rs, hit).None? <==> forall r :: r in rs ==> !hit(r.inetNetwork)
    decreases |rs|
  {
    if rs != [] {
      assert rs == rs[..|rs| - 1] + [rs[|rs| - 1]];
      NoMatch(rs[..|rs| - 1], hit);
    }
  }

  /** With ::/0 in the list, the last writer wins exactly where neither of the two happens. */
  lemma LastWriterWinsExactly(rs: seq<Route>, hit: InetNetwork -> bool)
    requires Route(V6_DEFAULT, true) in rs && (hit(V6_GLOBAL) ==> hit(V6_DEFAULT))
    ensures (RoutedAs(rs, hit) == Some(true) <==> LastMatch(rs, hit) == Some(true))
       <==> !DefaultLost(rs, hit) && !DefaultDemoted(rs, hit)
  {
    RemoveIfSubset(rs, IsDefaultV6);
    NoMatch(Others(rs), hit);
    match LastMatch(Others(rs), hit)
    case None => NoOtherHit(rs, hit);
    case Some(true) => IncludeStays(rs, hit);
    case Some(false) => ExcludeMayWin(rs, hit);
  }

  lemma NoOtherHit(rs: seq<Route>, hit: InetNetwork -> bool)
    requires Route(V6_DEFAULT, true) in rs && (hit(V6_GLOBAL) ==> hit(V6_DEFAULT))
    requires forall r :: r in rs && !IsDefaultV6(r) ==> !hit(r.inetNetwork)
    ensures LastMatch(rs, hit) == Some(true) <==> hit(V6_DEFAULT)
    ensures !DefaultDemoted(rs, hit)
  {
    NoMatch(rs, hit);
    LastMatchIsLast(rs, hit, false);
  }

  lemma FindLast(rs: seq<Route>, hit: InetNetwork -> bool, i: nat) returns (m: nat)
    requires i < |rs| && hit(rs[i].inetNetwork)
    ensures i <= m && LastHit(rs, hit, m) && LastMatch(rs, hit) == Some(rs[m].included)
  {
    assert rs[i] in rs;
    NoMatch(rs, hit);
    LastMatchIsLast(rs, hit, LastMatch(rs, hit).value);
    m :| LastHit(rs, hit, m) && rs[m].included == LastMatch(rs, hit).value;
  }

  lemma IncludeStays(rs: seq<Route>, hit: InetNetwork -> bool)
    requires LastMatch(Others(rs), hit) == Some(true)
    ensures LastMatch(rs, hit) == Some(true)
    ensures !DefaultLost(rs, hit) && !DefaultDemoted(rs, hit)
  {
    LastOtherDecides(rs, hit, true);
    var i :| LastOther(rs, hit, i) && rs[i].included;
    assert rs[i] in rs;
    var m := FindLast(rs, hit, i);
    assert forall k :: LastOther(rs, hit, k) ==> k == i;
  }

  lemma ExcludeMayWin(rs: seq<Route>, hit: InetNetwork -> bool)
    requires LastMatch(Others(rs), hit) == Some(false)
    ensures !DefaultLost(rs, hit)
    ensures LastMatch(rs, hit) == Some(true) <==> DefaultDemoted(rs, hit)
  {
    LastOtherDecides(rs, hit, false);
    var i :| LastOther(rs, hit, i) && !rs[i].included;
    assert rs[i] in rs;
    var m := FindLast(rs, hit, i);
    assert forall k :: LastOther(rs, hit, k) ==> k == i;
  }

  /** What flattening makes of the caller's own list, for every list and every address. */
  lemma LegacyMeaning(before: seq<Route>, after: seq<Route>, sdk: int, a: seq<byte>)
    requires Distinct(before) && HasExclude(before) && sdk < 33 && Processed(before, after, sdk)
    ensures Covered(after, a) <==> !IsLoopback(a) && RoutedAs(before, Hits(a)) == Some(true)
  {
    var x :| x in before && !x.included;
    DefaultReplacedMembers(before);
    LegacyIsLastWriterWins(before, after, sdk, a);
    LastMatchIsLast(DefaultReplaced(before), Hits(a), true);
    ReplacedMeaning(before, Hits(a));
  }

  /** On the caller's own list the last writer wins exactly for these lists and addresses. */
  lemma LegacyAgreesExactly(before: seq<Route>, after: seq<Route>, sdk: int, a: seq<byte>)
    requires Distinct(before) && HasExclude(before) && sdk < 33 && Processed(before, after, sdk)
    ensures (Covered(after, a) <==> !IsLoopback(a) && LastIncludes(before, a))
       <==> || IsLoopback(a) || Route(V6_DEFAULT, true) !in before
            || (!DefaultLost(before, Hits(a)) && !DefaultDemoted(before, Hits(a)))
  {
    LegacyMeaning(before, after, sdk, a);
    LastMatchIsLast(before, Hits(a), true);
    GlobalInsideDefault(a);
    if Route(V6_DEFAULT, true) in before {
      LastWriterWinsExactly(before, Hits(a));
    }
  }

  lemma GlobalInsideDefault(a: seq<byte>)
    ensures Hits(a)(V6_DEFAULT) <==> |a| == 16
    ensures Hits(a)(V6_GLOBAL) <==> |a| == 16 && 0x20 <= a[0] <= 0x3f
  {
    DefaultV6Network(a);
    GlobalNetwork(a);
  }

  /** No IPv4 address is concerned: there the last writer always wins. */
  lemma LegacyV4IsLastWriterWins(before: seq<Route>, after: seq<Route>, sdk: int, a: seq<byte>)
    requires Distinct(before) && HasExclude(before) && sdk < 33 && Processed(before, after, sdk) && |a| == 4
    ensures Covered(after, a) <==> !IsLoopback(a) && LastIncludes(before, a)
  {
    LegacyAgreesExactly(before, after, sdk, a);
    GlobalInsideDefault(a);
  }

  const V6_SITE := InetNetwork([0x20, 0x01] + Bytes.Fill(14, 0), 16)

  /** An exclude, then ::/0, as a connection may add them: the exclude wins although ::/0 is last. */
  const EXCLUDE_THEN_DEFAULT := [Route(V6_SITE, false), Route(V6_DEFAULT, true)]

  /** ::/0, an exclude, 2000::/3: the last route loses its place to the new first one. */
  const DEFAULT_EXCLUDE_GLOBAL := [Route(V6_DEFAULT, true), Route(V6_SITE, false), Route(V6_GLOBAL, true)]

  lemma DefaultLosesToExclude(rs: seq<Route>, after: seq<Route>, sdk: int)
    requires rs == EXCLUDE_THEN_DEFAULT || rs == DEFAULT_EXCLUDE_GLOBAL
    requires Processed(rs, after, sdk) && sdk < TIRAMISU
    ensures Distinct(rs) && LastIncludes(rs, V6_SITE.address) && !Covered(after, V6_SITE.address)
  {
    var a := V6_SITE.address;
    RangeIsBlock(V6_SITE);
    GlobalInsideDefault(a);
    ListsAreDemoted(rs, Hits(a));
    LastMatchIsLast(rs, Hits(a), true);
    LegacyMeaning(rs, after, sdk, a);
    LastWriterWinsExactly(rs, Hits(a));
  }

  lemma ListsAreDemoted(rs: seq<Route>, hit: InetNetwork -> bool)
    requires rs == EXCLUDE_THEN_DEFAULT || rs == DEFAULT_EXCLUDE_GLOBAL
    requires hit(V6_SITE) && hit(V6_DEFAULT) && hit(V6_GLOBAL)
    ensures Distinct(rs) && HasExclude(rs) && Route(V6_DEFAULT, true) in rs
    ensures LastMatch(rs, hit) == Some(true) && DefaultDemoted(rs, hit)
  {
    assert V6_SITE.mask == 16 && V6_DEFAULT.mask == 0 && V6_GLOBAL.mask == 3;
    var e := if rs == EXCLUDE_THEN_DEFAULT then 0 else 1;
    assert rs[e] == Route(V6_SITE, false) && rs[e] in rs;
    assert LastOther(rs, hit, e);
    assert IsDefaultV6(rs[e + 1]) && e + 2 == |rs|;
    assert Route(V6_DEFAULT, true) == if rs == EXCLUDE_THEN_DEFAULT then rs[1] else rs[0];
  }

  // ---- Exclusive split tunnelling ----

  /** The routes a profile usually brings along. */
  ghost predicate OnlyDefaults(rs: seq<Route>) {
    forall r :: r in rs ==> r in EVERYTHING || r == Route(V6_DEFAULT, true)
  }

  lemma {:induction false} AddDefaults(rs: seq<Route>, saved: seq<Route>)
    requires OnlyDefaults(saved) && EVERYTHING[0] in rs && EVERYTHING[1] in rs
    ensures AddAll(rs, saved) == rs || AddAll(rs, saved) == rs + [Route(V6_DEFAULT, true)]
    ensures Route(V6_DEFAULT, true) in rs ==> AddAll(rs, saved) == rs
    decreases |saved|
  {
    if saved != [] {
      assert saved[0] in saved;
      AddDefaults(Added(rs, saved[0]), saved[1..]);
    }
  }

  /** Excludes at the end of a list beat every include before them. */
  lemma {:induction false} ExcludesWin(rs: seq<Route>, order: seq<InetNetwork>, hit: InetNetwork -> bool)
    ensures LastMatch(rs + ExcludeAll(order), hit)
         == if exists n :: n in order && hit(n) then Some(false) else LastMatch(rs, hit)
    decreases |order|
  {
    var all := rs + ExcludeAll(order);
    if order == [] {
      assert all == rs;
    } else {
      var k := |order| - 1;
      ExcludesWin(rs, order[..k], hit);
      assert all[..|all| - 1] == rs + ExcludeAll(order[..k]);
      assert order == order[..k] + [order[k]];
    }
  }

  lemma {:induction false} RemoveIfConcat(rs: seq<Route>, ss: seq<Route>, p: Route -> bool)
    ensures RemoveIf(rs + ss, p) == RemoveIf(rs, p) + RemoveIf(ss, p)
  {
    if rs == [] {
      assert rs + ss == ss;
    } else {
      assert (rs + ss)[1..] == rs[1..] + ss;
      RemoveIfConcat(rs[1..], ss, p);
    }
  }

  /** Whichever defaults were there, and in whatever order, two includes lead the excludes. */
  lemma ExclusiveList(saved: seq<Route>, order: seq<InetNetwork>)
    requires OnlyDefaults(saved) && Distinct(order)
    ensures var rs := DefaultReplaced(Prepended(EVERYTHING + ExcludeAll(order), saved));
            rs == EVERYTHING + ExcludeAll(order) || rs == [EVERYTHING[1], EVERYTHING[0]] + ExcludeAll(order)
  {
    var xs, b := ExcludeAll(order), EVERYTHING + ExcludeAll(order);
    ExclusivePrepended(saved, order);
    assert forall r :: r in b ==> r in EVERYTHING || !r.included;
    DefaultDropped(b);
    GlobalFirst(xs);
  }

  lemma ExclusivePrepended(saved: seq<Route>, order: seq<InetNetwork>)
    requires OnlyDefaults(saved) && Distinct(order)
    ensures var b := EVERYTHING + ExcludeAll(order);
            var rs := Prepended(b, saved);
            rs == b || rs == b + [Route(V6_DEFAULT, true)]
  {
    var b := EVERYTHING + ExcludeAll(order);
    BlockIsDistinct(order);
    assert [] + b == b;
    AddAllDistinct([], b);
    assert EVERYTHING[0] == b[0] && EVERYTHING[1] == b[1];
    AddDefaults(b, saved);
  }

  lemma BlockIsDistinct(order: seq<InetNetwork>)
    requires Distinct(order)
    ensures Distinct(EVERYTHING + ExcludeAll(order))
  {
    assert EVERYTHING[0] != EVERYTHING[1];
  }

  /** A default route at the end of a list is replaced; a list without one stays. */
  lemma DefaultDropped(rs: seq<Route>)
    requires forall r :: r in rs ==> !IncludesV6Default(r)
    ensures DefaultReplaced(rs) == rs
    ensures DefaultReplaced(rs + [Route(V6_DEFAULT, true)]) == Prepended([Route(V6_GLOBAL, true)], rs)
  {
    var d := Route(V6_DEFAULT, true);
    RemoveNothing(rs, IncludesV6Default);
    RemoveIfConcat(rs, [d], IncludesV6Default);
    assert RemoveIf([d], IncludesV6Default) == [] && rs + [] == rs;
  }

  lemma GlobalFirst(xs: seq<Route>)
    requires Distinct(xs) && forall x :: x in xs ==> !x.included
    ensures Prepended([EVERYTHING[1]], EVERYTHING + xs) == [EVERYTHING[1], EVERYTHING[0]] + xs
  {
    var g, v := EVERYTHING[1], EVERYTHING[0];
    assert AddAll([], [g]) == [g] by {
      assert [g][1..] == [];
    }
    var b := EVERYTHING + xs;
    assert b[0] == v && b[1..] == [g] + xs && b[1..][1..] == xs;
    assert Added([g], v) == [g, v] && Added([g, v], g) == [g, v];
    assert AddAll([g], b) == AddAll([g, v], b[1..]);
    AddAllDistinct([g, v], xs);
  }

  /**
   Exclusive split tunnelling on the legacy path: whatever default routes were there before
   and in whatever order the excluded set is walked, what is routed in the end is all of
   IPv4 and 2000::/3, minus the excluded networks, minus loopback.
   */
  lemma ExclusiveSplitTunneling(before: seq<Route>, after: seq<Route>, exc: set<InetNetwork>, sdk: int, a: seq<byte>)
    requires Built(before, after, {}, exc, sdk) && OnlyDefaults(before) && exc != {} && sdk < TIRAMISU
    ensures Covered(after, a)
       <==> && (|a| == 4 || (|a| == 16 && 0x20 <= a[0] <= 0x3f))
            && (forall n :: n in exc ==> !Hits(a)(n))
            && !IsLoopback(a)
  {
    var mid :| SplitTunneled(before, mid, {}, exc) && Processed(mid, after, sdk);
    var order :| IsOrder(order, exc) && mid == Prepended(EVERYTHING + ExcludeAll(order), before);
    ExclusiveList(before, order);
    var rs := DefaultReplaced(mid);
    ExclusiveWanted(rs, exc, order, Hits(a));
    LegacyIsLastWriterWins(mid, after, sdk, a);
    LastMatchIsLast(rs, Hits(a), true);
    DefaultV4Network(a);
    GlobalNetwork(a);
  }

  lemma ExclusiveWanted(rs: seq<Route>, exc: set<InetNetwork>, order: seq<InetNetwork>, hit: InetNetwork -> bool)
    requires rs == EVERYTHING + ExcludeAll(order) || rs == [EVERYTHING[1], EVERYTHING[0]] + ExcludeAll(order)
    requires IsOrder(order, exc) && exc != {}
    ensures HasExclude(rs)
    ensures LastMatch(rs, hit) == Some(true)
       <==> (hit(V4_DEFAULT) || hit(V6_GLOBAL)) && forall n :: n in exc ==> !hit(n)
  {
    var x :| x in exc;
    var i :| 0 <= i < |order| && order[i] == x;
    assert rs[i + 2] == Route(x, false) && rs[i + 2] in rs;
    ExcludesWin(rs[..2], order, hit);
    assert rs == rs[..2] + ExcludeAll(order);
    TwoIncludes(rs[..2], hit);
  }

  lemma TwoIncludes(rs: seq<Route>, hit: InetNetwork -> bool)
    requires |rs| == 2 && rs[0].included && rs[1].included
    ensures LastMatch(rs, hit) == Some(true) <==> hit(rs[0].inetNetwork) || hit(rs[1].inetNetwork)
  {
    assert rs[..1][..0] == [];
    assert LastMatch(rs[..1], hit) == if hit(rs[0].inetNetwork) then Some(true) else None;
  }

  // ---- Lists that are not flattened ----

  /** What the platform rejects: IPv4 loopback with any mask, and exactly ::1/128. */
  ghost predicate Rejected(n: InetNetwork) { IsLoopback(n.address) && (|n.address| == 4 || n.mask == 128) }

  lemma LoopbackRouteIsRejected(r: Route)
    ensures LoopbackRoute(r) <==> Rejected(r.inetNetwork)
  {
  }

  lemma ExcludesStay(rs: seq<Route>)
    ensures HasExclude(DefaultReplaced(rs)) <==> HasExclude(rs)
  {
    DefaultReplacedMembers(rs);
  }

  /**
   Where nothing is flattened, the routes in the end are those of the caller, includes and
   excludes, with 2000::/3 for an included ::/0, without those that the platform rejects.
   */
  lemma UnflattenedMembers(before: seq<Route>, after: seq<Route>, sdk: int, r: Route)
    requires Processed(before, after, sdk) && (sdk >= 33 || forall x :: x in before ==> x.included)
    ensures r in after
       <==> && !Rejected(r.inetNetwork)
            && (|| (r in before && r != Route(V6_DEFAULT, true))
                || (r == Route(V6_GLOBAL, true) && Route(V6_DEFAULT, true) in before))
    ensures Distinct(before) ==> OrderedAsIn(after, DefaultReplaced(before))
  {
    ExcludesStay(before);
    DefaultReplacedMembers(before);
    RemoveIfSubset(DefaultReplaced(before), LoopbackRoute);
    LoopbackRouteIsRejected(r);
    if Distinct(before) {
      DefaultReplacedDistinct(before);
      RemoveIfKeepsOrder(DefaultReplaced(before), LoopbackRoute);
    }
  }

  lemma DefaultReplacedDistinct(rs: seq<Route>)
    requires Distinct(rs)
    ensures Distinct(DefaultReplaced(rs))
  {
    RemoveIfKeepsOrder(rs, IncludesV6Default);
  }

  // ---- Split tunnelling of any list ----

  /** The block's routes come first, then the others in their old order. */
  lemma PrependedOrder(block: seq<Route>, rs: seq<Route>, i: nat, j: nat)
    requires i < j < |Prepended(block, rs)|
    ensures var all := Prepended(block, rs);
            && (all[j] in block ==> all[i] in block)
            && (all[i] !in block ==> FirstIndex(rs, all[i]) < FirstIndex(rs, all[j]))
  {
    var all := Prepended(block, rs);
    AddAllConcat([], block, rs);
    AddAllKeepsFirsts(block + rs);
    FirstIndexConcat(block, rs, all[i]);
    FirstIndexConcat(block, rs, all[j]);
  }

  /** 0.0.0.0/0, ::/0 or 2000::/3, as include or exclude. */
  ghost predicate OnDefaultNetwork(r: Route) {
    r.inetNetwork == V4_DEFAULT || r.inetNetwork == V6_DEFAULT || r.inetNetwork == V6_GLOBAL
  }

  lemma WithoutDefaultsMembers(rs: seq<Route>, r: Route)
    ensures r in WithoutDefaults(rs) <==> r in rs && !OnDefaultNetwork(r)
  {
    var rs1 := WithoutNetwork(rs, V4_DEFAULT);
    var rs2 := WithoutNetwork(rs1, V6_DEFAULT);
    RemoveIfSubset(rs, OnNetwork(V4_DEFAULT));
    RemoveIfSubset(rs1, OnNetwork(V6_DEFAULT));
    RemoveIfSubset(rs2, OnNetwork(V6_GLOBAL));
  }

  /** order's networks as includes or excludes. */
  lemma NetworksAsRoutes(order: seq<InetNetwork>, r: Route)
    ensures r in IncludeAll(order) <==> r.included && r.inetNetwork in order
    ensures r in ExcludeAll(order) <==> !r.included && r.inetNetwork in order
  {
    if r.inetNetwork in order {
      var i :| 0 <= i < |order| && order[i] == r.inetNetwork;
      assert IncludeAll(order)[i].inetNetwork == r.inetNetwork && ExcludeAll(order)[i].inetNetwork == r.inetNetwork;
    }
  }

  /** The includes of a split-tunnelling set replace all routes on the default networks, and keep the rest. */
  lemma InclusiveMembers(before: seq<Route>, mid: seq<Route>, inc: set<InetNetwork>, r: Route)
    requires SplitTunneled(before, mid, inc, {}) && inc != {}
    ensures r in mid
       <==> (r.included && r.inetNetwork in inc) || (r in before && !OnDefaultNetwork(r))
    ensures Distinct(mid)
  {
    var order :| IsOrder(order, inc) && mid == Prepended(IncludeAll(order), WithoutDefaults(before));
    WithoutDefaultsMembers(before, r);
    NetworksAsRoutes(order, r);
  }

  /** The excludes of a split-tunnelling set, and everything to exclude them from, join the routes. */
  lemma ExclusiveMembers(before: seq<Route>, mid: seq<Route>, exc: set<InetNetwork>, r: Route)
    requires SplitTunneled(before, mid, {}, exc) && exc != {}
    ensures r in mid
       <==> || r == Route(V4_DEFAULT, true) || r == Route(V6_GLOBAL, true)
            || (!r.included && r.inetNetwork in exc) || r in before
    ensures Distinct(mid)
  {
    var order :| IsOrder(order, exc) && mid == Prepended(EVERYTHING + ExcludeAll(order), before);
    NetworksAsRoutes(order, r);
  }

  /** A route of the split-tunnelling set, or one to exclude it from. */
  ghost predicate FromSplit(r: Route, inc: set<InetNetwork>, exc: set<InetNetwork>) {
    if inc != {} then r.included && r.inetNetwork in inc
    else r == Route(V4_DEFAULT, true) || r == Route(V6_GLOBAL, true) || (!r.included && r.inetNetwork in exc)
  }

  /** The routes of the split-tunnelling set come before the caller's, and the caller's keep their order. */
  lemma SplitTunnelingOrder(
    before: seq<Route>, mid: seq<Route>, inc: set<InetNetwork>, exc: set<InetNetwork>, i: nat, j: nat
  )
    requires SplitTunneled(before, mid, inc, exc) && (inc == {}) != (exc == {}) && i < j < |mid|
    ensures FromSplit(mid[j], inc, exc) ==> FromSplit(mid[i], inc, exc)
    ensures !FromSplit(mid[i], inc, exc) && Distinct(before) ==> FirstIndex(before, mid[i]) < FirstIndex(before, mid[j])
  {
    if inc != {} {
      InclusiveOrder(before, mid, inc, exc, i, j);
    } else {
      ExclusiveOrder(before, mid, exc, i, j);
    }
  }

  lemma InclusiveOrder(
    before: seq<Route>, mid: seq<Route>, inc: set<InetNetwork>, exc: set<InetNetwork>, i: nat, j: nat
  )
    requires SplitTunneled(before, mid, inc, exc) && inc != {} && i < j < |mid|
    ensures FromSplit(mid[j], inc, exc) ==> FromSplit(mid[i], inc, exc)
    ensures !FromSplit(mid[i], inc, exc) && Distinct(before) ==> FirstIndex(before, mid[i]) < FirstIndex(before, mid[j])
  {
    var order :| IsOrder(order, inc) && mid == Prepended(IncludeAll(order), WithoutDefaults(before));
    var x, y := mid[i], mid[j];
    NetworksAsRoutes(order, x);
    NetworksAsRoutes(order, y);
    PrependedOrder(IncludeAll(order), WithoutDefaults(before), i, j);
    if Distinct(before) && !FromSplit(x, inc, exc) {
      assert x in mid && y in mid;
      WithoutDefaultsOrder(before, x, y);
    }
  }

  lemma ExclusiveOrder(before: seq<Route>, mid: seq<Route>, exc: set<InetNetwork>, i: nat, j: nat)
    requires SplitTunneled(before, mid, {}, exc) && exc != {} && i < j < |mid|
    ensures FromSplit(mid[j], {}, exc) ==> FromSplit(mid[i], {}, exc)
    ensures !FromSplit(mid[i], {}, exc) ==> FirstIndex(before, mid[i]) < FirstIndex(before, mid[j])
  {
    var order :| IsOrder(order, exc) && mid == Prepended(EVERYTHING + ExcludeAll(order), before);
    var x, y, block := mid[i], mid[j], EVERYTHING + ExcludeAll(order);
    InExclusiveBlock(order, exc, x);
    InExclusiveBlock(order, exc, y);
    PrependedOrder(block, before, i, j);
  }

  lemma InExclusiveBlock(order: seq<InetNetwork>, exc: set<InetNetwork>, r: Route)
    requires IsOrder(order, exc)
    ensures r in EVERYTHING + ExcludeAll(order) <==> FromSplit(r, {}, exc)
  {
    NetworksAsRoutes(order, r);
  }

  lemma WithoutDefaultsOrder(rs: seq<Route>, x: Route, y: Route)
    requires Distinct(rs) && x in WithoutDefaults(rs) && y in WithoutDefaults(rs)
    requires FirstIndex(WithoutDefaults(rs), x) < FirstIndex(WithoutDefaults(rs), y)
    ensures FirstIndex(rs, x) < FirstIndex(rs, y)
  {
    var rs1 := WithoutNetwork(rs, V4_DEFAULT);
    var rs2 := WithoutNetwork(rs1, V6_DEFAULT);
    RemoveIfKeepsOrder(rs, OnNetwork(V4_DEFAULT));
    RemoveIfKeepsOrder(rs1, OnNetwork(V6_DEFAULT));
    RemoveIfKeepsOrder(rs2, OnNetwork(V6_GLOBAL));
    RemoveIfSubset(rs1, OnNetwork(V6_DEFAULT));
    RemoveIfSubset(rs2, OnNetwork(V6_GLOBAL));
    SameOrder(rs2, WithoutDefaults(rs), x, y);
    SameOrder(rs1, rs2, x, y);
    SameOrder(rs, rs1, x, y);
  }

  lemma SameOrder(ss: seq<Route>, rs: seq<Route>, x: Route, y: Route)
    requires OrderedAsIn(rs, ss) && x in rs && y in rs && FirstIndex(rs, x) < FirstIndex(rs, y)
    ensures FirstIndex(ss, x) < FirstIndex(ss, y)
  {
    assert rs[FirstIndex(rs, x)] == x && rs[FirstIndex(rs, y)] == y;
  }

  /**
   Inclusive split tunnelling of any list that is not flattened: in the end there are the
   included networks, with 2000::/3 for ::/0, and what the caller had on other than the default
   networks, without what the platform rejects.
   */
  lemma InclusiveSplitTunneling(before: seq<Route>, after: seq<Route>, inc: set<InetNetwork>, sdk: int, r: Route)
    requires Built(before, after, inc, {}, sdk) && inc != {}
    requires sdk >= 33 || forall x :: x in before && !x.included ==> OnDefaultNetwork(x)
    ensures r in after
       <==> && !Rejected(r.inetNetwork) && r != Route(V6_DEFAULT, true)
            && (|| (r.included && r.inetNetwork in inc)
                || (r in before && !OnDefaultNetwork(r))
                || (r == Route(V6_GLOBAL, true) && V6_DEFAULT in inc))
  {
    var mid :| SplitTunneled(before, mid, inc, {}) && Processed(mid, after, sdk);
    forall x: Route
      ensures x in mid <==> (x.included && x.inetNetwork in inc) || (x in before && !OnDefaultNetwork(x))
    {
      InclusiveMembers(before, mid, inc, x);
    }
    UnflattenedMembers(mid, after, sdk, r);
  }

  lemma Member(rs: seq<Route>) returns (r: Route)
    requires rs != []
    ensures r in rs
  {
    r := rs[0];
  }

  lemma DefaultReplacedMembers(rs: seq<Route>)
    ensures forall r :: r in DefaultReplaced(rs) <==>
              (r in rs && !IncludesV6Default(r)) || (r == Route(V6_GLOBAL, true) && Route(V6_DEFAULT, true) in rs)
  {
    var kept, g := RemoveIf(rs, IncludesV6Default), [Route(V6_GLOBAL, true)];
    RemoveIfSubset(rs, IncludesV6Default);
    if |kept| < |rs| {
      if Route(V6_DEFAULT, true) !in rs {
        RemoveNothing(rs, IncludesV6Default);
      }
    }
  }
}
