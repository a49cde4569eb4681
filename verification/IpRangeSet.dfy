/**
 IpRangeSet.kt: a set of addresses kept as sorted ranges, no two of which touch.

 The field `ranges` is the contents of the sorted set in iteration order; an iterator is an
 index into it.
 */
module IpRangeSets {
  import opened Outcomes
  import opened Bytes
  import opened IpRanges

  /** a is an address of one of the ranges. */
  ghost predicate In(rs: seq<IpRange>, a: seq<byte>) {
    exists r :: r in rs && r.Has(a)
  }

  /** The set of addresses that a list of ranges stands for. */
  ghost function Denotes(rs: seq<IpRange>): iset<seq<byte>> { iset a | In(rs, a) }

  /** r lies before s with a gap between them (IPv4 before IPv6). */
  ghost predicate Before(r: IpRange, s: IpRange) {
    r.Size() < s.Size() || (r.Size() == s.Size() && r.Hi() + 1 < s.Lo())
  }

  /** The normal form: sorted, disjoint, and never adjacent. */
  ghost predicate Normal(rs: seq<IpRange>) {
    forall i, j :: 0 <= i < j < |rs| ==> Before(rs[i], rs[j])
  }

  /** What adding or removing a range has to do. */
  ghost predicate Adds(before: seq<IpRange>, r: IpRange, after: seq<IpRange>) {
    Normal(after) && Denotes(after) == Denotes(before) + r.Addresses()
  }

  ghost predicate Removes(before: seq<IpRange>, r: IpRange, after: seq<IpRange>) {
    Normal(after) && Denotes(after) == Denotes(before) - r.Addresses()
  }

  /** Insertion into a sorted set: nothing happens if an equal range is there. */
  function Insert(rs: seq<IpRange>, r: IpRange): seq<IpRange> {
    if rs == [] then [r]
    else
      var d := CompareRanges(r, rs[0]);
      if d == 0 then rs
      else if d < 0 then [r] + rs
      else [rs[0]] + Insert(rs[1..], r)
  }

  function InsertAll(rs: seq<IpRange>, more: seq<IpRange>): seq<IpRange>
    decreases |more|
  {
    if more == [] then rs else InsertAll(Insert(rs, more[0]), more[1..])
  }

  lemma CompareApart(r: IpRange, s: IpRange)
    requires !Touch(r, s)
    ensures CompareRanges(r, s) < 0 <==> Before(r, s)
    ensures CompareRanges(r, s) > 0 <==> Before(s, r)
  {
    CompareIsNumeric(r.start, s.start);
    CompareIsNumeric(r.end, s.end);
  }

  lemma {:induction false} InsertKeepsNormal(rs: seq<IpRange>, r: IpRange)
    requires Normal(rs) && forall x :: x in rs ==> !Touch(x, r)
    ensures Normal(Insert(rs, r))
    ensures forall x :: x in Insert(rs, r) <==> x in rs || x == r
  {
    if rs != [] {
      assert rs[0] in rs;
      CompareApart(r, rs[0]);
      if CompareRanges(r, rs[0]) > 0 {
        var tail := Insert(rs[1..], r);
        InsertKeepsNormal(rs[1..], r);
        forall j | 0 <= j < |tail|
          ensures Before(rs[0], tail[j])
        {
          assert tail[j] in tail;
        }
      }
    }
  }

  /** A range that is there already is not inserted again. */
  lemma {:induction false} InsertTwice(rs: seq<IpRange>, i: nat)
    requires Normal(rs) && i < |rs|
    ensures Insert(rs, rs[i]) == rs
    decreases |rs|
  {
    var r := rs[i];
    if i == 0 {
      CompareRangesExactly(r, r);
    } else {
      assert Before(rs[0], rs[i]);
      CompareApart(r, rs[0]);
      InsertTwice(rs[1..], i - 1);
      assert rs == [rs[0]] + rs[1..];
    }
  }

  lemma {:induction false} InsertAllKeepsNormal(rs: seq<IpRange>, more: seq<IpRange>)
    requires Normal(rs) && Normal(more)
    requires forall x, y :: x in rs && y in more ==> !Touch(x, y)
    ensures Normal(InsertAll(rs, more))
    ensures forall x :: x in InsertAll(rs, more) <==> x in rs || x in more
    decreases |more|
  {
    if more != [] {
      InsertKeepsNormal(rs, more[0]);
      InsertAllKeepsNormal(Insert(rs, more[0]), more[1..]);
    }
  }

  /** Removing the element at index k. */
  function Without(rs: seq<IpRange>, k: nat): seq<IpRange>
    requires k < |rs|
  {
    rs[..k] + rs[k + 1..]
  }

  lemma WithoutFacts(rs: seq<IpRange>, k: nat)
    requires k < |rs| && Normal(rs)
    ensures Normal(Without(rs, k))
    ensures forall x :: x in rs <==> x in Without(rs, k) || x == rs[k]
    ensures forall x :: x in Without(rs, k) ==> !Touch(x, rs[k])
  {
  }

  /** One merge: the grown range stands for both, and still touches none of the others. */
  lemma MergeStep(rs: seq<IpRange>, k: nat, r: IpRange, merged: IpRange)
    requires k < |rs| && Normal(rs) && Plus(rs[k], r) == Some(merged)
    requires forall x :: x in rs[..k] ==> !Touch(x, r)
    ensures forall x :: x in Without(rs, k)[..k] ==> !Touch(x, merged)
    ensures forall a :: In(Without(rs, k), a) || merged.Has(a) <==> In(rs, a) || r.Has(a)
  {
    WithoutFacts(rs, k);
    assert Without(rs, k)[..k] == rs[..k];
    forall x | x in rs[..k]
      ensures !Touch(x, merged)
    {
      var i :| 0 <= i < k && rs[i] == x;
      assert Before(rs[i], rs[k]);
    }
    forall a
      ensures merged.Has(a) <==> rs[k].Has(a) || r.Has(a)
    {
    }
  }

  /** Stopping early is safe: whatever comes later lies even further away. */
  lemma StopAdding(rs: seq<IpRange>, k: nat, r: IpRange)
    requires k < |rs| && Normal(rs)
    requires Less(r.end, rs[k].start) && !AllOnes(r.end) && Increment(r.end) != rs[k].start
    requires forall x :: x in rs[..k] ==> !Touch(x, r)
    ensures forall x :: x in rs ==> !Touch(x, r)
  {
    OrderFacts(rs[k], r);
    if r.Size() == rs[k].Size() && r.Hi() + 1 == rs[k].Lo() {
      ValInjective(Increment(r.end), rs[k].start);
    }
    forall x | x in rs
      ensures !Touch(x, r)
    {
      var i :| 0 <= i < |rs| && rs[i] == x;
      if i < k {
        assert x in rs[..k];
      } else if k < i {
        assert Before(rs[k], rs[i]);
      }
    }
  }

  lemma FinishAdding(before: seq<IpRange>, rs: seq<IpRange>, given: IpRange, r: IpRange)
    requires Normal(rs) && forall x :: x in rs ==> !Touch(x, r)
    requires forall a :: In(rs, a) || r.Has(a) <==> In(before, a) || given.Has(a)
    ensures Adds(before, given, Insert(rs, r))
  {
    InsertKeepsNormal(rs, r);
    forall a
      ensures In(Insert(rs, r), a) <==> In(rs, a) || r.Has(a)
    {
    }
  }

  /** The state of remove's loop: ranges before index i and the split parts avoid the removed range. */
  ghost predicate Removing(before: seq<IpRange>, gone: IpRange, rs: seq<IpRange>, i: nat, split: seq<IpRange>) {
    && i <= |rs| && Normal(rs) && Normal(split)
    && (forall x :: x in rs[..i] || x in split ==> !IsIntersect(x, gone))
    && (forall x, y :: x in rs && y in split ==> !Touch(x, y))
    && (forall x, y :: x in split && y in rs[i..] ==> Before(x, y))
    && (forall a :: !gone.Has(a) ==> (In(rs, a) || In(split, a) <==> In(before, a)))
  }

  lemma KeepStep(before: seq<IpRange>, gone: IpRange, rs: seq<IpRange>, i: nat, split: seq<IpRange>)
    requires Removing(before, gone, rs, i, split) && i < |rs| && !IsIntersect(rs[i], gone)
    ensures Removing(before, gone, rs, i + 1, split)
  {
    assert rs[..i + 1] == rs[..i] + [rs[i]];
    assert rs[i..] == [rs[i]] + rs[i + 1..];
  }

  lemma PieceFacts(r: IpRange, gone: IpRange, i: nat)
    requires Minus(r, gone).Some? && i < |Minus(r, gone).value|
    ensures var p := Minus(r, gone).value[i];
            && p.Size() == r.Size() == gone.Size() && r.Lo() <= p.Lo() && p.Hi() <= r.Hi() && !IsIntersect(p, gone)
            && (p.Hi() < gone.Lo() || gone.Hi() < p.Lo())
  {
    OrderFacts(r, gone);
    OrderFacts(Minus(r, gone).value[i], gone);
  }

  lemma PiecesCover(r: IpRange, gone: IpRange, a: seq<byte>)
    requires Minus(r, gone).Some? && r.Has(a) && !gone.Has(a)
    ensures In(Minus(r, gone).value, a)
  {
    var ps := Minus(r, gone).value;
    OrderFacts(r, gone);
    if Val(a) < gone.Lo() {
      assert ps[0].Has(a) && ps[0] in ps;
    } else {
      assert ps[|ps| - 1].Has(a) && ps[|ps| - 1] in ps;
    }
  }

  lemma PiecesFacts(r: IpRange, gone: IpRange)
    requires Minus(r, gone).Some?
    ensures var ps := Minus(r, gone).value;
            && Normal(ps)
            && (forall p :: p in ps ==>
                  p.Size() == r.Size() && r.Lo() <= p.Lo() && p.Hi() <= r.Hi() && !IsIntersect(p, gone))
            && (forall a :: In(ps, a) <==> r.Has(a) && !gone.Has(a))
  {
    var ps := Minus(r, gone).value;
    forall i | 0 <= i < |ps|
      ensures ps[i].Size() == r.Size() == gone.Size() && r.Lo() <= ps[i].Lo() && ps[i].Hi() <= r.Hi()
      ensures !IsIntersect(ps[i], gone) && (ps[i].Hi() < gone.Lo() || gone.Hi() < ps[i].Lo())
    {
      PieceFacts(r, gone, i);
    }
    forall a | r.Has(a) && !gone.Has(a)
      ensures In(ps, a)
    {
      PiecesCover(r, gone, a);
    }
    PiecesInOrder(r, gone);
  }

  lemma PiecesInOrder(r: IpRange, gone: IpRange)
    requires Minus(r, gone).Some?
    ensures Normal(Minus(r, gone).value)
  {
    OrderFacts(r, gone);
  }

  lemma InConcat(rs: seq<IpRange>, ss: seq<IpRange>, a: seq<byte>)
    ensures In(rs + ss, a) <==> In(rs, a) || In(ss, a)
  {
  }

  lemma InWithout(rs: seq<IpRange>, i: nat, a: seq<byte>)
    requires i < |rs| && Normal(rs)
    ensures In(rs, a) <==> In(Without(rs, i), a) || rs[i].Has(a)
  {
    WithoutFacts(rs, i);
  }

  /** p lies inside r. */
  ghost predicate PartOf(p: IpRange, r: IpRange) {
    p.Size() == r.Size() && r.Lo() <= p.Lo() && p.Hi() <= r.Hi()
  }

  /** The pieces of a range stand to all other ranges as the range itself did. */
  lemma SplitOrder(rs: seq<IpRange>, i: nat, split: seq<IpRange>, ps: seq<IpRange>)
    requires i < |rs| && Normal(rs) && Normal(split) && Normal(ps) && forall p :: p in ps ==> PartOf(p, rs[i])
    requires forall x, y :: x in rs && y in split ==> !Touch(x, y)
    requires forall x, y :: x in split && y in rs[i..] ==> Before(x, y)
    ensures Normal(split + ps)
    ensures forall x, y :: x in Without(rs, i) && y in split + ps ==> !Touch(x, y)
    ensures forall x, y :: x in split + ps && y in rs[i + 1..] ==> Before(x, y)
  {
    var cur := rs[i];
    WithoutFacts(rs, i);
    assert rs[i..] == [cur] + rs[i + 1..];
    forall x, y | x in split && y in ps
      ensures Before(x, y)
    {
      assert Before(x, cur) && PartOf(y, cur);
    }
    forall x, y | x in ps && y in rs[i + 1..]
      ensures Before(x, y)
    {
      var k :| i < k < |rs| && rs[k] == y;
      assert Before(rs[i], rs[k]) && PartOf(x, cur);
    }
    forall x, y | x in Without(rs, i) && y in ps
      ensures !Touch(x, y)
    {
      assert !Touch(x, cur) && PartOf(y, cur);
    }
  }

  lemma SplitStep(before: seq<IpRange>, gone: IpRange, rs: seq<IpRange>, i: nat, split: seq<IpRange>)
    requires Removing(before, gone, rs, i, split) && i < |rs| && Minus(rs[i], gone).Some?
    ensures Removing(before, gone, Without(rs, i), i, split + Minus(rs[i], gone).value)
  {
    var ps, rs' := Minus(rs[i], gone).value, Without(rs, i);
    PiecesFacts(rs[i], gone);
    WithoutFacts(rs, i);
    SplitOrder(rs, i, split, ps);
    assert rs'[..i] == rs[..i] && rs'[i..] == rs[i + 1..];
    forall a | !gone.Has(a)
      ensures In(rs', a) || In(split + ps, a) <==> In(before, a)
    {
      InConcat(split, ps, a);
      InWithout(rs, i, a);
    }
  }

  /** Stopping early is safe: whatever comes later lies beyond the removed range. */
  lemma StopRemoving(before: seq<IpRange>, gone: IpRange, rs: seq<IpRange>, i: nat, split: seq<IpRange>)
    requires Removing(before, gone, rs, i, split)
    requires i < |rs| && Less(gone.end, rs[i].start)
    ensures Removing(before, gone, rs, |rs|, split)
  {
    forall x | x in rs
      ensures !IsIntersect(x, gone)
    {
      var k :| 0 <= k < |rs| && rs[k] == x;
      OrderFacts(x, gone);
      if k < i {
        assert x in rs[..i];
      } else {
        OrderFacts(rs[i], gone);
        assert i < k ==> Before(rs[i], rs[k]);
      }
    }
  }

  lemma FinishRemoving(before: seq<IpRange>, gone: IpRange, rs: seq<IpRange>, split: seq<IpRange>)
    requires Removing(before, gone, rs, |rs|, split)
    ensures Removes(before, gone, InsertAll(rs, split))
  {
    InsertAllKeepsNormal(rs, split);
    var after := InsertAll(rs, split);
    assert rs[..|rs|] == rs;
    forall a
      ensures In(after, a) <==> In(before, a) && !gone.Has(a)
    {
      if gone.Has(a) && In(after, a) {
        var x :| x in after && x.Has(a);
        OrderFacts(x, gone);
      }
      assert In(after, a) <==> In(rs, a) || In(split, a);
    }
  }

  // ---- Subnets ----

  /** ns lists the blocks of rs[0], then those of rs[1], and so on. */
  ghost predicate EncodesAll(ns: seq<InetNetwork>, rs: seq<IpRange>)
    decreases |rs|
  {
    if rs == [] then ns == []
    else
      var n := |Blocks(rs[0])|;
      n <= |ns| && Encodes(ns[..n], Blocks(rs[0]), rs[0].Size()) && EncodesAll(ns[n..], rs[1..])
  }

  lemma EncodesOne(ns: seq<InetNetwork>, r: IpRange)
    requires Encodes(ns, Blocks(r), r.Size())
    ensures EncodesAll(ns, [r])
  {
    assert ns[..|ns|] == ns && ns[|ns|..] == [] && [r][1..] == [];
  }

  lemma {:induction false} EncodesAppend(
    ns: seq<InetNetwork>, rs: seq<IpRange>, more: seq<InetNetwork>, r: IpRange, ns': seq<InetNetwork>, rs': seq<IpRange>
  )
    requires EncodesAll(ns, rs) && Encodes(more, Blocks(r), r.Size())
    requires ns' == ns + more && rs' == rs + [r]
    ensures EncodesAll(ns', rs')
    decreases |rs|
  {
    if rs == [] {
      assert ns' == more && rs' == [r];
      EncodesOne(more, r);
    } else {
      var n, rest, tail := |Blocks(rs[0])|, ns'[|Blocks(rs[0])|..], rs'[1..];
      assert ns'[..n] == ns[..n] && rest == ns[n..] + more;
      assert rs'[0] == rs[0] && tail == rs[1..] + [r];
      EncodesAppend(ns[n..], rs[1..], more, r, rest, tail);
    }
  }

  class IpRangeSet {
    var ranges: seq<IpRange>

    constructor ()
      ensures ranges == []
    {
      ranges := [];
    }

    method Add(ipRange: IpRange)
      requires Normal(ranges)
      modifies this
      ensures Adds(old(ranges), ipRange, ranges)
    {
      var i := 0;
      var rangeToAdd := ipRange;
      while i < |ranges|
        invariant 0 <= i <= |ranges| && Normal(ranges)
        invariant forall x :: x in ranges[..i] ==> !Touch(x, rangeToAdd)
        invariant forall a :: In(ranges, a) || rangeToAdd.Has(a) <==> In(old(ranges), a) || ipRange.Has(a)
        decreases |ranges| - i
      {
        var curRange := ranges[i];
        i := i + 1;
        if Less(rangeToAdd.end, curRange.start) && !AllOnes(rangeToAdd.end)
           && Increment(rangeToAdd.end) != curRange.start {
          StopAdding(ranges, i - 1, rangeToAdd);
          break;
        }
        var resultRange := Plus(curRange, rangeToAdd);
        if resultRange.Some? {
          if resultRange.value == curRange {
            assert curRange in ranges;
            return;
          }
          MergeStep(ranges, i - 1, rangeToAdd, resultRange.value);
          WithoutFacts(ranges, i - 1);
          i := i - 1;
          ranges := Without(ranges, i);
          rangeToAdd := resultRange.value;
        }
      }
      FinishAdding(old(ranges), ranges, ipRange, rangeToAdd);
      ranges := Insert(ranges, rangeToAdd);
    }

    method Remove(ipRange: IpRange)
      requires Normal(ranges)
      modifies this
      ensures Removes(old(ranges), ipRange, ranges)
    {
      var i := 0;
      var splitRanges: seq<IpRange> := [];
      while i < |ranges|
        invariant Removing(old(ranges), ipRange, ranges, i, splitRanges)
        decreases |ranges| - i
      {
        var curRange := ranges[i];
        i := i + 1;
        if Less(ipRange.end, curRange.start) {
          StopRemoving(old(ranges), ipRange, ranges, i - 1, splitRanges);
          break;
        }
        var resultRanges := Minus(curRange, ipRange);
        if resultRanges.Some? {
          SplitStep(old(ranges), ipRange, ranges, i - 1, splitRanges);
          i := i - 1;
          ranges := Without(ranges, i);
          splitRanges := splitRanges + resultRanges.value;
        } else {
          KeepStep(old(ranges), ipRange, ranges, i - 1, splitRanges);
        }
      }
      assert ranges[..|ranges|] == ranges;
      FinishRemoving(old(ranges), ipRange, ranges, splitRanges);
      ranges := InsertAll(ranges, splitRanges);
    }

    /** The decompositions of all ranges, one after the other. */
    method Subnets() returns (subnets: seq<InetNetwork>)
      ensures EncodesAll(subnets, ranges)
    {
      subnets := [];
      for i := 0 to |ranges|
        invariant EncodesAll(subnets, ranges[..i])
      {
        var more := IpRanges.Subnets(ranges[i]);
        EncodesAppend(subnets, ranges[..i], more, ranges[i], subnets + more, ranges[..i + 1]);
        subnets := subnets + more;
      }
      assert ranges[..|ranges|] == ranges;
    }
  }
}
