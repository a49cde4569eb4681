/**
 wireguard-traffic.js: per-peer byte counters are sampled now and then, and what is
 reported is how much they grew since the last sample.
 */
module Traffic {
  import opened Outcomes

  datatype Direction = Rx | Tx

  datatype Counters = Counters(rxBytes: nat, txBytes: nat)
  {
    function Of(d: Direction): nat { if d == Rx then rxBytes else txBytes }
  }

  datatype Peer = Peer(peerHash: string, counters: Counters)

  type PeerMap = map<string, Counters>

  datatype Deltas = Deltas(rxDelta: nat, txDelta: nat, rxTotal: nat, txTotal: nat, nextPeers: PeerMap)

  // ---- One sample ----

  /** How much a counter has grown; a counter that went down, or is new, counts as zero. */
  function Growth(now: nat, before: Option<nat>): nat {
    if before.Some? && now >= before.value then now - before.value else 0
  }

  function Baseline(previous: PeerMap, hash: string, d: Direction): Option<nat> {
    if hash in previous then Some(previous[hash].Of(d)) else None
  }

  function SumGrowth(peers: seq<Peer>, previous: PeerMap, d: Direction): nat
    decreases |peers|
  {
    if peers == [] then 0
    else
      var n := |peers| - 1;
      var p := peers[n];
      SumGrowth(peers[..n], previous, d) + Growth(p.counters.Of(d), Baseline(previous, p.peerHash, d))
  }

  function SumBytes(peers: seq<Peer>, d: Direction): nat
    decreases |peers|
  {
    if peers == [] then 0
    else SumBytes(peers[..|peers| - 1], d) + peers[|peers| - 1].counters.Of(d)
  }

  function ToMap(peers: seq<Peer>): PeerMap
    decreases |peers|
  {
    if peers == [] then map[]
    else
      var p := peers[|peers| - 1];
      ToMap(peers[..|peers| - 1])[p.peerHash := p.counters]
  }

  /** computeDeltas. */
  method ComputeDeltas(peers: seq<Peer>, previousPeers: PeerMap) returns (r: Deltas)
    ensures r.rxDelta == SumGrowth(peers, previousPeers, Rx) && r.txDelta == SumGrowth(peers, previousPeers, Tx)
    ensures r.rxTotal == SumBytes(peers, Rx) && r.txTotal == SumBytes(peers, Tx)
    ensures r.nextPeers == ToMap(peers)
  {
    var rxDelta, txDelta, rxTotal, txTotal := 0, 0, 0, 0;
    var nextPeers: PeerMap := map[];
    for i := 0 to |peers|
      invariant rxDelta == SumGrowth(peers[..i], previousPeers, Rx)
      invariant txDelta == SumGrowth(peers[..i], previousPeers, Tx)
      invariant rxTotal == SumBytes(peers[..i], Rx) && txTotal == SumBytes(peers[..i], Tx)
      invariant nextPeers == ToMap(peers[..i])
    {
      var peer := peers[i];
      assert peers[..i + 1][..i] == peers[..i];
      rxTotal := rxTotal + peer.counters.rxBytes;
      txTotal := txTotal + peer.counters.txBytes;
      var known := peer.peerHash in previousPeers;
      if known && peer.counters.rxBytes >= previousPeers[peer.peerHash].rxBytes {
        rxDelta := rxDelta + (peer.counters.rxBytes - previousPeers[peer.peerHash].rxBytes);
      }
      if known && peer.counters.txBytes >= previousPeers[peer.peerHash].txBytes {
        txDelta := txDelta + (peer.counters.txBytes - previousPeers[peer.peerHash].txBytes);
      }
      nextPeers := nextPeers[peer.peerHash := peer.counters];
    }
    assert peers[..|peers|] == peers;
    r := Deltas(rxDelta, txDelta, rxTotal, txTotal, nextPeers);
  }

  // ---- Runs ----

  /** What happens between two looks at the reported numbers. */
  datatype Event = Sample(peers: seq<Peer>) | ReadFailed | Reset

  function NextState(s: PeerMap, e: Event): PeerMap {
    match e
    case Sample(peers) => ToMap(peers)
    case ReadFailed => s
    case Reset => map[]
  }

  /** The bytes reported for one event; a failed read and a reset report none. */
  function Reported(s: PeerMap, e: Event, d: Direction): nat {
    if e.Sample? then SumGrowth(e.peers, s, d) else 0
  }

  lemma {:induction false} NoBaselineNoGrowth(peers: seq<Peer>, d: Direction)
    ensures SumGrowth(peers, map[], d) == 0
    decreases |peers|
  {
    if peers != [] {
      NoBaselineNoGrowth(peers[..|peers| - 1], d);
    }
  }

  class Collector {
    /** The peers of the state file; an unreadable file counts as empty. */
    var peers: PeerMap

    constructor ()
      ensures peers == map[]
    {
      peers := map[];
    }

    /** collectWireguardTrafficMetrics: the read fails when no tool answers, and nothing is stored then. */
    method Collect(transfer: Option<seq<Peer>>) returns (rxBytes: nat, txBytes: nat, collected: bool)
      modifies this
      ensures collected == transfer.Some?
      ensures var e := if transfer.Some? then Sample(transfer.value) else ReadFailed;
              peers == NextState(old(peers), e)
              && rxBytes == Reported(old(peers), e, Rx) && txBytes == Reported(old(peers), e, Tx)
    {
      if transfer.None? {
        return 0, 0, false;
      }
      var deltas := ComputeDeltas(transfer.value, peers);
      peers := deltas.nextPeers;
      return deltas.rxDelta, deltas.txDelta, true;
    }

    /** resetWireguardTrafficState: whatever the next sample holds, it reports no bytes. */
    method ResetState()
      modifies this
      ensures peers == NextState(old(peers), Reset)
      ensures forall sample, d :: Reported(peers, Sample(sample), d) == 0
    {
      peers := map[];
      forall sample: seq<Peer>, d
        ensures Reported(peers, Sample(sample), d) == 0
      {
        NoBaselineNoGrowth(sample, d);
      }
    }
  }

  function StateAfter(events: seq<Event>): PeerMap
    decreases |events|
  {
    if events == [] then map[] else NextState(StateAfter(events[..|events| - 1]), events[|events| - 1])
  }

  /** Everything reported over a run that starts without a state file. */
  function TotalReported(events: seq<Event>, d: Direction): nat
    decreases |events|
  {
    if events == [] then 0
    else
      var n := |events| - 1;
      TotalReported(events[..n], d) + Reported(StateAfter(events[..n]), events[n], d)
  }

  // ---- One peer's share ----

  ghost predicate DistinctPeers(peers: seq<Peer>) {
    forall i, j :: 0 <= i < j < |peers| ==> peers[i].peerHash != peers[j].peerHash
  }

  /** The counter of a peer in a sample, if it is there. */
  function CounterIn(peers: seq<Peer>, hash: string, d: Direction): Option<nat>
    decreases |peers|
  {
    if peers == [] then None
    else
      var p := peers[|peers| - 1];
      if p.peerHash == hash then Some(p.counters.Of(d)) else CounterIn(peers[..|peers| - 1], hash, d)
  }

  /** The peer's counter in the last successful sample, if it was in it and there was no reset since. */
  function LastCounter(events: seq<Event>, hash: string, d: Direction): Option<nat>
    decreases |events|
  {
    if events == [] then None
    else
      match events[|events| - 1]
      case Sample(peers) => CounterIn(peers, hash, d)
      case ReadFailed => LastCounter(events[..|events| - 1], hash, d)
      case Reset => None
  }

  /** The increases of one peer over consecutive samples that both contain it. */
  function PeerShare(events: seq<Event>, hash: string, d: Direction): nat
    decreases |events|
  {
    if events == [] then 0
    else
      var n := |events| - 1;
      PeerShare(events[..n], hash, d) + ShareOf(events[n], LastCounter(events[..n], hash, d), hash, d)
  }

  function ShareOf(e: Event, before: Option<nat>, hash: string, d: Direction): nat {
    if e.Sample? && CounterIn(e.peers, hash, d).Some? then Growth(CounterIn(e.peers, hash, d).value, before) else 0
  }

  function SumShares(names: seq<string>, events: seq<Event>, d: Direction): nat {
    if names == [] then 0 else PeerShare(events, names[0], d) + SumShares(names[1..], events, d)
  }

  /** names lists every peer of every sample once, and no sample lists a peer twice. */
  ghost predicate Accounts(names: seq<string>, events: seq<Event>) {
    && (forall i, j :: 0 <= i < j < |names| ==> names[i] != names[j])
    && forall k :: 0 <= k < |events| && events[k].Sample? ==>
         DistinctPeers(events[k].peers) && forall p :: p in events[k].peers ==> p.peerHash in names
  }

  lemma {:induction false} ToMapLookup(peers: seq<Peer>, hash: string, d: Direction)
    ensures Baseline(ToMap(peers), hash, d) == CounterIn(peers, hash, d)
    decreases |peers|
  {
    if peers != [] {
      ToMapLookup(peers[..|peers| - 1], hash, d);
    }
  }

  /** The state file remembers exactly the last counters. */
  lemma {:induction false} StateIsLastCounters(events: seq<Event>, hash: string, d: Direction)
    ensures Baseline(StateAfter(events), hash, d) == LastCounter(events, hash, d)
    decreases |events|
  {
    if events != [] {
      var e := events[|events| - 1];
      StateIsLastCounters(events[..|events| - 1], hash, d);
      if e.Sample? {
        ToMapLookup(e.peers, hash, d);
      }
    }
  }

  /** The shares of one sample, summed over names. */
  function SumOfSample(names: seq<string>, peers: seq<Peer>, s: PeerMap, d: Direction): nat {
    if names == [] then 0
    else ShareOf(Sample(peers), Baseline(s, names[0], d), names[0], d) + SumOfSample(names[1..], peers, s, d)
  }

  lemma {:induction false} NotInSample(peers: seq<Peer>, hash: string, d: Direction)
    ensures CounterIn(peers, hash, d).Some? <==> exists i :: 0 <= i < |peers| && peers[i].peerHash == hash
    decreases |peers|
  {
    if peers != [] {
      var n := |peers| - 1;
      NotInSample(peers[..n], hash, d);
      if CounterIn(peers[..n], hash, d).Some? {
        var i :| 0 <= i < n && peers[..n][i].peerHash == hash;
        assert peers[i].peerHash == hash;
      }
      if peers[n].peerHash != hash {
        assert forall i :: 0 <= i < |peers| && peers[i].peerHash == hash ==> i < n && peers[..n][i].peerHash == hash;
      }
    }
  }

  /** One more peer in a sample adds its growth to the sum over names, in one place. */
  lemma {:induction false} OneMorePeer(names: seq<string>, peers: seq<Peer>, p: Peer, s: PeerMap, d: Direction)
    requires forall i, j :: 0 <= i < j < |names| ==> names[i] != names[j]
    requires DistinctPeers(peers + [p])
    ensures SumOfSample(names, peers + [p], s, d)
         == SumOfSample(names, peers, s, d)
            + if p.peerHash in names then Growth(p.counters.Of(d), Baseline(s, p.peerHash, d)) else 0
  {
    if names != [] {
      OneMorePeer(names[1..], peers, p, s, d);
      assert (peers + [p])[..|peers + [p]| - 1] == peers;
      NotInSample(peers, names[0], d);
      forall i | 0 <= i < |peers|
        ensures peers[i].peerHash != p.peerHash
      {
        assert (peers + [p])[i].peerHash != (peers + [p])[|peers|].peerHash;
      }
      assert names == [names[0]] + names[1..];
    }
  }

  /** What a sample reports is the sum of the growth of the peers in it. */
  lemma {:induction false} SampleSplits(names: seq<string>, peers: seq<Peer>, s: PeerMap, d: Direction)
    requires forall i, j :: 0 <= i < j < |names| ==> names[i] != names[j]
    requires DistinctPeers(peers) && forall p :: p in peers ==> p.peerHash in names
    ensures SumOfSample(names, peers, s, d) == SumGrowth(peers, s, d)
    decreases |peers|
  {
    if peers == [] {
      EmptySample(names, s, d);
    } else {
      var n := |peers| - 1;
      assert peers == peers[..n] + [peers[n]];
      SampleSplits(names, peers[..n], s, d);
      OneMorePeer(names, peers[..n], peers[n], s, d);
    }
  }

  lemma {:induction false} EmptySample(names: seq<string>, s: PeerMap, d: Direction)
    ensures SumOfSample(names, [], s, d) == 0
  {
    if names != [] {
      EmptySample(names[1..], s, d);
    }
  }

  /** One event moves the sum of shares by what the event reports. */
  lemma {:induction false} SharesStep(names: seq<string>, events: seq<Event>, d: Direction)
    requires events != []
    ensures var n := |events| - 1;
            SumShares(names, events, d) == SumShares(names, events[..n], d)
              + if events[n].Sample? then SumOfSample(names, events[n].peers, StateAfter(events[..n]), d) else 0
  {
    if names != [] {
      SharesStep(names[1..], events, d);
      StateIsLastCounters(events[..|events| - 1], names[0], d);
    }
  }

  /**
   Accounting: what is reported over any run is the sum, over all peers, of their increases
   between consecutive samples that both contain them, with no reset in between.
   */
  lemma {:induction false} ReportedIsSumOfShares(names: seq<string>, events: seq<Event>, d: Direction)
    requires Accounts(names, events)
    ensures TotalReported(events, d) == SumShares(names, events, d)
    decreases |events|
  {
    if events == [] {
      NoShares(names, d);
    } else {
      var n := |events| - 1;
      ReportedIsSumOfShares(names, events[..n], d);
      SharesStep(names, events, d);
      if events[n].Sample? {
        SampleSplits(names, events[n].peers, StateAfter(events[..n]), d);
      }
    }
  }

  lemma {:induction false} NoShares(names: seq<string>, d: Direction)
    ensures SumShares(names, [], d) == 0
  {
    if names != [] {
      NoShares(names[1..], d);
    }
  }

  // ---- Telescoping ----

  /** Every sample has the peer, its counter never goes down, and there is no reset. */
  ghost predicate Steady(events: seq<Event>, hash: string, d: Direction) {
    forall k :: 0 <= k < |events| ==>
      match events[k]
      case Sample(peers) =>
        CounterIn(peers, hash, d).Some?
        && (LastCounter(events[..k], hash, d).Some? ==>
              LastCounter(events[..k], hash, d).value <= CounterIn(peers, hash, d).value)
      case ReadFailed => true
      case Reset => false
  }

  /** The first counter ever sampled for a peer. */
  function FirstCounter(events: seq<Event>, hash: string, d: Direction): Option<nat> {
    if events == [] then None
    else if events[0].Sample? then CounterIn(events[0].peers, hash, d)
    else FirstCounter(events[1..], hash, d)
  }

  lemma {:induction false} FirstOfMore(events: seq<Event>, e: Event, hash: string, d: Direction)
    ensures FirstCounter(events + [e], hash, d)
         == if exists k :: 0 <= k < |events| && events[k].Sample? then FirstCounter(events, hash, d)
            else if e.Sample? then CounterIn(e.peers, hash, d) else None
  {
    if events == [] {
      assert ([] + [e])[1..] == [];
    } else {
      assert (events + [e])[1..] == events[1..] + [e];
      assert events == [events[0]] + events[1..];
      FirstOfMore(events[1..], e, hash, d);
      if k :| 0 <= k < |events| && events[k].Sample? && !events[0].Sample? {
        assert events[1..][k - 1].Sample?;
      }
    }
  }

  /** For a steady peer the shares telescope: last counter minus first. */
  lemma {:induction false} SharesTelescope(events: seq<Event>, hash: string, d: Direction)
    requires Steady(events, hash, d)
    ensures FirstCounter(events, hash, d).Some? <==> LastCounter(events, hash, d).Some?
    ensures FirstCounter(events, hash, d).Some? <==> exists k :: 0 <= k < |events| && events[k].Sample?
    ensures FirstCounter(events, hash, d).Some? ==>
              LastCounter(events, hash, d).value == FirstCounter(events, hash, d).value + PeerShare(events, hash, d)
    ensures FirstCounter(events, hash, d).None? ==> PeerShare(events, hash, d) == 0
    decreases |events|
  {
    if events != [] {
      var n := |events| - 1;
      forall k | 0 <= k < n
        ensures events[..n][k] == events[k] && events[..n][..k] == events[..k]
      {
      }
      SharesTelescope(events[..n], hash, d);
      FirstOfMore(events[..n], events[n], hash, d);
      assert events == events[..n] + [events[n]];
    }
  }

  // ---- Where the bytes of a counter go ----

  /** A counter that is not there holds nothing. */
  function Held(counter: Option<nat>): nat { if counter.Some? then counter.value else 0 }

  /** What a counter holds when a sample first has it. */
  function Appearing(before: Option<nat>, after: Option<nat>): nat { if before.None? then Held(after) else 0 }

  /** What a counter held when a sample no longer had it, or a reset forgot it. */
  function Vanishing(before: Option<nat>, after: Option<nat>): nat { if after.None? then Held(before) else 0 }

  /** By how much a counter that stays has gone down. */
  function Falling(before: Option<nat>, after: Option<nat>): nat {
    if before.Some? && after.Some? && after.value < before.value then before.value - after.value else 0
  }

  function Appeared(events: seq<Event>, hash: string, d: Direction): nat
    decreases |events|
  {
    if events == [] then 0
    else
      var n := |events| - 1;
      Appeared(events[..n], hash, d) + Appearing(LastCounter(events[..n], hash, d), LastCounter(events, hash, d))
  }

  function Vanished(events: seq<Event>, hash: string, d: Direction): nat
    decreases |events|
  {
    if events == [] then 0
    else
      var n := |events| - 1;
      Vanished(events[..n], hash, d) + Vanishing(LastCounter(events[..n], hash, d), LastCounter(events, hash, d))
  }

  function Fallen(events: seq<Event>, hash: string, d: Direction): nat
    decreases |events|
  {
    if events == [] then 0
    else
      var n := |events| - 1;
      Fallen(events[..n], hash, d) + Falling(LastCounter(events[..n], hash, d), LastCounter(events, hash, d))
  }

  /**
   Conservation, for every run and every counter, monotone or not: what it held when it appeared
   and what was reported of it equals what it holds now, what it held when it vanished, and by
   how much it has gone down.
   */
  lemma {:induction false} SharesAreConserved(events: seq<Event>, hash: string, d: Direction)
    ensures Appeared(events, hash, d) + PeerShare(events, hash, d)
         == Held(LastCounter(events, hash, d)) + Vanished(events, hash, d) + Fallen(events, hash, d)
    decreases |events|
  {
    if events != [] {
      SharesAreConserved(events[..|events| - 1], hash, d);
    }
  }

  /** The peer is in every sample, and nothing is reset. */
  ghost predicate Present(events: seq<Event>, hash: string, d: Direction) {
    forall k :: 0 <= k < |events| ==>
      match events[k]
      case Sample(peers) => CounterIn(peers, hash, d).Some?
      case ReadFailed => true
      case Reset => false
  }

  /** For a peer that is always there: first counter and reported equal last counter and decreases. */
  lemma {:induction false} PresentIsConserved(events: seq<Event>, hash: string, d: Direction)
    requires Present(events, hash, d)
    ensures Held(FirstCounter(events, hash, d)) + PeerShare(events, hash, d)
         == Held(LastCounter(events, hash, d)) + Fallen(events, hash, d)
  {
    SharesAreConserved(events, hash, d);
    FirstIsAllThatAppears(events, hash, d);
  }

  lemma {:induction false} FirstIsAllThatAppears(events: seq<Event>, hash: string, d: Direction)
    requires Present(events, hash, d)
    ensures Appeared(events, hash, d) == Held(FirstCounter(events, hash, d)) && Vanished(events, hash, d) == 0
    ensures LastCounter(events, hash, d).Some? <==> exists k :: 0 <= k < |events| && events[k].Sample?
    ensures FirstCounter(events, hash, d).Some? <==> LastCounter(events, hash, d).Some?
    decreases |events|
  {
    if events != [] {
      var n := |events| - 1;
      assert events == events[..n] + [events[n]];
      FirstIsAllThatAppears(events[..n], hash, d);
      FirstOfMore(events[..n], events[n], hash, d);
    }
  }

  /** One sample: the report is max(0, increase) for a peer with a baseline, and nothing for a new one. */
  lemma OneSample(peers: seq<Peer>, p: Peer, previous: PeerMap, d: Direction)
    ensures SumGrowth([p], previous, d)
         == if p.peerHash in previous && previous[p.peerHash].Of(d) <= p.counters.Of(d)
            then p.counters.Of(d) - previous[p.peerHash].Of(d) else 0
    ensures SumGrowth(peers + [p], previous, d) == SumGrowth(peers, previous, d) + SumGrowth([p], previous, d)
  {
    assert (peers + [p])[..|peers|] == peers && [p][..0] == [];
  }

  // ---- A reset starts afresh ----

  /** After a reset the total grows as in a run of its own, of which the first sample reports nothing. */
  lemma {:induction false} ResetStartsAfresh(before: seq<Event>, after: seq<Event>, d: Direction)
    ensures StateAfter(before + [Reset] + after) == StateAfter(after)
    ensures TotalReported(before + [Reset] + after, d) == TotalReported(before, d) + TotalReported(after, d)
    decreases |after|
  {
    var all := before + [Reset] + after;
    if after == [] {
      assert all[..|all| - 1] == before && all == before + [Reset];
    } else {
      var n := |after| - 1;
      ResetStartsAfresh(before, after[..n], d);
      assert all[..|all| - 1] == before + [Reset] + after[..n];
    }
  }

  // ---- A failed read loses nothing ----

  lemma {:induction false} FailedReadIsInvisible(before: seq<Event>, after: seq<Event>, d: Direction)
    ensures StateAfter(before + [ReadFailed] + after) == StateAfter(before + after)
    ensures TotalReported(before + [ReadFailed] + after, d) == TotalReported(before + after, d)
    decreases |after|
  {
    var long, short := before + [ReadFailed] + after, before + after;
    if after == [] {
      assert long[..|long| - 1] == before && short == before;
    } else {
      var n := |after| - 1;
      FailedReadIsInvisible(before, after[..n], d);
      assert long[..|long| - 1] == before + [ReadFailed] + after[..n];
      assert short[..|short| - 1] == before + after[..n];
    }
  }
}
