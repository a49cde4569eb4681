/**
 port-reservations.js and conflict-model.js: two detectors of overlapping bind reservations.
 */
module PortConflicts {
  import opened Outcomes

  /** A reservation as it is asked for; missing fields get defaults. */
  datatype Request = Request(
    ownerId: Option<string>, address: Option<string>, port: int, protocol: Option<string>, exclusive: Option<bool>
  )

  datatype Reservation = Reservation(
    ownerId: Option<string>, address: string, port: int, protocol: string, exclusive: bool
  )

  /** An item of a configuration: a list of reservations, something with one bind, or a plain reservation. */
  datatype Item =
    | WithReservations(reservations: seq<Request>)
    | WithBind(outboundId: Option<string>, id: Option<string>, bind: Request)
    | Plain(request: Request)

  datatype Conflict =
    | PortConflict(port: int, protocol: string, ownerIds: (Option<string>, Option<string>))
    | PrivilegedPort(privileged: int, protocol: string, ownerId: Option<string>)

  function LowerChar(c: char): char {
    if 'A' <= c <= 'Z' then ((c as int) + 32) as char else c
  }

  function Lower(s: string): string {
    if s == "" then "" else [LowerChar(s[0])] + Lower(s[1..])
  }

  /** createBindReservation and createPortReservation. */
  function Create(r: Request): Result<Reservation> {
    if !(1 <= r.port <= 65535) then Failure("port must be an integer between 1 and 65535")
    else
      Success(Reservation(r.ownerId,
                          if r.address.Some? then r.address.value else "0.0.0.0",
                          r.port,
                          Lower(if r.protocol.Some? then r.protocol.value else "tcp"),
                          if r.exclusive.Some? then r.exclusive.value else true))
  }

  function CreateAll(rs: seq<Request>): Result<seq<Reservation>>
    decreases |rs|
  {
    if rs == [] then Success([])
    else
      match CreateAll(rs[..|rs| - 1])
      case Failure(e) => Failure(e)
      case Success(before) =>
        match Create(rs[|rs| - 1])
        case Failure(e) => Failure(e)
        case Success(r) => Success(before + [r])
  }

  /** expandReservations. */
  function Expand(items: seq<Item>): seq<Request>
    decreases |items|
  {
    if items == [] then []
    else
      Expand(items[..|items| - 1]) +
      match items[|items| - 1]
      case WithReservations(rs) => rs
      case WithBind(outboundId, id, bind) => [bind.(ownerId := if outboundId.Some? then outboundId else id)]
      case Plain(r) => [r]
  }

  predicate Wildcard(address: string) { address == "0.0.0.0" || address == "::" || address == "*" }

  predicate AddressesOverlap(left: string, right: string) {
    left == right || Wildcard(left) || Wildcard(right)
  }

  predicate Conflicting(left: Reservation, right: Reservation) {
    && left.port == right.port && left.protocol == right.protocol
    && AddressesOverlap(left.address, right.address)
    && (left.exclusive || right.exclusive)
  }

  // ---- What a detector has to report ----

  /** (i, j) comes before (k, l) in the order of the nested loops. */
  predicate Earlier(p: (nat, nat), q: (nat, nat)) { p.0 < q.0 || (p.0 == q.0 && p.1 < q.1) }

  ghost predicate Ordered(pairs: seq<(nat, nat)>) {
    forall i, j :: 0 <= i < j < |pairs| ==> Earlier(pairs[i], pairs[j])
  }

  /** A pair k < l stands for a conflict, a pair (k, k) for a privileged port that may not be bound. */
  ghost predicate Reportable(rs: seq<Reservation>, mayBindPrivileged: bool, k: nat, l: nat) {
    && k <= l < |rs|
    && if k == l then rs[k].port < 1024 && !mayBindPrivileged else Conflicting(rs[k], rs[l])
  }

  ghost predicate AllReportable(pairs: seq<(nat, nat)>, rs: seq<Reservation>, mayBindPrivileged: bool) {
    && Ordered(pairs)
    && forall k: nat, l: nat :: (k, l) in pairs <==> Reportable(rs, mayBindPrivileged, k, l)
  }

  ghost predicate Describes(c: Conflict, rs: seq<Reservation>, p: (nat, nat)) {
    && p.0 < |rs| && p.1 < |rs|
    && c == if p.0 == p.1 then PrivilegedPort(rs[p.0].port, rs[p.0].protocol, rs[p.0].ownerId)
            else PortConflict(rs[p.0].port, rs[p.0].protocol, (rs[p.0].ownerId, rs[p.1].ownerId))
  }

  ghost predicate Reports(conflicts: seq<Conflict>, rs: seq<Reservation>, pairs: seq<(nat, nat)>) {
    |conflicts| == |pairs| && forall i :: 0 <= i < |pairs| ==> Describes(conflicts[i], rs, pairs[i])
  }

  // ---- The detectors ----

  /** The loops stand at (i, j): everything earlier has been reported, in order. */
  ghost predicate Progress(
    conflicts: seq<Conflict>, pairs: seq<(nat, nat)>, rs: seq<Reservation>, mayBindPrivileged: bool, i: nat, j: nat
  ) {
    && Reports(conflicts, rs, pairs) && Ordered(pairs)
    && forall k: nat, l: nat :: (k, l) in pairs <==> Reportable(rs, mayBindPrivileged, k, l) && Earlier((k, l), (i, j))
  }

  lemma StepOver(conflicts: seq<Conflict>, pairs: seq<(nat, nat)>, rs: seq<Reservation>, mayBind: bool, i: nat, j: nat)
    requires Progress(conflicts, pairs, rs, mayBind, i, j) && !Reportable(rs, mayBind, i, j)
    ensures Progress(conflicts, pairs, rs, mayBind, i, j + 1)
  {
  }

  lemma StepReporting(
    conflicts: seq<Conflict>, c: Conflict, pairs: seq<(nat, nat)>, rs: seq<Reservation>, mayBind: bool, i: nat, j: nat
  )
    requires Progress(conflicts, pairs, rs, mayBind, i, j) && Reportable(rs, mayBind, i, j) && Describes(c, rs, (i, j))
    ensures Progress(conflicts + [c], pairs + [(i, j)], rs, mayBind, i, j + 1)
  {
    var more := pairs + [(i, j)];
    forall m, n | 0 <= m < n < |more|
      ensures Earlier(more[m], more[n])
    {
      assert more[m] == (pairs[m].0, pairs[m].1) && more[m] in pairs;
    }
  }

  lemma NextRow(conflicts: seq<Conflict>, pairs: seq<(nat, nat)>, rs: seq<Reservation>, mayBind: bool, i: nat)
    requires Progress(conflicts, pairs, rs, mayBind, i, |rs|)
    ensures Progress(conflicts, pairs, rs, mayBind, i + 1, i + 1)
  {
  }

  /** detectExclusiveBindPortConflicts: one report for each conflicting pair, in order, and no other. */
  method DetectExclusiveBindPortConflicts(items: seq<Item>)
    returns (r: Result<seq<Conflict>>, ghost pairs: seq<(nat, nat)>)
    ensures r.Failure? <==> CreateAll(Expand(items)).Failure?
    ensures r.Success? ==> AllReportable(pairs, CreateAll(Expand(items)).value, true)
    ensures r.Success? ==> Reports(r.value, CreateAll(Expand(items)).value, pairs)
  {
    pairs := [];
    var made := CreateAll(Expand(items));
    if made.Failure? {
      return Failure(made.error), pairs;
    }
    var rs := made.value;
    var conflicts: seq<Conflict> := [];
    var index := 0;
    while index < |rs|
      invariant index <= |rs| && Progress(conflicts, pairs, rs, true, index, index)
    {
      StepOver(conflicts, pairs, rs, true, index, index);
      var nextIndex := index + 1;
      while nextIndex < |rs|
        invariant index < nextIndex <= |rs| && Progress(conflicts, pairs, rs, true, index, nextIndex)
      {
        if Conflicting(rs[index], rs[nextIndex]) {
          var c := PortConflict(rs[index].port, rs[index].protocol, (rs[index].ownerId, rs[nextIndex].ownerId));
          StepReporting(conflicts, c, pairs, rs, true, index, nextIndex);
          conflicts, pairs := conflicts + [c], pairs + [(index, nextIndex)];
        } else {
          StepOver(conflicts, pairs, rs, true, index, nextIndex);
        }
        nextIndex := nextIndex + 1;
      }
      NextRow(conflicts, pairs, rs, true, index);
      index := index + 1;
    }
    r := Success(conflicts);
  }

  /** detectPortConflicts: the same reports, and one for each privileged port that may not be bound. */
  method DetectPortConflicts(requests: seq<Request>, mayBindPrivileged: bool)
    returns (r: Result<seq<Conflict>>, ghost pairs: seq<(nat, nat)>)
    ensures r.Failure? <==> CreateAll(requests).Failure?
    ensures r.Success? ==> AllReportable(pairs, CreateAll(requests).value, mayBindPrivileged)
    ensures r.Success? ==> Reports(r.value, CreateAll(requests).value, pairs)
  {
    pairs := [];
    var made := CreateAll(requests);
    if made.Failure? {
      return Failure(made.error), pairs;
    }
    var rs := made.value;
    var conflicts: seq<Conflict> := [];
    var index := 0;
    while index < |rs|
      invariant index <= |rs| && Progress(conflicts, pairs, rs, mayBindPrivileged, index, index)
    {
      if rs[index].port < 1024 && !mayBindPrivileged {
        var note := PrivilegedPort(rs[index].port, rs[index].protocol, rs[index].ownerId);
        StepReporting(conflicts, note, pairs, rs, mayBindPrivileged, index, index);
        conflicts, pairs := conflicts + [note], pairs + [(index, index)];
      } else {
        StepOver(conflicts, pairs, rs, mayBindPrivileged, index, index);
      }
      var nextIndex := index + 1;
      while nextIndex < |rs|
        invariant index < nextIndex <= |rs|
        invariant Progress(conflicts, pairs, rs, mayBindPrivileged, index, nextIndex)
      {
        if Conflicting(rs[index], rs[nextIndex]) {
          var c := PortConflict(rs[index].port, rs[index].protocol, (rs[index].ownerId, rs[nextIndex].ownerId));
          StepReporting(conflicts, c, pairs, rs, mayBindPrivileged, index, nextIndex);
          conflicts, pairs := conflicts + [c], pairs + [(index, nextIndex)];
        } else {
          StepOver(conflicts, pairs, rs, mayBindPrivileged, index, nextIndex);
        }
        nextIndex := nextIndex + 1;
      }
      NextRow(conflicts, pairs, rs, mayBindPrivileged, index);
      index := index + 1;
    }
    r := Success(conflicts);
  }

  // ---- Agreement and order ----

  ghost predicate SameMembers(ps: seq<(nat, nat)>, qs: seq<(nat, nat)>) {
    forall k: nat, l: nat :: (k, l) in ps <==> (k, l) in qs
  }

  /** An ordered list is determined by its members. */
  lemma {:induction false} OrderedIsUnique(ps: seq<(nat, nat)>, qs: seq<(nat, nat)>)
    requires Ordered(ps) && Ordered(qs) && SameMembers(ps, qs)
    ensures ps == qs
    decreases |ps|
  {
    NoneWithout(ps, qs);
    NoneWithout(qs, ps);
    if ps != [] {
      var a, b := ps[|ps| - 1], qs[|qs| - 1];
      assert (a.0, a.1) in qs && (b.0, b.1) in ps;
      forall k: nat, l: nat
        ensures (k, l) in ps[..|ps| - 1] <==> (k, l) in qs[..|qs| - 1]
      {
        AllButLast(ps, (k, l));
        AllButLast(qs, (k, l));
      }
      OrderedIsUnique(ps[..|ps| - 1], qs[..|qs| - 1]);
    }
  }

  lemma NoneWithout(ps: seq<(nat, nat)>, qs: seq<(nat, nat)>)
    requires SameMembers(ps, qs)
    ensures qs == [] ==> ps == []
  {
    if ps != [] {
      assert (ps[0].0, ps[0].1) in ps;
    }
  }

  lemma AllButLast(ps: seq<(nat, nat)>, p: (nat, nat))
    requires Ordered(ps) && ps != []
    ensures p in ps[..|ps| - 1] <==> p in ps && p != ps[|ps| - 1]
  {
    var n := |ps| - 1;
    if p in ps[..n] {
      var i :| 0 <= i < n && ps[i] == p;
      assert Earlier(ps[i], ps[n]);
    }
  }

  /** The overlap reports of a list that also holds notes on privileged ports. */
  function Overlaps(conflicts: seq<Conflict>): seq<Conflict>
    decreases |conflicts|
  {
    if conflicts == [] then []
    else
      var n := |conflicts| - 1;
      Overlaps(conflicts[..n]) + if conflicts[n].PortConflict? then [conflicts[n]] else []
  }

  ghost function ProperPairs(pairs: seq<(nat, nat)>): seq<(nat, nat)>
    decreases |pairs|
  {
    if pairs == [] then []
    else
      var n := |pairs| - 1;
      ProperPairs(pairs[..n]) + if pairs[n].0 != pairs[n].1 then [pairs[n]] else []
  }

  lemma {:induction false} ProperPairsKeep(pairs: seq<(nat, nat)>)
    requires Ordered(pairs)
    ensures Ordered(ProperPairs(pairs))
    ensures forall p: (nat, nat) :: p in ProperPairs(pairs) <==> p in pairs && p.0 != p.1
    decreases |pairs|
  {
    if pairs != [] {
      var n := |pairs| - 1;
      ProperPairsKeep(pairs[..n]);
      assert pairs == pairs[..n] + [pairs[n]];
    }
  }

  lemma ReportsMore(conflicts: seq<Conflict>, c: Conflict, rs: seq<Reservation>, pairs: seq<(nat, nat)>, p: (nat, nat))
    requires Reports(conflicts, rs, pairs) && Describes(c, rs, p)
    ensures Reports(conflicts + [c], rs, pairs + [p])
  {
  }

  lemma {:induction false} OverlapsReportProperPairs(
    conflicts: seq<Conflict>, rs: seq<Reservation>, pairs: seq<(nat, nat)>
  )
    requires Reports(conflicts, rs, pairs)
    ensures Reports(Overlaps(conflicts), rs, ProperPairs(pairs))
    decreases |pairs|
  {
    if pairs != [] {
      var n := |pairs| - 1;
      var c, p := conflicts[n], pairs[n];
      var before, proper := Overlaps(conflicts[..n]), ProperPairs(pairs[..n]);
      assert Describes(c, rs, p);
      OverlapsReportProperPairs(conflicts[..n], rs, pairs[..n]);
      ReportsMore(before, c, rs, proper, p);
      LastOverlap(conflicts);
      LastProperPair(pairs);
    }
  }

  lemma LastOverlap(conflicts: seq<Conflict>)
    requires conflicts != []
    ensures var n := |conflicts| - 1;
            Overlaps(conflicts) ==
              if conflicts[n].PortConflict? then Overlaps(conflicts[..n]) + [conflicts[n]] else Overlaps(conflicts[..n])
  {
  }

  lemma LastProperPair(pairs: seq<(nat, nat)>)
    requires pairs != []
    ensures var n := |pairs| - 1;
            ProperPairs(pairs) ==
              if pairs[n].0 != pairs[n].1 then ProperPairs(pairs[..n]) + [pairs[n]] else ProperPairs(pairs[..n])
  {
  }

  /** On the same reservations the two detectors report the same overlaps in the same order. */
  lemma DetectorsAgree(
    rs: seq<Reservation>, mayBindPrivileged: bool,
    some: seq<Conflict>, ps: seq<(nat, nat)>, other: seq<Conflict>, qs: seq<(nat, nat)>
  )
    requires AllReportable(ps, rs, true) && Reports(some, rs, ps)
    requires AllReportable(qs, rs, mayBindPrivileged) && Reports(other, rs, qs)
    ensures some == Overlaps(other)
  {
    ProperPairsKeep(qs);
    OverlapsReportProperPairs(other, rs, qs);
    OrderedIsUnique(ps, ProperPairs(qs));
    SameReports(rs, some, Overlaps(other), ps);
  }

  lemma SameReports(rs: seq<Reservation>, some: seq<Conflict>, other: seq<Conflict>, pairs: seq<(nat, nat)>)
    requires Reports(some, rs, pairs) && Reports(other, rs, pairs)
    ensures some == other
  {
    forall i | 0 <= i < |some|
      ensures some[i] == other[i]
    {
      assert Describes(some[i], rs, pairs[i]) && Describes(other[i], rs, pairs[i]);
    }
  }

  /** No report means that all reservations can be held together. */
  lemma NoReportMeansCompatible(rs: seq<Reservation>, conflicts: seq<Conflict>, pairs: seq<(nat, nat)>)
    requires AllReportable(pairs, rs, true) && Reports(conflicts, rs, pairs)
    ensures conflicts == [] <==> forall k, l :: 0 <= k < l < |rs| ==> !Conflicting(rs[k], rs[l])
  {
    if conflicts == [] {
      forall k, l | 0 <= k < l < |rs|
        ensures !Conflicting(rs[k], rs[l])
      {
        assert (k, l) !in pairs;
      }
    } else {
      var (k, l) := pairs[0];
      assert (k, l) in pairs;
    }
  }

  // ---- What a conflict is ----

  /** A place to listen at: one concrete address, one port, one protocol. */
  datatype Endpoint = Endpoint(address: string, port: int, protocol: string)

  /** The reservation takes in the endpoint: by its own address, or because it listens everywhere. */
  ghost predicate Claims(r: Reservation, e: Endpoint) {
    && r.port == e.port && r.protocol == e.protocol
    && r.address in {e.address, "0.0.0.0", "::", "*"}
  }

  /** Two reservations conflict exactly if they claim a common endpoint and one wants it for itself. */
  lemma ConflictingExactly(left: Reservation, right: Reservation)
    ensures Conflicting(left, right)
       <==> (left.exclusive || right.exclusive) && exists e :: Claims(left, e) && Claims(right, e)
  {
    if Conflicting(left, right) {
      var concrete := if Wildcard(left.address) then right.address else left.address;
      var e := Endpoint(concrete, left.port, left.protocol);
      assert Claims(left, e) && Claims(right, e);
    }
  }

  /** No report if and only if no endpoint is claimed twice, unless all that claim it share it. */
  lemma NoReportMeansShared(rs: seq<Reservation>, conflicts: seq<Conflict>, pairs: seq<(nat, nat)>)
    requires AllReportable(pairs, rs, true) && Reports(conflicts, rs, pairs)
    ensures conflicts == [] <==>
              forall e, k, l :: 0 <= k < l < |rs| && Claims(rs[k], e) && Claims(rs[l], e) ==>
                !rs[k].exclusive && !rs[l].exclusive
  {
    NoReportMeansCompatible(rs, conflicts, pairs);
    forall k, l | 0 <= k < l < |rs|
      ensures Conflicting(rs[k], rs[l])
         <==> (rs[k].exclusive || rs[l].exclusive) && exists e :: Claims(rs[k], e) && Claims(rs[l], e)
    {
      ConflictingExactly(rs[k], rs[l]);
    }
  }

  // ---- What reservations are made of ----

  /** c without its case, for ASCII letters. */
  ghost predicate LowerOf(c: char, l: char) {
    if 'A' <= c <= 'Z' then 'a' <= l <= 'z' && l as int - 'a' as int == c as int - 'A' as int else l == c
  }

  lemma {:induction false} LowerExactly(s: string)
    ensures |Lower(s)| == |s| && forall i :: 0 <= i < |s| ==> LowerOf(s[i], Lower(s)[i])
  {
    if s != "" {
      LowerExactly(s[1..]);
    }
  }

  /** The reservation that a request is for, with its defaults filled in. */
  ghost predicate Fills(q: Request, r: Reservation) {
    && 1 <= r.port <= 65535 && r.port == q.port && r.ownerId == q.ownerId
    && (q.address == Some(r.address) || (q.address == None && r.address == "0.0.0.0"))
    && (q.exclusive == Some(r.exclusive) || (q.exclusive == None && r.exclusive))
    && var asked := q.protocol.GetOr("tcp");
       |r.protocol| == |asked| && forall i :: 0 <= i < |asked| ==> LowerOf(asked[i], r.protocol[i])
  }

  lemma CreateExactly(q: Request)
    ensures Create(q).Success? <==> 1 <= q.port <= 65535
    ensures Create(q).Success? ==> Fills(q, Create(q).value)
  {
    LowerExactly(q.protocol.GetOr("tcp"));
  }

  /** All requests become reservations, in order, unless a port is out of range. */
  lemma {:induction false} CreatedExactly(qs: seq<Request>)
    ensures CreateAll(qs).Success? <==> forall i :: 0 <= i < |qs| ==> 1 <= qs[i].port <= 65535
    ensures CreateAll(qs).Success? ==> AllFilled(qs, CreateAll(qs).value)
    decreases |qs|
  {
    if qs != [] {
      var n := |qs| - 1;
      CreatedExactly(qs[..n]);
      CreateExactly(qs[n]);
      assert qs == qs[..n] + [qs[n]];
      if CreateAll(qs).Success? {
        OneMoreFilled(qs[..n], CreateAll(qs[..n]).value, qs[n], Create(qs[n]).value);
      }
    }
  }

  lemma OneMoreFilled(qs: seq<Request>, rs: seq<Reservation>, q: Request, r: Reservation)
    requires AllFilled(qs, rs) && Fills(q, r)
    ensures AllFilled(qs + [q], rs + [r])
  {
  }

  ghost predicate AllFilled(qs: seq<Request>, rs: seq<Reservation>) {
    |rs| == |qs| && forall i :: 0 <= i < |qs| ==> Fills(qs[i], rs[i])
  }

  /** What one item brings: its list, or its one bind under the outbound's or its own id, or itself. */
  ghost predicate Brings(item: Item, qs: seq<Request>) {
    match item
    case WithReservations(list) => qs == list
    case WithBind(outboundId, id, bind) =>
      && |qs| == 1 && qs[0].ownerId == outboundId.OrElse(id) && qs[0].port == bind.port
      && qs[0].address == bind.address && qs[0].protocol == bind.protocol && qs[0].exclusive == bind.exclusive
    case Plain(request) => qs == [request]
  }

  lemma ExpandOne(item: Item)
    ensures Brings(item, Expand([item]))
  {
    assert [item][..0] == [];
  }

  /** Items are expanded one after the other. */
  lemma {:induction false} ExpandConcat(items: seq<Item>, more: seq<Item>)
    ensures Expand(items + more) == Expand(items) + Expand(more)
    decreases |more|
  {
    if more == [] {
      assert items + more == items;
    } else {
      var n := |more| - 1;
      var all := items + more;
      assert all[..|all| - 1] == items + more[..n] && all[|all| - 1] == more[n];
      ExpandConcat(items, more[..n]);
    }
  }

  // ---- The order of the input ----

  /** The pair p of places holds the reservations a and b, either way round. */
  predicate Holds(rs: seq<Reservation>, p: (nat, nat), a: Reservation, b: Reservation) {
    p.0 < |rs| && p.1 < |rs|
    && ((rs[p.0] == a && rs[p.1] == b) || (rs[p.0] == b && rs[p.1] == a))
  }

  /** How often a conflict between a and b is reported. */
  function TimesReported(pairs: seq<(nat, nat)>, rs: seq<Reservation>, a: Reservation, b: Reservation): nat
    decreases |pairs|
  {
    if pairs == [] then 0
    else
      var n := |pairs| - 1;
      TimesReported(pairs[..n], rs, a, b) + if Holds(rs, pairs[n], a, b) then 1 else 0
  }

  function Held(pairs: seq<(nat, nat)>, rs: seq<Reservation>, a: Reservation, b: Reservation): set<(nat, nat)> {
    set p | p in pairs && Holds(rs, p, a, b)
  }

  lemma HeldGrows(pairs: seq<(nat, nat)>, rs: seq<Reservation>, a: Reservation, b: Reservation)
    requires Ordered(pairs) && pairs != []
    ensures var n := |pairs| - 1;
            && pairs[n] !in Held(pairs[..n], rs, a, b)
            && Held(pairs, rs, a, b)
            == Held(pairs[..n], rs, a, b) + if Holds(rs, pairs[n], a, b) then {pairs[n]} else {}
  {
    forall p
      ensures p in pairs[..|pairs| - 1] <==> p in pairs && p != pairs[|pairs| - 1]
    {
      AllButLast(pairs, p);
    }
  }

  lemma {:induction false} TimesReportedIsSize(
    pairs: seq<(nat, nat)>, rs: seq<Reservation>, a: Reservation, b: Reservation
  )
    requires Ordered(pairs)
    ensures TimesReported(pairs, rs, a, b) == |Held(pairs, rs, a, b)|
    decreases |pairs|
  {
    if pairs != [] {
      TimesReportedIsSize(pairs[..|pairs| - 1], rs, a, b);
      HeldGrows(pairs, rs, a, b);
    }
  }

  /** The places k < l among the first n that hold a and b. */
  function Places(rs: seq<Reservation>, n: nat, a: Reservation, b: Reservation): set<(nat, nat)>
    requires n <= |rs|
  {
    set k: nat, l: nat | l < n && k < l && Holds(rs, (k, l), a, b) :: (k, l)
  }

  /** Those of them that end at place l and start with c before place m. */
  function Column(rs: seq<Reservation>, m: nat, l: nat, c: Reservation): set<(nat, nat)>
    requires m <= l < |rs|
  {
    set k: nat | k < m && rs[k] == c :: (k, l)
  }

  lemma {:induction false} ColumnSize(rs: seq<Reservation>, m: nat, l: nat, c: Reservation)
    requires m <= l < |rs|
    ensures |Column(rs, m, l, c)| == multiset(rs[..m])[c]
  {
    if m == 0 {
      assert Column(rs, 0, l, c) == {};
    } else {
      ColumnSize(rs, m - 1, l, c);
      assert rs[..m] == rs[..m - 1] + [rs[m - 1]];
      assert Column(rs, m, l, c) == Column(rs, m - 1, l, c) + if rs[m - 1] == c then {(m - 1, l)} else {};
    }
  }

  /** The number of pairs of x things. */
  function Choose2(x: nat): nat { if x == 0 then 0 else x - 1 + Choose2(x - 1) }

  /** How often a and b meet, from how often each occurs. */
  function Meetings(m: multiset<Reservation>, a: Reservation, b: Reservation): nat {
    if a == b then Choose2(m[a]) else m[a] * m[b]
  }

  lemma MeetingsGrow(m: multiset<Reservation>, x: Reservation, a: Reservation, b: Reservation)
    ensures Meetings(m + multiset{x}, a, b) == Meetings(m, a, b) + if x == a then m[b] else if x == b then m[a] else 0
  {
    assert (m[a] + 1) * m[b] == m[a] * m[b] + m[b] && m[a] * (m[b] + 1) == m[a] * m[b] + m[a];
  }

  lemma PlacesGrow(rs: seq<Reservation>, l: nat, a: Reservation, b: Reservation)
    requires l < |rs|
    ensures var more := if rs[l] == a then Column(rs, l, l, b) else if rs[l] == b then Column(rs, l, l, a) else {};
            Places(rs, l + 1, a, b) == Places(rs, l, a, b) + more && Places(rs, l, a, b) !! more
  {
  }

  lemma {:induction false} PlacesSize(rs: seq<Reservation>, n: nat, a: Reservation, b: Reservation)
    requires n <= |rs|
    ensures |Places(rs, n, a, b)| == Meetings(multiset(rs[..n]), a, b)
  {
    if n == 0 {
      assert Places(rs, 0, a, b) == {};
    } else {
      var l := n - 1;
      PlacesSize(rs, l, a, b);
      ColumnSize(rs, l, l, a);
      ColumnSize(rs, l, l, b);
      PlacesGrow(rs, l, a, b);
      assert rs[..n] == rs[..l] + [rs[l]];
      MeetingsGrow(multiset(rs[..l]), rs[l], a, b);
    }
  }

  /** A conflict is reported as often as its two sides meet in the input. */
  lemma ReportedAsOftenAsTheyMeet(rs: seq<Reservation>, ps: seq<(nat, nat)>, a: Reservation, b: Reservation)
    requires AllReportable(ps, rs, true)
    ensures TimesReported(ps, rs, a, b) == if Conflicting(a, b) then Meetings(multiset(rs), a, b) else 0
  {
    TimesReportedIsSize(ps, rs, a, b);
    PlacesSize(rs, |rs|, a, b);
    assert rs[..|rs|] == rs;
    forall k: nat, l: nat
      ensures (k, l) in ps && Holds(rs, (k, l), a, b) <==> (k, l) in Places(rs, |rs|, a, b) && Conflicting(a, b)
    {
    }
    assert Held(ps, rs, a, b) == if Conflicting(a, b) then Places(rs, |rs|, a, b) else {};
  }

  /** Which conflicts are reported, and how often, does not depend on the order of the input. */
  lemma OrderDoesNotMatter(
    rs: seq<Reservation>, ps: seq<(nat, nat)>, ss: seq<Reservation>, qs: seq<(nat, nat)>, a: Reservation, b: Reservation
  )
    requires multiset(rs) == multiset(ss)
    requires AllReportable(ps, rs, true) && AllReportable(qs, ss, true)
    ensures TimesReported(ps, rs, a, b) == TimesReported(qs, ss, a, b)
  {
    ReportedAsOftenAsTheyMeet(rs, ps, a, b);
    ReportedAsOftenAsTheyMeet(ss, qs, a, b);
  }
}
