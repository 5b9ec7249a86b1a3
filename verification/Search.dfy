/** Budgeted search: how one request spreads through the network and how many packets it can cause. */
module Search {
  import opened Prelude

  type Address = string

  // ----- dividing a budget -----

  predicate InRange(places: seq<nat>, n: nat) {
    forall i :: 0 <= i < |places| ==> places[i] < n
  }

  /** budgets with one more at each of the given places. */
  function Bump(budgets: seq<nat>, places: seq<nat>): (r: seq<nat>)
    requires InRange(places, |budgets|)
    ensures |r| == |budgets|
    decreases |places|
  {
    if places == [] then budgets
    else
      var last := |places| - 1;
      var before := Bump(budgets, places[..last]);
      before[places[last] := before[places[last]] + 1]
  }

  /** An equal share for each neighbor, and what remains as one more for the first of a random order. */
  function Divided(total: nat, n: nat, indices: seq<nat>): seq<nat>
    requires |indices| == n && InRange(indices, n)
  {
    if total == 0 || n == 0 then seq(n, _ => 0)
    else Bump(seq(n, _ => total / n), indices[..total % n])
  }

  method Shares(total: nat, n: nat) returns (share: nat, extra: nat)
    requires n > 0
    ensures share == total / n && extra == total % n && extra < n
  {
    share, extra := total / n, total % n;
  }

  method DivideBudget(totalBudget: nat, numNeighbors: nat, indices: seq<nat>) returns (budgets: array<nat>)
    requires totalBudget < TWO_TO_THE_64 && IsPermutation(indices, numNeighbors)
    ensures fresh(budgets) && budgets[..] == Divided(totalBudget, numNeighbors, indices)
  {
    budgets := new nat[numNeighbors](_ => 0);
    if totalBudget == 0 || numNeighbors == 0 {
      return;
    }
    hide Divided;
    var baseBudget, extraBudget := Shares(totalBudget, numNeighbors);
    for i := 0 to numNeighbors
      invariant forall k :: 0 <= k < i ==> budgets[k] == baseBudget
    {
      budgets[i] := baseBudget;
    }
    ghost var shares := seq(numNeighbors, _ => baseBudget);
    assert budgets[..] == shares;
    for i := 0 to extraBudget
      invariant budgets[..] == Bump(shares, indices[..i])
    {
      assert indices[..i + 1][..i] == indices[..i];
      budgets[indices[i]] := budgets[indices[i]] + 1;
    }
    DividedIs(totalBudget, numNeighbors, indices, baseBudget, extraBudget);
  }

  lemma DividedIs(total: nat, n: nat, indices: seq<nat>, share: nat, extra: nat)
    requires total > 0 && n > 0 && share == total / n && extra == total % n
    requires IsPermutation(indices, n)
    ensures Divided(total, n, indices) == Bump(seq(n, _ => share), indices[..extra])
  {
  }

  lemma {:induction false} BumpFacts(budgets: seq<nat>, places: seq<nat>)
    requires Distinct(places) && InRange(places, |budgets|)
    ensures Sum(Bump(budgets, places)) == Sum(budgets) + |places|
    ensures forall j: nat :: j < |budgets| ==> Bump(budgets, places)[j] == budgets[j] + if j in places then 1 else 0
    decreases |places|
  {
    if places != [] {
      var last := |places| - 1;
      var front := places[..last];
      BumpFacts(budgets, front);
      var before := Bump(budgets, front);
      SumUpdate(before, places[last], before[places[last]] + 1);
      assert places == front + [places[last]] && places[last] !in front;
    }
  }

  lemma {:induction false} SumOfShares(n: nat, share: nat)
    ensures Sum(seq(n, _ => share)) == n * share
  {
    if n > 0 {
      assert seq(n, _ => share)[1..] == seq(n - 1, _ => share);
      SumOfShares(n - 1, share);
    }
  }

  /** For every random order the parts add up to exactly the whole, one for each neighbor, and any
      two of them differ by at most one. */
  lemma DividedFairly(total: nat, n: nat, indices: seq<nat>)
    requires IsPermutation(indices, n)
    ensures var parts := Divided(total, n, indices);
      && |parts| == n
      && Sum(parts) == (if n == 0 then 0 else total)
      && forall i, j :: 0 <= i < n && 0 <= j < n ==> parts[i] <= parts[j] + 1
  {
    if total == 0 || n == 0 {
      SumOfShares(n, 0);
    } else {
      var share, extra := Quotient(total, n);
      SumOfShares(n, share);
      BumpFacts(seq(n, _ => share), indices[..extra]);
    }
  }

  // ----- one node -----

  datatype Request = Request(to: Address, from: Address, budget: nat)

  /** The packets for an allocation: none for a neighbor whose part is 0. */
  function Requests(self: Address, neighbors: seq<Address>, budgets: seq<nat>): seq<Request>
    requires |neighbors| == |budgets|
  {
    if neighbors == [] then []
    else (if budgets[0] > 0 then [Request(neighbors[0], self, budgets[0])] else []) +
         Requests(self, neighbors[1..], budgets[1..])
  }

  lemma NoRequests(self: Address)
    ensures Requests(self, [], []) == []
  {
  }

  lemma RequestsFrom(self: Address, neighbors: seq<Address>, budgets: seq<nat>, i: nat)
    requires i < |neighbors| == |budgets|
    ensures Requests(self, neighbors[i..], budgets[i..]) ==
            (if budgets[i] > 0 then [Request(neighbors[i], self, budgets[i])] else []) +
            Requests(self, neighbors[i + 1..], budgets[i + 1..])
  {
    assert neighbors[i..][1..] == neighbors[i + 1..] && budgets[i..][1..] == budgets[i + 1..];
  }

  /** The sum of the budgets. */
  function Load(requests: seq<Request>): nat {
    if requests == [] then 0 else requests[0].budget + Load(requests[1..])
  }

  ghost predicate AllPositive(requests: seq<Request>) {
    forall r :: r in requests ==> r.budget >= 1
  }

  lemma {:induction false} LoadConcat(a: seq<Request>, b: seq<Request>)
    ensures Load(a + b) == Load(a) + Load(b)
  {
    if a == [] {
      assert a + b == b;
    } else {
      assert (a + b)[1..] == a[1..] + b;
      LoadConcat(a[1..], b);
    }
  }

  lemma {:induction false} RequestsFacts(self: Address, neighbors: seq<Address>, budgets: seq<nat>)
    requires |neighbors| == |budgets|
    ensures var r := Requests(self, neighbors, budgets);
      AllPositive(r) && Load(r) == Sum(budgets) && |r| <= Load(r)
  {
    if neighbors != [] {
      RequestsFacts(self, neighbors[1..], budgets[1..]);
      var head := if budgets[0] > 0 then [Request(neighbors[0], self, budgets[0])] else [];
      LoadConcat(head, Requests(self, neighbors[1..], budgets[1..]));
    }
  }

  /** total is spread over peers: one request to each if it is enough, else one to each of as many as it
      is enough for; no two to the same peer, no two parts further apart than 1, and nothing is lost. */
  ghost predicate SpreadFairly(sent: seq<Request>, self: Address, peers: set<Address>, total: nat) {
    && |sent| == (if total < |peers| then total else |peers|)
    && Load(sent) == (if peers == {} then 0 else total)
    && (forall r :: r in sent ==> r.from == self && r.to in peers && r.budget >= 1)
    && ToDifferent(sent)
    && (forall i, j :: 0 <= i < |sent| && 0 <= j < |sent| ==> sent[i].budget <= sent[j].budget + 1)
    && (|sent| < |peers| ==> forall r :: r in sent ==> r.budget == 1)
  }

  /** Each request goes to a neighbor of its own and carries the part of that neighbor. */
  ghost predicate IsPartOf(r: Request, self: Address, neighbors: seq<Address>, budgets: seq<nat>)
    requires |neighbors| == |budgets|
  {
    r.from == self && exists i :: 0 <= i < |neighbors| && r.to == neighbors[i] && r.budget == budgets[i] > 0
  }

  lemma RequestsUnfold(self: Address, neighbors: seq<Address>, budgets: seq<nat>)
    requires |neighbors| == |budgets| > 0
    ensures Requests(self, neighbors, budgets) ==
            (if budgets[0] > 0 then [Request(neighbors[0], self, budgets[0])] else []) +
            Requests(self, neighbors[1..], budgets[1..])
  {
  }

  lemma PartOfRest(x: Request, self: Address, neighbors: seq<Address>, budgets: seq<nat>)
    requires |neighbors| == |budgets| > 0 && Distinct(neighbors) && IsPartOf(x, self, neighbors[1..], budgets[1..])
    ensures IsPartOf(x, self, neighbors, budgets) && x.to != neighbors[0]
  {
    var i :| 0 <= i < |neighbors[1..]| && x.to == neighbors[1..][i] && x.budget == budgets[1..][i] > 0;
    assert neighbors[i + 1] == neighbors[1..][i] && budgets[i + 1] == budgets[1..][i];
  }

  ghost predicate ToDifferent(requests: seq<Request>) {
    forall i, j :: 0 <= i < j < |requests| ==> requests[i].to != requests[j].to
  }

  lemma OneMoreDifferent(first: Request, rest: seq<Request>)
    requires ToDifferent(rest) && forall x :: x in rest ==> x.to != first.to
    ensures ToDifferent([first] + rest)
  {
  }

  lemma {:induction false} RequestsArePartsOf(self: Address, neighbors: seq<Address>, budgets: seq<nat>)
    requires |neighbors| == |budgets| && Distinct(neighbors)
    ensures var r := Requests(self, neighbors, budgets);
      ToDifferent(r) && forall x :: x in r ==> IsPartOf(x, self, neighbors, budgets)
  {
    if neighbors != [] {
      var rest := Requests(self, neighbors[1..], budgets[1..]);
      RequestsUnfold(self, neighbors, budgets);
      RequestsArePartsOf(self, neighbors[1..], budgets[1..]);
      forall x | x in rest ensures IsPartOf(x, self, neighbors, budgets) && x.to != neighbors[0] {
        PartOfRest(x, self, neighbors, budgets);
      }
      var head := Request(neighbors[0], self, budgets[0]);
      if budgets[0] > 0 {
        assert IsPartOf(head, self, neighbors, budgets);
        OneMoreDifferent(head, rest);
      }
    }
  }

  lemma {:induction false} RequestsCounted(self: Address, neighbors: seq<Address>, budgets: seq<nat>)
    requires |neighbors| == |budgets|
    ensures (forall b :: b in budgets ==> b <= 1) ==> |Requests(self, neighbors, budgets)| == Sum(budgets)
    ensures (forall b :: b in budgets ==> b >= 1) ==> |Requests(self, neighbors, budgets)| == |neighbors|
  {
    if neighbors != [] {
      RequestsUnfold(self, neighbors, budgets);
      RequestsCounted(self, neighbors[1..], budgets[1..]);
      assert budgets[0] in budgets && forall b :: b in budgets[1..] ==> b in budgets;
    }
  }

  lemma {:induction false} SizeOfDistinct(s: seq<Address>)
    requires Distinct(s)
    ensures |set a | a in s| == |s|
  {
    if s != [] {
      SizeOfDistinct(s[1..]);
      assert (set a | a in s) == {s[0]} + set a | a in s[1..];
    }
  }

  /** The parts of total for n neighbors: none lost, no two further apart than 1, and all at most 1 if total
      is not enough for all, else all at least 1. */
  ghost predicate AreEvenParts(parts: seq<nat>, n: nat, total: nat) {
    && |parts| == n && Sum(parts) == (if n == 0 then 0 else total)
    && (forall i, j :: 0 <= i < n && 0 <= j < n ==> parts[i] <= parts[j] + 1)
    && (total < n ==> forall b :: b in parts ==> b <= 1)
    && (total >= n ==> forall b :: b in parts ==> b >= 1)
  }

  lemma DividedEvenly(total: nat, n: nat, indices: seq<nat>)
    requires IsPermutation(indices, n)
    ensures AreEvenParts(Divided(total, n, indices), n, total)
  {
    DividedFairly(total, n, indices);
    if total > 0 && n > 0 {
      var share, extra := Quotient(total, n);
      ShareIsEnough(total, n, share, extra);
      DividedIs(total, n, indices, share, extra);
      hide Divided;
      BumpFacts(seq(n, _ => share), indices[..extra]);
    }
  }

  lemma ShareIsEnough(total: nat, n: nat, share: nat, extra: nat)
    requires n * share + extra == total && extra < n
    ensures share >= 1 <==> total >= n
  {
    MultipleIsAtLeast(share, n);
    if share == 0 { assert n * share == 0; } else { assert n * share == share * n; }
  }

  lemma EvenPartsSpread(self: Address, neighbors: seq<Address>, parts: seq<nat>, total: nat)
    requires Distinct(neighbors) && AreEvenParts(parts, |neighbors|, total)
    ensures SpreadFairly(Requests(self, neighbors, parts), self, (set a | a in neighbors), total)
  {
    hide Requests, Distinct, Sum, Load, ToDifferent, IsPartOf;
    var sent, peers := Requests(self, neighbors, parts), set a | a in neighbors;
    SizeOfDistinct(neighbors);
    RequestsArePartsOf(self, neighbors, parts);
    RequestsCounted(self, neighbors, parts);
    RequestsFacts(self, neighbors, parts);
    if neighbors != [] { assert neighbors[0] in peers; }
    forall r | r in sent ensures r.from == self && r.to in neighbors && r.budget in parts && r.budget >= 1 {
      PartIsFrom(r, self, neighbors, parts);
    }
    forall i, j | 0 <= i < |sent| && 0 <= j < |sent| ensures sent[i].budget <= sent[j].budget + 1 {
      assert sent[i].budget in parts && sent[j].budget in parts;
    }
    if |sent| < |peers| {
      forall r | r in sent ensures r.budget == 1 { assert r.budget in parts; }
    }
  }

  lemma PartIsFrom(r: Request, self: Address, neighbors: seq<Address>, parts: seq<nat>)
    requires |neighbors| == |parts| && IsPartOf(r, self, neighbors, parts)
    ensures r.from == self && r.to in neighbors && r.budget in parts && r.budget >= 1
  {
  }

  /** For every order of the neighbors and every random permutation. */
  lemma RequestsSpreadFairly(self: Address, neighbors: seq<Address>, total: nat, indices: seq<nat>)
    requires Distinct(neighbors) && IsPermutation(indices, |neighbors|)
    ensures SpreadFairly(Requests(self, neighbors, Divided(total, |neighbors|, indices)),
                         self, (set a | a in neighbors), total)
  {
    hide Divided, Requests, SpreadFairly, AreEvenParts;
    DividedEvenly(total, |neighbors|, indices);
    EvenPartsSpread(self, neighbors, Divided(total, |neighbors|, indices), total);
  }

  /** A request with budget b spends 1 and splits the rest over the other neighbors. */
  function Forwarded(self: Address, budget: nat, neighbors: seq<Address>, indices: seq<nat>): seq<Request>
    requires |indices| == |neighbors| && InRange(indices, |neighbors|)
  {
    if budget > 1 && |neighbors| > 0 then Requests(self, neighbors, Divided(budget - 1, |neighbors|, indices))
    else []
  }

  /** neighbors is some order of the elements of peers. */
  ghost predicate Shuffled(neighbors: seq<Address>, peers: set<Address>) {
    Distinct(neighbors) && peers == set a | a in neighbors
  }

  lemma NothingSpread(self: Address, peers: set<Address>)
    ensures SpreadFairly([], self, peers, 0)
    ensures peers == {} ==> forall total: nat :: SpreadFairly([], self, peers, total)
  {
  }

  class SearchNode {
    const self: Address
    var directPeers: set<Address>
    var handledSearchRequests: set<string>

    constructor (address: Address, peers: set<Address>)
      ensures self == address && directPeers == peers && handledSearchRequests == {}
    {
      self, directPeers, handledSearchRequests := address, peers, {};
    }

    /** The first requests of a search, sent to all neighbors. */
    method SendSearchRequests(budget: nat, neighbors: seq<Address>, indices: seq<nat>) returns (sent: seq<Request>)
      requires budget < TWO_TO_THE_64
      requires Shuffled(neighbors, directPeers) && IsPermutation(indices, |neighbors|)
      ensures sent == Requests(self, neighbors, Divided(budget, |neighbors|, indices))
      ensures SpreadFairly(sent, self, directPeers, budget)
    {
      hide SpreadFairly;
      RequestsSpreadFairly(self, neighbors, budget, indices);
      var allocation := DivideBudget(budget, |neighbors|, indices);
      sent := SendParts(neighbors, allocation[..]);
    }

    method SendParts(neighbors: seq<Address>, allocation: seq<nat>) returns (sent: seq<Request>)
      requires |allocation| == |neighbors|
      ensures sent == Requests(self, neighbors, allocation)
    {
      hide Requests;
      NoRequests(self);
      assert neighbors[0..] == neighbors && allocation[0..] == allocation;
      sent := [];
      for i := 0 to |neighbors|
        invariant Requests(self, neighbors, allocation) == sent + Requests(self, neighbors[i..], allocation[i..])
      {
        RequestsFrom(self, neighbors, allocation, i);
        if allocation[i] > 0 {
          sent := sent + [Request(neighbors[i], self, allocation[i])];
        }
      }
    }

    /** Spends 1 of the budget and forwards the rest, then answers; only an answer that could be sent
        marks the request as handled. */
    method HandleSearchRequest(id: string, source: Address, budget: nat, neighbors: seq<Address>, indices: seq<nat>,
        replied: bool)
      returns (sent: seq<Request>)
      requires budget < TWO_TO_THE_64
      requires Shuffled(neighbors, directPeers - {source, self}) && IsPermutation(indices, |neighbors|)
      modifies this`handledSearchRequests
      ensures sent == if id in old(handledSearchRequests) then [] else Forwarded(self, budget, neighbors, indices)
      ensures SpreadFairly(sent, self, directPeers - {source, self},
                           if id in old(handledSearchRequests) || budget <= 1 then 0 else budget - 1)
      ensures handledSearchRequests == old(handledSearchRequests) + if replied then {id} else {}
    {
      hide SpreadFairly;
      sent := [];
      NothingSpread(self, directPeers - {source, self});
      if id in handledSearchRequests { return; }
      if budget > 1 { RequestsSpreadFairly(self, neighbors, budget - 1, indices); }
      if budget > 1 && |neighbors| > 0 {
        var allocation := DivideBudget(budget - 1, |neighbors|, indices);
        sent := SendParts(neighbors, allocation[..]);
      }
      if replied {
        handledSearchRequests := handledSearchRequests + {id};
      }
    }
  }

  // ----- one search in the whole network -----

  /** The requests in flight, how many were sent so far, and the nodes that marked it as handled. */
  datatype Flood = Flood(inFlight: seq<Request>, sent: nat, handled: set<Address>)

  datatype FloodStep =
    | Lose(index: nat)
    | Deliver(index: nat, neighbors: seq<Address>, indices: seq<nat>, replied: bool)

  function Start(origin: Address, budget: nat, neighbors: seq<Address>, indices: seq<nat>): Flood
    requires |indices| == |neighbors| && InRange(indices, |neighbors|)
  {
    var first := Requests(origin, neighbors, Divided(budget, |neighbors|, indices));
    Flood(first, |first|, {})
  }

  /** f is a search of this budget as it leaves its origin, for some order of its neighbors and some
      random permutation. */
  ghost predicate Starts(f: Flood, origin: Address, budget: nat) {
    exists neighbors, indices ::
      IsPermutation(indices, |neighbors|) && f == Start(origin, budget, neighbors, indices)
  }

  ghost predicate CanStep(f: Flood, step: FloodStep) {
    step.index < |f.inFlight| && (step.Deliver? ==> IsPermutation(step.indices, |step.neighbors|))
  }

  function Apply(f: Flood, step: FloodStep): Flood
    requires CanStep(f, step)
  {
    var r := f.inFlight[step.index];
    var rest := f.inFlight[..step.index] + f.inFlight[step.index + 1..];
    if step.Lose? || r.to in f.handled then f.(inFlight := rest)
    else
      var onward := Forwarded(r.to, r.budget, step.neighbors, step.indices);
      Flood(rest + onward, f.sent + |onward|, f.handled + if step.replied then {r.to} else {})
  }

  ghost predicate Legal(f: Flood, steps: seq<FloodStep>)
    decreases |steps|
  {
    steps == [] || (CanStep(f, steps[0]) && Legal(Apply(f, steps[0]), steps[1..]))
  }

  ghost function Run(f: Flood, steps: seq<FloodStep>): Flood
    requires Legal(f, steps)
    decreases |steps|
  {
    if steps == [] then f else Run(Apply(f, steps[0]), steps[1..])
  }

  /** What is forwarded carries at most the budget less the one that was spent. */
  lemma ForwardedSpends(self: Address, budget: nat, neighbors: seq<Address>, indices: seq<nat>)
    requires IsPermutation(indices, |neighbors|) && budget >= 1
    ensures var r := Forwarded(self, budget, neighbors, indices);
      AllPositive(r) && Load(r) == (if |neighbors| > 0 then budget - 1 else 0)
  {
    if budget > 1 && |neighbors| > 0 {
      DividedFairly(budget - 1, |neighbors|, indices);
      RequestsFacts(self, neighbors, Divided(budget - 1, |neighbors|, indices));
    }
  }

  /** Each request in flight stands for its own packet, already counted, and for at most budget - 1
      packets still to come. */
  ghost predicate WithinBudget(f: Flood, total: nat) {
    AllPositive(f.inFlight) && f.sent + Load(f.inFlight) <= total + |f.inFlight|
  }

  lemma StepSpends(f: Flood, step: FloodStep, total: nat)
    requires WithinBudget(f, total) && CanStep(f, step)
    ensures WithinBudget(Apply(f, step), total)
    ensures Load(Apply(f, step).inFlight) < Load(f.inFlight)
  {
    var i, r := step.index, f.inFlight[step.index];
    var a, b := f.inFlight[..i], f.inFlight[i + 1..];
    assert f.inFlight == a + ([r] + b);
    LoadConcat(a, [r] + b);
    LoadConcat([r], b);
    LoadConcat(a, b);
    if step.Deliver? && r.to !in f.handled {
      ForwardedSpends(r.to, r.budget, step.neighbors, step.indices);
      LoadConcat(a + b, Forwarded(r.to, r.budget, step.neighbors, step.indices));
    }
  }

  lemma {:induction false} RunSpends(f: Flood, steps: seq<FloodStep>, total: nat)
    requires WithinBudget(f, total) && Legal(f, steps)
    ensures WithinBudget(Run(f, steps), total)
    ensures Load(Run(f, steps).inFlight) + |steps| <= Load(f.inFlight)
    decreases |steps|
  {
    if steps != [] {
      StepSpends(f, steps[0], total);
      RunSpends(Apply(f, steps[0]), steps[1..], total);
    }
  }

  lemma {:induction false} PositiveLoad(requests: seq<Request>)
    requires AllPositive(requests)
    ensures Load(requests) >= |requests|
  {
    if requests != [] {
      assert requests[0] in requests;
      PositiveLoad(requests[1..]);
    }
  }

  /** One search of budget B, in any network and any order of deliveries and losses: at most B request
      packets are sent and at most B are ever taken from the network, so it ends. */
  lemma {:induction false} FloodIsBounded(f: Flood, origin: Address, budget: nat, steps: seq<FloodStep>)
    requires Starts(f, origin, budget) && Legal(f, steps)
    ensures Run(f, steps).sent <= budget && |steps| <= budget
  {
    StartsWithinBudget(f, origin, budget);
    RunSpends(f, steps, budget);
    PositiveLoad(Run(f, steps).inFlight);
  }

  lemma StartsWithinBudget(f: Flood, origin: Address, budget: nat)
    requires Starts(f, origin, budget)
    ensures WithinBudget(f, budget) && Load(f.inFlight) <= budget
  {
    var neighbors, indices :| IsPermutation(indices, |neighbors|) && f == Start(origin, budget, neighbors, indices);
    DividedFairly(budget, |neighbors|, indices);
    RequestsFacts(origin, neighbors, Divided(budget, |neighbors|, indices));
  }

  // ----- the expanding ring -----

  /** How an attempt ends: nobody to ask, a fully known file found, or a timeout. */
  datatype Attempt = NoNeighbors | Found | TimedOut

  /** initial * factor^k. */
  function Geometric(initial: nat, factor: nat, k: nat): nat {
    if k == 0 then initial else Geometric(initial, factor, k - 1) * factor
  }

  /** uint multiplication. */
  function Multiply(a: nat, b: nat): nat {
    a * b % TWO_TO_THE_64
  }

  /** The budget of attempt k, multiplied in uint arithmetic. */
  function RingBudget(initial: nat, factor: nat, k: nat): nat {
    if k == 0 then initial else Multiply(RingBudget(initial, factor, k - 1), factor)
  }

  /** The sum of initial * factor^k for k < retry. */
  function GeometricSum(initial: nat, factor: nat, retry: nat): nat {
    if retry == 0 then 0 else GeometricSum(initial, factor, retry - 1) + Geometric(initial, factor, retry - 1)
  }

  /** The budgets an expanding ring search spends, one for each attempt that asks someone: it goes on
      after a timeout and ends when nobody is there to ask, or a file is found, or after retry attempts. */
  method ExpandingRingSearch(initial: nat, factor: nat, retry: nat, attempts: seq<Attempt>) returns (budgets: seq<nat>)
    requires |attempts| == retry
    ensures |budgets| <= retry
    ensures forall k :: 0 <= k < |budgets| ==> budgets[k] == RingBudget(initial, factor, k)
    ensures forall k :: 0 <= k < |budgets| ==>
              attempts[k] != NoNeighbors && (k < |budgets| - 1 ==> attempts[k] == TimedOut)
    ensures |budgets| < retry ==>
              attempts[|budgets|] == NoNeighbors || (budgets != [] && attempts[|budgets| - 1] == Found)
    ensures Sum(budgets) <= GeometricSum(initial, factor, retry)
  {
    hide Multiply, Sum, Geometric;
    budgets := [];
    var budget := initial;
    var attempt := 0;
    while attempt < retry
      invariant attempt == |budgets| <= retry
      invariant budget == RingBudget(initial, factor, attempt)
      invariant forall k :: 0 <= k < |budgets| ==> budgets[k] == RingBudget(initial, factor, k)
      invariant forall k :: 0 <= k < |budgets| ==> attempts[k] == TimedOut
    {
      if attempts[attempt] == NoNeighbors { break; }
      budgets := budgets + [budget];
      if attempts[attempt] == Found { break; }
      budget := Multiply(budget, factor);
      attempt := attempt + 1;
    }
    RingIsBounded(initial, factor, retry, budgets);
  }

  lemma WrappedProduct(a: nat, exact: nat, factor: nat)
    requires a <= exact
    ensures Multiply(a, factor) <= exact * factor
    ensures a == exact && exact * factor < TWO_TO_THE_64 ==> Multiply(a, factor) == exact * factor
  {
    assert a * factor <= exact * factor;
  }

  /** Wrapping only lowers a budget; without overflow it is the exact geometric term. */
  lemma {:induction false} RingBudgetBounded(initial: nat, factor: nat, k: nat)
    ensures RingBudget(initial, factor, k) <= Geometric(initial, factor, k)
    ensures (forall j: nat :: j <= k ==> Geometric(initial, factor, j) < TWO_TO_THE_64) ==>
              RingBudget(initial, factor, k) == Geometric(initial, factor, k)
  {
    if k > 0 {
      RingBudgetBounded(initial, factor, k - 1);
      WrappedProduct(RingBudget(initial, factor, k - 1), Geometric(initial, factor, k - 1), factor);
    }
  }

  /** In uint arithmetic the budget of attempt k is initial * factor^k modulo 2^64. */
  lemma {:induction false} RingBudgetExact(initial: nat, factor: nat, k: nat)
    requires initial < TWO_TO_THE_64
    ensures RingBudget(initial, factor, k) == Geometric(initial, factor, k) % TWO_TO_THE_64
  {
    if k > 0 {
      RingBudgetExact(initial, factor, k - 1);
      ProductModulo(Geometric(initial, factor, k - 1), factor);
    }
  }

  lemma ProductModulo(a: nat, b: nat)
    ensures Multiply(a % TWO_TO_THE_64, b) == a * b % TWO_TO_THE_64
  {
    var q, r := a / TWO_TO_THE_64, a % TWO_TO_THE_64;
    assert a == TWO_TO_THE_64 * q + r;
    assert a * b == r * b + q * b * TWO_TO_THE_64;
    ShiftedModulo(r * b, q * b);
  }

  lemma ShiftedModulo(x: nat, k: nat)
    ensures (x + k * TWO_TO_THE_64) % TWO_TO_THE_64 == x % TWO_TO_THE_64
  {
    assert (x + k * TWO_TO_THE_64) % TWO_TO_THE_64 == x % TWO_TO_THE_64;
  }

  lemma {:induction false} GeometricGrows(initial: nat, factor: nat, m: nat, n: nat)
    requires m <= n
    ensures GeometricSum(initial, factor, m) <= GeometricSum(initial, factor, n)
  {
    if m < n { GeometricGrows(initial, factor, m, n - 1); }
  }

  lemma {:induction false} RingIsBounded(initial: nat, factor: nat, retry: nat, budgets: seq<nat>)
    requires |budgets| <= retry
    requires forall k :: 0 <= k < |budgets| ==> budgets[k] == RingBudget(initial, factor, k)
    ensures Sum(budgets) <= GeometricSum(initial, factor, retry)
    decreases |budgets|
  {
    if budgets != [] {
      var last := |budgets| - 1;
      assert budgets == budgets[..last] + [budgets[last]];
      SumConcat(budgets[..last], [budgets[last]]);
      RingIsBounded(initial, factor, last, budgets[..last]);
      RingBudgetBounded(initial, factor, last);
      GeometricGrows(initial, factor, |budgets|, retry);
    }
  }

  /** One attempt of a ring search: how its first requests were spread and what happened to them. */
  datatype RingRun = RingRun(start: Flood, steps: seq<FloodStep>)

  ghost predicate IsRingRun(origin: Address, budget: nat, run: RingRun) {
    Starts(run.start, origin, budget) && Legal(run.start, run.steps)
  }

  ghost function SentInRun(origin: Address, budget: nat, run: RingRun): nat
    requires IsRingRun(origin, budget, run)
  {
    Run(run.start, run.steps).sent
  }

  ghost function SentBy(origin: Address, budgets: seq<nat>, runs: seq<RingRun>): nat
    requires |runs| == |budgets| && forall k :: 0 <= k < |runs| ==> IsRingRun(origin, budgets[k], runs[k])
    decreases |runs|
  {
    if runs == [] then 0
    else
      assert forall k :: 0 <= k < |runs| - 1 ==> runs[1..][k] == runs[k + 1] && budgets[1..][k] == budgets[k + 1];
      SentInRun(origin, budgets[0], runs[0]) + SentBy(origin, budgets[1..], runs[1..])
  }

  lemma {:induction false} RingSendsItsBudgets(origin: Address, budgets: seq<nat>, runs: seq<RingRun>)
    requires |runs| == |budgets| && forall k :: 0 <= k < |runs| ==> IsRingRun(origin, budgets[k], runs[k])
    ensures SentBy(origin, budgets, runs) <= Sum(budgets)
    decreases |runs|
  {
    if runs != [] {
      assert forall k :: 0 <= k < |runs| - 1 ==> runs[1..][k] == runs[k + 1] && budgets[1..][k] == budgets[k + 1];
      var r := runs[0];
      assert IsRingRun(origin, budgets[0], r);
      FloodIsBounded(r.start, origin, budgets[0], r.steps);
      RingSendsItsBudgets(origin, budgets[1..], runs[1..]);
    }
  }

  /** All attempts of an expanding ring together send at most the sum of initial * factor^k for
      k < retry, in the whole network; uint overflow only makes it less. */
  lemma {:induction false} ExpandingRingIsBounded(origin: Address, initial: nat, factor: nat, retry: nat,
      budgets: seq<nat>, runs: seq<RingRun>)
    requires |runs| == |budgets| <= retry
    requires forall k :: 0 <= k < |budgets| ==> budgets[k] == RingBudget(initial, factor, k)
    requires forall k :: 0 <= k < |runs| ==> IsRingRun(origin, budgets[k], runs[k])
    ensures SentBy(origin, budgets, runs) <= GeometricSum(initial, factor, retry)
  {
    RingSendsItsBudgets(origin, budgets, runs);
    RingIsBounded(initial, factor, retry, budgets);
  }
}
