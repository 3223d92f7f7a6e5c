// Smooth weighted round-robin selection: every node gains its weight each round, the node with
// the largest current weight is chosen and pays back the total weight.
module SmoothWrr {
  import opened Wrappers

  function Sum(xs: seq<int>): int {
    if xs == [] then 0 else Sum(xs[..|xs| - 1]) + xs[|xs| - 1]
  }

  /** Every node's `over`: its current weight grows by its own weight. */
  function Overs(curr: seq<int>, weights: seq<int>): (r: seq<int>)
    requires |curr| == |weights|
    ensures |r| == |curr| && forall i :: 0 <= i < |r| ==> r[i] == curr[i] + weights[i]
  {
    seq(|curr|, i requires 0 <= i < |curr| => curr[i] + weights[i])
  }

  /** The scan of `run`: the first position holding the largest value. */
  function FirstMax(xs: seq<int>): (k: nat)
    requires |xs| > 0
    ensures k < |xs|
    ensures forall j :: 0 <= j < |xs| ==> xs[j] <= xs[k]
    ensures forall j :: 0 <= j < k ==> xs[j] < xs[k]
    decreases |xs|
  {
    if |xs| == 1 then 0
    else
      var k := FirstMax(xs[..|xs| - 1]);
      if xs[|xs| - 1] > xs[k] then |xs| - 1 else k
  }

  /** One round on the current weights: everyone gains, the first largest pays `total`. */
  function Next(curr: seq<int>, weights: seq<int>, total: int): seq<int>
    requires |curr| == |weights| > 0
  {
    var o := Overs(curr, weights);
    var k := FirstMax(o);
    o[k := o[k] - total]
  }

  /** A node's own weight and the total weight are fixed when it is made; only its current
    * weight changes. */
  class Node {
    const wTotal: int
    const wInit: int
    var wCurr: int

    constructor (weightTotal: int, weightInit: int)
      ensures wTotal == weightTotal && wInit == weightInit && wCurr == 0
    {
      wTotal := weightTotal;
      wInit := weightInit;
      wCurr := 0;
    }

    method Over()
      modifies this
      ensures wCurr == old(wCurr) + wInit
    {
      wCurr := wCurr + wInit;
    }

    method Choose()
      modifies this
      ensures wCurr == old(wCurr) - wTotal
    {
      wCurr := wCurr - wTotal;
    }
  }

  /** The current weights of the nodes, in order. */
  ghost function Currs(nodes: seq<Node>): (r: seq<int>)
    reads nodes
    ensures |r| == |nodes| && forall i :: 0 <= i < |nodes| ==> r[i] == nodes[i].wCurr
  {
    if nodes == [] then [] else Currs(nodes[..|nodes| - 1]) + [nodes[|nodes| - 1].wCurr]
  }

  /** The own weights of the nodes, in order. */
  ghost function Inits(nodes: seq<Node>): (r: seq<int>)
    ensures |r| == |nodes| && forall i :: 0 <= i < |nodes| ==> r[i] == nodes[i].wInit
  {
    if nodes == [] then [] else Inits(nodes[..|nodes| - 1]) + [nodes[|nodes| - 1].wInit]
  }

  class SmoothWeightRoundRobin {
    const nodes: seq<Node>

    /** Distinct nodes that all know the sum of the weights. */
    ghost predicate Valid() {
      (forall i, j :: 0 <= i < j < |nodes| ==> nodes[i] != nodes[j]) &&
      forall i :: 0 <= i < |nodes| ==> nodes[i].wTotal == Sum(Inits(nodes))
    }

    /** `__init__`: one node per weight, in order, all starting at zero. */
    constructor (weights: seq<int>)
      ensures Valid() && Inits(nodes) == weights && Currs(nodes) == seq(|weights|, i => 0)
      ensures forall i :: 0 <= i < |nodes| ==> fresh(nodes[i])
    {
      var total := Sum(weights);
      var ns: seq<Node> := [];
      var i := 0;
      while i < |weights|
        invariant 0 <= i <= |weights| && |ns| == i
        invariant forall j :: 0 <= j < i ==> fresh(ns[j])
        invariant forall j, k :: 0 <= j < k < i ==> ns[j] != ns[k]
        invariant forall j :: 0 <= j < i ==>
          ns[j].wTotal == total && ns[j].wInit == weights[j] && ns[j].wCurr == 0
      {
        var n := new Node(total, weights[i]);
        ns := ns + [n];
        i := i + 1;
      }
      nodes := ns;
      new;
      assert Inits(nodes) == weights;
    }

    /** The scan of one iteration of `run`: every node calls `over`, and the position of the
      * first node with the largest current weight is the result. */
    method OverAll() returns (idx: nat)
      requires Valid() && nodes != []
      modifies nodes
      ensures idx == FirstMax(Overs(old(Currs(nodes)), Inits(nodes)))
      ensures forall j :: 0 <= j < |nodes| ==> nodes[j].wCurr == old(nodes[j].wCurr) + nodes[j].wInit
    {
      ghost var before := Currs(nodes);
      ghost var over := Overs(before, Inits(nodes));
      idx := 0;
      var i := 0;
      while i < |nodes|
        invariant i <= |nodes| && Scanned(over, i, idx)
        invariant forall j :: 0 <= j < i ==> nodes[j].wCurr == over[j]
        invariant forall j :: i <= j < |nodes| ==> nodes[j].wCurr == before[j]
      {
        OverAt(i);
        assert nodes[i].wCurr == over[i] && nodes[idx].wCurr == over[idx];
        ScanStep(over, i, idx);
        if i > 0 && nodes[i].wCurr > nodes[idx].wCurr {
          idx := i;
        }
        i := i + 1;
      }
      FirstMaxUnique(over, idx);
    }

    /** Node `i` calls `over`; the other nodes keep their current weights. */
    method OverAt(i: nat)
      requires Valid() && i < |nodes|
      modifies nodes[i]
      ensures nodes[i].wCurr == old(nodes[i].wCurr) + nodes[i].wInit
      ensures forall j :: 0 <= j < |nodes| && j != i ==> nodes[j].wCurr == old(nodes[j].wCurr)
    {
      nodes[i].Over();
      forall j | 0 <= j < |nodes| && j != i
        ensures nodes[j].wCurr == old(nodes[j].wCurr)
      {
        assert nodes[j] != nodes[i];
      }
    }

    /** One iteration of `run`: the scan, then the chosen node calls `choose`; its position is
      * the result. With no nodes the chosen position stays -1, an index error. */
    method Step() returns (r: Outcome<nat>)
      requires Valid()
      modifies nodes
      ensures Valid()
      ensures nodes == [] <==> r.Panics?
      ensures r.Returns? ==>
        r.value == FirstMax(Overs(old(Currs(nodes)), Inits(nodes))) &&
        Currs(nodes) == Next(old(Currs(nodes)), Inits(nodes), Sum(Inits(nodes)))
    {
      if nodes == [] {
        return Panics("list index out of range");
      }
      ghost var before := Currs(nodes);
      var idx := OverAll();
      Gains(before, Inits(nodes), Currs(nodes));
      PayChosen(idx, Overs(before, Inits(nodes)));
      ChooseAt(before, Inits(nodes), Currs(nodes), idx, Sum(Inits(nodes)));
      r := Returns(idx);
    }

    /** The chosen node calls `choose`: it alone pays back the total weight. */
    method PayChosen(idx: nat, ghost o: seq<int>)
      requires Valid() && idx < |nodes| == |o|
      requires Currs(nodes) == o
      modifies nodes
      ensures forall j :: 0 <= j < |nodes| ==>
        nodes[j].wCurr == o[j] - if j == idx then Sum(Inits(nodes)) else 0
    {
      nodes[idx].Choose();
      forall j | 0 <= j < |nodes| && j != idx
        ensures nodes[j].wCurr == o[j]
      {
        assert nodes[j] != nodes[idx];
      }
    }
  }

  /** The scan has looked at the first `i` values and `idx` is the first largest among them. */
  ghost predicate Scanned(xs: seq<int>, i: nat, idx: nat) {
    i <= |xs| && idx < |xs| && (i == 0 ==> idx == 0) && (i > 0 ==> idx < i) &&
    (forall j :: 0 <= j < i ==> xs[j] <= xs[idx]) &&
    (forall j :: 0 <= j < idx ==> xs[j] < xs[idx])
  }

  /** One more value scanned: it takes over only when it is strictly larger. */
  lemma ScanStep(xs: seq<int>, i: nat, idx: nat)
    requires Scanned(xs, i, idx) && i < |xs|
    ensures Scanned(xs, i + 1, if i > 0 && xs[i] > xs[idx] then i else idx)
  {
  }

  /** Weights that grew by their own weights are the gains of a round. */
  lemma Gains(curr: seq<int>, weights: seq<int>, after: seq<int>)
    requires |curr| == |weights| == |after|
    requires forall j :: 0 <= j < |after| ==> after[j] == curr[j] + weights[j]
    ensures after == Overs(curr, weights)
  {
  }

  /** Weights that differ from the gains of a round only by `total` less at the first largest
    * are the round's result. */
  lemma ChooseAt(curr: seq<int>, weights: seq<int>, after: seq<int>, k: nat, total: int)
    requires |curr| == |weights| == |after| > 0 && k == FirstMax(Overs(curr, weights))
    requires forall j :: 0 <= j < |after| ==> after[j] == Overs(curr, weights)[j] - if j == k then total else 0
    ensures after == Next(curr, weights, total)
  {
    var o := Overs(curr, weights);
    assert after == o[k := o[k] - total];
  }

  /** A position holding the largest value, with only smaller values before it, is the one the
    * scan finds. */
  lemma FirstMaxUnique(xs: seq<int>, k: nat)
    requires k < |xs|
    requires forall j :: 0 <= j < |xs| ==> xs[j] <= xs[k]
    requires forall j :: 0 <= j < k ==> xs[j] < xs[k]
    ensures FirstMax(xs) == k
  {
  }

  /** Adding a sequence of weights adds their sum. */
  lemma {:induction false} SumOvers(curr: seq<int>, weights: seq<int>)
    requires |curr| == |weights|
    ensures Sum(Overs(curr, weights)) == Sum(curr) + Sum(weights)
    decreases |curr|
  {
    if curr != [] {
      var n := |curr| - 1;
      SumOvers(curr[..n], weights[..n]);
      assert Overs(curr, weights)[..n] == Overs(curr[..n], weights[..n]);
    }
  }

  /** Changing one entry by `d` changes the sum by `d`. */
  lemma {:induction false} SumUpdate(xs: seq<int>, k: nat, d: int)
    requires k < |xs|
    ensures Sum(xs[k := xs[k] + d]) == Sum(xs) + d
    decreases |xs|
  {
    var n := |xs| - 1;
    if k < n {
      SumUpdate(xs[..n], k, d);
      assert xs[k := xs[k] + d][..n] == xs[..n][k := xs[k] + d];
    } else {
      assert xs[k := xs[k] + d][..n] == xs[..n];
    }
  }

  /** The current weights always sum to zero: a round adds the total weight and the chosen node
    * pays it back. */
  lemma SumStaysZero(curr: seq<int>, weights: seq<int>)
    requires |curr| == |weights| > 0 && Sum(curr) == 0
    ensures Sum(Next(curr, weights, Sum(weights))) == 0
  {
    NextSum(curr, weights, Sum(weights));
    SumOvers(curr, weights);
  }

  /** A round takes `total` off the sum of the gains. */
  lemma NextSum(curr: seq<int>, weights: seq<int>, total: int)
    requires |curr| == |weights| > 0
    ensures Sum(Next(curr, weights, total)) == Sum(Overs(curr, weights)) - total
  {
    SumUpdate(Overs(curr, weights), FirstMax(Overs(curr, weights)), -total);
  }

  /** A round changes the chosen node's current weight by its own weight minus the total, and
    * every other node's by its own weight. */
  lemma NextChangesOnlyChosen(curr: seq<int>, weights: seq<int>, total: int, j: nat)
    requires |curr| == |weights| > 0 && j < |curr|
    ensures var k := FirstMax(Overs(curr, weights));
      Next(curr, weights, total)[j] ==
        if j == k then curr[j] + weights[j] - total else curr[j] + weights[j]
  {
  }
}
