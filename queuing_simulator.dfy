// Closed queueing-network simulator: every served request is immediately re-dispatched,
// round robin, so the number of requests in the system stays equal to the number of users.
// Durations are `time.Duration` values, i.e. integer nanosecond counts.
module QueuingSimulator {
  import opened Wrappers
  import Chunking

  /** `time.Second`, in nanoseconds. */
  const SECOND: int := 1_000_000_000
  /** The largest `time.Duration`, `1<<63 - 1`. */
  const MAX_DURATION: int := 0x7fff_ffff_ffff_ffff

  function Abs(x: int): nat {
    if x < 0 then -x else x
  }

  /** The observable fields of one `SimUnit`. */
  datatype UnitState = UnitState(cost: int, queue: nat, timer: int)

  /** `SimUnit.NextTransformation`: time to the unit's next completion, `None` when idle. */
  function Remaining(u: UnitState): Option<nat> {
    if u.queue == 0 then None else Some(Abs(u.timer - u.cost))
  }

  /** `SimUnit.Transform(sep)`: the unit after `sep` nanoseconds, and whether it completed
    * a request. A busy unit advances its timer and completes once the timer reaches the
    * cost; an idle unit resets its timer. */
  function Step(u: UnitState, sep: int): (UnitState, bool) {
    if u.queue > 0 then
      if u.timer + sep >= u.cost then (UnitState(u.cost, u.queue - 1, u.timer + sep - u.cost), true)
      else (UnitState(u.cost, u.queue, u.timer + sep), false)
    else (UnitState(u.cost, u.queue, 0), false)
  }

  /** Every unit after one step of `sep`. */
  function StepAll(us: seq<UnitState>, sep: int): (r: seq<UnitState>)
    ensures |r| == |us|
  {
    seq(|us|, i requires 0 <= i < |us| => Step(us[i], sep).0)
  }

  /** The number of units that complete a request in a step of `sep`. */
  function Completions(us: seq<UnitState>, sep: int): nat {
    if us == [] then 0
    else Completions(us[..|us| - 1], sep) + (if Step(us[|us| - 1], sep).1 then 1 else 0)
  }

  /** The number of requests in the system. */
  function Total(us: seq<UnitState>): nat {
    if us == [] then 0 else Total(us[..|us| - 1]) + us[|us| - 1].queue
  }

  predicate AnyBusy(us: seq<UnitState>) {
    exists i :: 0 <= i < |us| && us[i].queue > 0
  }

  /** The least remaining time over the busy units, starting from `MAX_DURATION`, as
    * `Simulator.NextTransformation`'s loop computes it. */
  function Earliest(us: seq<UnitState>): int {
    if us == [] then MAX_DURATION
    else
      var m := Earliest(us[..|us| - 1]);
      match Remaining(us[|us| - 1])
      case None => m
      case Some(t) => if t < m then t else m
  }

  /** The timer invariant: costs are positive and every timer lies in `[0, cost)`. */
  predicate TimersOk(us: seq<UnitState>) {
    forall i :: 0 <= i < |us| ==> 0 < us[i].cost <= MAX_DURATION && 0 <= us[i].timer < us[i].cost
  }

  /** `Simulator.Alloc(k)` on values: `k` requests, one at a time, to the units in cyclic
    * order starting at `rr`. */
  function AllocAll(us: seq<UnitState>, rr: nat, k: int): (r: seq<UnitState>)
    requires rr < |us|
    ensures |r| == |us|
    decreases if k < 0 then 0 else k
  {
    if k <= 0 then us
    else AllocAll(us[rr := us[rr].(queue := us[rr].queue + 1)], (rr + 1) % |us|, k - 1)
  }

  /** The round-robin cursor after `k` allocations: it advances by one modulo `n` each time. */
  function CursorAfter(rr: nat, n: nat, k: int): (r: nat)
    requires rr < n
    ensures r < n
    decreases if k < 0 then 0 else k
  {
    if k <= 0 then rr else CursorAfter((rr + 1) % n, n, k - 1)
  }

  /** After `k` allocations the cursor is `k` places on, modulo the unit count. */
  lemma {:induction false} CursorAfterMod(rr: nat, n: nat, k: nat)
    requires rr < n
    ensures CursorAfter(rr, n, k) == (rr + k) % n
    decreases k
  {
    if k == 0 {
      Chunking.DivModUnique(rr, n, 0, rr);
    } else {
      CursorAfterMod((rr + 1) % n, n, k - 1);
      CursorStep(rr, n, k);
    }
  }

  /** One allocation, then `k - 1` more from the next place, lands `k` places on. */
  lemma CursorStep(rr: nat, n: nat, k: nat)
    requires rr < n && 0 < k
    requires CursorAfter((rr + 1) % n, n, k - 1) == ((rr + 1) % n + (k - 1)) % n
    ensures CursorAfter(rr, n, k) == (rr + k) % n
  {
    ModShift(rr + 1, n, k - 1, rr + k);
  }

  /** Reducing the first summand modulo `n` does not change the sum modulo `n`. */
  lemma ModShift(a: nat, n: nat, b: nat, sum: nat)
    requires n > 0 && sum == a + b
    ensures (a % n + b) % n == sum % n
  {
    assert a == a / n * n + a % n;
    assert a % n + b == (a % n + b) / n * n + (a % n + b) % n;
    assert (a / n + (a % n + b) / n) * n == a / n * n + (a % n + b) / n * n;
    Chunking.DivModUnique(sum, n, a / n + (a % n + b) / n, (a % n + b) % n);
  }

  /** The units `NewSimulator` builds: one idle unit per cost. */
  function Fresh(costs: seq<int>): (r: seq<UnitState>)
    ensures |r| == |costs|
  {
    seq(|costs|, i requires 0 <= i < |costs| => UnitState(costs[i], 0, 0))
  }

  /** `sort.SliceStable` by ascending cost: a stable insertion sort of the costs. */
  function SortByCost(costs: seq<int>): (r: seq<int>)
    ensures |r| == |costs|
  {
    if costs == [] then [] else Insert(costs[0], SortByCost(costs[1..]))
  }

  function Insert(c: int, sorted: seq<int>): (r: seq<int>)
    ensures |r| == |sorted| + 1
  {
    if sorted == [] || c <= sorted[0] then [c] + sorted else [sorted[0]] + Insert(c, sorted[1..])
  }

  predicate Ascending(s: seq<int>) {
    forall i, j :: 0 <= i < j < |s| ==> s[i] <= s[j]
  }

  // ---- lemmas about the specification ----

  lemma {:induction false} InsertMultiset(c: int, sorted: seq<int>)
    ensures multiset(Insert(c, sorted)) == multiset{c} + multiset(sorted)
  {
    if sorted != [] && c > sorted[0] {
      InsertMultiset(c, sorted[1..]);
      assert sorted == [sorted[0]] + sorted[1..];
    }
  }

  /** Inserting a value above the head keeps every element at or above the head. */
  lemma InsertAbove(c: int, sorted: seq<int>)
    requires Ascending(sorted) && sorted != [] && c > sorted[0]
    ensures forall k :: 0 <= k < |Insert(c, sorted[1..])| ==> sorted[0] <= Insert(c, sorted[1..])[k]
  {
    var tail := sorted[1..];
    var r := Insert(c, tail);
    InsertMultiset(c, tail);
    forall k | 0 <= k < |r| ensures sorted[0] <= r[k] {
      assert r[k] in multiset(r);
      if r[k] != c {
        assert r[k] in multiset(tail);
        var j :| 0 <= j < |tail| && tail[j] == r[k];
        assert sorted[j + 1] == r[k];
      }
    }
  }

  lemma {:induction false} InsertAscending(c: int, sorted: seq<int>)
    requires Ascending(sorted)
    ensures Ascending(Insert(c, sorted))
  {
    if sorted == [] || c <= sorted[0] {
      var t := [c] + sorted;
      assert Insert(c, sorted) == t;
      forall i, j | 0 <= i < j < |t| ensures t[i] <= t[j] {
        assert t[j] == sorted[j - 1];
        if i > 0 {
          assert t[i] == sorted[i - 1];
        } else {
          assert sorted[0] <= sorted[j - 1];
        }
      }
    } else {
      var tail := sorted[1..];
      InsertAscending(c, tail);
      var r := Insert(c, tail);
      InsertAbove(c, sorted);
      var t := [sorted[0]] + r;
      assert Insert(c, sorted) == t;
      forall i, j | 0 <= i < j < |t| ensures t[i] <= t[j] {
        if i > 0 {
          assert t[i] == r[i - 1] && t[j] == r[j - 1];
        } else {
          assert t[j] == r[j - 1];
        }
      }
    }
  }

  /** `NewSimulator` orders its units by ascending cost, keeping every cost. */
  lemma {:induction false} SortByCostSorts(costs: seq<int>)
    ensures Ascending(SortByCost(costs))
    ensures multiset(SortByCost(costs)) == multiset(costs)
  {
    if costs != [] {
      SortByCostSorts(costs[1..]);
      InsertAscending(costs[0], SortByCost(costs[1..]));
      InsertMultiset(costs[0], SortByCost(costs[1..]));
      assert costs == [costs[0]] + costs[1..];
    }
  }

  lemma {:induction false} TotalUpdate(us: seq<UnitState>, i: nat, u: UnitState)
    requires i < |us|
    ensures Total(us[i := u]) == Total(us) - us[i].queue + u.queue
  {
    var n := |us|;
    if i < n - 1 {
      TotalUpdate(us[..n - 1], i, u);
      assert us[i := u][..n - 1] == us[..n - 1][i := u];
    } else {
      assert us[i := u][..n - 1] == us[..n - 1];
    }
  }

  /** `Alloc(k)` adds exactly `k` requests (none for `k <= 0`) and leaves the cursor in range. */
  lemma {:induction false} AllocAdds(us: seq<UnitState>, rr: nat, k: int)
    requires rr < |us|
    ensures |AllocAll(us, rr, k)| == |us|
    ensures Total(AllocAll(us, rr, k)) == Total(us) + (if k < 0 then 0 else k)
    ensures forall i :: 0 <= i < |us| ==>
      AllocAll(us, rr, k)[i].cost == us[i].cost && AllocAll(us, rr, k)[i].timer == us[i].timer
    decreases if k < 0 then 0 else k
  {
    if k > 0 {
      var us' := us[rr := us[rr].(queue := us[rr].queue + 1)];
      TotalUpdate(us, rr, us[rr].(queue := us[rr].queue + 1));
      AllocAdds(us', (rr + 1) % |us|, k - 1);
    }
  }

  /** A step lowers the number of requests in the system by exactly its completions. */
  lemma {:induction false} StepConserves(us: seq<UnitState>, sep: int)
    ensures Total(StepAll(us, sep)) + Completions(us, sep) == Total(us)
  {
    if us != [] {
      var n := |us|;
      StepConserves(us[..n - 1], sep);
      assert StepAll(us, sep)[..n - 1] == StepAll(us[..n - 1], sep);
    }
  }

  lemma {:induction false} EarliestBelow(us: seq<UnitState>)
    ensures Earliest(us) <= MAX_DURATION
    ensures forall i :: 0 <= i < |us| && us[i].queue > 0 ==> Earliest(us) <= Remaining(us[i]).value
  {
    if us != [] {
      EarliestBelow(us[..|us| - 1]);
      assert forall i :: 0 <= i < |us| - 1 ==> us[..|us| - 1][i] == us[i];
    }
  }

  /** Under the timer invariant the next event is at least 1ns away, and the `math.Abs`
    * of `SimUnit.NextTransformation` is redundant: the remaining time is `cost - timer`. */
  lemma {:induction false} EarliestPositive(us: seq<UnitState>)
    requires TimersOk(us)
    ensures Earliest(us) >= 1
    ensures forall i :: 0 <= i < |us| && us[i].queue > 0 ==> Remaining(us[i]) == Some(us[i].cost - us[i].timer)
  {
    if us != [] {
      EarliestPositive(us[..|us| - 1]);
    }
  }

  /** A step no longer than any busy unit's remaining time keeps the timer invariant, and a
    * completing unit's timer returns to exactly 0. */
  lemma StepKeepsTimers(us: seq<UnitState>, sep: int)
    requires TimersOk(us) && 0 <= sep
    requires forall i :: 0 <= i < |us| && us[i].queue > 0 ==> sep <= us[i].cost - us[i].timer
    ensures TimersOk(StepAll(us, sep))
    ensures forall i :: 0 <= i < |us| && Step(us[i], sep).1 ==> StepAll(us, sep)[i].timer == 0
  {
  }

  lemma {:induction false} TotalPositiveBusy(us: seq<UnitState>)
    ensures Total(us) > 0 <==> AnyBusy(us)
  {
    if us != [] {
      var n := |us|;
      TotalPositiveBusy(us[..n - 1]);
      if AnyBusy(us[..n - 1]) {
        var i :| 0 <= i < n - 1 && us[..n - 1][i].queue > 0;
        assert us[i].queue > 0;
      }
      if AnyBusy(us) && us[n - 1].queue == 0 {
        var i :| 0 <= i < n && us[i].queue > 0;
        assert us[..n - 1][i].queue > 0;
      }
    }
  }

  // ---- the simulator's two next-event rules ----

  /** `Simulator.NextTransformation` as written: `t` keeps only the last unit's answer, so it
    * panics whenever the LAST unit is idle. */
  function NextAsWritten(us: seq<UnitState>): Outcome<int> {
    if us == [] || us[|us| - 1].queue == 0 then Panics("no next transformation")
    else Returns(Earliest(us))
  }

  /** The evidently intended rule: panic only when no unit is busy. */
  function NextIntended(us: seq<UnitState>): Outcome<int> {
    if AnyBusy(us) then Returns(Earliest(us)) else Panics("no next transformation")
  }

  /** Two units of 1s and 2s with one user: the state `NewSimulator([1s, 2s], 1)` builds.
    * The first unit is busy, yet the as-written rule panics because the last one is idle. */
  lemma LastUnitIdlePanics()
    ensures AllocAll(Fresh(SortByCost([SECOND, 2 * SECOND])), 0, 1)
         == [UnitState(SECOND, 1, 0), UnitState(2 * SECOND, 0, 0)]
    ensures NextAsWritten([UnitState(SECOND, 1, 0), UnitState(2 * SECOND, 0, 0)]).Panics?
    ensures NextIntended([UnitState(SECOND, 1, 0), UnitState(2 * SECOND, 0, 0)]) == Returns(SECOND)
  {
    var us := [UnitState(SECOND, 1, 0), UnitState(2 * SECOND, 0, 0)];
    assert AllocAll(Fresh([SECOND, 2 * SECOND]), 0, 1)
        == AllocAll(us, 1, 0);
    assert us[0].queue > 0;
    assert us[..1][..0] == [];
    assert Earliest(us[..1]) == SECOND;
  }

  /** With a zero-cost busy unit the next event is 0ns away: the step `min(0, second)` does
    * not shorten the current second, so `Run`'s inner loop makes no progress. */
  lemma ZeroCostStalls(us: seq<UnitState>, second: int)
    requires 0 < second
    requires forall i :: 0 <= i < |us| ==> us[i].timer >= 0
    requires exists i :: 0 <= i < |us| && us[i].queue > 0 && us[i].cost == 0 && us[i].timer == 0
    ensures NextIntended(us) == Returns(0)
  {
    var i :| 0 <= i < |us| && us[i].queue > 0 && us[i].cost == 0 && us[i].timer == 0;
    EarliestBelow(us);
    EarliestNonNegative(us);
  }

  lemma {:induction false} EarliestNonNegative(us: seq<UnitState>)
    ensures Earliest(us) >= 0
  {
    if us != [] {
      EarliestNonNegative(us[..|us| - 1]);
    }
  }

  // ---- the imperative simulator ----

  ghost function StatesOf(us: seq<SimUnit>): (r: seq<UnitState>)
    reads us
    ensures |r| == |us|
  {
    if us == [] then [] else StatesOf(us[..|us| - 1]) + [us[|us| - 1].State()]
  }

  /** The abstract state of units whose states are `now` is `now`. */
  lemma StatesAre(us: seq<SimUnit>, now: seq<UnitState>)
    requires |now| == |us| && forall k :: 0 <= k < |us| ==> us[k].State() == now[k]
    ensures StatesOf(us) == now
  {
    StatesOfAt(us);
  }

  /** Counting one more unit adds its completion. */
  lemma CompletionsSnoc(us: seq<UnitState>, sep: int, i: nat)
    requires i < |us|
    ensures Completions(us[..i + 1], sep) == Completions(us[..i], sep) + if Step(us[i], sep).1 then 1 else 0
  {
    assert us[..i + 1][..i] == us[..i];
  }

  /** Stepping unit `i` extends the stepped prefix by one. */
  lemma StepOne(was: seq<UnitState>, now: seq<UnitState>, sep: int, i: nat)
    requires |now| == |was| && i < |was| && now[..i] == StepAll(was[..i], sep) && now[i..] == was[i..]
    ensures var next := now[i := Step(was[i], sep).0];
      next[..i + 1] == StepAll(was[..i + 1], sep) && next[i + 1..] == was[i + 1..]
  {
    var next := now[i := Step(was[i], sep).0];
    assert next[..i + 1] == now[..i] + [Step(was[i], sep).0];
    assert StepAll(was[..i + 1], sep) == StepAll(was[..i], sep) + [Step(was[i], sep).0];
    assert next[i + 1..] == now[i + 1..] == now[i..][1..];
  }

  /** The abstract state lists the units' states in order. */
  lemma {:induction false} StatesOfAt(us: seq<SimUnit>)
    ensures forall i :: 0 <= i < |us| ==> StatesOf(us)[i] == us[i].State()
  {
    if us != [] {
      StatesOfAt(us[..|us| - 1]);
    }
  }

  /** `NewSimulator`: one idle unit per cost in ascending (stable) cost order, then
    * `users` requests dispatched round robin from the first unit. */
  method NewSimulator(costs: seq<int>, users: int) returns (s: Simulator)
    requires 0 < |costs|
    ensures s.Valid() && s.users == users && s.Conserved()
    ensures s.State() == AllocAll(Fresh(SortByCost(costs)), 0, users)
    ensures s.roundRobin == CursorAfter(0, |costs|, users)
    ensures fresh(s.Repr)
  {
    var sorted := SortByCost(costs);
    s := new Simulator(sorted, users);
    FreshAlloc(sorted, users);
    s.Alloc(users);
  }

  /** One new idle unit per cost, in order (the loop of `NewSimulator`). */
  method MakeUnits(costs: seq<int>) returns (made: seq<SimUnit>, ghost repr: set<SimUnit>)
    ensures StatesOf(made) == Fresh(costs)
    ensures fresh(repr) && forall i :: 0 <= i < |made| ==> made[i] in repr
    ensures forall i, j :: 0 <= i < j < |made| ==> made[i] != made[j]
  {
    made := [];
    repr := {};
    var i := 0;
    while i < |costs|
      invariant 0 <= i <= |costs| && |made| == i
      invariant fresh(repr) && forall k :: 0 <= k < i ==> made[k] in repr
      invariant forall k :: 0 <= k < i ==> made[k].State() == UnitState(costs[k], 0, 0)
      invariant forall k, l :: 0 <= k < l < i ==> made[k] != made[l]
    {
      var u := new SimUnit(costs[i]);
      made := made + [u];
      repr := repr + {u};
      i := i + 1;
    }
    StatesOfAt(made);
  }

  class SimUnit {
    const cost: int
    var queue: nat
    var timer: int

    function State(): UnitState
      reads this
    {
      UnitState(cost, queue, timer)
    }

    /** `NewSimUnit`: an idle unit with the given cost. */
    constructor (cost: int)
      ensures State() == UnitState(cost, 0, 0)
    {
      this.cost := cost;
      queue := 0;
      timer := 0;
    }

    /** `nil` exactly when the queue is empty; otherwise the distance between timer and cost. */
    function NextTransformation(): (t: Option<nat>)
      reads this
      ensures t.None? <==> queue == 0
      ensures t.Some? && timer <= cost ==> t.value == cost - timer
    {
      Remaining(State())
    }

    method Transform(sep: int) returns (done: bool)
      modifies this
      ensures (State(), done) == Step(old(State()), sep)
    {
      if queue > 0 {
        timer := timer + sep;
        if timer >= cost {
          queue := queue - 1;
          timer := timer - cost;
          return true;
        } else {
          return false;
        }
      } else {
        timer := 0;
        return false;
      }
    }

    method Alloc()
      modifies this
      ensures State() == old(State()).(queue := old(queue) + 1)
    {
      queue := queue + 1;
    }
  }

  class Simulator {
    var units: seq<SimUnit>
    const users: int
    var roundRobin: nat
    /** The unit objects, as a set for frames. */
    ghost var Repr: set<SimUnit>

    ghost predicate Valid()
      reads this`units, this`roundRobin, this`Repr
    {
      0 < |units| && roundRobin < |units| &&
      (forall i :: 0 <= i < |units| ==> units[i] in Repr) &&
      forall i, j :: 0 <= i < j < |units| ==> units[i] != units[j]
    }

    ghost function State(): (r: seq<UnitState>)
      reads this`units, units
      ensures |r| == |units|
    {
      StatesOf(units)
    }

    /** The closed-network invariant: the requests in the system are the users. */
    ghost predicate Conserved()
      reads this`units, units
    {
      Total(State()) == if users < 0 then 0 else users
    }

    /** The simulator literal of `NewSimulator`: one idle unit per cost, cursor at 0. */
    constructor (costs: seq<int>, users: int)
      requires 0 < |costs|
      ensures Valid() && this.users == users && roundRobin == 0
      ensures State() == Fresh(costs)
      ensures fresh(Repr)
    {
      var made, repr := MakeUnits(costs);
      units := made;
      Repr := repr;
      this.users := users;
      roundRobin := 0;
    }

    /** `Simulator.NextTransformation` exactly as written: panics when the last unit is idle,
      * even if others are busy. */
    method NextTransformationAsWritten() returns (r: Outcome<int>)
      requires Valid()
      ensures r == NextAsWritten(State())
    {
      var sep := MAX_DURATION;
      var last: Option<nat> := None;
      var i := 0;
      StatesOfAt(units);
      while i < |units|
        invariant 0 <= i <= |units|
        invariant sep == Earliest(State()[..i])
        invariant i > 0 ==> last == Remaining(State()[i - 1])
      {
        last := units[i].NextTransformation();
        assert State()[..i + 1][..i] == State()[..i];
        if last.Some? && last.value < sep {
          sep := last.value;
        }
        i := i + 1;
      }
      assert State()[..|units|] == State();
      if last.None? {
        return Panics("no next transformation");
      }
      return Returns(sep);
    }

    /** The next event time, panicking only when every unit is idle. */
    method NextTransformation() returns (r: Outcome<int>)
      requires Valid()
      ensures r == NextIntended(State())
    {
      var sep := MAX_DURATION;
      var busy := false;
      var i := 0;
      StatesOfAt(units);
      while i < |units|
        invariant 0 <= i <= |units|
        invariant sep == Earliest(State()[..i])
        invariant busy <==> AnyBusy(State()[..i])
      {
        var t := units[i].NextTransformation();
        assert State()[..i + 1][..i] == State()[..i];
        if t.Some? {
          busy := true;
          if t.value < sep {
            sep := t.value;
          }
        }
        assert AnyBusy(State()[..i + 1]) <==> AnyBusy(State()[..i]) || units[i].queue > 0 by {
          if AnyBusy(State()[..i]) {
            var k :| 0 <= k < i && State()[..i][k].queue > 0;
            assert State()[..i + 1][k].queue > 0;
          }
          if AnyBusy(State()[..i + 1]) {
            var k :| 0 <= k < i + 1 && State()[..i + 1][k].queue > 0;
            if k < i { assert State()[..i][k].queue > 0; }
          }
        }
        i := i + 1;
      }
      assert State()[..|units|] == State();
      if !busy {
        return Panics("no next transformation");
      }
      return Returns(sep);
    }

    /** Every unit advances by `sep`; the result is the number of completed requests. */
    method Transform(sep: int) returns (newReqs: nat)
      requires Valid()
      modifies Repr
      ensures State() == StepAll(old(State()), sep)
      ensures newReqs == Completions(old(State()), sep)
    {
      ghost var was := State();
      // The units' states so far: the first `i` stepped, the rest as they were.
      ghost var now := was;
      StatesOfAt(units);
      newReqs := 0;
      var i := 0;
      while i < |units|
        invariant 0 <= i <= |units| && |now| == |was| == |units|
        invariant forall k :: 0 <= k < |units| ==> units[k].State() == now[k]
        invariant now[..i] == StepAll(was[..i], sep) && now[i..] == was[i..]
        invariant newReqs == Completions(was[..i], sep)
      {
        assert now[i] == now[i..][0];
        var done := TransformUnit(i, sep);
        StepOne(was, now, sep, i);
        now := now[i := Step(was[i], sep).0];
        CompletionsSnoc(was, sep, i);
        if done {
          newReqs := newReqs + 1;
        }
        i := i + 1;
      }
      assert was[..|units|] == was && now[..|units|] == now;
      StatesAre(units, now);
    }

    /** The `i`-th unit advances by `sep`; the others keep their states. */
    method TransformUnit(i: nat, sep: int) returns (done: bool)
      requires Valid() && i < |units|
      modifies units[i]
      ensures (units[i].State(), done) == Step(old(units[i].State()), sep)
      ensures forall k :: 0 <= k < |units| && k != i ==> units[k].State() == old(units[k].State())
    {
      done := units[i].Transform(sep);
    }

    /** `Alloc(k)`: `k` requests handed out one at a time in cyclic order. */
    method Alloc(requests: int)
      requires Valid()
      modifies this`roundRobin, Repr
      ensures Valid()
      ensures State() == AllocAll(old(State()), old(roundRobin), requests)
      ensures roundRobin == CursorAfter(old(roundRobin), |units|, requests)
    {
      ghost var goal := AllocAll(State(), roundRobin, requests);
      var i := 0;
      while i < requests
        invariant Valid()
        invariant 0 <= i <= (if requests < 0 then 0 else requests)
        invariant AllocAll(State(), roundRobin, requests - i) == goal
        invariant CursorAfter(roundRobin, |units|, requests - i) == CursorAfter(old(roundRobin), |units|, requests)
        decreases requests - i
      {
        AllocOne();
        i := i + 1;
      }
    }

    /** One round-robin allocation: the unit under the cursor gets a request and the cursor
      * moves on. */
    method AllocOne()
      requires Valid()
      modifies this`roundRobin, Repr
      ensures Valid()
      ensures State() == old(State()[roundRobin := State()[roundRobin].(queue := State()[roundRobin].queue + 1)])
      ensures roundRobin == (old(roundRobin) + 1) % |units|
    {
      StatesOfAt(units);
      var u := units[roundRobin];
      u.Alloc();
      roundRobin := (roundRobin + 1) % |units|;
      StatesOfAt(units);
    }

    /** `Run(duration)`: one completion count per whole second of `duration`, each the count of
      * `SecondFrom` the units and cursor that second starts with. The printed count is returned
      * instead; the ghost `seconds` records what each second did. */
    method Run(duration: int) returns (r: Outcome<seq<int>>, ghost seconds: seq<Second>)
      requires Valid() && TimersOk(State()) && Conserved()
      modifies this`roundRobin, Repr
      ensures Valid() && TimersOk(State()) && Conserved()
      ensures r.Returns? <==> users > 0 || duration < SECOND
      ensures r.Returns? ==>
        |seconds| == (if duration < 0 then 0 else duration / SECOND) &&
        forall i :: 0 <= i < |seconds| ==> SecondAt(old(State()), old(roundRobin), seconds, i)
      ensures r.Returns? ==>
        |r.value| == |seconds| && forall i :: 0 <= i < |seconds| ==> r.value[i] == seconds[i].count
      ensures r.Returns? && seconds != [] ==>
        State() == seconds[|seconds| - 1].units && roundRobin == seconds[|seconds| - 1].cursor
    {
      var counts: seq<int> := [];
      seconds := [];
      ghost var start, rr0 := State(), roundRobin;
      var remain := duration;
      while remain >= SECOND
        invariant Valid() && TimersOk(State()) && Conserved()
        invariant remain == duration - |counts| * SECOND && |seconds| == |counts|
        invariant duration >= 0 ==> remain >= 0
        invariant duration < SECOND ==> counts == []
        invariant users <= 0 ==> counts == []
        invariant Ran(start, rr0, seconds, counts)
        decreases remain
      {
        remain := remain - SECOND;
        ghost var from, cursor := State(), roundRobin;
        var qps, cut := RunSecond();
        if qps.Panics? {
          return Panics(qps.reason), seconds;
        }
        RunSnoc(start, rr0, seconds, counts, from, cursor, Second(qps.value, cut, State(), roundRobin));
        counts := counts + [qps.value];
        seconds := seconds + [Second(qps.value, cut, State(), roundRobin)];
      }
      if duration >= 0 {
        DivUnique(duration, |counts|, remain);
      }
      return Returns(counts), seconds;
    }

    /** One simulated second of `Run`: steps of `min(next event, rest of the second)` until
      * the second is used up, re-dispatching every completed request at once. The result, the
      * step lengths `cut` and the new state are `SecondFrom` the old state. */
    method RunSecond() returns (r: Outcome<nat>, ghost cut: seq<int>)
      requires Valid() && TimersOk(State()) && Conserved()
      modifies this`roundRobin, Repr
      ensures Valid() && TimersOk(State()) && Conserved()
      ensures r.Returns? <==> users > 0
      ensures r.Returns? ==> SecondFrom(old(State()), old(roundRobin), SECOND) == Second(r.value, cut, State(), roundRobin)
    {
      var second := SECOND;
      var qps := 0;
      cut := [];
      ghost var start, rr0 := State(), roundRobin;
      ghost var ticks: seq<Moved> := [];
      while second > 0
        invariant Valid() && TimersOk(State()) && Conserved()
        invariant 0 <= second <= SECOND
        invariant users <= 0 ==> second == SECOND
        invariant Traced(start, rr0, ticks, qps, cut, second)
        decreases second
      {
        var sep, newReqs := TickTraced(second, start, rr0, ticks, qps, cut);
        if sep.Panics? {
          return Panics(sep.reason), cut;
        }
        ticks := ticks + [Moved(sep.value, newReqs, State(), roundRobin)];
        qps := qps + newReqs;
        second := second - sep.value;
        cut := cut + [sep.value];
      }
      TicksSecond(start, rr0, SECOND, ticks);
      return Returns(qps), cut;
    }

    /** `RunOk` of the units and cursor as they are now. */
    ghost predicate Ran(start: seq<UnitState>, rr0: nat, seconds: seq<Second>, counts: seq<int>)
      reads this`units, this`roundRobin, units
    {
      RunOk(start, rr0, seconds, counts, State(), roundRobin)
    }

    /** `TraceOk` of the units and cursor as they are now. */
    ghost predicate Traced(start: seq<UnitState>, rr0: nat, ticks: seq<Moved>, done: int, cut: seq<int>, left: int)
      reads this`units, this`roundRobin, units
    {
      TraceOk(start, rr0, ticks, done, cut, left, State(), roundRobin)
    }

    /** `Tick`, recorded: the tick it takes extends the ticks taken so far in the second. */
    method TickTraced(second: int, ghost start: seq<UnitState>, ghost rr0: nat, ghost ticks: seq<Moved>,
                      ghost done: int, ghost cut: seq<int>)
      returns (sep: Outcome<int>, newReqs: nat)
      requires Valid() && TimersOk(State()) && Conserved() && 0 < second
      requires Traced(start, rr0, ticks, done, cut, second)
      modifies this`roundRobin, Repr
      ensures Valid() && TimersOk(State()) && Conserved()
      ensures sep.Returns? <==> users > 0
      ensures sep.Returns? ==> 1 <= sep.value <= second && Traced(start, rr0,
        ticks + [Moved(sep.value, newReqs, State(), roundRobin)], done + newReqs, cut + [sep.value], second - sep.value)
    {
      ghost var before, rr := State(), roundRobin;
      sep, newReqs := Tick(second);
      if sep.Returns? {
        TraceSnoc(start, rr0, ticks, done, cut, second, before, rr, sep.value, newReqs, State(), roundRobin);
      }
    }

    /** One step of at most `second` nanoseconds: advance every unit to the next event (or
      * to the end of the second) and hand the completed requests straight back out. */
    method Tick(second: int) returns (sep: Outcome<int>, newReqs: nat)
      requires Valid() && TimersOk(State()) && Conserved() && 0 < second
      modifies this`roundRobin, Repr
      ensures Valid() && TimersOk(State()) && Conserved()
      ensures sep.Returns? <==> users > 0
      ensures sep.Returns? ==> 1 <= sep.value <= second
      ensures sep.Returns? ==>
        sep.value == (if Earliest(old(State())) < second then Earliest(old(State())) else second) &&
        newReqs == Completions(old(State()), sep.value)
      ensures sep.Returns? ==>
        State() == AllocAll(StepAll(old(State()), sep.value), old(roundRobin), newReqs) &&
        roundRobin == CursorAfter(old(roundRobin), |units|, newReqs)
    {
      ghost var us := State();
      var next := NextTransformation();
      NextIntendedOk(us);
      if next.Panics? {
        return next, 0;
      }
      var step := if next.value < second then next.value else second;
      newReqs := Advance(step);
      return Returns(step), newReqs;
    }

    /** Advance every unit by `step`, no further than the next event, and hand the completed
      * requests straight back out. */
    method Advance(step: int) returns (newReqs: nat)
      requires Valid() && TimersOk(State()) && Conserved() && 1 <= step <= Earliest(State())
      modifies this`roundRobin, Repr
      ensures Valid() && TimersOk(State()) && Conserved()
      ensures newReqs == Completions(old(State()), step)
      ensures State() == AllocAll(StepAll(old(State()), step), old(roundRobin), newReqs)
      ensures roundRobin == CursorAfter(old(roundRobin), |units|, newReqs)
    {
      TickKeeps(State(), step, roundRobin);
      newReqs := Transform(step);
      Alloc(newReqs);
    }
  }

  /** Under the timer invariant the next event exists exactly when requests are queued, and it
    * is at least 1ns away. */
  lemma NextIntendedOk(us: seq<UnitState>)
    requires TimersOk(us)
    ensures NextIntended(us).Returns? <==> Total(us) > 0
    ensures NextIntended(us).Returns? ==> 1 <= NextIntended(us).value == Earliest(us)
  {
    TotalPositiveBusy(us);
    EarliestPositive(us);
  }

  /** One `Tick` on values: a step no longer than the next event followed by the
    * re-dispatch of its completions keeps the timer invariant and the number of requests. */
  lemma TickKeeps(us: seq<UnitState>, step: int, rr: nat)
    requires TimersOk(us) && rr < |us| && 1 <= step <= Earliest(us)
    ensures TimersOk(AllocAll(StepAll(us, step), rr, Completions(us, step)))
    ensures Total(AllocAll(StepAll(us, step), rr, Completions(us, step))) == Total(us)
    ensures |AllocAll(StepAll(us, step), rr, Completions(us, step))| == |us|
  {
    EarliestBelow(us);
    EarliestPositive(us);
    StepKeepsTimers(us, step);
    StepConserves(us, step);
    AllocAdds(StepAll(us, step), rr, Completions(us, step));
  }

  /** What one second of `Run` does, on values: the requests it completes, its step lengths, and
    * the units and cursor it leaves. */
  datatype Second = Second(count: nat, cut: seq<int>, units: seq<UnitState>, cursor: nat)

  /** One `Tick` on values: the step length, the completions, and the units and cursor after
    * them. */
  datatype Moved = Moved(step: int, done: nat, units: seq<UnitState>, cursor: nat)

  /** A step of `min(next event, rest)` from units `us`, whose completions are re-dispatched
    * round robin from the cursor `rr`. */
  function TickOf(us: seq<UnitState>, rr: nat, rest: int): (t: Moved)
    requires rr < |us|
    ensures |t.units| == |us| && t.cursor < |us|
  {
    Moved(if Earliest(us) < rest then Earliest(us) else rest,
          Completions(us, if Earliest(us) < rest then Earliest(us) else rest),
          AllocAll(StepAll(us, if Earliest(us) < rest then Earliest(us) else rest), rr,
                   Completions(us, if Earliest(us) < rest then Earliest(us) else rest)),
          CursorAfter(rr, |us|, Completions(us, if Earliest(us) < rest then Earliest(us) else rest)))
  }

  /** A tick is its step, the completions over that step, and where re-dispatching them leaves
    * the units and the cursor. */
  lemma TickOfIs(us: seq<UnitState>, rr: nat, rest: int, step: int, done: nat, now: seq<UnitState>, cursor: nat)
    requires rr < |us| && step == (if Earliest(us) < rest then Earliest(us) else rest)
    requires done == Completions(us, step) && now == AllocAll(StepAll(us, step), rr, done)
    requires cursor == CursorAfter(rr, |us|, done)
    ensures TickOf(us, rr, rest) == Moved(step, done, now, cursor)
  {
  }

  /** Under the timer invariant a tick within a positive rest of the second takes between 1ns
    * and that rest, and keeps the timer invariant and the requests in the system. */
  lemma TickOfKeeps(us: seq<UnitState>, rr: nat, rest: int)
    requires TimersOk(us) && rr < |us| && 0 < rest
    ensures 1 <= TickOf(us, rr, rest).step <= rest
    ensures TimersOk(TickOf(us, rr, rest).units) && Total(TickOf(us, rr, rest).units) == Total(us)
  {
    EarliestPositive(us);
    TickKeeps(us, if Earliest(us) < rest then Earliest(us) else rest, rr);
  }

  /** The last `rest` nanoseconds of a second from units `us` and cursor `rr`: one tick, then
    * the remainder of the second. The steps, each at least 1ns, add up to the rest of the
    * second. */
  function SecondFrom(us: seq<UnitState>, rr: nat, rest: int): (r: Second)
    requires TimersOk(us) && rr < |us|
    ensures |r.units| == |us| && r.cursor < |us|
    decreases rest
  {
    if rest <= 0 then Second(0, [], us, rr)
    else
      TickOfKeeps(us, rr, rest);
      var after := SecondFrom(TickOf(us, rr, rest).units, TickOf(us, rr, rest).cursor, rest - TickOf(us, rr, rest).step);
      Second(TickOf(us, rr, rest).done + after.count, [TickOf(us, rr, rest).step] + after.cut, after.units, after.cursor)
  }

  /** The rest of a second is cut into steps of at least 1ns that add up to it, and it keeps the
    * timer invariant and the requests in the system. */
  lemma {:induction false} SecondKeeps(us: seq<UnitState>, rr: nat, rest: int)
    requires TimersOk(us) && rr < |us|
    ensures TimersOk(SecondFrom(us, rr, rest).units) && Total(SecondFrom(us, rr, rest).units) == Total(us)
    ensures Sum(SecondFrom(us, rr, rest).cut) == (if rest < 0 then 0 else rest)
    ensures forall x :: x in SecondFrom(us, rr, rest).cut ==> 1 <= x
    decreases rest
  {
    if rest > 0 {
      TickOfKeeps(us, rr, rest);
      SecondKeeps(TickOf(us, rr, rest).units, TickOf(us, rr, rest).cursor, rest - TickOf(us, rr, rest).step);
      SumCons(TickOf(us, rr, rest).step,
              SecondFrom(TickOf(us, rr, rest).units, TickOf(us, rr, rest).cursor, rest - TickOf(us, rr, rest).step).cut);
    }
  }

  /** `ticks` are the first ticks of the last `rest` nanoseconds of a second from units `us`
    * and cursor `rr`: each is `TickOf` the units and cursor the one before it left, taken while
    * some of the second is left. */
  predicate Follows(us: seq<UnitState>, rr: nat, rest: int, ticks: seq<Moved>)
    decreases |ticks|
  {
    ticks == [] ||
    (rr < |us| && 0 < rest && ticks[0] == TickOf(us, rr, rest) &&
     Follows(ticks[0].units, ticks[0].cursor, rest - ticks[0].step, ticks[1..]))
  }

  /** The step lengths of `ticks`, in order. */
  function Steps(ticks: seq<Moved>): seq<int>
    decreases |ticks|
  {
    if ticks == [] then [] else [ticks[0].step] + Steps(ticks[1..])
  }

  /** The completions of `ticks`, added up. */
  function Done(ticks: seq<Moved>): nat
    decreases |ticks|
  {
    if ticks == [] then 0 else ticks[0].done + Done(ticks[1..])
  }

  /** The units after `ticks` from units `us`. */
  function EndUnits(us: seq<UnitState>, ticks: seq<Moved>): seq<UnitState> {
    if ticks == [] then us else ticks[|ticks| - 1].units
  }

  /** The cursor after `ticks` from cursor `rr`. */
  function EndCursor(rr: nat, ticks: seq<Moved>): nat {
    if ticks == [] then rr else ticks[|ticks| - 1].cursor
  }

  /** Tick `j` of `ticks` is `TickOf` the units and cursor where the tick before it left (`us`
    * and `rr` for the first), within the part of `rest` the ticks before it have not used. */
  predicate TickAt(us: seq<UnitState>, rr: nat, rest: int, ticks: seq<Moved>, j: nat)
    requires j < |ticks|
  {
    var from := if j == 0 then us else ticks[j - 1].units;
    var cursor := if j == 0 then rr else ticks[j - 1].cursor;
    cursor < |from| && 0 < rest - Sum(Steps(ticks[..j])) &&
    ticks[j] == TickOf(from, cursor, rest - Sum(Steps(ticks[..j])))
  }

  lemma {:induction false} StepsSnoc(ticks: seq<Moved>, m: Moved)
    ensures Steps(ticks + [m]) == Steps(ticks) + [m.step] && Done(ticks + [m]) == Done(ticks) + m.done
    decreases |ticks|
  {
    if ticks == [] {
      assert [m][1..] == [];
    } else {
      assert (ticks + [m])[1..] == ticks[1..] + [m];
      StepsSnoc(ticks[1..], m);
    }
  }

  /** The tick taken where `ticks` left off, within what is left of the second, extends them. */
  lemma TickAtSnoc(us: seq<UnitState>, rr: nat, rest: int, ticks: seq<Moved>,
                   now: seq<UnitState>, cursor: nat, left: int, m: Moved)
    requires forall j :: 0 <= j < |ticks| ==> TickAt(us, rr, rest, ticks, j)
    requires now == EndUnits(us, ticks) && cursor == EndCursor(rr, ticks) && left == rest - Sum(Steps(ticks))
    requires cursor < |now| && 0 < left && m == TickOf(now, cursor, left)
    ensures forall j :: 0 <= j < |ticks + [m]| ==> TickAt(us, rr, rest, ticks + [m], j)
  {
    forall j | 0 <= j < |ticks + [m]|
      ensures TickAt(us, rr, rest, ticks + [m], j)
    {
      assert (ticks + [m])[..j] == if j < |ticks| then ticks[..j] else ticks;
      if j < |ticks| {
        assert TickAt(us, rr, rest, ticks, j);
      }
    }
  }

  /** `ticks`, taken so far in a second from units `start` and cursor `rr0`, are each taken where
    * the one before left off; `done` and `cut` are their completions and step lengths, `left`
    * is what they leave of the second, and `now` and `cursor` are where they end. */
  predicate TraceOk(start: seq<UnitState>, rr0: nat, ticks: seq<Moved>, done: int, cut: seq<int>, left: int,
                    now: seq<UnitState>, cursor: nat)
  {
    (forall j :: 0 <= j < |ticks| ==> TickAt(start, rr0, SECOND, ticks, j)) &&
    done == Done(ticks) && cut == Steps(ticks) && Sum(cut) + left == SECOND &&
    now == EndUnits(start, ticks) && cursor == EndCursor(rr0, ticks)
  }

  /** One more tick, of `min(next event, left)` from where the ticks so far end, keeps the
    * trace. */
  lemma TraceSnoc(start: seq<UnitState>, rr0: nat, ticks: seq<Moved>, done: int, cut: seq<int>, left: int,
                  now: seq<UnitState>, cursor: nat, step: int, newReqs: nat, after: seq<UnitState>, cursorAfter: nat)
    requires TraceOk(start, rr0, ticks, done, cut, left, now, cursor) && cursor < |now| && 0 < left
    requires step == (if Earliest(now) < left then Earliest(now) else left) && newReqs == Completions(now, step)
    requires after == AllocAll(StepAll(now, step), cursor, newReqs) && cursorAfter == CursorAfter(cursor, |now|, newReqs)
    ensures TraceOk(start, rr0, ticks + [Moved(step, newReqs, after, cursorAfter)], done + newReqs, cut + [step],
                    left - step, after, cursorAfter)
  {
    TickOfIs(now, cursor, left, step, newReqs, after, cursorAfter);
    TickAtSnoc(start, rr0, SECOND, ticks, now, cursor, left, Moved(step, newReqs, after, cursorAfter));
    StepsSnoc(ticks, Moved(step, newReqs, after, cursorAfter));
    SumAppend(cut, step);
  }

  /** Ticks each taken where the one before left off follow the rest of the second. */
  lemma {:induction false} TicksFollow(us: seq<UnitState>, rr: nat, rest: int, ticks: seq<Moved>)
    requires forall j :: 0 <= j < |ticks| ==> TickAt(us, rr, rest, ticks, j)
    ensures Follows(us, rr, rest, ticks)
    decreases |ticks|
  {
    if ticks != [] {
      assert TickAt(us, rr, rest, ticks, 0);
      assert ticks[..0] == [];
      var t, left, tail := ticks[0], rest - ticks[0].step, ticks[1..];
      forall j | 0 <= j < |tail|
        ensures TickAt(t.units, t.cursor, left, tail, j)
      {
        assert TickAt(us, rr, rest, ticks, j + 1);
        assert ticks[..j + 1] == [t] + tail[..j];
        assert ([t] + tail[..j])[1..] == tail[..j];
        SumCons(t.step, Steps(tail[..j]));
      }
      TicksFollow(t.units, t.cursor, left, tail);
    }
  }

  /** Ticks that follow the rest of a second and use all of it are that whole rest: their
    * completions, their step lengths, and the units and cursor they end with. */
  lemma {:induction false} FollowsSecond(us: seq<UnitState>, rr: nat, rest: int, ticks: seq<Moved>)
    requires TimersOk(us) && rr < |us| && Follows(us, rr, rest, ticks) && Sum(Steps(ticks)) == rest
    ensures SecondFrom(us, rr, rest) == Second(Done(ticks), Steps(ticks), EndUnits(us, ticks), EndCursor(rr, ticks))
    decreases |ticks|
  {
    if ticks != [] {
      TickOfKeeps(us, rr, rest);
      SumCons(ticks[0].step, Steps(ticks[1..]));
      EndsCons(us, rr, ticks);
      FollowsSecond(ticks[0].units, ticks[0].cursor, rest - ticks[0].step, ticks[1..]);
    }
  }

  /** Ticks end where the ticks after the first end, from where the first left off. */
  lemma EndsCons(us: seq<UnitState>, rr: nat, ticks: seq<Moved>)
    requires ticks != []
    ensures EndUnits(us, ticks) == EndUnits(ticks[0].units, ticks[1..])
    ensures EndCursor(rr, ticks) == EndCursor(ticks[0].cursor, ticks[1..])
  {
    if |ticks| > 1 {
      assert ticks[1..][|ticks| - 2] == ticks[|ticks| - 1];
    }
  }

  /** Ticks each taken where the one before left off, using all of the rest of the second, are
    * that whole rest. */
  lemma TicksSecond(us: seq<UnitState>, rr: nat, rest: int, ticks: seq<Moved>)
    requires TimersOk(us) && rr < |us| && Sum(Steps(ticks)) == rest
    requires forall j :: 0 <= j < |ticks| ==> TickAt(us, rr, rest, ticks, j)
    ensures SecondFrom(us, rr, rest) == Second(Done(ticks), Steps(ticks), EndUnits(us, ticks), EndCursor(rr, ticks))
  {
    TicksFollow(us, rr, rest, ticks);
    FollowsSecond(us, rr, rest, ticks);
  }

  /** Second `i` of `seconds` is `SecondFrom` the units and cursor it starts with: `us` and `rr`
    * for the first, where the second before it ended for every later one. */
  predicate SecondAt(us: seq<UnitState>, rr: nat, seconds: seq<Second>, i: nat)
    requires i < |seconds|
  {
    var from := if i == 0 then us else seconds[i - 1].units;
    var cursor := if i == 0 then rr else seconds[i - 1].cursor;
    TimersOk(from) && cursor < |from| && seconds[i] == SecondFrom(from, cursor, SECOND)
  }

  /** The seconds run so far from `us` and `rr`: each is `SecondAt` its start, `counts` are
    * their completion counts, and `now` and `cursor` are where the last one ended. */
  predicate RunOk(us: seq<UnitState>, rr: nat, seconds: seq<Second>, counts: seq<int>,
                  now: seq<UnitState>, cursor: nat)
  {
    |counts| == |seconds| &&
    (forall i :: 0 <= i < |seconds| ==> counts[i] == seconds[i].count) &&
    (forall i :: 0 <= i < |seconds| ==> SecondAt(us, rr, seconds, i)) &&
    now == (if seconds == [] then us else seconds[|seconds| - 1].units) &&
    cursor == (if seconds == [] then rr else seconds[|seconds| - 1].cursor)
  }

  /** One more second, run from where `seconds` ended, extends the run. */
  lemma RunSnoc(us: seq<UnitState>, rr: nat, seconds: seq<Second>, counts: seq<int>,
                from: seq<UnitState>, cursor: nat, x: Second)
    requires RunOk(us, rr, seconds, counts, from, cursor)
    requires TimersOk(from) && cursor < |from| && x == SecondFrom(from, cursor, SECOND)
    ensures RunOk(us, rr, seconds + [x], counts + [x.count], x.units, x.cursor)
  {
    SecondAtSnoc(us, rr, seconds, from, cursor, x);
  }

  /** The second run from where `seconds` ended extends them. */
  lemma SecondAtSnoc(us: seq<UnitState>, rr: nat, seconds: seq<Second>, from: seq<UnitState>, cursor: nat, x: Second)
    requires forall i :: 0 <= i < |seconds| ==> SecondAt(us, rr, seconds, i)
    requires from == (if seconds == [] then us else seconds[|seconds| - 1].units)
    requires cursor == (if seconds == [] then rr else seconds[|seconds| - 1].cursor)
    requires TimersOk(from) && cursor < |from| && x == SecondFrom(from, cursor, SECOND)
    ensures forall i :: 0 <= i < |seconds| + 1 ==> SecondAt(us, rr, seconds + [x], i)
  {
    forall i | 0 <= i < |seconds| + 1
      ensures SecondAt(us, rr, seconds + [x], i)
    {
      if i < |seconds| {
        assert SecondAt(us, rr, seconds, i);
      }
    }
  }

  lemma {:induction false} SumCons(x: int, s: seq<int>)
    ensures Sum([x] + s) == x + Sum(s)
    decreases |s|
  {
    if s != [] {
      SumCons(x, s[..|s| - 1]);
      assert ([x] + s)[..|s|] == [x] + s[..|s| - 1];
    }
  }

  lemma DivUnique(d: int, k: int, rest: int)
    requires d == k * SECOND + rest && 0 <= rest < SECOND
    ensures d / SECOND == k
  {
  }

  function Sum(s: seq<int>): int {
    if s == [] then 0 else Sum(s[..|s| - 1]) + s[|s| - 1]
  }

  lemma SumAppend(s: seq<int>, x: int)
    ensures Sum(s + [x]) == Sum(s) + x
  {
    assert (s + [x])[..|s|] == s;
  }

  lemma FreshAlloc(costs: seq<int>, users: int)
    requires 0 < |costs|
    ensures Total(AllocAll(Fresh(costs), 0, users)) == if users < 0 then 0 else users
  {
    FreshEmpty(costs);
    AllocAdds(Fresh(costs), 0, users);
  }

  lemma {:induction false} FreshEmpty(costs: seq<int>)
    ensures Total(Fresh(costs)) == 0
  {
    if costs != [] {
      FreshEmpty(costs[..|costs| - 1]);
      assert Fresh(costs)[..|costs| - 1] == Fresh(costs[..|costs| - 1]);
    }
  }
}
