/** The load estimator of the queuing package: how `qps` requests per second split over
  * `others` processors of a given speed, and the backlog that leaves per processor.
  * Quantities that are `float64` in the program are exact reals here. */
module QueuingModel {

  function Floor(x: real): (r: int)
    ensures r as real <= x < r as real + 1.0
  {
    x.Floor
  }

  function Ceil(x: real): (r: int)
    ensures x <= r as real < x + 1.0
  {
    -((-x).Floor)
  }

  function Max0(x: real): (r: real)
    ensures r >= 0.0 && r >= x
    ensures r == x || r == 0.0
  {
    if x > 0.0 then x else 0.0
  }

  /** `ProcessorState`: ceiling and floor of the incoming share, the per-second backlog for
    * each (converted to `int`), and the backlog over the whole period. */
  datatype ProcessorState = ProcessorState(
    incomeCeil: int, incomeFloor: int,
    remainCeil: int, remainFloor: int,
    remainsCeil: real, remainsFloor: real)

  /** `NewProcessorState(speed, others, qps, seconds)`. The `int(...)` conversions of the
    * backlog truncate toward zero; the backlog is never negative, so that is the floor. */
  function NewProcessorState(speed: real, others: int, qps: real, seconds: real): (p: ProcessorState)
    requires others > 0
    ensures p.incomeFloor as real <= qps / others as real <= p.incomeCeil as real
    ensures p.incomeCeil - p.incomeFloor <= 1
  {
    var share := qps / others as real;
    var incomeCeil := Ceil(share);
    var incomeFloor := Floor(share);
    var remainCeil := Max0(incomeCeil as real - speed);
    var remainFloor := Max0(incomeFloor as real - speed);
    ProcessorState(incomeCeil, incomeFloor, Floor(remainCeil), Floor(remainFloor),
                   remainCeil * seconds, remainFloor * seconds)
  }

  /** The per-second backlog before the `int` conversion. */
  function RemainReal(income: int, speed: real): real {
    Max0(income as real - speed)
  }

  /** The shares are the floor and the ceiling of the same quotient, so they coincide exactly
    * when the quotient is whole. */
  lemma IncomeShares(speed: real, others: int, qps: real, seconds: real)
    requires others > 0
    ensures NewProcessorState(speed, others, qps, seconds).incomeFloor
         <= NewProcessorState(speed, others, qps, seconds).incomeCeil
    ensures IsMultiple(qps, others) <==>
            NewProcessorState(speed, others, qps, seconds).incomeCeil
            == NewProcessorState(speed, others, qps, seconds).incomeFloor
  {
    var share := qps / others as real;
    if Ceil(share) == Floor(share) {
      WholeShare(qps, others, Floor(share));
    }
    if IsMultiple(qps, others) {
      MultipleShare(qps, others, qps.Floor / others);
    }
  }

  lemma WholeShare(qps: real, others: int, f: int)
    requires others > 0 && qps / others as real == f as real
    ensures IsMultiple(qps, others)
  {
    var m := f * others;
    assert qps == f as real * others as real;
    assert m as real == f as real * others as real;
    assert qps.Floor == m;
    MulDiv(f, others);
  }

  lemma MulDiv(f: int, o: int)
    requires o > 0
    ensures (f * o) / o == f && (f * o) % o == 0
  {
    var q, r := (f * o) / o, (f * o) % o;
    assert f * o == q * o + r;
    assert (f - q) * o == r;
    if f - q >= 1 {
      assert false;
    } else if f - q <= -1 {
      assert false;
    }
  }

  lemma MultipleShare(qps: real, others: int, k: int)
    requires others > 0 && IsMultiple(qps, others) && k == qps.Floor / others
    ensures qps / others as real == k as real
  {
    assert qps.Floor == k * others;
    assert qps == k as real * others as real;
  }

  /** `qps` is a whole multiple of `others`. */
  predicate IsMultiple(qps: real, others: int)
    requires others > 0
  {
    qps == qps.Floor as real && qps.Floor % others == 0
  }

  /** The backlog is `max(income - speed, 0)`: never negative, and for a non-negative speed
    * never more than the income; the ceiling share never has the smaller backlog (the income is
    * not negative when `qps` is not). */
  lemma RemainBounds(speed: real, others: int, qps: real, seconds: real)
    requires others > 0
    ensures var p := NewProcessorState(speed, others, qps, seconds);
      p.remainCeil >= 0 && p.remainFloor >= 0 && p.remainFloor <= p.remainCeil
    ensures var p := NewProcessorState(speed, others, qps, seconds);
      speed >= 0.0 && qps >= 0.0 ==>
        p.remainCeil <= p.incomeCeil && p.remainFloor <= p.incomeFloor
  {
    var share := qps / others as real;
    if qps >= 0.0 {
      assert share >= 0.0;
    }
  }

  /** The period backlog is the per-second backlog times `seconds`: over a non-negative period
    * the integer backlog times `seconds` does not exceed it. */
  lemma RemainsScale(speed: real, others: int, qps: real, seconds: real)
    requires others > 0
    ensures var p := NewProcessorState(speed, others, qps, seconds);
      seconds >= 0.0 ==>
        p.remainCeil as real * seconds <= p.remainsCeil && p.remainFloor as real * seconds <= p.remainsFloor
  {
    var share := qps / others as real;
    ScaledAbove(NewProcessorState(speed, others, qps, seconds),
      Max0(Ceil(share) as real - speed), Max0(Floor(share) as real - speed), seconds);
  }

  /** Over a non-negative period the floor share never has the larger period backlog, and
    * neither backlog is negative. */
  lemma RemainsOrdered(speed: real, others: int, qps: real, seconds: real)
    requires others > 0
    ensures var p := NewProcessorState(speed, others, qps, seconds);
      seconds >= 0.0 ==> 0.0 <= p.remainsFloor <= p.remainsCeil
  {
    var share := qps / others as real;
    ScaledOrdered(NewProcessorState(speed, others, qps, seconds),
      Max0(Ceil(share) as real - speed), Max0(Floor(share) as real - speed), seconds);
  }

  /** Over a positive period, one more than the integer backlog, times `seconds`, exceeds the
    * period backlog. */
  lemma RemainsBelowNext(speed: real, others: int, qps: real, seconds: real)
    requires others > 0
    ensures var p := NewProcessorState(speed, others, qps, seconds);
      seconds > 0.0 ==>
        p.remainsCeil < (p.remainCeil + 1) as real * seconds && p.remainsFloor < (p.remainFloor + 1) as real * seconds
  {
    var share := qps / others as real;
    ScaledBelow(NewProcessorState(speed, others, qps, seconds),
      Max0(Ceil(share) as real - speed), Max0(Floor(share) as real - speed), seconds);
  }

  /** The scaling facts for a load state whose per-second backlogs are `ceil` and `floor`, as
    * `NewProcessorState` builds it: the integer backlogs scaled by a non-negative period stay
    * below the period backlogs, ... */
  lemma ScaledAbove(p: ProcessorState, ceil: real, floor: real, seconds: real)
    requires p.remainCeil == Floor(ceil) && p.remainsCeil == ceil * seconds
    requires p.remainFloor == Floor(floor) && p.remainsFloor == floor * seconds
    ensures seconds >= 0.0 ==>
      p.remainCeil as real * seconds <= p.remainsCeil && p.remainFloor as real * seconds <= p.remainsFloor
  {
    ScaleBetween(Floor(ceil), ceil, seconds, ceil * seconds);
    ScaleBetween(Floor(floor), floor, seconds, floor * seconds);
  }

  /** ... the period backlogs are ordered like the per-second ones, ... */
  lemma ScaledOrdered(p: ProcessorState, ceil: real, floor: real, seconds: real)
    requires 0.0 <= floor <= ceil && p.remainsCeil == ceil * seconds && p.remainsFloor == floor * seconds
    ensures seconds >= 0.0 ==> 0.0 <= p.remainsFloor <= p.remainsCeil
  {
    if seconds >= 0.0 {
      ScaleMono(floor, ceil, seconds, floor * seconds, ceil * seconds);
    }
  }

  /** ... and one more than each integer backlog, scaled by a positive period, exceeds it. */
  lemma ScaledBelow(p: ProcessorState, ceil: real, floor: real, seconds: real)
    requires p.remainCeil == Floor(ceil) && p.remainsCeil == ceil * seconds
    requires p.remainFloor == Floor(floor) && p.remainsFloor == floor * seconds
    ensures seconds > 0.0 ==>
      p.remainsCeil < (p.remainCeil + 1) as real * seconds && p.remainsFloor < (p.remainFloor + 1) as real * seconds
  {
    ScaleBetween(Floor(ceil), ceil, seconds, ceil * seconds);
    ScaleBetween(Floor(floor), floor, seconds, floor * seconds);
  }

  /** Scaling `whole <= x < whole + 1` by a period keeps both sides. */
  lemma ScaleBetween(whole: int, x: real, seconds: real, scaled: real)
    requires whole as real <= x < (whole + 1) as real && scaled == x * seconds
    ensures seconds >= 0.0 ==> whole as real * seconds <= scaled
    ensures seconds > 0.0 ==> scaled < (whole + 1) as real * seconds
  {
  }

  lemma ScaleMono(low: real, high: real, seconds: real, lowScaled: real, highScaled: real)
    requires 0.0 <= low <= high && seconds >= 0.0 && lowScaled == low * seconds && highScaled == high * seconds
    ensures 0.0 <= lowScaled <= highScaled
  {
  }

  // ---- processor.go ----

  /** `Processor`: its own throughput and its load state. */
  datatype Processor = Processor(tps: real, state: ProcessorState)

  /** `NewProcessor(tps, others, qps)`. The call in the program passes no period length although
    * the load-state function takes one, so here it is the explicit parameter `seconds`. */
  function NewProcessor(tps: real, others: int, qps: real, seconds: real): (p: Processor)
    requires others > 0
    ensures p.tps == tps
    ensures p.state.incomeFloor as real <= qps / others as real <= p.state.incomeCeil as real
    ensures p.state.remainCeil == Floor(RemainReal(p.state.incomeCeil, tps))
  {
    Processor(tps, NewProcessorState(tps, others, qps, seconds))
  }

  /** `NewProcessorSet`: one processor per throughput, in input order, each told that the
    * `qps` is shared among all `|tpss|` of them. */
  method NewProcessorSet(tpss: seq<real>, qps: real, seconds: real) returns (processors: seq<Processor>)
    ensures |processors| == |tpss|
    ensures forall i :: 0 <= i < |tpss| ==> processors[i].tps == tpss[i]
    ensures forall i :: 0 <= i < |tpss| ==>
      processors[i].state == NewProcessorState(tpss[i], |tpss|, qps, seconds)
  {
    processors := [];
    var i := 0;
    while i < |tpss|
      invariant 0 <= i <= |tpss| && |processors| == i
      invariant forall k :: 0 <= k < i ==>
        processors[k] == NewProcessor(tpss[k], |tpss|, qps, seconds)
    {
      processors := processors + [NewProcessor(tpss[i], |tpss|, qps, seconds)];
      i := i + 1;
    }
  }

  /** All processors see the same shares, whatever their speed: the floor shares never add up
    * to more than `qps` and the ceiling shares never to less. */
  lemma SharesCover(tpss: seq<real>, qps: real, seconds: real, ps: seq<Processor>)
    requires 0 < |tpss| && |ps| == |tpss|
    requires forall i :: 0 <= i < |tpss| ==> ps[i].state == NewProcessorState(tpss[i], |tpss|, qps, seconds)
    ensures forall i, j :: 0 <= i < |ps| && 0 <= j < |ps| ==>
      ps[i].state.incomeCeil == ps[j].state.incomeCeil && ps[i].state.incomeFloor == ps[j].state.incomeFloor
    ensures |ps| as real * ps[0].state.incomeFloor as real <= qps <= |ps| as real * ps[0].state.incomeCeil as real
  {
    var share := qps / |tpss| as real;
    forall i | 0 <= i < |ps|
      ensures ps[i].state.incomeCeil == Ceil(share) && ps[i].state.incomeFloor == Floor(share)
    {
      IncomeOf(tpss[i], |tpss|, qps, seconds);
    }
    SharesBracket(tpss[0], |tpss|, qps, seconds);
  }

  /** `n` times the floor share is at most `qps`, and `n` times the ceiling share at least. */
  lemma SharesBracket(speed: real, n: int, qps: real, seconds: real)
    requires n > 0
    ensures var p := NewProcessorState(speed, n, qps, seconds);
      n as real * p.incomeFloor as real <= qps <= n as real * p.incomeCeil as real
  {
    var p := NewProcessorState(speed, n, qps, seconds);
    ScaleShare(n as real, p.incomeFloor as real, qps, p.incomeCeil as real);
  }

  /** The incomes are the ceiling and floor of the share, whatever the processor's speed. */
  lemma IncomeOf(speed: real, others: int, qps: real, seconds: real)
    requires others > 0
    ensures NewProcessorState(speed, others, qps, seconds).incomeCeil == Ceil(qps / others as real)
    ensures NewProcessorState(speed, others, qps, seconds).incomeFloor == Floor(qps / others as real)
  {
  }

  /** Scaling shares on either side of `total / n` by `n` puts them on either side of `total`. */
  lemma ScaleShare(n: real, low: real, total: real, high: real)
    requires n > 0.0 && low <= total / n <= high
    ensures n * low <= total <= n * high
  {
    assert n * low <= n * (total / n) <= n * high;
  }
}
