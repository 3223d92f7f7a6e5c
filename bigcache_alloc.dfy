// Sizing of a cache configuration from an expected item count: the shard count is a power of two
// derived from the item count, and the hard size limit is the items' total size in megabytes.
module BigCacheAlloc {
  import opened Wrappers

  /** The range of Go's 64-bit `uint`. */
  const U64: nat := 0x1_0000_0000_0000_0000
  const KB: nat := 1024
  const MB: nat := 1024 * KB
  /** The life window handed to the default configuration: 200 years, in hours. */
  const LIFE_WINDOW_HOURS: nat := 200 * 365 * 24

  /** `x & y` on naturals, one bit at a time. */
  function BitAnd(x: nat, y: nat): nat {
    if x == 0 || y == 0 then 0
    else 2 * BitAnd(x / 2, y / 2) + (if x % 2 == 1 && y % 2 == 1 then 1 else 0)
  }

  predicate IsPow2(n: nat) {
    n == 1 || (n >= 2 && n % 2 == 0 && IsPow2(n / 2))
  }

  /** `r << 1` on a 64-bit unsigned value: the top bit is lost. */
  function Shl1(r: nat): (s: nat)
    requires r < U64
    ensures s < U64 && s % 2 == 0
  {
    if 2 * r < U64 then 2 * r else 2 * r - U64
  }

  lemma {:induction false} BitAndSelf(x: nat)
    ensures BitAnd(x, x) == x
  {
    if x != 0 {
      BitAndSelf(x / 2);
    }
  }

  /** The test `a & (a - 1) == 0` holds exactly for the powers of two. */
  lemma {:induction false} PowerTest(a: nat)
    requires a > 0
    ensures BitAnd(a, a - 1) == 0 <==> IsPow2(a)
  {
    if a % 2 == 1 {
      BitAndSelf(a / 2);
      assert (a - 1) / 2 == a / 2;
    } else {
      assert (a - 1) / 2 == a / 2 - 1 && (a - 1) % 2 == 1;
      PowerTest(a / 2);
    }
  }

  /** The largest power of two not above `a`. */
  function FloorPow2(a: nat): (r: nat)
    requires a > 0
    ensures IsPow2(r) && r <= a < 2 * r
  {
    if a == 1 then 1 else 2 * FloorPow2(a / 2)
  }

  /** Between consecutive powers of two there is no other. */
  lemma {:induction false} PowGap(x: nat, y: nat)
    requires IsPow2(x) && IsPow2(y) && x < y
    ensures 2 * x <= y
  {
    if x > 1 {
      PowGap(x / 2, y / 2);
    }
  }

  /** `FloorPow2` is the only power of two `r` with `r <= a < 2r`. */
  lemma FloorPow2Unique(a: nat, r: nat)
    requires a > 0 && IsPow2(r) && r <= a < 2 * r
    ensures r == FloorPow2(a)
  {
    var f := FloorPow2(a);
    if r < f {
      PowGap(r, f);
    } else if f < r {
      PowGap(f, r);
    }
  }

  /** `getNearestPowerOf2` with the loop comparing `2r` and `a` without wrap-around: zero
    * panics, a power of two is returned as it is, and anything else is rounded down to a power
    * of two. */
  method NearestPowerOf2(a: nat) returns (r: Outcome<nat>)
    requires a < U64
    ensures a == 0 <==> r.Panics?
    ensures r.Returns? ==> r.value == FloorPow2(a)
    ensures r.Returns? ==> (r.value == a <==> IsPow2(a))
  {
    if a == 0 {
      return Panics("input expected should >0");
    }
    PowerTest(a);
    if BitAnd(a, a - 1) == 0 {
      FloorPow2Unique(a, a);
      return Returns(a);
    }
    var p := 1;
    while 2 * p < a
      invariant IsPow2(p) && p < a
      decreases a - p
    {
      p := 2 * p;
      assert (2 * p) / 2 == p;
    }
    FloorPow2Unique(a, p);
    return Returns(p);
  }

  /** The loop of `getNearestPowerOf2` as written, with `r << 1` wrapping at 64 bits, run for at
    * most `fuel` rounds; `None` means it is still running. */
  function LoopAsWritten(a: nat, r: nat, fuel: nat): Option<nat>
    requires r < U64
    decreases fuel
  {
    if fuel == 0 then None
    else if Shl1(r) < a then LoopAsWritten(a, Shl1(r), fuel - 1)
    else Some(r)
  }

  function NearestAsWritten(a: nat, fuel: nat): Option<Outcome<nat>> {
    if a == 0 then Some(Panics("input expected should >0"))
    else if BitAnd(a, a - 1) == 0 then Some(Returns(a))
    else
      match LoopAsWritten(a, 1, fuel)
      case None => None
      case Some(r) => Some(Returns(r))
  }

  lemma {:induction false} Pow2Double(p: nat)
    requires IsPow2(p)
    ensures IsPow2(2 * p)
  {
    assert (2 * p) / 2 == p;
  }

  function Pow2(k: nat): (r: nat)
    ensures r >= 1
  {
    if k == 0 then 1 else 2 * Pow2(k - 1)
  }

  lemma {:induction false} Pow2IsPow2(k: nat)
    ensures IsPow2(Pow2(k))
  {
    if k > 0 {
      Pow2IsPow2(k - 1);
      Pow2Double(Pow2(k - 1));
    }
  }

  lemma {:induction false} Pow2Add(i: nat, j: nat)
    ensures Pow2(i + j) == Pow2(i) * Pow2(j)
    decreases j
  {
    if j > 0 {
      Pow2Add(i, j - 1);
    }
  }

  lemma Pow2Plus8(k: nat)
    ensures Pow2(k + 8) == 256 * Pow2(k)
  {
    assert Pow2(8) == 256;
    Pow2Add(k, 8);
  }

  /** 2^63 is a power of two: the largest below the 64-bit range. */
  lemma Top()
    ensures Pow2(63) == U64 / 2 && IsPow2(U64 / 2)
  {
    assert Pow2(7) == 0x80;
    Pow2Plus8(7);
    Pow2Plus8(15);
    Pow2Plus8(23);
    Pow2Plus8(31);
    Pow2Plus8(39);
    Pow2Plus8(47);
    Pow2Plus8(55);
    Pow2IsPow2(63);
  }

  /** Above 2^63 the doubling reaches 2^63, wraps to 0, and stays there below `a`: however many
    * rounds it is given, the loop as written never ends. */
  lemma {:induction false} LoopNeverEnds(a: nat, r: nat, fuel: nat)
    requires U64 / 2 < a < U64 && IsPow2(U64 / 2)
    requires r == 0 || (IsPow2(r) && r <= U64 / 2)
    ensures LoopAsWritten(a, r, fuel) == None
    decreases fuel
  {
    if fuel > 0 {
      if r != 0 && 2 * r < U64 {
        Pow2Double(r);
        if U64 / 2 < 2 * r {
          PowGap(U64 / 2, 2 * r);
        }
      }
      LoopNeverEnds(a, Shl1(r), fuel - 1);
    }
  }

  lemma DoubledBound(r: nat, fuel: nat)
    requires fuel > 0
    ensures r * Pow2(fuel) == 2 * r * Pow2(fuel - 1)
  {
  }

  /** Up to 2^63 the doubling never wraps, and the loop ends once `2r` reaches `a`. */
  lemma {:induction false} LoopEnds(a: nat, r: nat, fuel: nat)
    requires 0 < a <= U64 / 2 && !IsPow2(a) && IsPow2(r) && r < a && r * Pow2(fuel) >= a
    ensures LoopAsWritten(a, r, fuel) == Some(FloorPow2(a))
    decreases fuel
  {
    assert fuel > 0;
    assert Shl1(r) == 2 * r;
    if 2 * r < a {
      Pow2Double(r);
      DoubledBound(r, fuel);
      LoopEnds(a, 2 * r, fuel - 1);
    } else {
      if 2 * r == a {
        Pow2Double(r);
      }
      FloorPow2Unique(a, r);
    }
  }

  /** Up to 2^63 the code as written ends within 63 rounds and agrees with `NearestPowerOf2`. */
  lemma AsWrittenBelow(a: nat)
    requires 0 < a <= U64 / 2
    ensures NearestAsWritten(a, 63) == Some(Returns(FloorPow2(a)))
  {
    PowerTest(a);
    if IsPow2(a) {
      FloorPow2Unique(a, a);
    } else {
      Top();
      LoopEnds(a, 1, 63);
    }
  }

  /** Above 2^63 a number that is not a power of two sends the code as written into an endless
    * loop. */
  lemma AsWrittenAbove(a: nat, fuel: nat)
    requires U64 / 2 < a < U64 && !IsPow2(a)
    ensures NearestAsWritten(a, fuel) == None
  {
    PowerTest(a);
    Top();
    LoopNeverEnds(a, 1, fuel);
  }

  /** The counterexample: 2^63 + 1 is not a power of two, and the loop never returns for it. */
  lemma OverflowLoopsForever(fuel: nat)
    ensures NearestAsWritten(U64 / 2 + 1, fuel) == None
  {
    assert !IsPow2(U64 / 2 + 1);
    AsWrittenAbove(U64 / 2 + 1, fuel);
  }

  /** The fields of the cache configuration this program sets. */
  datatype Config = Config(
    lifeWindowHours: nat,
    verbose: bool,
    shards: nat,
    maxEntriesInWindow: nat,
    maxEntrySize: nat,
    hardMaxCacheSize: nat)

  /** `BigCacheConfigFrom`: shards are the power of two for `itemTotal / 100 + 1`, capped at
    * 128; the window holds every item when pre-allocating and a tenth of them otherwise; the
    * hard limit is the total size in megabytes, plus one. */
  function ConfigFrom(itemTotal: nat, itemMaxSize: nat, preAlloc: bool, verbose: bool): (c: Config)
    requires itemTotal < U64 / 2
    ensures 1 <= c.shards <= 128 && IsPow2(c.shards)
    ensures c.shards <= itemTotal / 100 + 1
    ensures c.shards == 128 || itemTotal / 100 + 1 < 2 * c.shards
    ensures c.maxEntriesInWindow == if preAlloc then itemTotal else itemTotal / 10
    ensures c.maxEntrySize == itemMaxSize && c.verbose == verbose
    ensures c.hardMaxCacheSize >= 1 && (c.hardMaxCacheSize - 1) * MB <= itemTotal * itemMaxSize
    ensures itemTotal * itemMaxSize < c.hardMaxCacheSize * MB
  {
    var limit := itemTotal / 100 + 1;
    var shards := FloorPow2(limit);
    var megabytes := itemTotal * itemMaxSize / MB;
    FloorDiv(itemTotal * itemMaxSize, MB);
    Config(
      LIFE_WINDOW_HOURS,
      verbose,
      if shards > 128 then 128 else shards,
      if preAlloc then itemTotal else itemTotal / 10,
      itemMaxSize,
      megabytes + 1)
  }

  /** The shard clauses of `ConfigFrom` fix the shard count: any power of two up to 128 and up to
    * `itemTotal / 100 + 1` that is 128 or above half that bound is the one `ConfigFrom` picks. */
  lemma ShardsDetermined(itemTotal: nat, itemMaxSize: nat, preAlloc: bool, verbose: bool, s: nat)
    requires itemTotal < U64 / 2
    requires IsPow2(s) && 1 <= s <= 128 && s <= itemTotal / 100 + 1
    requires s == 128 || itemTotal / 100 + 1 < 2 * s
    ensures s == ConfigFrom(itemTotal, itemMaxSize, preAlloc, verbose).shards
  {
    var c := ConfigFrom(itemTotal, itemMaxSize, preAlloc, verbose);
    var limit := itemTotal / 100 + 1;
    if s < 128 {
      FloorPow2Unique(limit, s);
      if c.shards == 128 {
        assert false;
      }
    } else if c.shards < 128 {
      PowGap(c.shards, 128);
    }
  }

  /** Whole megabytes, rounded down: the quotient times the divisor reaches `x`, one more does not. */
  lemma FloorDiv(x: nat, d: nat)
    requires d > 0
    ensures x / d * d <= x < (x / d + 1) * d
  {
  }
}
