/** The configuration search of the tuner: enumerate the 100 geometries with
    s in 1..5, E in 1..4 and b in 1..5, sort them by cache footprint, run the
    simulator on each in that order and keep the first whose metric meets the
    target. The simulator run is a parameter `sim` mapping (s, E, b) to the
    three counts it reports; `TraceCounts` is the run of the simulator model
    on a trace. */
module Tuner {
  import opened Decode
  import opened CacheModel
  import opened TraceReplay

  /** A candidate geometry and its footprint `size` in bytes. */
  datatype Config = Config(s: int, E: int, b: int, size: int)

  /** The counts a simulator run reports. */
  datatype Counts = Counts(hits: int, misses: int, evictions: int)

  const Int32Min: int := -0x8000_0000
  const Int32Max: int := 0x7fff_ffff

  predicate IsInt32(x: int)
  {
    Int32Min <= x <= Int32Max
  }

  /** Two's-complement wrap-around of an int result to 32 bits. */
  function Wrap32(x: int): (r: int)
    ensures IsInt32(r)
    ensures (r - x) % 0x1_0000_0000 == 0
    ensures IsInt32(x) ==> r == x
  {
    (x - Int32Min) % 0x1_0000_0000 + Int32Min
  }

  /** The sort comparator: the difference of the two sizes as a C int. Its
      sign orders the sizes whenever the difference does not overflow. */
  function CompareBySize(a: Config, b: Config): (r: int)
    requires IsInt32(a.size) && IsInt32(b.size)
    ensures IsInt32(r)
    ensures IsInt32(a.size - b.size) ==>
      (r < 0 <==> a.size < b.size) && (r == 0 <==> a.size == b.size) && (r > 0 <==> a.size > b.size)
  {
    Wrap32(a.size - b.size)
  }

  /** Non-negative sizes never make the comparator overflow. */
  lemma CompareBySizeOrdersSizes(a: Config, b: Config)
    requires 0 <= a.size <= Int32Max && 0 <= b.size <= Int32Max
    ensures CompareBySize(a, b) < 0 <==> a.size < b.size
    ensures CompareBySize(a, b) == 0 <==> a.size == b.size
    ensures CompareBySize(a, b) > 0 <==> a.size > b.size
  {
    assert IsInt32(a.size - b.size);
  }

  /** `(1 << s) * E * (1 << b)`. */
  function Footprint(s: nat, E: nat, b: nat): nat
  {
    Pow2(s) * E * Pow2(b)
  }

  predicate InRange(s: int, E: int, b: int)
  {
    1 <= s <= 5 && 1 <= E <= 4 && 1 <= b <= 5
  }

  /** The footprints the search considers lie between 2 * 1 * 2 = 4 and
      2^5 * 4 * 2^5 = 4096 bytes. */
  lemma {:induction false} FootprintBound(s: nat, E: nat, b: nat)
    requires InRange(s, E, b)
    ensures 4 <= Footprint(s, E, b) <= 4096
  {
    Pow2Monotone(s, 5);
    Pow2Monotone(b, 5);
    Pow2Monotone(1, s);
    Pow2Monotone(1, b);
    assert Pow2(5) == 32 && Pow2(1) == 2;
    var ps, pb := Pow2(s), Pow2(b);
    MulMonotone(ps, E, 4);
    MulAtLeast(ps, E);
    MulMonotone(ps * E, pb, 32);
    MulMonotone(ps * E, 2, pb);
  }

  // ---------------------------------------------------------------------
  // The enumeration: s outermost, then E, then b

  /** Position of (s, E, b) in the enumeration. */
  function IndexOf(s: int, E: int, b: int): (k: nat)
    requires InRange(s, E, b)
    ensures k < 100
  {
    (s - 1) * 20 + (E - 1) * 5 + (b - 1)
  }

  /** The k-th configuration the enumeration writes. */
  function ConfigAt(k: nat): Config
    requires k < 100
  {
    var s, E, b := k / 20 + 1, (k / 5) % 4 + 1, k % 5 + 1;
    Config(s, E, b, Footprint(s, E, b))
  }

  function Enumeration(): (r: seq<Config>)
    ensures |r| == 100
  {
    seq(100, k requires 0 <= k < 100 => ConfigAt(k))
  }

  /** Every position holds a geometry in range with its footprint, and the
      position is recovered from the geometry. */
  lemma {:induction false} ConfigAtInRange(k: nat)
    requires k < 100
    ensures var c := ConfigAt(k);
      InRange(c.s, c.E, c.b) && c.size == Footprint(c.s, c.E, c.b) && IndexOf(c.s, c.E, c.b) == k
  {
    var q, r := k / 5, k % 5;
    DivDiv(k, 5, 4);
    assert k / 20 == q / 4;
    assert q == 4 * (q / 4) + q % 4;
    assert k == 5 * q + r;
  }

  /** Every geometry in range is written at its position. */
  lemma {:induction false} ConfigAtIndexOf(s: int, E: int, b: int)
    requires InRange(s, E, b)
    ensures ConfigAt(IndexOf(s, E, b)) == Config(s, E, b, Footprint(s, E, b))
  {
    var k := IndexOf(s, E, b);
    DivModUnique(k, 20, s - 1, (E - 1) * 5 + (b - 1));
    DivModUnique(k, 5, (s - 1) * 4 + (E - 1), b - 1);
    DivModUnique((s - 1) * 4 + (E - 1), 4, s - 1, E - 1);
  }

  /** The enumeration holds each of the 100 geometries exactly once. */
  lemma EnumerationCoverage()
    ensures forall k :: 0 <= k < 100 ==>
      var c := Enumeration()[k]; InRange(c.s, c.E, c.b) && c.size == Footprint(c.s, c.E, c.b)
    ensures forall s, E, b :: InRange(s, E, b) ==>
      Enumeration()[IndexOf(s, E, b)] == Config(s, E, b, Footprint(s, E, b))
    ensures forall k1, k2 :: 0 <= k1 < k2 < 100 ==> Enumeration()[k1] != Enumeration()[k2]
  {
    forall k | 0 <= k < 100
      ensures var c := Enumeration()[k]; InRange(c.s, c.E, c.b) && c.size == Footprint(c.s, c.E, c.b)
    {
      ConfigAtInRange(k);
    }
    forall s, E, b | InRange(s, E, b)
      ensures Enumeration()[IndexOf(s, E, b)] == Config(s, E, b, Footprint(s, E, b))
    {
      ConfigAtIndexOf(s, E, b);
    }
    forall k1, k2 | 0 <= k1 < k2 < 100
      ensures Enumeration()[k1] != Enumeration()[k2]
    {
      ConfigAtInRange(k1);
      ConfigAtInRange(k2);
    }
  }

  /** `c` is the configuration for its own geometry and belongs at position k. */
  predicate WrittenAt(c: Config, k: nat)
  {
    InRange(c.s, c.E, c.b) && c.size == Footprint(c.s, c.E, c.b) && IndexOf(c.s, c.E, c.b) == k
  }

  lemma WrittenAtIsConfigAt(c: Config, k: nat)
    requires WrittenAt(c, k)
    ensures k < 100 && c == ConfigAt(k)
  {
    ConfigAtIndexOf(c.s, c.E, c.b);
  }

  /** The triple-nested loop that fills the configuration array. */
  method EnumerateConfigs() returns (configs: array<Config>)
    ensures fresh(configs)
    ensures configs[..] == Enumeration()
  {
    configs := new Config[100];
    var n := 0;
    for s := 1 to 6
      invariant n == (s - 1) * 20
      invariant forall k :: 0 <= k < n ==> WrittenAt(configs[k], k)
    {
      for E := 1 to 5
        invariant n == (s - 1) * 20 + (E - 1) * 5
        invariant forall k :: 0 <= k < n ==> WrittenAt(configs[k], k)
      {
        for b := 1 to 6
          invariant n == (s - 1) * 20 + (E - 1) * 5 + (b - 1)
          invariant forall k :: 0 <= k < n ==> WrittenAt(configs[k], k)
        {
          configs[n] := Config(s, E, b, Footprint(s, E, b));
          n := n + 1;
        }
      }
    }
    forall k | 0 <= k < 100
      ensures configs[k] == Enumeration()[k]
    {
      WrittenAtIsConfigAt(configs[k], k);
    }
    assert configs[..] == Enumeration();
  }

  // ---------------------------------------------------------------------
  // The sort

  predicate SortedBySize(cs: seq<Config>)
  {
    forall p, q :: 0 <= p < q < |cs| ==> cs[p].size <= cs[q].size
  }

  predicate SizesNonNegative(cs: seq<Config>)
  {
    forall k :: 0 <= k < |cs| ==> 0 <= cs[k].size <= Int32Max
  }

  /** Exchanges two neighbouring configurations. */
  method SwapDown(a: array<Config>, j: nat)
    requires 0 < j < a.Length
    modifies a
    ensures a[..] == old(a[..])[j - 1 := old(a[j])][j := old(a[j - 1])]
    ensures multiset(a[..]) == multiset(old(a[..]))
  {
    a[j - 1], a[j] := a[j], a[j - 1];
  }

  /** The state of an insertion of `cs[j]` into `cs[..i + 1]`: apart from
      position j the prefix is sorted, and everything to the right of j within
      it is strictly larger than `cs[j]`. */
  ghost predicate Inserting(cs: seq<Config>, j: nat, i: nat)
  {
    j <= i < |cs| &&
    (forall p, q :: 0 <= p < q <= i && p != j && q != j ==> cs[p].size <= cs[q].size) &&
    (forall q :: j < q <= i ==> cs[j].size < cs[q].size)
  }

  /** Moving the inserted element one place left keeps the insertion state. */
  lemma SwapKeepsInserting(cs: seq<Config>, j: nat, i: nat)
    requires Inserting(cs, j, i) && 0 < j && cs[j - 1].size > cs[j].size
    ensures Inserting(cs[j - 1 := cs[j]][j := cs[j - 1]], j - 1, i)
  {
  }

  /** Exchanging two neighbours keeps every size in range. */
  lemma SwapKeepsSizes(cs: seq<Config>, j: nat)
    requires SizesNonNegative(cs) && 0 < j < |cs|
    ensures SizesNonNegative(cs[j - 1 := cs[j]][j := cs[j - 1]])
  {
    var t := cs[j - 1 := cs[j]][j := cs[j - 1]];
    forall k | 0 <= k < |t| ensures 0 <= t[k].size <= Int32Max {
      if k != j - 1 && k != j {
        assert t[k] == cs[k];
      }
    }
  }

  /** The insertion is over once the left neighbour is not larger. */
  lemma InsertingDone(cs: seq<Config>, j: nat, i: nat)
    requires Inserting(cs, j, i) && (j == 0 || cs[j - 1].size <= cs[j].size)
    ensures SortedBySize(cs[..i + 1])
  {
  }

  /** Moves `a[i]` down into the sorted prefix `a[..i]` while the comparator
      says its left neighbour is larger. */
  method InsertDown(a: array<Config>, i: nat)
    requires i < a.Length && SizesNonNegative(a[..]) && SortedBySize(a[..i])
    modifies a
    ensures SizesNonNegative(a[..]) && SortedBySize(a[..i + 1])
    ensures a[i + 1..] == old(a[i + 1..])
    ensures multiset(a[..]) == multiset(old(a[..]))
  {
    var j: nat := i;
    while j > 0 && CompareBySize(a[j - 1], a[j]) > 0
      invariant Inserting(a[..], j, i)
      invariant SizesNonNegative(a[..])
      invariant a[i + 1..] == old(a[i + 1..])
      invariant multiset(a[..]) == multiset(old(a[..]))
    {
      CompareBySizeOrdersSizes(a[j - 1], a[j]);
      SwapKeepsInserting(a[..], j, i);
      SwapKeepsSizes(a[..], j);
      SwapDown(a, j);
      j := j - 1;
    }
    if j > 0 {
      CompareBySizeOrdersSizes(a[j - 1], a[j]);
    }
    InsertingDone(a[..], j, i);
  }

  /** Sorts the configurations in place by `CompareBySize`, by insertion. */
  method SortBySize(a: array<Config>)
    requires SizesNonNegative(a[..])
    modifies a
    ensures SortedBySize(a[..])
    ensures multiset(a[..]) == multiset(old(a[..]))
  {
    for i := 0 to a.Length
      invariant SizesNonNegative(a[..]) && SortedBySize(a[..i])
      invariant multiset(a[..]) == multiset(old(a[..]))
    {
      InsertDown(a, i);
    }
    assert a[..a.Length] == a[..];
  }

  // ---------------------------------------------------------------------
  // The metric and the acceptance test

  /** The percentage of hits, misses or evictions among all accesses; 0 when
      there were no accesses or the metric is none of "h", "m", "e". */
  function ComputeMetric(metric: string, c: Counts): (r: real)
    ensures c.hits + c.misses == 0 ==> r == 0.0
    ensures metric != "h" && metric != "m" && metric != "e" ==> r == 0.0
  {
    var total := c.hits + c.misses;
    if total == 0 then 0.0
    else if metric == "h" then c.hits as real / total as real * 100.0
    else if metric == "m" then c.misses as real / total as real * 100.0
    else if metric == "e" then c.evictions as real / total as real * 100.0
    else 0.0
  }

  /** The hit and miss rates of a run with accesses add up to 100. */
  lemma HitAndMissRatesAddUp(c: Counts)
    requires c.hits + c.misses != 0
    ensures ComputeMetric("h", c) + ComputeMetric("m", c) == 100.0
  {
    var t := (c.hits + c.misses) as real;
    assert c.hits as real / t + c.misses as real / t == (c.hits + c.misses) as real / t;
  }

  /** With non-negative counts every rate lies between 0 and 100, except the
      eviction rate, which is bounded by the miss rate when evictions do not
      exceed misses. */
  lemma RatesInRange(metric: string, c: Counts)
    requires Plausible(c)
    ensures 0.0 <= ComputeMetric(metric, c) <= 100.0
    ensures ComputeMetric("e", c) <= ComputeMetric("m", c)
  {
    var total := c.hits + c.misses;
    if total != 0 {
      var t := total as real;
      assert c.hits as real / t <= 1.0 && c.misses as real / t <= 1.0;
      assert c.evictions as real / t <= c.misses as real / t;
    }
  }

  /** For metric "h" the rate must reach the target; for every other metric it
      must not exceed it. */
  predicate Accepts(metric: string, cur: real, target: real)
  {
    if metric == "h" then cur >= target else cur <= target
  }

  /** Counts a simulator run can report: none negative, and no more evictions
      than misses. */
  predicate Plausible(c: Counts)
  {
    c.hits >= 0 && c.misses >= 0 && 0 <= c.evictions <= c.misses
  }

  /** A target above 100 for "h", or below 0 for any other metric, is met by no
      plausible run; the argument check before the search reports such a
      target but does not stop, so the search then falls back. */
  lemma OutOfRangeTargetAcceptsNothing(metric: string, target: real, c: Counts)
    requires Plausible(c)
    requires if metric == "h" then target > 100.0 else target < 0.0
    ensures !Accepts(metric, ComputeMetric(metric, c), target)
  {
    RatesInRange(metric, c);
  }

  /** The other side of an out-of-range target: one below 0 for "h", or above
      100 for any other metric, is met by every plausible run, so the search
      stops at the first configuration. */
  lemma OutOfRangeTargetAcceptsEverything(metric: string, target: real, c: Counts)
    requires Plausible(c)
    requires if metric == "h" then target < 0.0 else target > 100.0
    ensures Accepts(metric, ComputeMetric(metric, c), target)
  {
    RatesInRange(metric, c);
  }

  /** The metric the search measures for a configuration. */
  function Measure(sim: (int, int, int) -> Counts, metric: string, c: Config): real
  {
    ComputeMetric(metric, sim(c.s, c.E, c.b))
  }

  /** The simulator run on a trace, as the model computes it. The last branch
      covers geometries outside what the engine is modelled for (the simulator
      rejects a zero s, E or b and the tuner then aborts, as it finds no counts
      to read); the search only asks for geometries with s, E and b in 1..5,
      so it never reaches that branch. */
  function TraceCounts(lines: seq<string>, s: int, E: int, b: int): (r: Counts)
    ensures Plausible(r)
  {
    if 1 <= s && 1 <= E && 1 <= b && ValidGeometry(Geometry(s, E, b)) then
      var st := ReplayLines(Geometry(s, E, b), Init(Geometry(s, E, b)), lines);
      ReplayFromInit(Geometry(s, E, b), lines);
      Counts(st.hits, st.misses, st.evictions)
    else Counts(0, 0, 0)
  }

  // ---------------------------------------------------------------------
  // The search

  /** Once sorted, the first accepted configuration is one of the smallest
      accepted ones. */
  lemma FirstFitIsSmallest(order: seq<Config>, k: nat, sim: (int, int, int) -> Counts, metric: string, target: real)
    requires SortedBySize(order) && multiset(order) == multiset(Enumeration())
    requires k < |order| && Accepts(metric, Measure(sim, metric, order[k]), target)
    requires forall j :: 0 <= j < k ==> !Accepts(metric, Measure(sim, metric, order[j]), target)
    ensures InRange(order[k].s, order[k].E, order[k].b)
    ensures order[k].size == Footprint(order[k].s, order[k].E, order[k].b)
    ensures forall c :: c in Enumeration() && Accepts(metric, Measure(sim, metric, c), target) ==>
      order[k].size <= c.size
  {
    EnumerationCoverage();
    assert order[k] in multiset(Enumeration());
    forall c | c in Enumeration() && Accepts(metric, Measure(sim, metric, c), target)
      ensures order[k].size <= c.size
    {
      assert c in multiset(order);
      var m :| 0 <= m < |order| && order[m] == c;
      assert k <= m;
    }
  }

  /** Enumerates, sorts, and tries the configurations in increasing size until
      one is accepted. The ghost `order` is the sorted array and `tried` the
      configurations the simulator was run on, in the order of the runs. */
  method OptimizeCacheConfig(metric: string, target: real, sim: (int, int, int) -> Counts)
    returns (bestS: int, bestE: int, bestB: int, bestMetric: real, ghost order: seq<Config>, ghost tried: seq<Config>)
    ensures SortedBySize(order) && multiset(order) == multiset(Enumeration())
    ensures bestS == -1 <==> forall k :: 0 <= k < |order| ==> !Accepts(metric, Measure(sim, metric, order[k]), target)
    ensures bestS == -1 ==> bestE == -1 && bestB == -1 && tried == order && |tried| == 100
    ensures bestS != -1 ==>
      exists k :: 0 <= k < |order| &&
        order[k].s == bestS && order[k].E == bestE && order[k].b == bestB && tried == order[..k + 1] &&
        bestMetric == Measure(sim, metric, order[k]) && Accepts(metric, bestMetric, target) &&
        forall j :: 0 <= j < k ==> !Accepts(metric, Measure(sim, metric, order[j]), target)
    ensures bestS != -1 ==>
      InRange(bestS, bestE, bestB) &&
      forall c :: c in Enumeration() && Accepts(metric, Measure(sim, metric, c), target) ==>
        Footprint(bestS, bestE, bestB) <= c.size
  {
    var configs := EnumerateConfigs();
    assert SizesNonNegative(configs[..]) by {
      EnumerationCoverage();
      forall k | 0 <= k < 100 ensures 0 <= configs[k].size <= Int32Max {
        FootprintBound(configs[k].s, configs[k].E, configs[k].b);
      }
    }
    SortBySize(configs);
    order := configs[..];

    var found := false;
    bestMetric := 0.0;
    tried := [];
    var i := 0;
    while i < configs.Length
      invariant 0 <= i <= configs.Length && tried == order[..i] && !found
      invariant configs[..] == order
      invariant forall j :: 0 <= j < i ==> !Accepts(metric, Measure(sim, metric, order[j]), target)
    {
      var cs, cE, cb := configs[i].s, configs[i].E, configs[i].b;
      var counts := sim(cs, cE, cb);
      tried := tried + [configs[i]];
      var cur := ComputeMetric(metric, counts);
      if metric == "h" {
        found := cur >= target;
      } else {
        found := cur <= target;
      }
      if found {
        assert tried == order[..i + 1];
        bestS, bestE, bestB, bestMetric := cs, cE, cb, cur;
        FirstFitIsSmallest(order, i, sim, metric, target);
        break;
      }
      i := i + 1;
    }
    if !found {
      assert order[..i] == order;
      bestS, bestE, bestB := -1, -1, -1;
    }
  }
}
