/** The cache simulator as the program runs it: a table of S = 2^s sets of E
    lines updated in place, and the global counters. Every operation is
    proved to do to the table and the counters what the value model in
    CacheModel and TraceReplay describes. */
module Csim {
  import opened Decode
  import opened CacheModel
  import opened CacheProperties
  import opened TraceFormat
  import opened TraceReplay

  /** The effect of one access, spelled out for an in-place update: a state
      in which the line the model chooses in the addressed set holds the tag
      with the old clock as its stamp, and whose counters moved by the
      outcome, is the model's access, and it keeps the invariant. */
  lemma AccessWritesChosenLine(g: Geometry, m0: Sim, address: nat, st: Sim)
    requires ValidGeometry(g) && Shaped(g, m0.table)
    requires var si, tag := SetIndex(address, g.s, g.b), Tag(address, g.s, g.b);
      var k, o := Chosen(m0.table[si], tag), AccessOutcome(g, m0, address);
      st == Sim(m0.table[si := m0.table[si][k := Line(true, tag, m0.clock)]],
                m0.hits + (if o == Hit then 1 else 0),
                m0.misses + (if o == Hit then 0 else 1),
                m0.evictions + (if o == MissEvict then 1 else 0),
                m0.clock + 1)
    ensures st == Access(g, m0, address)
    ensures Inv(g, m0) ==> Inv(g, st)
  {
    var si, tag := SetIndex(address, g.s, g.b), Tag(address, g.s, g.b);
    AccessSetWritesChosen(m0.table[si], tag, m0.clock);
    if Inv(g, m0) {
      AccessPreservesInv(g, m0, address);
    }
  }

  class Simulator {
    const s: nat
    const E: nat
    const b: nat
    /** `cache[i, j]` is line j of set i. */
    const cache: array2<Line>
    var setIndexMask: nat
    var hitCount: nat
    var missCount: nat
    var evictionCount: nat
    /** The global LRU clock `lru_counter`. */
    var lruCounter: nat
    /** The line table as a value: `table[i][j]` is the content of `cache[i, j]`. */
    ghost var table: seq<seq<Line>>

    function Geo(): Geometry
    {
      Geometry(s, E, b)
    }

    /** The simulator's state as a value of the model. */
    ghost function Model(): Sim
      reads this
    {
      Sim(table, hitCount, missCount, evictionCount, lruCounter)
    }

    /** The array holds exactly the lines of `table`. */
    ghost predicate Mirrors()
      reads this, cache
    {
      |table| == cache.Length0 &&
      (forall i :: 0 <= i < |table| ==> |table[i]| == cache.Length1) &&
      forall i, j :: 0 <= i < cache.Length0 && 0 <= j < cache.Length1 ==> cache[i, j] == table[i][j]
    }

    ghost predicate Valid()
      reads this, cache
    {
      cache.Length0 == Pow2(s) && cache.Length1 == E &&
      setIndexMask == SetIndexMask(s) &&
      ValidGeometry(Geo()) && Shaped(Geo(), table) && Mirrors()
    }

    /** Sets up S = 2^s empty sets of E lines, the counters at zero, and the
        set-index mask. */
    constructor (s: nat, E: nat, b: nat)
      requires ValidGeometry(Geometry(s, E, b))
      ensures Valid()
      ensures Geo() == Geometry(s, E, b)
      ensures Model() == Init(Geo())
      ensures Inv(Geo(), Model())
      ensures fresh(cache)
    {
      this.s, this.E, this.b := s, E, b;
      hitCount, missCount, evictionCount, lruCounter := 0, 0, 0, 0;
      var sets := Pow2(s);
      cache := new Line[sets, E];
      new;
      var i := 0;
      while i < sets
        modifies cache
        invariant 0 <= i <= sets
        invariant forall i', j' :: 0 <= i' < i && 0 <= j' < E ==> cache[i', j'] == EmptyLine
      {
        var j := 0;
        while j < E
          modifies cache
          invariant 0 <= j <= E
          invariant forall i', j' :: 0 <= i' < i && 0 <= j' < E ==> cache[i', j'] == EmptyLine
          invariant forall j' :: 0 <= j' < j ==> cache[i, j'] == EmptyLine
        {
          cache[i, j] := Line(false, 0, 0);
          j := j + 1;
        }
        i := i + 1;
      }
      setIndexMask := sets - 1;
      table := Init(Geo()).table;
      InitSatisfiesInv(Geo());
    }

    /** The replacement scan of one set whose lines are `row`, after a miss: the
        first invalid line, or else the line with the smallest stamp (the first
        of several), found by keeping the oldest stamp seen so far. No stamp
        seen yet plays the part of the largest unsigned value the scan starts
        from. */
    method FindVictim(setIndex: nat, ghost row: seq<Line>) returns (lruLine: nat)
      requires setIndex < cache.Length0 && |row| == cache.Length1 && |row| > 0
      requires forall j :: 0 <= j < |row| ==> cache[setIndex, j] == row[j]
      ensures lruLine == Victim(row)
    {
      lruLine := 0;
      var oldest: Option<nat> := None;
      var i := 0;
      while i < cache.Length1
        invariant 0 <= i <= cache.Length1
        invariant forall j :: 0 <= j < i ==> row[j].valid
        invariant i == 0 <==> oldest.None?
        invariant i > 0 ==> lruLine == OldestIndex(row[..i]) && oldest == Some(row[lruLine].stamp)
      {
        if !cache[setIndex, i].valid {
          lruLine := i;
          break;
        }
        assert row[..i + 1][..i] == row[..i];
        if oldest.None? || oldest.value > cache[setIndex, i].stamp {
          oldest := Some(cache[setIndex, i].stamp);
          lruLine := i;
        }
        i := i + 1;
      }
      assert i == cache.Length1 ==> row[..i] == row;
    }

    /** Writes one line of the table: `cache[setIndex][k] = line`. */
    method SetLine(setIndex: nat, k: nat, line: Line)
      requires Mirrors() && setIndex < cache.Length0 && k < cache.Length1
      modifies cache, `table
      ensures Mirrors()
      ensures table == old(table)[setIndex := old(table)[setIndex][k := line]]
    {
      cache[setIndex, k] := line;
      table := table[setIndex := table[setIndex][k := line]];
    }

    /** One access to `address`: a hit refreshes the line's stamp; a miss fills
        the first invalid line of the set or else evicts its least-recently-used
        line. */
    method AccessData(address: nat)
      requires Valid()
      modifies this, cache
      ensures Valid()
      ensures Model() == Access(Geo(), old(Model()), address)
      ensures Inv(Geo(), old(Model())) ==> Inv(Geo(), Model())
    {
      ghost var m0 := Model();
      var setIndex := (address / Pow2(b)) % (setIndexMask + 1);
      var tag := address / Pow2(s + b);
      assert setIndex == SetIndex(address, s, b) && tag == Tag(address, s, b);

      ghost var row := table[setIndex];
      var i := 0;
      while i < E
        invariant 0 <= i <= E
        invariant unchanged(this, cache)
        invariant forall j :: 0 <= j < i ==> !Matches(row[j], tag)
      {
        if cache[setIndex, i].tag == tag && cache[setIndex, i].valid {
          assert cache[setIndex, i] == row[i] && HitIndex(row, tag) == i;
          hitCount := hitCount + 1;
          var oldLru := lruCounter;
          lruCounter := lruCounter + 1;
          SetLine(setIndex, i, cache[setIndex, i].(stamp := oldLru));
          AccessWritesChosenLine(Geo(), m0, address, Model());
          return;
        }
        i := i + 1;
      }
      assert HitIndex(row, tag) == E;

      missCount := missCount + 1;
      var lruLine := FindVictim(setIndex, row);
      assert lruLine == Chosen(row, tag) && cache[setIndex, lruLine] == row[lruLine];
      if cache[setIndex, lruLine].valid {
        evictionCount := evictionCount + 1;
      }
      var oldLru := lruCounter;
      lruCounter := lruCounter + 1;
      SetLine(setIndex, lruLine, Line(true, tag, oldLru));
      AccessWritesChosenLine(Geo(), m0, address, Model());
    }

    /** The replay loop over the lines of a trace file. */
    method ReplayTrace(lines: seq<string>)
      requires Valid()
      modifies this, cache
      ensures Valid()
      ensures Model() == ReplayLines(Geo(), old(Model()), lines)
      ensures Inv(Geo(), old(Model())) ==> Inv(Geo(), Model())
    {
      for k := 0 to |lines|
        invariant Valid()
        invariant Model() == ReplayLines(Geo(), old(Model()), lines[..k])
      {
        var line := lines[k];
        assert lines[..k + 1][..k] == lines[..k];
        if |line| <= 1 {
          continue;
        }
        if line[0] == 'I' {
          continue;
        }
        var entry := ParseLine(line);
        if entry.Some? {
          AccessData(entry.value.address);
          if entry.value.op == 'M' {
            AccessData(entry.value.address);
          }
        }
      }
      assert lines[..|lines|] == lines;
      if Inv(Geo(), old(Model())) {
        ReplayPreservesInv(Geo(), old(Model()), lines);
      }
    }
  }

  /** A whole run of the simulator on the lines of a trace: set up the cache,
      replay the lines, and report the three counters. They are those of the
      model's replay from a fresh cache: one hit or miss per dispatched line
      plus one per modify, and no more evictions than misses. */
  method Simulate(s: nat, E: nat, b: nat, lines: seq<string>) returns (hits: nat, misses: nat, evictions: nat)
    requires ValidGeometry(Geometry(s, E, b))
    ensures var r := ReplayLines(Geometry(s, E, b), Init(Geometry(s, E, b)), lines);
      hits == r.hits && misses == r.misses && evictions == r.evictions
    ensures hits + misses == DispatchedLines(lines) + ModifyLines(lines)
    ensures evictions <= misses
  {
    var sim := new Simulator(s, E, b);
    sim.ReplayTrace(lines);
    hits, misses, evictions := sim.hitCount, sim.missCount, sim.evictionCount;
    ReplayFromInit(Geometry(s, E, b), lines);
  }
}
