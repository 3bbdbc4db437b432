/** What one access of the cache model does and which invariants it keeps. */
module CacheProperties {
  import opened Decode
  import opened CacheModel

  /** Whatever the outcome, the touched line ends up valid, holding the new tag,
      stamped with the clock value from before the access. */
  lemma {:induction false} AccessSetWritesChosen(row: seq<Line>, tag: nat, clock: nat)
    requires |row| > 0
    ensures AccessSet(row, tag, clock) == row[Chosen(row, tag) := Line(true, tag, clock)]
  {
    var h := HitIndex(row, tag);
    if h < |row| {
      assert row[h].(stamp := clock) == Line(true, tag, clock);
    }
  }

  /** A fresh cache: 2^s sets of E lines, every line invalid with tag 0 and stamp 0,
      all counters zero; and it satisfies the invariant. */
  lemma InitSatisfiesInv(g: Geometry)
    requires ValidGeometry(g)
    ensures Shaped(g, Init(g).table)
    ensures forall i, j :: 0 <= i < Pow2(g.s) && 0 <= j < g.E ==> Init(g).table[i][j] == Line(false, 0, 0)
    ensures Inv(g, Init(g))
  {
  }

  /** Counter bookkeeping of one access: the clock and exactly one of the hit and
      miss counters go up by one; the eviction counter goes up exactly on an eviction. */
  lemma AccessCounters(g: Geometry, st: Sim, address: nat)
    requires ValidGeometry(g) && Shaped(g, st.table)
    ensures var r, o := Access(g, st, address), AccessOutcome(g, st, address);
      r.clock == st.clock + 1 &&
      r.hits + r.misses == st.hits + st.misses + 1 &&
      (r.hits == st.hits + 1 <==> o == Hit) &&
      (r.misses == st.misses + 1 <==> o != Hit) &&
      r.evictions == st.evictions + (if o == MissEvict then 1 else 0)
  {
  }

  /** Exactly one line of the table changes: the chosen line of the decoded set,
      which becomes valid with the decoded tag and the pre-increment clock. */
  lemma {:induction false} AccessTouchesOneLine(g: Geometry, st: Sim, address: nat)
    requires ValidGeometry(g) && Shaped(g, st.table)
    ensures var si, tag := SetIndex(address, g.s, g.b), Tag(address, g.s, g.b);
      var k, r := Chosen(st.table[si], tag), Access(g, st, address).table;
      r[si][k] == Line(true, tag, st.clock) &&
      forall i, j :: 0 <= i < |r| && 0 <= j < |r[i]| && (i != si || j != k) ==> r[i][j] == st.table[i][j]
  {
    var si, tag := SetIndex(address, g.s, g.b), Tag(address, g.s, g.b);
    AccessSetWritesChosen(st.table[si], tag, st.clock);
  }

  /** The hit path: a valid line of the set with the tag is found, the first such
      line is taken, only its stamp changes in the whole table, only the hit
      counter moves, and the clock advances by one. */
  lemma {:induction false} HitPath(g: Geometry, st: Sim, address: nat)
    requires ValidGeometry(g) && Shaped(g, st.table)
    requires var row := st.table[SetIndex(address, g.s, g.b)];
      exists j :: 0 <= j < |row| && Matches(row[j], Tag(address, g.s, g.b))
    ensures var si, tag := SetIndex(address, g.s, g.b), Tag(address, g.s, g.b);
      var row, h, r := st.table[si], Chosen(st.table[si], tag), Access(g, st, address);
      AccessOutcome(g, st, address) == Hit &&
      Matches(row[h], tag) && (forall j :: 0 <= j < h ==> !Matches(row[j], tag)) &&
      r.table == st.table[si := row[h := row[h].(stamp := st.clock)]] && r.clock == st.clock + 1 &&
      r.hits == st.hits + 1 && r.misses == st.misses && r.evictions == st.evictions
  {
    var si, tag := SetIndex(address, g.s, g.b), Tag(address, g.s, g.b);
    var row := st.table[si];
    var j :| 0 <= j < |row| && Matches(row[j], tag);
    assert HitIndex(row, tag) <= j;
  }

  /** The miss path: the lowest-index invalid line is the victim if there is one,
      otherwise the line with the smallest stamp, the lowest index among equals;
      the victim is the only line of the table that changes, the clock advances
      by one, and an eviction is counted exactly when the victim was valid. */
  lemma {:induction false} MissPath(g: Geometry, st: Sim, address: nat)
    requires ValidGeometry(g) && Shaped(g, st.table)
    requires var row := st.table[SetIndex(address, g.s, g.b)];
      forall j :: 0 <= j < |row| ==> !Matches(row[j], Tag(address, g.s, g.b))
    ensures var si, tag := SetIndex(address, g.s, g.b), Tag(address, g.s, g.b);
      var row, v, r := st.table[si], Chosen(st.table[si], tag), Access(g, st, address);
      v == Victim(row) &&
      ((exists j :: 0 <= j < |row| && !row[j].valid) ==>
         !row[v].valid && forall j :: 0 <= j < v ==> row[j].valid) &&
      ((forall j :: 0 <= j < |row| ==> row[j].valid) ==>
         (forall j :: 0 <= j < |row| ==> row[v].stamp <= row[j].stamp) &&
         (forall j :: 0 <= j < v ==> row[j].stamp > row[v].stamp)) &&
      (AccessOutcome(g, st, address) == MissEvict <==> row[v].valid) &&
      AccessOutcome(g, st, address) != Hit &&
      r.table == st.table[si := row[v := Line(true, tag, st.clock)]] && r.clock == st.clock + 1 &&
      r.misses == st.misses + 1 && r.hits == st.hits &&
      r.evictions == st.evictions + (if row[v].valid then 1 else 0)
  {
    var si, tag := SetIndex(address, g.s, g.b), Tag(address, g.s, g.b);
    var row := st.table[si];
    assert HitIndex(row, tag) == |row|;
  }

  /** Under the invariant a full set has one least-recently-used line: every other
      line of the set carries a strictly larger stamp. */
  lemma {:induction false} FullSetVictimIsStrictlyOldest(g: Geometry, st: Sim, address: nat)
    requires Inv(g, st)
    requires var row := st.table[SetIndex(address, g.s, g.b)];
      forall j :: 0 <= j < |row| ==> row[j].valid
    ensures var si := SetIndex(address, g.s, g.b);
      var row := st.table[si];
      forall j :: 0 <= j < |row| && j != Victim(row) ==> row[j].stamp > row[Victim(row)].stamp
  {
    var si := SetIndex(address, g.s, g.b);
    var row := st.table[si];
    var v := Victim(row);
    forall j | 0 <= j < |row| && j != v
      ensures row[j].stamp > row[v].stamp
    {
      assert st.table[si][j].stamp != st.table[si][v].stamp;
    }
  }

  /** One access keeps the per-set invariant of the set it touches. */
  lemma {:induction false} AccessSetKeepsSetInv(row: seq<Line>, tag: nat, clock: nat)
    requires |row| > 0 && SetInv(row, clock)
    ensures SetInv(AccessSet(row, tag, clock), clock + 1)
  {
    AccessSetWritesChosen(row, tag, clock);
    var k := Chosen(row, tag);
    var r := AccessSet(row, tag, clock);
    var h := HitIndex(row, tag);
    assert r == row[k := Line(true, tag, clock)];
    if h == |row| {
      // a miss: the new tag is held by no valid line of the set
      assert forall j :: 0 <= j < |row| && row[j].valid ==> row[j].tag != tag by {
        forall j | 0 <= j < |row| && row[j].valid ensures row[j].tag != tag {
          assert !Matches(row[j], tag);
        }
      }
      forall j, l | 0 <= j < l < |r| && r[l].valid
        ensures r[j].valid
      {
        if l == k {
          if exists m :: 0 <= m < |row| && !row[m].valid {
            assert j < Victim(row);
          } else {
            assert row[j].valid;
          }
        } else if j != k {
          assert row[l].valid;
        }
      }
    } else {
      assert row[k].valid && row[k].tag == tag;
    }
  }

  /** Every access keeps the invariant: per-set pristine invalid lines, valid
      prefix, distinct tags, stamps below the clock; globally distinct stamps;
      hits + misses equal to the number of accesses (the clock); evictions at
      most misses. */
  lemma {:induction false} AccessPreservesInv(g: Geometry, st: Sim, address: nat)
    requires Inv(g, st)
    ensures Inv(g, Access(g, st, address))
  {
    var si, tag := SetIndex(address, g.s, g.b), Tag(address, g.s, g.b);
    var row := st.table[si];
    var k := Chosen(row, tag);
    var r := Access(g, st, address);
    AccessSetWritesChosen(row, tag, st.clock);
    AccessSetKeepsSetInv(row, tag, st.clock);
    assert r.table == st.table[si := row[k := Line(true, tag, st.clock)]];
    forall i | 0 <= i < |r.table|
      ensures SetInv(r.table[i], r.clock)
    {
      if i != si {
        assert r.table[i] == st.table[i];
        assert SetInv(st.table[i], st.clock);
      }
    }
    forall i1, j1, i2, j2 |
      0 <= i1 < |r.table| && 0 <= j1 < |r.table[i1]| && 0 <= i2 < |r.table| && 0 <= j2 < |r.table[i2]| &&
      r.table[i1][j1].valid && r.table[i2][j2].valid && (i1 != i2 || j1 != j2)
      ensures r.table[i1][j1].stamp != r.table[i2][j2].stamp
    {
      if i1 == si && j1 == k {
        assert StampsBelow(st.table[i2], st.clock);
        assert r.table[i2][j2] == st.table[i2][j2];
      } else if i2 == si && j2 == k {
        assert StampsBelow(st.table[i1], st.clock);
        assert r.table[i1][j1] == st.table[i1][j1];
      } else {
        assert r.table[i1][j1] == st.table[i1][j1];
        assert r.table[i2][j2] == st.table[i2][j2];
      }
    }
  }

  /** The second access of a modify entry (same address, straight after the first)
      always hits. */
  lemma {:induction false} RepeatedAccessHits(g: Geometry, st: Sim, address: nat)
    requires ValidGeometry(g) && Shaped(g, st.table)
    ensures AccessOutcome(g, Access(g, st, address), address) == Hit
    ensures Access(g, Access(g, st, address), address).hits == st.hits + 1 + (if AccessOutcome(g, st, address) == Hit then 1 else 0)
  {
    var si, tag := SetIndex(address, g.s, g.b), Tag(address, g.s, g.b);
    var r := Access(g, st, address);
    AccessTouchesOneLine(g, st, address);
    var k := Chosen(st.table[si], tag);
    assert Matches(r.table[si][k], tag);
    assert HitIndex(r.table[si], tag) <= k;
  }

  /** With one line per set the cache is a direct-mapped table: an access hits
      exactly when the set's line holds the tag, evicts exactly when it holds
      another valid tag, and always leaves that line holding the tag. */
  lemma {:induction false} DirectMapped(g: Geometry, st: Sim, address: nat)
    requires ValidGeometry(g) && Shaped(g, st.table) && g.E == 1
    ensures var si, tag := SetIndex(address, g.s, g.b), Tag(address, g.s, g.b);
      var line, o := st.table[si][0], AccessOutcome(g, st, address);
      (o == Hit <==> line.valid && line.tag == tag) &&
      (o == MissEvict <==> line.valid && line.tag != tag) &&
      Access(g, st, address).table[si] == [Line(true, tag, st.clock)]
  {
    var si, tag := SetIndex(address, g.s, g.b), Tag(address, g.s, g.b);
    var row := st.table[si];
    AccessSetWritesChosen(row, tag, st.clock);
    assert Victim(row) == 0;
  }

  /** The whole effect of one access to a direct-mapped cache. */
  lemma {:induction false} DirectMappedStep(g: Geometry, st: Sim, address: nat)
    requires ValidGeometry(g) && Shaped(g, st.table) && g.E == 1
    ensures var si, tag := SetIndex(address, g.s, g.b), Tag(address, g.s, g.b);
      var line, r := st.table[si][0], Access(g, st, address);
      r.table == st.table[si := [Line(true, tag, st.clock)]] && r.clock == st.clock + 1 &&
      r.hits == st.hits + (if line.valid && line.tag == tag then 1 else 0) &&
      r.misses == st.misses + (if line.valid && line.tag == tag then 0 else 1) &&
      r.evictions == st.evictions + (if line.valid && line.tag != tag then 1 else 0)
  {
    DirectMapped(g, st, address);
    AccessCounters(g, st, address);
  }

  lemma FieldsOfExampleTwoSets()
    ensures SetIndex(0x10, 1, 4) == 1 && Tag(0x10, 1, 4) == 0
    ensures SetIndex(0x20, 1, 4) == 0 && Tag(0x20, 1, 4) == 1
  {
    assert Pow2(1) == 2 && Pow2(4) == 16 && Pow2(5) == 32;
  }

  /** With s = 0 and b = 0 there is a single set and the whole address is the tag. */
  lemma {:induction false} SingleLineStep(g: Geometry, st: Sim, address: nat)
    requires g == Geometry(0, 1, 0) && Shaped(g, st.table)
    ensures var line, r := st.table[0][0], Access(g, st, address);
      r.table == [[Line(true, address, st.clock)]] && r.clock == st.clock + 1 &&
      r.hits == st.hits + (if line.valid && line.tag == address then 1 else 0) &&
      r.misses == st.misses + (if line.valid && line.tag == address then 0 else 1) &&
      r.evictions == st.evictions + (if line.valid && line.tag != address then 1 else 0)
  {
    assert Pow2(0) == 1;
    assert SetIndex(address, 0, 0) == 0 && Tag(address, 0, 0) == address;
    DirectMappedStep(g, st, address);
  }

  /** The first worked example: s = 1, E = 1, b = 4; loads of 0x10, 0x20, 0x10
      give one hit, two misses and no eviction. */
  lemma ExampleTwoSets(g: Geometry)
    requires g == Geometry(1, 1, 4)
    ensures var r := Access(g, Access(g, Access(g, Init(g), 0x10), 0x20), 0x10);
      r.hits == 1 && r.misses == 2 && r.evictions == 0
  {
    FieldsOfExampleTwoSets();
    var s0 := Init(g);
    assert |s0.table| == 2 && s0.table[0] == [EmptyLine] && s0.table[1] == [EmptyLine];
    DirectMappedStep(g, s0, 0x10);
    var s1 := Access(g, s0, 0x10);
    DirectMappedStep(g, s1, 0x20);
    var s2 := Access(g, s1, 0x20);
    DirectMappedStep(g, s2, 0x10);
  }

  /** The second worked example: s = 0, E = 1, b = 0; loads of 0x0, 0x1, 0x0 all
      miss and the last two evict. */
  lemma ExampleOneLine(g: Geometry)
    requires g == Geometry(0, 1, 0)
    ensures var r := Access(g, Access(g, Access(g, Init(g), 0), 1), 0);
      r.hits == 0 && r.misses == 3 && r.evictions == 2
  {
    var s0 := Init(g);
    assert |s0.table| == 1 && s0.table[0] == [EmptyLine];
    SingleLineStep(g, s0, 0);
    var s1 := Access(g, s0, 0);
    SingleLineStep(g, s1, 1);
    var s2 := Access(g, s1, 1);
    SingleLineStep(g, s2, 0);
  }
}
