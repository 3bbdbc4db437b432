/** The value-level model of the simulated cache: S = 2^s sets of E lines,
    each line holding a valid bit, a tag and an LRU stamp, and the four
    global counters of the simulator. `Access` is one call of the
    simulator's access routine; the class in csim.dfy is proved to
    implement it in place. */
module CacheModel {
  import opened Decode

  /** One cache line: `{valid, tag, lru_counter}`. */
  datatype Line = Line(valid: bool, tag: nat, stamp: nat)

  /** The state every line has after initialisation. */
  const EmptyLine := Line(false, 0, 0)

  /** The geometry given on the command line: s set-index bits, E lines per set,
      b block-offset bits. */
  datatype Geometry = Geometry(s: nat, E: nat, b: nat)

  /** What the simulator needs of a geometry: at least one line per set (the
      replacement step writes line `lru_line`, which is 0 when no line was
      scanned), and shift amounts for which `1 << s` and `address >> (s + b)`
      are defined in C. */
  predicate ValidGeometry(g: Geometry)
  {
    g.E >= 1 && g.s < 31 && g.s + g.b < 64
  }

  datatype Outcome = Hit | Miss | MissEvict

  /** The simulator's whole state: the line table and the globals
      `hit_count`, `miss_count`, `eviction_count` and `lru_counter`. */
  datatype Sim = Sim(table: seq<seq<Line>>, hits: nat, misses: nat, evictions: nat, clock: nat)

  predicate Shaped(g: Geometry, table: seq<seq<Line>>)
  {
    |table| == Pow2(g.s) && forall i :: 0 <= i < |table| ==> |table[i]| == g.E
  }

  /** The hit test of the scan: `set[i].tag == tag && set[i].valid`. */
  predicate Matches(l: Line, tag: nat)
  {
    l.tag == tag && l.valid
  }

  /** Index of the first line of the set that holds `tag`, or |row| if none does. */
  function HitIndex(row: seq<Line>, tag: nat): (r: nat)
    ensures r <= |row|
    ensures r < |row| ==> Matches(row[r], tag)
    ensures forall j :: 0 <= j < r ==> !Matches(row[j], tag)
  {
    if row == [] then 0
    else if Matches(row[0], tag) then 0
    else 1 + HitIndex(row[1..], tag)
  }

  /** Index of the first invalid line of the row, or |row| if every line is valid. */
  function FirstInvalid(row: seq<Line>): (r: nat)
    ensures r <= |row|
    ensures r < |row| ==> !row[r].valid
    ensures forall j :: 0 <= j < r ==> row[j].valid
  {
    if row == [] then 0
    else if !row[0].valid then 0
    else 1 + FirstInvalid(row[1..])
  }

  /** The least-recently-used line: a smallest stamp, and of several lines
      with that stamp the first, because a later line replaces the running
      candidate only when its stamp is strictly smaller. */
  function OldestIndex(row: seq<Line>): (r: nat)
    requires |row| > 0
    ensures r < |row|
    ensures forall j :: 0 <= j < |row| ==> row[r].stamp <= row[j].stamp
    ensures forall j :: 0 <= j < r ==> row[j].stamp > row[r].stamp
  {
    if |row| == 1 then 0
    else
      var k := OldestIndex(row[..|row| - 1]);
      if row[|row| - 1].stamp < row[k].stamp then |row| - 1 else k
  }

  /** The line a miss replaces: the first invalid line if there is one,
      otherwise the least-recently-used line. */
  function Victim(row: seq<Line>): (r: nat)
    requires |row| > 0
    ensures r < |row|
    ensures (exists j :: 0 <= j < |row| && !row[j].valid) ==>
              !row[r].valid && forall j :: 0 <= j < r ==> row[j].valid
    ensures (forall j :: 0 <= j < |row| ==> row[j].valid) ==>
              (forall j :: 0 <= j < |row| ==> row[r].stamp <= row[j].stamp) &&
              (forall j :: 0 <= j < r ==> row[j].stamp > row[r].stamp)
  {
    var f := FirstInvalid(row);
    if f < |row| then f else OldestIndex(row)
  }

  /** The line an access touches: the hit line, or the victim on a miss. */
  function Chosen(row: seq<Line>, tag: nat): (r: nat)
    requires |row| > 0
    ensures r < |row|
  {
    var h := HitIndex(row, tag);
    if h < |row| then h else Victim(row)
  }

  /** A hit exactly when some line of the set holds the tag; an eviction
      exactly when the set misses and every line is valid. */
  function SetOutcome(row: seq<Line>, tag: nat): (r: Outcome)
    requires |row| > 0
    ensures r == Hit <==> exists j :: 0 <= j < |row| && Matches(row[j], tag)
    ensures r == MissEvict <==> r != Hit && forall j :: 0 <= j < |row| ==> row[j].valid
  {
    if HitIndex(row, tag) < |row| then Hit
    else if row[Victim(row)].valid then MissEvict
    else Miss
  }

  /** The set after the access: on a hit the hit line gets the stamp `clock`;
      on a miss the victim becomes valid, holds `tag` and gets the stamp `clock`. */
  function AccessSet(row: seq<Line>, tag: nat, clock: nat): (r: seq<Line>)
    requires |row| > 0
    ensures |r| == |row|
  {
    var h := HitIndex(row, tag);
    if h < |row| then row[h := row[h].(stamp := clock)]
    else row[Victim(row) := Line(true, tag, clock)]
  }

  /** The outcome of an access: a hit exactly when the decoded set holds a
      valid line with the decoded tag. */
  function AccessOutcome(g: Geometry, st: Sim, address: nat): (r: Outcome)
    requires ValidGeometry(g) && Shaped(g, st.table)
    ensures r == Hit <==>
      exists j :: 0 <= j < g.E && Matches(st.table[SetIndex(address, g.s, g.b)][j], Tag(address, g.s, g.b))
  {
    SetOutcome(st.table[SetIndex(address, g.s, g.b)], Tag(address, g.s, g.b))
  }

  /** One call of the access routine: decode, update the one set, count the
      outcome, and advance the LRU clock by one. */
  function Access(g: Geometry, st: Sim, address: nat): (r: Sim)
    requires ValidGeometry(g) && Shaped(g, st.table)
    ensures Shaped(g, r.table)
  {
    var si := SetIndex(address, g.s, g.b);
    var tag := Tag(address, g.s, g.b);
    var o := SetOutcome(st.table[si], tag);
    Sim(st.table[si := AccessSet(st.table[si], tag, st.clock)],
        st.hits + (if o == Hit then 1 else 0),
        st.misses + (if o == Hit then 0 else 1),
        st.evictions + (if o == MissEvict then 1 else 0),
        st.clock + 1)
  }

  /** The freshly initialised simulator. */
  function Init(g: Geometry): Sim
  {
    Sim(seq(Pow2(g.s), i => seq(g.E, j => EmptyLine)), 0, 0, 0, 0)
  }

  // ---------------------------------------------------------------------
  // Invariants kept by every access

  /** Lines are never invalidated, so an invalid line is still as initialised. */
  ghost predicate InvalidLinesPristine(row: seq<Line>)
  {
    forall j :: 0 <= j < |row| && !row[j].valid ==> row[j] == EmptyLine
  }

  /** The valid lines of a set form a prefix of it. */
  ghost predicate ValidPrefix(row: seq<Line>)
  {
    forall j, k :: 0 <= j < k < |row| && row[k].valid ==> row[j].valid
  }

  /** No two valid lines of one set hold the same tag. */
  ghost predicate TagsDistinct(row: seq<Line>)
  {
    forall j, k :: 0 <= j < k < |row| && row[j].valid && row[k].valid ==> row[j].tag != row[k].tag
  }

  /** Every valid line carries a stamp handed out earlier, so below the clock. */
  ghost predicate StampsBelow(row: seq<Line>, clock: nat)
  {
    forall j :: 0 <= j < |row| && row[j].valid ==> row[j].stamp < clock
  }

  ghost predicate SetInv(row: seq<Line>, clock: nat)
  {
    InvalidLinesPristine(row) && ValidPrefix(row) && TagsDistinct(row) && StampsBelow(row, clock)
  }

  /** No two valid lines anywhere in the table carry the same stamp. */
  ghost predicate StampsDistinct(table: seq<seq<Line>>)
  {
    forall i1, j1, i2, j2 ::
      0 <= i1 < |table| && 0 <= j1 < |table[i1]| && 0 <= i2 < |table| && 0 <= j2 < |table[i2]| &&
      table[i1][j1].valid && table[i2][j2].valid && (i1 != i2 || j1 != j2)
      ==> table[i1][j1].stamp != table[i2][j2].stamp
  }

  ghost predicate Inv(g: Geometry, st: Sim)
  {
    ValidGeometry(g) && Shaped(g, st.table) &&
    (forall i :: 0 <= i < |st.table| ==> SetInv(st.table[i], st.clock)) &&
    StampsDistinct(st.table) &&
    st.hits + st.misses == st.clock &&
    st.evictions <= st.misses
  }
}
