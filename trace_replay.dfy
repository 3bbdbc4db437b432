/** Replaying a trace: which lines reach the cache and how often. A line of at
    most one character is skipped, so is a line whose first character is `I`
    (an instruction load) and a line the scan " %c %lx,%d" rejects; every other
    line is one access to its address, and a line whose operation is `M` is
    two accesses to it (the load and the store of a modify). */
module TraceReplay {
  import opened Decode
  import opened CacheModel
  import opened CacheProperties
  import opened TraceFormat

  /** The entry a trace line hands to the cache, if any. */
  function Dispatch(line: string): Option<Entry>
  {
    if |line| <= 1 || line[0] == 'I' then None else ParseLine(line)
  }

  /** The addresses one line accesses, in order. */
  function LineStream(line: string): (r: seq<nat>)
    ensures |r| <= 2
  {
    match Dispatch(line)
    case None => []
    case Some(e) => if e.op == 'M' then [e.address, e.address] else [e.address]
  }

  /** The addresses a whole trace accesses, in order. */
  function AccessStream(lines: seq<string>): seq<nat>
  {
    if lines == [] then []
    else AccessStream(lines[..|lines| - 1]) + LineStream(lines[|lines| - 1])
  }

  /** A sequence of accesses, one after the other. */
  function AccessAll(g: Geometry, st: Sim, addresses: seq<nat>): (r: Sim)
    requires ValidGeometry(g) && Shaped(g, st.table)
    ensures Shaped(g, r.table)
  {
    if addresses == [] then st
    else Access(g, AccessAll(g, st, addresses[..|addresses| - 1]), addresses[|addresses| - 1])
  }

  /** The dispatch of one trace line, as the replay loop performs it. */
  function ReplayLine(g: Geometry, st: Sim, line: string): (r: Sim)
    requires ValidGeometry(g) && Shaped(g, st.table)
    ensures Shaped(g, r.table)
  {
    match Dispatch(line)
    case None => st
    case Some(e) =>
      var once := Access(g, st, e.address);
      if e.op == 'M' then Access(g, once, e.address) else once
  }

  /** The replay of the lines in order. */
  function ReplayLines(g: Geometry, st: Sim, lines: seq<string>): (r: Sim)
    requires ValidGeometry(g) && Shaped(g, st.table)
    ensures Shaped(g, r.table)
  {
    if lines == [] then st
    else ReplayLine(g, ReplayLines(g, st, lines[..|lines| - 1]), lines[|lines| - 1])
  }

  /** Number of lines that reach the cache. */
  function DispatchedLines(lines: seq<string>): nat
  {
    if lines == [] then 0
    else DispatchedLines(lines[..|lines| - 1]) + (if Dispatch(lines[|lines| - 1]).Some? then 1 else 0)
  }

  /** Number of lines that reach the cache as a modify. */
  function ModifyLines(lines: seq<string>): nat
  {
    if lines == [] then 0
    else
      var d := Dispatch(lines[|lines| - 1]);
      ModifyLines(lines[..|lines| - 1]) + (if d.Some? && d.value.op == 'M' then 1 else 0)
  }

  // ---------------------------------------------------------------------
  // Which lines are dispatched

  /** Skipped lines leave the simulator as it was. */
  lemma SkippedLineChangesNothing(g: Geometry, st: Sim, line: string)
    requires ValidGeometry(g) && Shaped(g, st.table)
    requires |line| <= 1 || (line[0] == 'I') || ParseLine(line).None?
    ensures ReplayLine(g, st, line) == st
    ensures LineStream(line) == []
  {
  }

  /** A formatted entry, after any white space, reaches the cache exactly when
      the line does not start with `I`: only the first character of the line
      is tested, so a data line indented by a space is always dispatched and an
      unindented entry whose operation is `I` never is. */
  lemma DispatchFormatted(e: Entry, pad: string, tail: string)
    requires !IsSpace(e.op)
    requires forall k :: 0 <= k < |pad| ==> IsSpace(pad[k])
    requires tail == [] || !IsDigit(tail[0])
    ensures Dispatch(pad + FormatEntry(e) + tail) == if pad == [] && e.op == 'I' then None else Some(e)
  {
    var line := pad + FormatEntry(e) + tail;
    ParseFormatted(e, pad, tail);
    assert |FormatEntry(e)| >= 2;
    if pad == [] {
      assert line[0] == FormatEntry(e)[0] == e.op;
    } else {
      assert line[0] == pad[0];
    }
  }

  // ---------------------------------------------------------------------
  // The replay is the access stream

  lemma {:induction false} AccessAllAppend(g: Geometry, st: Sim, xs: seq<nat>, ys: seq<nat>)
    requires ValidGeometry(g) && Shaped(g, st.table)
    ensures AccessAll(g, st, xs + ys) == AccessAll(g, AccessAll(g, st, xs), ys)
    decreases |ys|
  {
    if ys == [] {
      assert xs + ys == xs;
    } else {
      var n := |ys|;
      assert (xs + ys)[..|xs + ys| - 1] == xs + ys[..n - 1];
      AccessAllAppend(g, st, xs, ys[..n - 1]);
    }
  }

  lemma AccessAllOne(g: Geometry, st: Sim, a: nat)
    requires ValidGeometry(g) && Shaped(g, st.table)
    ensures AccessAll(g, st, [a]) == Access(g, st, a)
  {
    assert [a][..0] == [];
  }

  lemma AccessAllTwo(g: Geometry, st: Sim, a: nat)
    requires ValidGeometry(g) && Shaped(g, st.table)
    ensures AccessAll(g, st, [a, a]) == Access(g, Access(g, st, a), a)
  {
    assert [a, a][..1] == [a];
    AccessAllOne(g, st, a);
  }

  /** One line's dispatch is the accesses of its stream. */
  lemma ReplayLineIsStream(g: Geometry, st: Sim, line: string)
    requires ValidGeometry(g) && Shaped(g, st.table)
    ensures ReplayLine(g, st, line) == AccessAll(g, st, LineStream(line))
  {
    match Dispatch(line)
    case None =>
    case Some(e) =>
      if e.op == 'M' {
        AccessAllTwo(g, st, e.address);
      } else {
        AccessAllOne(g, st, e.address);
      }
  }

  /** Replaying the trace is the same as accessing its address stream. */
  lemma {:induction false} ReplayIsAccessStream(g: Geometry, st: Sim, lines: seq<string>)
    requires ValidGeometry(g) && Shaped(g, st.table)
    ensures ReplayLines(g, st, lines) == AccessAll(g, st, AccessStream(lines))
  {
    if lines != [] {
      var n := |lines|;
      ReplayIsAccessStream(g, st, lines[..n - 1]);
      var mid := ReplayLines(g, st, lines[..n - 1]);
      ReplayLineIsStream(g, mid, lines[n - 1]);
      AccessAllAppend(g, st, AccessStream(lines[..n - 1]), LineStream(lines[n - 1]));
    }
  }

  /** The stream holds one address per dispatched line plus one more per modify. */
  lemma {:induction false} StreamLength(lines: seq<string>)
    ensures |AccessStream(lines)| == DispatchedLines(lines) + ModifyLines(lines)
  {
    if lines != [] {
      StreamLength(lines[..|lines| - 1]);
    }
  }

  // ---------------------------------------------------------------------
  // What a replay keeps and counts

  lemma {:induction false} AccessAllPreservesInv(g: Geometry, st: Sim, addresses: seq<nat>)
    requires Inv(g, st)
    ensures Inv(g, AccessAll(g, st, addresses))
  {
    if addresses != [] {
      var n := |addresses|;
      AccessAllPreservesInv(g, st, addresses[..n - 1]);
      AccessPreservesInv(g, AccessAll(g, st, addresses[..n - 1]), addresses[n - 1]);
    }
  }

  /** A replay keeps the invariant of the simulator's state. */
  lemma ReplayPreservesInv(g: Geometry, st: Sim, lines: seq<string>)
    requires Inv(g, st)
    ensures Inv(g, ReplayLines(g, st, lines))
  {
    ReplayIsAccessStream(g, st, lines);
    AccessAllPreservesInv(g, st, AccessStream(lines));
  }

  /** Every access counts exactly one hit or one miss and advances the clock by
      one; no counter ever decreases, and evictions only come with misses. */
  lemma {:induction false} AccessAllCounts(g: Geometry, st: Sim, addresses: seq<nat>)
    requires ValidGeometry(g) && Shaped(g, st.table)
    ensures var r := AccessAll(g, st, addresses);
      r.clock == st.clock + |addresses| &&
      r.hits + r.misses == st.hits + st.misses + |addresses| &&
      r.hits >= st.hits && r.misses >= st.misses && r.evictions >= st.evictions &&
      r.evictions - st.evictions <= r.misses - st.misses
  {
    if addresses != [] {
      var n := |addresses|;
      AccessAllCounts(g, st, addresses[..n - 1]);
      AccessCounters(g, AccessAll(g, st, addresses[..n - 1]), addresses[n - 1]);
    }
  }

  /** The replay of a whole trace on a fresh cache keeps the invariant, counts one
      hit or miss per dispatched line plus one per modify, and never evicts more
      often than it misses. */
  lemma ReplayFromInit(g: Geometry, lines: seq<string>)
    requires ValidGeometry(g)
    ensures var r := ReplayLines(g, Init(g), lines);
      Inv(g, r) &&
      r.hits + r.misses == DispatchedLines(lines) + ModifyLines(lines) &&
      r.evictions <= r.misses
  {
    InitSatisfiesInv(g);
    ReplayIsAccessStream(g, Init(g), lines);
    AccessAllPreservesInv(g, Init(g), AccessStream(lines));
    AccessAllCounts(g, Init(g), AccessStream(lines));
    StreamLength(lines);
  }

  /** The store half of a modify always hits: the load just placed the block. */
  lemma ModifyStoreHits(g: Geometry, st: Sim, line: string)
    requires ValidGeometry(g) && Shaped(g, st.table)
    requires Dispatch(line).Some? && Dispatch(line).value.op == 'M'
    ensures var a, r := Dispatch(line).value.address, ReplayLine(g, st, line);
      AccessOutcome(g, Access(g, st, a), a) == Hit &&
      r.hits >= st.hits + 1 && r.misses <= st.misses + 1
  {
    var a := Dispatch(line).value.address;
    RepeatedAccessHits(g, st, a);
    AccessCounters(g, st, a);
    AccessCounters(g, Access(g, st, a), a);
  }
}
