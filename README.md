# Cache simulator and configuration tuner, modelled in Dafny

The repository is a cachelab-style toolkit with two programs.

- `csim` replays a valgrind memory trace through a set-associative cache. The cache has S = 2^s sets of E lines, blocks of 2^b bytes and LRU replacement. It reports the numbers of hits, misses and evictions.
- `ctuner` looks for the smallest geometry (s, E, b) whose hit, miss or eviction rate meets a target. It enumerates 100 geometries, sorts them by footprint `2^s * E * 2^b` and runs the simulator on each in that order until one meets the target.

The model covers the simulation engine of `csim.c` and the search of `ctuner.c`. It leaves out the two command-line front ends.

- `decode.dfy` (module `Decode`) is the address split.
  - The set index is `(address >> b) & set_index_mask` and the tag is `address >> (s + b)`, written as division and remainder by powers of two.
  - Lemmas show that decoding and composing an address undo each other.
- `cache_model.dfy` (module `CacheModel`) is the cache as a value `Sim`.
  - It holds a table of sets of `Line(valid, tag, stamp)`, the counters `hits`, `misses` and `evictions`, and the global LRU clock.
  - `Access` is one call of `accessData`; `Init` is the state after `initCache`.
  - `Inv` collects what every reachable state satisfies:
    - the valid lines of a set form a prefix, and unused lines are still as initialised;
    - no two valid lines of a set share a tag, and no two valid lines anywhere share a stamp;
    - every valid line's stamp is below the clock, `hits + misses == clock`, and evictions never exceed misses.
- `cache_properties.dfy` (module `CacheProperties`) proves what one access does:
  - the hit path and the miss path, exact victim choice and which line is written;
  - the counter bookkeeping;
  - that `Inv` is preserved;
  - two worked examples.
- `trace_format.dfy` (module `TraceFormat`) is the trace-line scan `" %c %lx,%d"` and the verbose echo `"%c %lx,%d"`, with the round trip between them.
- `trace_replay.dfy` (module `TraceReplay`) is the dispatch of the replay loop, one trace line at a time.
  - A line of at most one character is skipped, and so is a line starting with `I` or one the scan rejects.
  - Any other line is one access, and an `M` line is two.
  - It proves that a replay is the access of the trace's address stream. It then derives the counts, the invariant, and that the store of a modify always hits.
- `csim.dfy` (module `Csim`) is the simulator as the program runs it.
  - `class Simulator` holds the line table in place in an `array2<Line>`, the global counters and `set_index_mask`.
  - The constructor is `initCache`. `AccessData` and `ReplayTrace` are the C routines, with the same loops, early return and break.
  - Each is proved to leave the state that the value model prescribes. `Simulate` is a whole run: `initCache`, then `replayTrace`, then reading the three counters.
- `tuner.dfy` (module `Tuner`) is the search of `ctuner.c`.
  - It covers the comparator with its C `int` subtraction and the enumeration loops. An in-place insertion sort stands in for `qsort`.
  - It covers `compute_metric` over the reals, the acceptance test, and the first-fit search with its `-1` fallback.
  - The simulator run is a parameter `sim` of the search, mapping (s, E, b) to the three counts. `TraceCounts` is that function as the model computes it for a trace.

Two details of the code that the model keeps:

- **Stamp value.** `accessData` stamps the touched line with `lru_counter` as it was before the increment (csim.c:154-156, 190-192), so the first access of a run gets stamp 0. The model does the same.
- **Which lines reach the cache.** Every line that the scan accepts is accessed, whatever its operation character. Only a line whose first character is `I` is skipped (csim.c:211), so a line `" I 400,4"` indented by a space is an access (`TraceReplay.DispatchFormatted`).

## Model

| member | source | states |
|---|---|---|
| Decode.SetIndexMask | cachelab-handout/csim.c:120 | the mask plus one is 2^s, the number of sets |
| Decode.SetIndex | cachelab-handout/csim.c:140 | the set index is below 2^s, so it is always a valid set, and never above the mask |
| Decode.BlockOffset | cachelab-handout/csim.c:140 | the bits shifted out below the set index are less than 2^b |
| Decode.Tag | cachelab-handout/csim.c:142 | `address >> (s + b)`; DecomposeCompose and ComposeDecompose prove it is the field above the set index and the block offset |
| Decode.TagIsShiftedSetField | cachelab-handout/csim.c:140-142 | the tag is the address shifted past the block bits and then past the set bits |
| Decode.DecomposeCompose | cachelab-handout/csim.c:140-142 | tag, set index and block offset put back together give the address again |
| Decode.ComposeDecompose | cachelab-handout/csim.c:140-142 | decoding an address built from in-range fields returns exactly those fields |
| Decode.SameBlockSameFields | cachelab-handout/csim.c:140-142 | two addresses in the same block map to the same set and the same tag |
| CacheModel.HitIndex | cachelab-handout/csim.c:146-147 | the hit scan finds the first valid line holding the tag, and no earlier line holds it |
| CacheModel.FirstInvalid | cachelab-handout/csim.c:168-172 | the first invalid line of the set, with every earlier line valid |
| CacheModel.OldestIndex | cachelab-handout/csim.c:173-176 | a line whose stamp is the smallest, and every earlier line's stamp is strictly larger, so ties go to the lowest index |
| CacheModel.Victim | cachelab-handout/csim.c:168-177 | the miss victim is the lowest-index invalid line if one exists, otherwise the first line with the smallest stamp |
| CacheModel.SetOutcome | cachelab-handout/csim.c:146-180 | a hit exactly when some valid line of the set holds the tag; an eviction exactly when the set misses and all its lines are valid, otherwise a plain miss |
| CacheModel.AccessOutcome | cachelab-handout/csim.c:140-180 | an access hits exactly when the decoded set has a valid line holding the decoded tag |
| CacheModel.Chosen | cachelab-handout/csim.c:146-192 | the line an access writes lies within the set |
| CacheModel.AccessSet | cachelab-handout/csim.c:146-192 | the set keeps its E lines |
| CacheModel.Access | cachelab-handout/csim.c:133-193 | the table keeps 2^s sets of E lines |
| CacheModel.Init | cachelab-handout/csim.c:97-121 | the table after `initCache` with the zeroed counters and clock; InitSatisfiesInv states its shape and contents |
| CacheProperties.AccessSetWritesChosen | cachelab-handout/csim.c:146-192 | the set after an access differs from the one before only in the chosen line, which is valid, holds the tag and carries the pre-increment clock |
| CacheProperties.InitSatisfiesInv | cachelab-handout/csim.c:106-120 | a fresh cache has 2^s sets of E lines, each invalid with tag 0 and stamp 0, and satisfies the invariant |
| CacheProperties.AccessCounters | cachelab-handout/csim.c:146-192 | an access advances the clock by one and exactly one of hits and misses by one, and counts an eviction exactly when the miss met a valid victim |
| CacheProperties.AccessTouchesOneLine | cachelab-handout/csim.c:144-192 | exactly one line of the whole table changes: the chosen line of the decoded set |
| CacheProperties.HitPath | cachelab-handout/csim.c:146-159 | on a hit only the first matching line's stamp changes in the whole table, to the old clock, only the hit counter moves, and the clock advances by one |
| CacheProperties.MissPath | cachelab-handout/csim.c:162-192 | on a miss the victim, the only line of the table that changes, is replaced by a valid line with the tag and the old clock; the miss counter moves, the clock advances by one, and an eviction is counted iff the victim was valid |
| CacheProperties.FullSetVictimIsStrictlyOldest | cachelab-handout/csim.c:168-177 | in a reachable state a full set's victim is strictly older than every other line of the set |
| CacheProperties.AccessSetKeepsSetInv | cachelab-handout/csim.c:146-192 | one access keeps a set's valid lines a prefix, its tags distinct, its invalid lines pristine and the stamps of its valid lines below the clock |
| CacheProperties.AccessPreservesInv | cachelab-handout/csim.c:133-193 | every access keeps the invariant, including globally distinct stamps, hits + misses == clock and evictions <= misses |
| CacheProperties.RepeatedAccessHits | cachelab-handout/csim.c:218-222 | a second access to the same address right after the first is a hit |
| CacheProperties.DirectMapped | cachelab-handout/csim.c:146-192 | with one line per set an access hits exactly when that line is valid and holds the tag |
| CacheProperties.DirectMappedStep | cachelab-handout/csim.c:146-192 | the whole effect of an access on a direct-mapped cache: the new line, the clock, and hit, miss and eviction counts |
| CacheProperties.FieldsOfExampleTwoSets | cachelab-handout/csim.c:140-142 | with s = 1 and b = 4, address 0x10 is set 1 tag 0 and 0x20 is set 0 tag 1 |
| CacheProperties.SingleLineStep | cachelab-handout/csim.c:140-192 | with s = 0, E = 1 and b = 0 the whole address is the tag of a single line |
| CacheProperties.ExampleTwoSets | cachelab-handout/csim.c:133-193 | loads of 0x10, 0x20, 0x10 with s = 1, E = 1 and b = 4 give 1 hit, 2 misses and 0 evictions |
| CacheProperties.ExampleOneLine | cachelab-handout/csim.c:133-193 | loads of 0x0, 0x1, 0x0 with s = 0, E = 1 and b = 0 give 0 hits, 3 misses and 2 evictions |
| TraceFormat.HexDigitValue | cachelab-handout/csim.c:213 | a hexadecimal digit denotes a value below 16 |
| TraceFormat.DigitValue | cachelab-handout/csim.c:213 | a decimal digit denotes a value below 10 |
| TraceFormat.SkipSpaces | cachelab-handout/csim.c:213 | what is left after skipping white space is no longer than the text and is empty or starts with a non-space |
| TraceFormat.SkipSpacesDropsOnlySpaces | cachelab-handout/csim.c:213 | what is left after skipping white space is a suffix of the text, and every character dropped in front of it is white space |
| TraceFormat.HexRunLength | cachelab-handout/csim.c:213 | the longest run of hexadecimal digits at the front |
| TraceFormat.DecRunLength | cachelab-handout/csim.c:213 | the longest run of decimal digits at the front |
| TraceFormat.ScanHex | cachelab-handout/csim.c:213 | a successful `%lx` consumes at least one character |
| TraceFormat.ScanDec | cachelab-handout/csim.c:213 | a successful `%d` consumes at least one character |
| TraceFormat.ParseLine | cachelab-handout/csim.c:213 | the operation a successful scan returns is never white space |
| TraceFormat.FormatEntry | cachelab-handout/csim.c:215 | the verbose echo `"%c %lx,%d"` of an entry; ParseFormatted proves the scan reads it back |
| TraceFormat.HexDigitChar | cachelab-handout/csim.c:215 | the printed digit reads back as its value |
| TraceFormat.DigitChar | cachelab-handout/csim.c:215 | the printed digit reads back as its value |
| TraceFormat.Hex | cachelab-handout/csim.c:215 | `%lx` prints at least one hexadecimal digit and no leading zero |
| TraceFormat.Dec | cachelab-handout/csim.c:215 | `%d` of a natural prints at least one decimal digit |
| TraceFormat.HexValueOfHex | cachelab-handout/csim.c:213-215 | the printed hexadecimal digits denote the printed number |
| TraceFormat.DecValueOfDec | cachelab-handout/csim.c:213-215 | the printed decimal digits denote the printed number |
| TraceFormat.SkipSpacesOverPad | cachelab-handout/csim.c:213 | leading white space does not change what the scan sees |
| TraceFormat.HexRunOverDigits | cachelab-handout/csim.c:213 | a hexadecimal run stops exactly at the first non-hexadecimal character |
| TraceFormat.DecRunOverDigits | cachelab-handout/csim.c:213 | a decimal run stops exactly at the first non-digit |
| TraceFormat.ScanHexOfHex | cachelab-handout/csim.c:213-215 | `%lx` reads back a printed address and stops at the comma |
| TraceFormat.ScanDecOfDigits | cachelab-handout/csim.c:213-215 | `%d` reads back a printed natural |
| TraceFormat.ScanDecOfMinus | cachelab-handout/csim.c:213 | a minus sign before text that starts with neither white space nor a sign negates what `%d` reads, with the same rest, and a scan that fails on the text still fails with the minus sign |
| TraceFormat.ScanDecNegated | cachelab-handout/csim.c:213 | when `%d` reads v from digits and a tail, it reads -v from the same text behind a minus sign |
| TraceFormat.ScanDecOfNegative | cachelab-handout/csim.c:213-215 | `%d` reads back a printed negative number |
| TraceFormat.ScanDecOfSignedDec | cachelab-handout/csim.c:213-215 | `%d` reads back any printed integer |
| TraceFormat.ParseLineOfFields | cachelab-handout/csim.c:213 | the scan succeeds with the operation, the address and the size when its three directives do |
| TraceFormat.SkipToOperation | cachelab-handout/csim.c:213 | the leading white space before an operation is skipped |
| TraceFormat.ScanHexAfterSpace | cachelab-handout/csim.c:213 | the address after the space that follows the operation is read back |
| TraceFormat.ParseFormatted | cachelab-handout/csim.c:213-215 | scanning the echo of an entry, indented by white space and followed by anything but a digit, returns that entry |
| TraceReplay.Dispatch | cachelab-handout/csim.c:209-213 | the entry a line hands to the cache; SkippedLineChangesNothing and DispatchFormatted state which lines are skipped |
| TraceReplay.LineStream | cachelab-handout/csim.c:209-222 | one line accesses at most two addresses |
| TraceReplay.AccessAll | cachelab-handout/csim.c:218-221 | a sequence of accesses keeps the table's shape |
| TraceReplay.ReplayLine | cachelab-handout/csim.c:209-222 | the dispatch of one line keeps the table's shape |
| TraceReplay.ReplayLines | cachelab-handout/csim.c:208-228 | the replay keeps the table's shape |
| TraceReplay.SkippedLineChangesNothing | cachelab-handout/csim.c:209-213 | a line of at most one character, a line starting with `I` or a line the scan rejects changes nothing and accesses nothing |
| TraceReplay.DispatchFormatted | cachelab-handout/csim.c:209-213 | an echoed entry reaches the cache exactly unless it is unindented with operation `I` |
| TraceReplay.AccessAllAppend | cachelab-handout/csim.c:208-228 | accessing two streams in turn is accessing their concatenation |
| TraceReplay.AccessAllOne | cachelab-handout/csim.c:218 | a one-address stream is one access |
| TraceReplay.AccessAllTwo | cachelab-handout/csim.c:218-222 | a repeated address is two consecutive accesses |
| TraceReplay.ReplayLineIsStream | cachelab-handout/csim.c:213-222 | one line's dispatch is the access of its stream: none, the address, or the address twice for `M` |
| TraceReplay.ReplayIsAccessStream | cachelab-handout/csim.c:208-228 | replaying the lines is accessing the trace's address stream in order |
| TraceReplay.StreamLength | cachelab-handout/csim.c:209-222 | the stream holds one address per dispatched line plus one per `M` line |
| TraceReplay.AccessAllPreservesInv | cachelab-handout/csim.c:218-221 | any sequence of accesses keeps the invariant |
| TraceReplay.ReplayPreservesInv | cachelab-handout/csim.c:208-228 | a replay keeps the invariant |
| TraceReplay.AccessAllCounts | cachelab-handout/csim.c:146-192 | each access adds one to the clock and one to hits + misses; none of hits, misses and evictions decreases; evictions grow no faster than misses |
| TraceReplay.ReplayFromInit | cachelab-handout/csim.c:86-92 | a replay from a fresh cache keeps the invariant, counts hits + misses = dispatched lines + `M` lines, and evicts no more often than it misses |
| TraceReplay.ModifyStoreHits | cachelab-handout/csim.c:218-222 | the store half of an `M` line always hits, so the line adds at least one hit and at most one miss |
| Csim.AccessWritesChosenLine | cachelab-handout/csim.c:146-192 | writing the chosen line with the tag and the old clock, and moving the counters by the outcome, is the model's access and keeps the invariant |
| Csim.Simulator.constructor | cachelab-handout/csim.c:97-121 | S = 2^s sets of E lines, all invalid with tag 0 and stamp 0, counters and clock at 0, mask 2^s - 1; the state is the model's `Init` and satisfies the invariant |
| Csim.Simulator.FindVictim | cachelab-handout/csim.c:137-177 | the scan with its running oldest stamp returns exactly the model's victim |
| Csim.Simulator.SetLine | cachelab-handout/csim.c:187-192 | writing one line changes exactly that entry of the table |
| Csim.Simulator.AccessData | cachelab-handout/csim.c:133-193 | the new table and counters are the model's access to the old state; the invariant is kept |
| Csim.Simulator.ReplayTrace | cachelab-handout/csim.c:195-231 | the new state is the model's replay of the lines from the old state; the invariant is kept |
| Csim.Simulate | cachelab-handout/csim.c:86-92 | the reported counters are those of the replay from a fresh cache, hits + misses = dispatched lines + `M` lines, and evictions <= misses |
| Tuner.Wrap32 | cachelab-handout/ctuner.c:34 | the result is a C int, congruent to the true difference modulo 2^32, and equal to it when that fits |
| Tuner.CompareBySize | cachelab-handout/ctuner.c:31-35 | when the difference does not overflow, the result is negative, zero or positive exactly as a's size is less than, equal to or greater than b's |
| Tuner.CompareBySizeOrdersSizes | cachelab-handout/ctuner.c:31-35 | for non-negative sizes the comparator's sign always orders the sizes |
| Tuner.Footprint | cachelab-handout/ctuner.c:61 | `(1 << s) * E * (1 << b)`; FootprintBound bounds it |
| Tuner.FootprintBound | cachelab-handout/ctuner.c:55-61 | every enumerated footprint lies between 4 and 4096 bytes, so the comparator cannot overflow |
| Tuner.IndexOf | cachelab-handout/ctuner.c:54-62 | every geometry in range has a position below 100 |
| Tuner.Enumeration | cachelab-handout/ctuner.c:53-63 | the enumeration has exactly 100 entries |
| Tuner.ConfigAt | cachelab-handout/ctuner.c:55-62 | the configuration the loops write at position k; ConfigAtInRange and ConfigAtIndexOf state which one |
| Tuner.ConfigAtInRange | cachelab-handout/ctuner.c:55-62 | each position holds a geometry in range with its footprint, and the position is recovered from the geometry |
| Tuner.ConfigAtIndexOf | cachelab-handout/ctuner.c:55-62 | each geometry in range is written at position (s-1)*20 + (E-1)*5 + (b-1) |
| Tuner.EnumerationCoverage | cachelab-handout/ctuner.c:53-63 | the 100 configurations are each (s, E, b) with s in 1..5, E in 1..4, b in 1..5, each exactly once, in s-outer, b-inner order |
| Tuner.EnumerateConfigs | cachelab-handout/ctuner.c:53-63 | the triple loop fills a fresh array with exactly the enumeration |
| Tuner.SwapDown | cachelab-handout/ctuner.c:64 | exchanging neighbours changes exactly those two entries and keeps the multiset |
| Tuner.SwapKeepsInserting | cachelab-handout/ctuner.c:64 | one exchange moves the inserted element left and keeps the rest ordered |
| Tuner.InsertingDone | cachelab-handout/ctuner.c:64 | the insertion ends with a sorted prefix |
| Tuner.InsertDown | cachelab-handout/ctuner.c:64 | inserting one element extends the sorted prefix by one, keeps the rest of the array and keeps the multiset |
| Tuner.SortBySize | cachelab-handout/ctuner.c:64 | after the sort the array has nondecreasing sizes and is a permutation of the input |
| Tuner.ComputeMetric | cachelab-handout/ctuner.c:21-29 | a run without accesses, and a metric other than "h", "m" and "e", measure 0 |
| Tuner.HitAndMissRatesAddUp | cachelab-handout/ctuner.c:22-26 | the hit rate and the miss rate of a run with at least one access add up to 100 |
| Tuner.RatesInRange | cachelab-handout/ctuner.c:21-29 | with plausible counts every rate lies in 0..100 and the eviction rate is at most the miss rate |
| Tuner.Accepts | cachelab-handout/ctuner.c:77-78 | the acceptance test: at least the target for "h", at most the target otherwise; the two out-of-range lemmas state its edge cases |
| Tuner.OutOfRangeTargetAcceptsNothing | cachelab-handout/ctuner.c:77-78 | a target above 100 for "h", or below 0 for any other metric, rejects every plausible run |
| Tuner.OutOfRangeTargetAcceptsEverything | cachelab-handout/ctuner.c:77-78 | a target below 0 for "h", or above 100 for any other metric, accepts every plausible run |
| Tuner.Measure | cachelab-handout/ctuner.c:74-75 | the metric of a simulator run on a configuration; the search's contract is stated with it |
| Tuner.TraceCounts | cachelab-handout/ctuner.c:37-49 | the counts the modelled simulator reports are plausible: non-negative, with evictions at most misses |
| Tuner.FirstFitIsSmallest | cachelab-handout/ctuner.c:64-88 | in the sorted order the first accepted configuration has the smallest size among all accepted ones |
| Tuner.OptimizeCacheConfig | cachelab-handout/ctuner.c:51-97 | the configurations are tried in a sorted permutation of the enumeration. The result is the first one accepted, with its metric. The configurations the simulator runs on are exactly the sorted ones up to and including it, in that order. No accepted configuration is smaller. The result is -1, -1, -1 exactly when none is accepted, after runs on all 100 configurations in sorted order |

## Left out

- Both `main` functions (option parsing, usage text, exit codes) are not part of this model.
  - `csim` rejects a zero s, E or b (csim.c:77). The engine is modelled for any geometry with at least one line per set, and the worked examples with s = 0 exercise the engine alone.
  - `ctuner` reports invalid arguments but continues (ctuner.c:124-126). `Tuner.OutOfRangeTargetAcceptsNothing` and `Tuner.OutOfRangeTargetAcceptsEverything` state how the acceptance test treats an out-of-range target: it rejects every run or accepts every run, depending on the metric and the side.
- File I/O: opening the trace, reading it with `fgets` into a 1000-byte buffer, and closing it. `ReplayTrace` takes the already-read lines. Splitting over-long lines is not modelled.
- `printSummary`, the verbose `printf` output and `printUsage` are pure output. `FormatEntry` models the verbose echo only as far as the round trip with the scan.
- Allocation failures and `freeCache`. The table is one pre-allocated `array2`.
- `FindVictim` and `SetLine` are helper methods. The C code scans for the victim inline and writes the valid bit, tag and stamp as three stores; the model writes the whole line at once. No state becomes visible between those stores.
- Machine widths.
  - Addresses, tags, stamps and the counters are unbounded naturals: wrap-around of `unsigned long` and `int` is not modelled.
  - `ValidGeometry` requires s < 31 and s + b < 64, so that `1 << s` and the shifts are defined in C.
  - The start value `(unsigned long)-1` of the oldest-stamp scan is modelled as "no stamp seen yet". That is the same as long as no stamp reaches the largest unsigned value.
- `TraceFormat.ParseLine` models the scan `" %c %lx,%d"` for what the replay needs: white space, the operation, an optional `0x` prefix, hexadecimal digits, a comma, an optional sign and decimal digits. Overflow of the converted numbers and scan failures after partial conversion are not distinguished. The sign that `%lx` accepts under the `strtoul` rules is not modelled, so a line such as `" L -10,4"` is rejected where C accesses it. The scan works on characters where C works on bytes: for a non-ASCII operation such as `é` C's `%c` takes one byte and the scan then fails, while the model takes the whole character. A C string ends at its first NUL byte: C skips a line whose first non-blank byte is NUL (csim.c:209, 213), while the model dispatches it.
- `Tuner.ComputeMetric` computes over exact reals. `float` rounding and the conversion to `float` of the target are not modelled.
- `Tuner.CompareBySize`: signed overflow is undefined in C and is modelled as two's-complement wrap-around. The sort only uses it on non-negative sizes, where it cannot overflow.
- `Tuner.SortBySize` is an insertion sort standing in for the library `qsort`. Its contract states only what `qsort` promises, so the order of configurations of equal size is unspecified, as it is in the C code.
- `run_simulator` spawns the simulator through `popen` and scrapes its output. The search takes it as the parameter `sim`. `Tuner.TraceCounts` is the modelled simulator for a trace, but process spawning and output parsing are not modelled. When the simulator rejects a geometry, `run_simulator` finds no counts to read and the tuner exits (ctuner.c:43-45). `TraceCounts` returns zero counts in that branch instead; the search only asks for geometries in 1..5, so it never reaches it.
- `Tuner.OptimizeCacheConfig`: when no configuration is accepted the C code leaves `best_metric` unset, and the model returns 0.0 there. The final `printf` of the chosen command line is output only.
