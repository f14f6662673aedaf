# STCoverage in Dafny

A model of the per-base read-coverage tracker `SnowTools::STCoverage`. The tracker has three parts:

- **Accumulator.** It holds a region descriptor, a dense vector `v` sized to the region's width, and a sparse table `m_map` from chromosome id to a table from position to read count. `addRead` adds one to the count of every base in a read's inclusive span `[Position(), PositionEnd()]` on its chromosome. It skips a read when either end is negative.
- **Point query.** `getCoverageAtPosition` returns the stored count. It returns 0 for an unknown chromosome or an untouched position.
- **Bedgraph emitter.** `ToBedgraph` makes one forward pass over `v`. It collapses runs of equal depth into `(start, end, value)` records, offset by the region's first base `pos1`.

Modules:

- `Bedgraph` (bedgraph.dfy) is the emitter. It is a pure function over `(chr, pos1, seq<nat>)` that returns the sequence of records it would write. `EmitBedgraph` is the same loop written imperatively.
- `Coverage` (coverage.dfy) has the accumulator state, the constructor, `addRead`, the point query and the object-level export. The sparse table is `map<int, map<int, nat>>`.
- `Ingestion` (ingestion.dfy) folds `addRead` over a sequence of reads. It also gives a reference count: the number of valid reads covering a base. It proves that the table depends only on the multiset of reads.

The central predicate is `Bedgraph.Tiles(rs, pos1, v, m)`. It says the records cover bases `v[..m]` from coordinate `pos1`, in maximal runs. Each record is non-empty, starts where the previous one ended, carries the depth of every base it claims, and differs in depth from its neighbour. `Bedgraph.TilesShape` unfolds this into the quantified forms `Contiguous`, `Maximal` and `Faithful`. It also proves that the records decode back (`Expand`) to exactly `v[..m]`.

The code as written always drops the last base of the region, as the Findings section explains. The emitter is still modelled as written. `Coverage.Export` uses the as-written emitter, because that is what the object does. The corrected emitter stands beside it.

## Model

| member | source | states |
|---|---|---|
| `Coverage.New` | src/STCoverage.cpp:12-15 | the constructor keeps the region, makes `v` a zero vector of the region's width, and starts with no chromosome in the table |
| `Coverage.Increment` | src/STCoverage.cpp:39 | `m_map[chr][p]++` adds the chromosome and the position on first touch, raises the count at (chr, p) by one, and changes no other count |
| `Coverage.IncrementSpan` | src/STCoverage.cpp:37-45 | the `while (p <= e)` loop adds one at every position of [p, e] on the chromosome and nothing elsewhere; when p > e it creates no row and no entry |
| `Coverage.AddRead` | src/STCoverage.cpp:17-52 | a read with a negative end, or with end before start, leaves the accumulator unchanged; otherwise the count at (c, q) rises by one exactly when the read covers q on c; row keys grow by the covered positions, the chromosome enters the table only if some base was counted, and `v` is never written |
| `Coverage.CoverageAtPosition` | src/STCoverage.cpp:82-110 | returns 0 for an unknown chromosome and leaves the state untouched; otherwise returns the stored count, 0 for an untouched position; no count and no chromosome key ever changes; `operator[]` inserts at most `pos`, with count 0, into the row of `chr` and into no other row |
| `Coverage.Export` | src/STCoverage.cpp:59-80 | the object's export writes nothing for an unset chromosome or an empty `v`; otherwise its records tile all but the last base of `v` |
| `Ingestion.Ingest` | src/STCoverage.cpp:37-40 | after a sequence of addRead calls, each count equals the starting count plus the number of valid reads covering that base; a row gains exactly the covered positions, and a chromosome enters the table only through a read that touches it |
| `Ingestion.CoveringPermutation` | src/STCoverage.cpp:37-40 | the number of reads covering a base depends only on the multiset of reads, not on their order |
| `Ingestion.IngestOrderIndependent` | src/STCoverage.cpp:37-40 | ingesting the same reads in any order leaves an identical accumulator |
| `Ingestion.AddReadCommutes` | src/STCoverage.cpp:17-52 | two addRead calls commute |
| `Ingestion.IngestTwice` | src/STCoverage.cpp:39 | ingesting one read twice adds 2 over its footprint and nothing elsewhere |
| `Ingestion.QueryAfterIngest` | src/STCoverage.cpp:84-105 | on a fresh accumulator, the query after any reads returns the number of valid reads covering the base |
| `Ingestion.ChromosomeOnlyAfterRead` | src/STCoverage.cpp:31-39 | a chromosome is in the table of a fresh accumulator exactly when some valid, non-empty read on it was ingested |
| `Ingestion.ExportAfterIngest` | src/STCoverage.cpp:14 | `v` stays the zero vector after any reads, so the export is one zero record (pos1, pos1 + width - 1, 0) when width >= 2 and the chromosome is set, and nothing otherwise |
| `Bedgraph.Scan` | src/STCoverage.cpp:67-75 | after indices 0..n-1 every base from curr_start to n-1 has depth curr_val, with curr_start below n once the loop has begun |
| `Bedgraph.StepKeepsInvariant` | src/STCoverage.cpp:69-75 | one iteration keeps the loop invariant: the closed records tile v[..curr_start] in maximal runs, and the open run from curr_start holds curr_val, which differs from the last closed record's depth |
| `Bedgraph.CloseKeepsInvariant` | src/STCoverage.cpp:70-73 | writing (curr_start + pos1, i + pos1, curr_val) on a change of depth extends the tiling to v[..i], and the new open run starts at i with depth v[i] |
| `Bedgraph.ExtendKeepsInvariant` | src/STCoverage.cpp:69-70 | an equal depth at i lengthens the open run and leaves the records and the tiling as they were |
| `Bedgraph.ScanKeepsInvariant` | src/STCoverage.cpp:67-75 | the loop invariant holds before the loop and after every iteration |
| `Bedgraph.ScanRunStart` | src/STCoverage.cpp:67-75 | the open run starts at 0 exactly when no record was closed, and otherwise right after a change of depth |
| `Bedgraph.FlushTiles` | src/STCoverage.cpp:77-79 | after the loop, the flush as written leaves records that tile every base but the last one |
| `Bedgraph.ToBedgraph` | src/STCoverage.cpp:59-80 | nothing is written for chromosome -1 or an empty `v`; otherwise the records tile v[..\|v\|-1] |
| `Bedgraph.ToBedgraphShape` | src/STCoverage.cpp:67-79 | written records are non-empty and start at pos1; each starts where the previous ended; adjacent values differ; each claims only bases of its own depth; decoded, they give v[..\|v\|-1] |
| `Bedgraph.StartsAscending` | src/STCoverage.cpp:71-72 | record starts are strictly ascending |
| `Bedgraph.FinalFlushIff` | src/STCoverage.cpp:77-79 | the trailing record (curr_start + pos1, \|v\| + pos1 - 1, curr_val) is written exactly when the last two bases have equal depth; otherwise only the loop's records are written |
| `Bedgraph.ConstantVector` | src/STCoverage.cpp:67-79 | a constant vector of length n >= 2 yields exactly (pos1, pos1 + n - 1, v[0]) |
| `Bedgraph.SingleBase` | src/STCoverage.cpp:78 | a vector of length 1 yields no record |
| `Bedgraph.ExampleScan` | src/STCoverage.cpp:67-75 | on [0,0,3,3,3,5,0] at 100 the loop writes (100,102,0), (102,105,3), (105,106,5) and leaves the run of 0 open at index 6 |
| `Bedgraph.Example` | src/STCoverage.cpp:59-80 | [0,0,3,3,3,5,0] at 100 yields exactly (100,102,0), (102,105,3), (105,106,5) |
| `Bedgraph.EmitBedgraph` | src/STCoverage.cpp:59-80 | the imperative loop, with curr_start and curr_val as locals, writes the same records as the functional emitter |
| `Bedgraph.ExampleLosesLastBase` | src/STCoverage.cpp:78-79 | on [0,0,3,3,3,5,0] the written records decode to six depths, not the seven of the vector |
| `Bedgraph.FlushIntendedTiles` | src/STCoverage.cpp:77-79 | with the open run always written as (curr_start + pos1, \|v\| + pos1, curr_val), the records tile the whole vector |
| `Bedgraph.ToBedgraphIntended` | src/STCoverage.cpp:77-79 | with the trailing run always written and ending at \|v\| + pos1, the records tile the whole vector |
| `Bedgraph.ToBedgraphIntendedRoundTrip` | src/STCoverage.cpp:77-79 | the corrected emitter's records are contiguous, maximal and faithful, and they decode to exactly `v` |
| `Bedgraph.ExampleIntended` | src/STCoverage.cpp:77-79 | on [0,0,3,3,3,5,0] at 100 the corrected emitter also writes (106,107,0) |

## Left out

- `settleCoverage` (src/STCoverage.cpp:7-10): it merges the overlapping intervals of the member collection `m_grc`, using an interval-collection library that is not part of this model. Its copy `tmp` is never used. `m_grc` is never filled, because the `m_grc.add` call in `addRead` (line 20) is commented out. Both calls to `settleCoverage` (lines 61 and 93) are commented out as well.
- The `try`/`catch (std::out_of_range)` diagnostic of `addRead` (src/STCoverage.cpp:36-50): the loop body only uses map `operator[]` and `++`, and neither throws `std::out_of_range`, so the handler is dead. It would also only write to stderr. Allocation failure (`std::bad_alloc`) is not modelled.
- The output stream and name lookup. `ogzstream` writing and `ChrName(bam_hdr_t*)` are compressed I/O and a foreign header lookup. Records are returned as values without the chromosome name.
- `BamRead` accessors (`ChrID`, `Position`, `PositionEnd`): taken as plain integers in `Coverage.Read`.
- `GenomicRegion`: its `width()` is declared in a header that is not part of this model. `Coverage.Region` carries the width directly as a `nat`. The constructor's behaviour on a negative width is not modelled.
- `operator<<` (src/STCoverage.cpp:54-57): debug formatting only.
- The commented-out region bounds checks and dense-vector writes: they are not active behaviour.
- Fixed-width integers. The model does not cover the `uint16_t` element type of `v`, the count type of the table, the `int` return of the query, or `++p` overflowing at INT_MAX. It also does not cover `size_t` arithmetic when `pos1` is negative. Counts are `nat`, and positions and coordinates are `int`.
- Concurrency: the accumulator is single-owner and has no synchronisation to model.

## Findings

| source | as written | input that shows it | evidently intended | confidence | as-written member | corrected member |
|---|---|---|---|---|---|---|
| src/STCoverage.cpp:78-79 | the last run is written only when `curr_start + 1 != v.size()`, ending at `v.size() + pos1 - 1`, so the last base is never covered | `v = [0,0,3,3,3,5,0]`, `pos1 = 100`: no record for base 106, and the records decode to 6 of 7 depths | always write the last run as (curr_start + pos1, v.size() + pos1, curr_val), half-open like the loop's records, so the records decode to the whole vector | high (the comment says "need to dump last one"); not executed | `Bedgraph.ToBedgraph` (with `Bedgraph.ExampleLosesLastBase`) | `Bedgraph.ToBedgraphIntended` (with `Bedgraph.ToBedgraphIntendedRoundTrip`) |
