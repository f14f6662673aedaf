/**
 Run-length emitter of STCoverage::ToBedgraph: a single forward pass over a
 dense coverage vector that collapses runs of equal depth into
 (start, end, value) records, offset by the first base of the region.

 The chromosome name and the compressed output stream are abstracted away:
 the emitter returns the sequence of records it would write, in order.
 */
module Bedgraph {

  /** One bedgraph line without its chromosome name: absolute start, absolute end, depth. */
  datatype Record = Record(start: int, end: int, value: nat)

  /** State of the emitter's loop: records written so far, and the index and value of the open run. */
  datatype ScanState = ScanState(records: seq<Record>, runStart: nat, runValue: nat)

  /** Number of bases a record spans under the half-open reading [start, end). */
  function Width(rec: Record): nat
  {
    if rec.start <= rec.end then rec.end - rec.start else 0
  }

  /** Decodes records back into one depth per base (the inverse of run-length encoding). */
  function Expand(rs: seq<Record>): seq<nat>
  {
    if |rs| == 0 then []
    else Expand(rs[..|rs| - 1]) + seq(Width(rs[|rs| - 1]), _ => rs[|rs| - 1].value)
  }

  /** Records are non-empty, the first starts at `from`, and each starts where the previous ended. */
  ghost predicate Contiguous(rs: seq<Record>, from: int)
  {
    && (|rs| > 0 ==> rs[0].start == from)
    && (forall k :: 0 <= k < |rs| ==> rs[k].start < rs[k].end)
    && (forall k, k' :: 0 <= k < k' < |rs| && k' == k + 1 ==> rs[k].end == rs[k'].start)
  }

  /** Adjacent records carry different depths, so no two of them could be merged. */
  ghost predicate Maximal(rs: seq<Record>)
  {
    forall k, k' :: 0 <= k < k' < |rs| && k' == k + 1 ==> rs[k].value != rs[k'].value
  }

  /** Every base a record claims lies inside `v` and has the record's depth. */
  ghost predicate Faithful(rs: seq<Record>, pos1: int, v: seq<nat>)
  {
    && (forall k :: 0 <= k < |rs| ==> 0 <= rs[k].start - pos1 && rs[k].end - pos1 <= |v|)
    && (forall k :: 0 <= k < |rs| ==>
          forall j :: rs[k].start - pos1 <= j < rs[k].end - pos1 ==> v[j] == rs[k].value)
  }

  /**
   The records tile the bases v[..m] (index 0 at coordinate pos1) with
   maximal runs: the last record ends at m, holds the depth of every base it
   claims, differs in depth from the record before it, and the records
   before it tile the bases up to its start.
   */
  ghost predicate Tiles(rs: seq<Record>, pos1: int, v: seq<nat>, m: int)
    decreases |rs|
  {
    if |rs| == 0 then m == 0
    else
      var last := rs[|rs| - 1];
      var init := rs[..|rs| - 1];
      && 0 <= last.start - pos1 < last.end - pos1 == m <= |v|
      && (forall j :: last.start - pos1 <= j < m ==> v[j] == last.value)
      && (|init| > 0 ==> init[|init| - 1].value != last.value)
      && Tiles(init, pos1, v, last.start - pos1)
  }

  /** Closing the run v[a..b) after records that tile v[..a] gives records that tile v[..b]. */
  lemma TilesAppend(rs: seq<Record>, pos1: int, v: seq<nat>, a: int, b: int, value: nat)
    requires Tiles(rs, pos1, v, a)
    requires a < b <= |v|
    requires forall j :: a <= j < b ==> v[j] == value
    requires |rs| > 0 ==> rs[|rs| - 1].value != value
    ensures Tiles(rs + [Record(a + pos1, b + pos1, value)], pos1, v, b)
  {
    var r := rs + [Record(a + pos1, b + pos1, value)];
    assert r[..|r| - 1] == rs;
  }

  /** Appending a record that starts where the last one ends keeps the records contiguous. */
  lemma AppendContiguous(rs: seq<Record>, from: int, rec: Record)
    requires Contiguous(rs, from)
    requires rec.start < rec.end
    requires |rs| == 0 ==> rec.start == from
    requires |rs| > 0 ==> rs[|rs| - 1].end == rec.start
    ensures Contiguous(rs + [rec], from)
  {
    var r := rs + [rec];
    forall k, k' | 0 <= k < k' < |r| && k' == k + 1
      ensures r[k].end == r[k'].start
    {
      if k' == |rs| {
        assert r[k] == rs[|rs| - 1] && r[k'] == rec;
      } else {
        assert r[k] == rs[k] && r[k'] == rs[k'];
      }
    }
  }

  /** Appending a record whose depth differs from the last one keeps the runs maximal. */
  lemma AppendMaximal(rs: seq<Record>, rec: Record)
    requires Maximal(rs)
    requires |rs| > 0 ==> rs[|rs| - 1].value != rec.value
    ensures Maximal(rs + [rec])
  {
    var r := rs + [rec];
    forall k, k' | 0 <= k < k' < |r| && k' == k + 1
      ensures r[k].value != r[k'].value
    {
      if k' == |rs| {
        assert r[k] == rs[|rs| - 1] && r[k'] == rec;
      } else {
        assert r[k] == rs[k] && r[k'] == rs[k'];
      }
    }
  }

  /** Appending a record whose bases all have its depth keeps the records faithful to `v`. */
  lemma AppendFaithful(rs: seq<Record>, pos1: int, v: seq<nat>, rec: Record)
    requires Faithful(rs, pos1, v)
    requires 0 <= rec.start - pos1 && rec.end - pos1 <= |v|
    requires forall j :: rec.start - pos1 <= j < rec.end - pos1 ==> v[j] == rec.value
    ensures Faithful(rs + [rec], pos1, v)
  {
    var r := rs + [rec];
    forall k | 0 <= k < |r|
      ensures 0 <= r[k].start - pos1 && r[k].end - pos1 <= |v|
    {
      if k < |rs| {
        assert r[k] == rs[k];
      }
    }
    forall k, j | 0 <= k < |r| && r[k].start - pos1 <= j < r[k].end - pos1
      ensures v[j] == r[k].value
    {
      if k < |rs| {
        assert r[k] == rs[k];
      }
    }
  }

  /** Appending the run v[a..b) to records that decode to v[..a] gives records that decode to v[..b]. */
  lemma AppendExpand(rs: seq<Record>, v: seq<nat>, rec: Record, a: nat, b: nat)
    requires a <= b <= |v|
    requires Expand(rs) == v[..a]
    requires Width(rec) == b - a
    requires forall j :: a <= j < b ==> v[j] == rec.value
    ensures Expand(rs + [rec]) == v[..b]
  {
    var r := rs + [rec];
    assert r[..|r| - 1] == rs;
    assert Expand(r) == v[..a] + seq(b - a, _ => rec.value);
    assert v[..b] == v[..a] + v[a..b];
  }

  /**
   What tiling means: records that tile v[..m] start at pos1, are
   contiguous and non-empty, carry different depths when adjacent, claim
   only bases of their own depth, and decode back to exactly v[..m].
   */
  lemma {:induction false} TilesShape(rs: seq<Record>, pos1: int, v: seq<nat>, m: int)
    requires Tiles(rs, pos1, v, m)
    ensures 0 <= m <= |v|
    ensures Contiguous(rs, pos1) && Maximal(rs) && Faithful(rs, pos1, v)
    ensures Expand(rs) == v[..m]
    decreases |rs|
  {
    if |rs| > 0 {
      var last := rs[|rs| - 1];
      var init := rs[..|rs| - 1];
      TilesShape(init, pos1, v, last.start - pos1);
      assert init + [last] == rs;
      AppendContiguous(init, pos1, last);
      AppendMaximal(init, last);
      AppendFaithful(init, pos1, v, last);
      AppendExpand(init, v, last, last.start - pos1, m);
    }
  }

  /**
   The open run's half of the emitter's loop invariant after visiting
   indices 0 .. n-1: every base from runStart to n-1 has depth runValue.
   */
  ghost predicate OpenRun(v: seq<nat>, n: nat, s: ScanState)
  {
    && n <= |v|
    && s.runStart < |v| && s.runStart <= n && (n > 0 ==> s.runStart < n)
    && s.runValue == v[s.runStart]
    && (forall k :: s.runStart <= k < n ==> v[k] == s.runValue)
  }

  /**
   The whole loop invariant: besides the open run, the closed records tile
   v[..runStart] with maximal runs, the last one differing in depth from the
   open run.
   */
  ghost predicate ScanInvariant(v: seq<nat>, pos1: int, n: nat, s: ScanState)
  {
    && OpenRun(v, n, s)
    && Tiles(s.records, pos1, v, s.runStart)
    && (|s.records| > 0 ==> s.records[|s.records| - 1].value != s.runValue)
  }

  /**
   One iteration of the loop at index i: a depth different from the open
   run's closes it as (runStart + pos1, i + pos1, runValue) and opens a new
   run at i; an equal depth changes nothing.
   */
  function Step(v: seq<nat>, pos1: int, i: nat, s: ScanState): ScanState
    requires i < |v|
  {
    if v[i] != s.runValue then ScanState(s.records + [Record(s.runStart + pos1, i + pos1, s.runValue)], i, v[i])
    else s
  }

  /** One iteration keeps the loop invariant, with the closed run appended to the tiling. */
  lemma StepKeepsInvariant(v: seq<nat>, pos1: int, i: nat, s: ScanState)
    requires i < |v|
    requires ScanInvariant(v, pos1, i, s)
    ensures ScanInvariant(v, pos1, i + 1, Step(v, pos1, i, s))
  {
    if v[i] != s.runValue {
      CloseKeepsInvariant(v, pos1, i, s);
      assert Step(v, pos1, i, s) == ScanState(s.records + [Record(s.runStart + pos1, i + pos1, s.runValue)], i, v[i]);
    } else {
      ExtendKeepsInvariant(v, pos1, i, s);
      assert Step(v, pos1, i, s) == s;
    }
  }

  /** A change of depth at index i closes the open run, which then tiles the bases up to i. */
  lemma CloseKeepsInvariant(v: seq<nat>, pos1: int, i: nat, s: ScanState)
    requires i < |v| && v[i] != s.runValue
    requires ScanInvariant(v, pos1, i, s)
    ensures ScanInvariant(v, pos1, i + 1, ScanState(s.records + [Record(s.runStart + pos1, i + pos1, s.runValue)], i, v[i]))
  {
    var rec := Record(s.runStart + pos1, i + pos1, s.runValue);
    var next := ScanState(s.records + [rec], i, v[i]);
    TilesAppend(s.records, pos1, v, s.runStart, i, s.runValue);
    assert Tiles(next.records, pos1, v, next.runStart);
    assert next.records[|next.records| - 1] == rec;
    assert OpenRun(v, i + 1, next);
  }

  /** An equal depth at index i extends the open run by one base. */
  lemma ExtendKeepsInvariant(v: seq<nat>, pos1: int, i: nat, s: ScanState)
    requires i < |v| && v[i] == s.runValue
    requires ScanInvariant(v, pos1, i, s)
    ensures ScanInvariant(v, pos1, i + 1, s)
  {
  }

  /** The loop state after visiting indices 0 .. n-1. */
  function Scan(v: seq<nat>, pos1: int, n: nat): (s: ScanState)
    requires 0 < |v| && n <= |v|
    ensures OpenRun(v, n, s)
    decreases n
  {
    if n == 0 then ScanState([], 0, v[0])
    else Step(v, pos1, n - 1, Scan(v, pos1, n - 1))
  }

  /** Every iteration of the loop keeps its invariant. */
  lemma {:induction false} ScanKeepsInvariant(v: seq<nat>, pos1: int, n: nat)
    requires 0 < |v| && n <= |v|
    ensures ScanInvariant(v, pos1, n, Scan(v, pos1, n))
    decreases n
  {
    if n > 0 {
      ScanKeepsInvariant(v, pos1, n - 1);
      StepKeepsInvariant(v, pos1, n - 1, Scan(v, pos1, n - 1));
    }
  }

  /**
   The open run starts at index 0 exactly when no record has been closed,
   and otherwise right after a change of depth.
   */
  lemma ScanRunStart(v: seq<nat>, pos1: int, n: nat)
    requires 0 < |v| && n <= |v|
    ensures var s := Scan(v, pos1, n);
      && (s.runStart == 0 <==> |s.records| == 0)
      && (s.runStart > 0 ==> v[s.runStart - 1] != v[s.runStart])
  {
    ScanKeepsInvariant(v, pos1, n);
    var s := Scan(v, pos1, n);
    if |s.records| > 0 {
      var last := s.records[|s.records| - 1];
      assert last.start - pos1 <= s.runStart - 1 < last.end - pos1;
      assert v[s.runStart - 1] == last.value;
    }
  }

  /** The records written inside the loop, before the trailing flush. */
  function LoopRecords(pos1: int, v: seq<nat>): seq<Record>
    requires 0 < |v|
  {
    Scan(v, pos1, |v|).records
  }

  /**
   The trailing flush as written: the open run is written only when it does
   not start at the last index, and then with end |v| + pos1 - 1.
   */
  function Flush(v: seq<nat>, pos1: int, s: ScanState): seq<Record>
  {
    if s.runStart + 1 != |v| then s.records + [Record(s.runStart + pos1, |v| - 1 + pos1, s.runValue)]
    else s.records
  }

  /** After the whole loop, the flush as written tiles every base but the last one. */
  lemma FlushTiles(v: seq<nat>, pos1: int, s: ScanState)
    requires ScanInvariant(v, pos1, |v|, s)
    ensures Tiles(Flush(v, pos1, s), pos1, v, |v| - 1)
  {
    if s.runStart + 1 != |v| {
      TilesAppend(s.records, pos1, v, s.runStart, |v| - 1, s.runValue);
    }
  }

  /**
   The emitter as written: nothing for an unset chromosome (-1) or an empty
   vector; otherwise the loop's records, then the trailing flush.
   What it writes tiles every base but the last one.
   */
  function ToBedgraph(chr: int, pos1: int, v: seq<nat>): (r: seq<Record>)
    ensures chr == -1 || |v| == 0 ==> r == []
    ensures chr != -1 && |v| > 0 ==> Tiles(r, pos1, v, |v| - 1)
  {
    if chr == -1 || |v| == 0 then []
    else
      ScanKeepsInvariant(v, pos1, |v|);
      FlushTiles(v, pos1, Scan(v, pos1, |v|));
      Flush(v, pos1, Scan(v, pos1, |v|))
  }

  /**
   Every record the emitter writes is non-empty and claims only bases of its
   depth; the records start at pos1, each starts where the previous one
   ended, adjacent ones differ in depth, and they decode to v[..|v| - 1].
   */
  lemma ToBedgraphShape(chr: int, pos1: int, v: seq<nat>)
    ensures var r := ToBedgraph(chr, pos1, v);
      Contiguous(r, pos1) && Maximal(r) && Faithful(r, pos1, v)
    ensures chr != -1 && |v| > 0 ==> Expand(ToBedgraph(chr, pos1, v)) == v[..|v| - 1]
  {
    if chr != -1 && |v| > 0 {
      TilesShape(ToBedgraph(chr, pos1, v), pos1, v, |v| - 1);
    }
  }

  /**
   The trailing flush fires exactly when the last two bases have the same
   depth; it is then the record (runStart + pos1, |v| + pos1 - 1, runValue)
   appended to the loop's records, and otherwise nothing is appended.
   */
  lemma FinalFlushIff(chr: int, pos1: int, v: seq<nat>)
    requires chr != -1 && |v| > 0
    ensures |ToBedgraph(chr, pos1, v)| == |LoopRecords(pos1, v)| + 1 <==> |v| >= 2 && v[|v| - 2] == v[|v| - 1]
    ensures |v| >= 2 && v[|v| - 2] == v[|v| - 1] ==>
      var s := Scan(v, pos1, |v|);
      ToBedgraph(chr, pos1, v) == s.records + [Record(s.runStart + pos1, |v| + pos1 - 1, s.runValue)]
    ensures !(|v| >= 2 && v[|v| - 2] == v[|v| - 1]) ==> ToBedgraph(chr, pos1, v) == LoopRecords(pos1, v)
  {
    ScanRunStart(v, pos1, |v|);
  }

  /** Starts are strictly ascending in any contiguous sequence of records. */
  lemma {:induction false} StartsAscending(rs: seq<Record>, from: int, k: nat, j: nat)
    requires Contiguous(rs, from)
    requires k < j < |rs|
    ensures rs[k].start < rs[j].start
    decreases j - k
  {
    assert rs[k].end == rs[k + 1].start;
    if k + 1 < j {
      StartsAscending(rs, from, k + 1, j);
    }
  }

  /** A vector of one repeated depth and length n >= 2 yields the single record (pos1, pos1 + n - 1, depth). */
  lemma ConstantVector(chr: int, pos1: int, v: seq<nat>)
    requires chr != -1 && |v| >= 2
    requires forall k :: 0 <= k < |v| ==> v[k] == v[0]
    ensures ToBedgraph(chr, pos1, v) == [Record(pos1, pos1 + |v| - 1, v[0])]
  {
    ScanRunStart(v, pos1, |v|);
  }

  /** A vector of length one yields no record at all: its only run is never flushed. */
  lemma SingleBase(chr: int, pos1: int, d: nat)
    ensures ToBedgraph(chr, pos1, [d]) == []
  {
  }

  /**
   The loop on the worked example [0,0,3,3,3,5,0] at 100: it closes the
   runs of 0, 3 and 5, and leaves the final 0 open at index 6.
   */
  lemma ExampleScan()
    ensures Scan([0, 0, 3, 3, 3, 5, 0], 100, 7)
         == ScanState([Record(100, 102, 0), Record(102, 105, 3), Record(105, 106, 5)], 6, 0)
  {
    var v: seq<nat> := [0, 0, 3, 3, 3, 5, 0];
    assert Scan(v, 100, 1) == ScanState([], 0, 0);
    assert Scan(v, 100, 2) == ScanState([], 0, 0);
    assert Scan(v, 100, 3) == ScanState([Record(100, 102, 0)], 2, 3);
    assert Scan(v, 100, 4) == ScanState([Record(100, 102, 0)], 2, 3);
    assert Scan(v, 100, 5) == ScanState([Record(100, 102, 0)], 2, 3);
    assert Scan(v, 100, 6) == ScanState([Record(100, 102, 0), Record(102, 105, 3)], 5, 5);
    assert Scan(v, 100, 7) == ScanState([Record(100, 102, 0), Record(102, 105, 3), Record(105, 106, 5)], 6, 0);
  }

  /** The worked example [0,0,3,3,3,5,0] at 100: the trailing single 0 is not written. */
  lemma Example()
    ensures ToBedgraph(1, 100, [0, 0, 3, 3, 3, 5, 0]) ==
      [Record(100, 102, 0), Record(102, 105, 3), Record(105, 106, 5)]
  {
    ExampleScan();
  }

  /** The trailing flush as intended: the open run is always written, as the half-open record ending at |v| + pos1. */
  function FlushIntended(v: seq<nat>, pos1: int, s: ScanState): seq<Record>
  {
    s.records + [Record(s.runStart + pos1, |v| + pos1, s.runValue)]
  }

  /** After the whole loop, the intended flush tiles the whole vector. */
  lemma FlushIntendedTiles(v: seq<nat>, pos1: int, s: ScanState)
    requires ScanInvariant(v, pos1, |v|, s)
    ensures Tiles(FlushIntended(v, pos1, s), pos1, v, |v|)
  {
    TilesAppend(s.records, pos1, v, s.runStart, |v|, s.runValue);
  }

  /**
   The emitter with the trailing run always flushed as the half-open
   record (runStart + pos1, |v| + pos1, runValue): what it writes tiles
   the whole vector.
   */
  function ToBedgraphIntended(chr: int, pos1: int, v: seq<nat>): (r: seq<Record>)
    ensures chr == -1 || |v| == 0 ==> r == []
    ensures chr != -1 && |v| > 0 ==> Tiles(r, pos1, v, |v|)
  {
    if chr == -1 || |v| == 0 then []
    else
      ScanKeepsInvariant(v, pos1, |v|);
      FlushIntendedTiles(v, pos1, Scan(v, pos1, |v|));
      FlushIntended(v, pos1, Scan(v, pos1, |v|))
  }

  /** Decoding what the intended emitter writes gives back the whole vector, in maximal runs. */
  lemma ToBedgraphIntendedRoundTrip(chr: int, pos1: int, v: seq<nat>)
    requires chr != -1 && |v| > 0
    ensures var r := ToBedgraphIntended(chr, pos1, v);
      Contiguous(r, pos1) && Maximal(r) && Faithful(r, pos1, v) && Expand(r) == v
  {
    TilesShape(ToBedgraphIntended(chr, pos1, v), pos1, v, |v|);
    assert v[..|v|] == v;
  }

  /** On the worked example the code as written loses the last base: its records decode to six depths, not seven. */
  lemma ExampleLosesLastBase()
    ensures Expand(ToBedgraph(1, 100, [0, 0, 3, 3, 3, 5, 0])) != [0, 0, 3, 3, 3, 5, 0]
  {
    ToBedgraphShape(1, 100, [0, 0, 3, 3, 3, 5, 0]);
  }

  /** On the worked example the intended emitter also writes the trailing run (106, 107, 0). */
  lemma ExampleIntended()
    ensures ToBedgraphIntended(1, 100, [0, 0, 3, 3, 3, 5, 0]) ==
      [Record(100, 102, 0), Record(102, 105, 3), Record(105, 106, 5), Record(106, 107, 0)]
  {
    ExampleScan();
  }

  /**
   The loop of the source, written imperatively: its state after each
   iteration is the functional scan's, so it writes the same records.
   */
  method EmitBedgraph(chr: int, pos1: int, v: seq<nat>) returns (out: seq<Record>)
    ensures out == ToBedgraph(chr, pos1, v)
  {
    out := [];
    if chr == -1 || |v| == 0 {
      return;
    }
    var runStart: nat := 0;
    var runValue := v[0];
    var i := 0;
    while i < |v|
      invariant i <= |v|
      invariant ScanState(out, runStart, runValue) == Scan(v, pos1, i)
      decreases |v| - i
    {
      assert Scan(v, pos1, i + 1) == Step(v, pos1, i, Scan(v, pos1, i));
      if v[i] != runValue {
        out := out + [Record(runStart + pos1, i + pos1, runValue)];
        runStart := i;
        runValue := v[i];
      }
      i := i + 1;
    }
    assert ScanState(out, runStart, runValue) == Scan(v, pos1, |v|);
    if runStart + 1 != |v| {
      out := out + [Record(runStart + pos1, |v| + pos1 - 1, runValue)];
    }
  }
}
