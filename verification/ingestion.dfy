/**
 A run of addRead calls over a sequence of spans, and what it leaves in the
 accumulator: the count at (chr, pos) is the number of ingested reads that
 cover it, whatever the order of the spans, and the dense vector is never
 written.
 */
module Ingestion {
  import Bedgraph
  import opened Coverage

  /** The number of valid reads in `spans` whose span contains base `pos` of chromosome `chr`. */
  function Covering(spans: seq<Read>, chr: int, pos: int): nat
  {
    if |spans| == 0 then 0
    else (if Covers(spans[0], chr, pos) then 1 else 0) + Covering(spans[1..], chr, pos)
  }

  /**
   addRead applied to each read in turn. Each count grows by the number of
   reads covering it, a row gains exactly the positions some read covers,
   and a chromosome enters the table only when some read touches it.
   */
  function Ingest(a: Accumulator, spans: seq<Read>): (r: Accumulator)
    ensures r.region == a.region && r.dense == a.dense
    ensures forall c :: c in r.table <==> c in a.table || exists read :: read in spans && Touches(read) && read.chrId == c
    ensures forall c, q :: q in RowOf(r.table, c) <==> q in RowOf(a.table, c) || Covering(spans, c, q) > 0
    ensures forall c, q :: Count(r.table, c, q) == Count(a.table, c, q) + Covering(spans, c, q)
    decreases |spans|
  {
    if |spans| == 0 then a
    else
      assert forall read :: read in spans <==> read == spans[0] || read in spans[1..];
      Ingest(AddRead(a, spans[0]), spans[1..])
  }

  /** Covering counts over a concatenation add up. */
  lemma {:induction false} CoveringAppend(xs: seq<Read>, ys: seq<Read>, chr: int, pos: int)
    ensures Covering(xs + ys, chr, pos) == Covering(xs, chr, pos) + Covering(ys, chr, pos)
    decreases |xs|
  {
    if |xs| > 0 {
      assert (xs + ys)[1..] == xs[1..] + ys;
      CoveringAppend(xs[1..], ys, chr, pos);
    } else {
      assert xs + ys == ys;
    }
  }

  /** Covering counts depend only on the multiset of spans, not on their order. */
  lemma {:induction false} CoveringPermutation(xs: seq<Read>, ys: seq<Read>, chr: int, pos: int)
    requires multiset(xs) == multiset(ys)
    ensures Covering(xs, chr, pos) == Covering(ys, chr, pos)
    decreases |xs|
  {
    if |xs| > 0 {
      var x := xs[0];
      assert x in multiset(ys);
      var i :| 0 <= i < |ys| && ys[i] == x;
      var rest := ys[..i] + ys[i + 1..];
      assert ys == ys[..i] + [x] + ys[i + 1..];
      assert xs == [x] + xs[1..];
      assert multiset(ys) == multiset(ys[..i]) + multiset([x]) + multiset(ys[i + 1..]);
      assert multiset(xs) == multiset([x]) + multiset(xs[1..]);
      assert multiset(rest) == multiset(ys[..i]) + multiset(ys[i + 1..]);
      assert multiset(xs[1..]) == multiset(xs) - multiset{x};
      assert multiset(rest) == multiset(ys) - multiset{x};
      CoveringPermutation(xs[1..], rest, chr, pos);
      CoveringAppend(ys[..i] + [x], ys[i + 1..], chr, pos);
      CoveringAppend(ys[..i], [x], chr, pos);
      CoveringAppend(ys[..i], ys[i + 1..], chr, pos);
    }
  }

  /** Two tables with the same chromosomes, the same positions per row and the same counts are equal. */
  lemma SameTable(t1: Table, t2: Table)
    requires forall c :: c in t1 <==> c in t2
    requires forall c, q :: q in RowOf(t1, c) <==> q in RowOf(t2, c)
    requires forall c, q :: Count(t1, c, q) == Count(t2, c, q)
    ensures t1 == t2
  {
    forall c | c in t1
      ensures t1[c] == t2[c]
    {
      assert RowOf(t1, c) == t1[c] && RowOf(t2, c) == t2[c];
      forall q
        ensures q in t1[c].Keys <==> q in t2[c].Keys
        ensures q in t1[c] ==> t1[c][q] == t2[c][q]
      {
        assert q in RowOf(t1, c) <==> q in RowOf(t2, c);
        assert Count(t1, c, q) == Count(t2, c, q);
      }
      assert t1[c].Keys == t2[c].Keys;
    }
    forall c
      ensures c in t1.Keys <==> c in t2.Keys
    {
      assert c in t1 <==> c in t2;
    }
    assert t1.Keys == t2.Keys;
  }

  /** Ingesting the same reads in any order leaves the same accumulator. */
  lemma IngestOrderIndependent(a: Accumulator, xs: seq<Read>, ys: seq<Read>)
    requires multiset(xs) == multiset(ys)
    ensures Ingest(a, xs) == Ingest(a, ys)
  {
    forall read
      ensures read in xs <==> read in ys
    {
      assert read in xs <==> read in multiset(xs);
      assert read in ys <==> read in multiset(ys);
    }
    forall c, q
      ensures Covering(xs, c, q) == Covering(ys, c, q)
    {
      CoveringPermutation(xs, ys, c, q);
    }
    SameTable(Ingest(a, xs).table, Ingest(a, ys).table);
  }

  /** Two addRead calls commute. */
  lemma AddReadCommutes(a: Accumulator, x: Read, y: Read)
    ensures AddRead(AddRead(a, x), y) == AddRead(AddRead(a, y), x)
  {
    var ax := AddRead(a, x);
    var ay := AddRead(a, y);
    var t1 := AddRead(ax, y).table;
    var t2 := AddRead(ay, x).table;
    forall c
      ensures c in t1 <==> c in t2
    {
      assert c in t1 <==> c in ax.table || (Touches(y) && c == y.chrId);
      assert c in t2 <==> c in ay.table || (Touches(x) && c == x.chrId);
    }
    forall c, q
      ensures q in RowOf(t1, c) <==> q in RowOf(t2, c)
      ensures Count(t1, c, q) == Count(t2, c, q)
    {
      assert q in RowOf(t1, c) <==> q in RowOf(ax.table, c) || Covers(y, c, q);
      assert q in RowOf(t2, c) <==> q in RowOf(ay.table, c) || Covers(x, c, q);
      assert Count(t1, c, q) == Count(ax.table, c, q) + (if Covers(y, c, q) then 1 else 0);
      assert Count(t2, c, q) == Count(ay.table, c, q) + (if Covers(x, c, q) then 1 else 0);
    }
    SameTable(t1, t2);
  }

  /** Ingesting a read twice adds two to every base of its span and nothing elsewhere. */
  lemma IngestTwice(a: Accumulator, read: Read, chr: int, pos: int)
    ensures Count(Ingest(a, [read, read]).table, chr, pos)
         == Count(a.table, chr, pos) + (if Covers(read, chr, pos) then 2 else 0)
  {
    assert [read, read][1..] == [read];
  }

  /**
   Starting from a fresh accumulator, the point query after any run of
   reads returns the number of valid reads covering that base, which is 0
   for a chromosome no read touched.
   */
  lemma QueryAfterIngest(region: Region, spans: seq<Read>, chr: int, pos: int)
    ensures CoverageAtPosition(Ingest(New(region), spans), chr, pos).0 == Covering(spans, chr, pos)
  {
  }

  /** A chromosome enters the table of a fresh accumulator only through a read that touches it. */
  lemma ChromosomeOnlyAfterRead(region: Region, spans: seq<Read>, chr: int)
    ensures chr in Ingest(New(region), spans).table <==> exists read :: read in spans && Touches(read) && read.chrId == chr
  {
  }

  /**
   The dense vector stays the zero vector of the region's width, so the
   export of an accumulator after any reads is one zero record over all but
   the last base when the width is at least 2, and nothing otherwise.
   */
  lemma ExportAfterIngest(region: Region, spans: seq<Read>)
    ensures var a := Ingest(New(region), spans);
      && a.dense == seq(region.width, _ => 0)
      && Export(a) == if region.chr == -1 || region.width < 2 then []
                      else [Bedgraph.Record(region.pos1, region.pos1 + region.width - 1, 0)]
  {
    var a := Ingest(New(region), spans);
    assert a.dense == seq(region.width, _ => 0);
    if region.chr != -1 && region.width >= 2 {
      Bedgraph.ConstantVector(region.chr, region.pos1, a.dense);
    } else if region.chr != -1 && region.width == 1 {
      Bedgraph.SingleBase(region.chr, region.pos1, 0);
      assert a.dense == [0];
    }
  }
}
