/**
 The coverage accumulator of STCoverage: a region descriptor, a dense
 per-base vector sized to the region, and a sparse table from chromosome id
 to a table from position to read count. Reads are ingested one at a time
 into the sparse table; point queries read it back; the emitter reads the
 dense vector.
 */
module Coverage {
  import Bedgraph

  /** The region an accumulator is built over: chromosome id (-1 when unset), first base, and width in bases. */
  datatype Region = Region(chr: int, pos1: int, width: nat)

  /** The footprint of one aligned read: chromosome id and inclusive span [position, positionEnd]. */
  datatype Read = Read(chrId: int, position: int, positionEnd: int)

  /** Position to read count, for one chromosome. */
  type Row = map<int, nat>

  /** Chromosome id to its row. */
  type Table = map<int, Row>

  /** The accumulator: its region, the dense vector `v`, and the sparse table `m_map`. */
  datatype Accumulator = Accumulator(region: Region, dense: seq<nat>, table: Table)

  /** The row of a chromosome, empty when the chromosome was never touched. */
  function RowOf(t: Table, chr: int): Row
  {
    if chr in t then t[chr] else map[]
  }

  /** The count stored at (chr, pos), 0 when either key is absent. */
  function Count(t: Table, chr: int, pos: int): nat
  {
    var row := RowOf(t, chr);
    if pos in row then row[pos] else 0
  }

  /** A read is ingested only when neither end of its span is negative. */
  predicate EndsNonNegative(read: Read)
  {
    read.position >= 0 && read.positionEnd >= 0
  }

  /** Ingesting the read increments at least one position: it is valid and its span is not empty. */
  predicate Touches(read: Read)
  {
    EndsNonNegative(read) && read.position <= read.positionEnd
  }

  /** The read is ingested and its span contains base `pos` of chromosome `chr`. */
  predicate Covers(read: Read, chr: int, pos: int)
  {
    EndsNonNegative(read) && read.chrId == chr && read.position <= pos <= read.positionEnd
  }

  /** The constructor: a zero dense vector of the region's width and no chromosome in the table. */
  function New(region: Region): (a: Accumulator)
    ensures a.region == region && a.table == map[]
    ensures |a.dense| == region.width
    ensures forall k :: 0 <= k < |a.dense| ==> a.dense[k] == 0
  {
    Accumulator(region, seq(region.width, _ => 0), map[])
  }

  /**
   `m_map[chr][pos]++`: creates the row and the entry on first touch, and
   raises the count at (chr, pos) by one and no other count.
   */
  function Increment(t: Table, chr: int, pos: int): (r: Table)
    ensures forall c :: c in r <==> c in t || c == chr
    ensures forall c, q :: q in RowOf(r, c) <==> q in RowOf(t, c) || (c == chr && q == pos)
    ensures forall c, q :: Count(r, c, q) == Count(t, c, q) + (if c == chr && q == pos then 1 else 0)
  {
    var row := RowOf(t, chr);
    t[chr := row[pos := Count(t, chr, pos) + 1]]
  }

  /**
   The `while (p <= e)` loop of addRead: one increment per position of
   [p, e], and none at all (not even the row) when p > e.
   */
  function IncrementSpan(t: Table, chr: int, p: int, e: int): (r: Table)
    ensures forall c :: c in r <==> c in t || (c == chr && p <= e)
    ensures forall c, q :: q in RowOf(r, c) <==> q in RowOf(t, c) || (c == chr && p <= q <= e)
    ensures forall c, q :: Count(r, c, q) == Count(t, c, q) + (if c == chr && p <= q <= e then 1 else 0)
    decreases e - p
  {
    if p > e then t else IncrementSpan(Increment(t, chr, p), chr, p + 1, e)
  }

  /**
   addRead: a read with a negative end is skipped; otherwise every base of
   its inclusive span gains one count on its chromosome. The dense vector
   is never written, and a chromosome enters the table only when at least
   one base was counted.
   */
  function AddRead(a: Accumulator, read: Read): (r: Accumulator)
    ensures r.region == a.region && r.dense == a.dense
    ensures !Touches(read) ==> r == a
    ensures forall c :: c in r.table <==> c in a.table || (Touches(read) && c == read.chrId)
    ensures forall c, q :: q in RowOf(r.table, c) <==> q in RowOf(a.table, c) || Covers(read, c, q)
    ensures forall c, q :: Count(r.table, c, q) == Count(a.table, c, q) + (if Covers(read, c, q) then 1 else 0)
  {
    if read.position < 0 || read.positionEnd < 0 then a
    else a.(table := IncrementSpan(a.table, read.chrId, read.position, read.positionEnd))
  }

  /**
   getCoverageAtPosition: 0 for a chromosome not in the table, which is
   left as it was; otherwise the stored count, 0 for a position never
   touched. Looking the position up with `operator[]` may add it to the
   row with count 0, but no count and no chromosome key changes.
   */
  function CoverageAtPosition(a: Accumulator, chr: int, pos: int): (r: (nat, Accumulator))
    ensures chr !in a.table ==> r.0 == 0 && r.1 == a
    ensures chr in a.table ==> r.0 == (if pos in a.table[chr] then a.table[chr][pos] else 0)
    ensures r.1.region == a.region && r.1.dense == a.dense && r.1.table.Keys == a.table.Keys
    ensures forall c, q :: q in RowOf(r.1.table, c) <==> q in RowOf(a.table, c) || (chr in a.table && c == chr && q == pos)
    ensures forall c, q :: Count(r.1.table, c, q) == Count(a.table, c, q)
  {
    if chr !in a.table then (0, a)
    else
      var row := a.table[chr];
      var n := if pos in row then row[pos] else 0;
      (n, a.(table := a.table[chr := row[pos := n]]))
  }

  /** ToBedgraph on the accumulator: the emitter run over the region's chromosome, first base and dense vector. */
  function Export(a: Accumulator): (r: seq<Bedgraph.Record>)
    ensures a.region.chr == -1 || |a.dense| == 0 ==> r == []
    ensures a.region.chr != -1 && |a.dense| > 0 ==> Bedgraph.Tiles(r, a.region.pos1, a.dense, |a.dense| - 1)
  {
    Bedgraph.ToBedgraph(a.region.chr, a.region.pos1, a.dense)
  }
}
