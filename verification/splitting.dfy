/**
  Splitting of a wide log (the column arithmetic of CoreQC.split_export):
  the metadata columns are combined with consecutive windows of at most
  DataColsSegment measurement columns, and the chunks are numbered from 1.
 */
module Splitting {
  import opened Schema
  import opened Tables

  /** One output part: its number and the column positions it takes, in order. */
  datatype Chunk = Chunk(number: nat, columns: seq<nat>)

  /** The positions lo, lo + 1, ..., hi - 1. */
  function Range(lo: nat, hi: nat): (r: seq<nat>)
    ensures |r| == if lo <= hi then hi - lo else 0
    ensures forall k :: 0 <= k < |r| ==> r[k] == lo + k
  {
    if lo >= hi then [] else seq(hi - lo, k requires 0 <= k < hi - lo => lo + k)
  }

  lemma RangeAppend(lo: nat, mid: nat, hi: nat)
    requires lo <= mid <= hi
    ensures Range(lo, mid) + Range(mid, hi) == Range(lo, hi)
  {
  }

  /** The measurement part of a header or a row, that is, all after the metadata block. */
  function Tail<T>(xs: seq<T>): seq<T> {
    if |xs| >= MetadataCols then xs[MetadataCols..] else []
  }

  /** The parts' measurement columns put back side by side, in part order. */
  function Rejoin<T>(parts: seq<seq<T>>): seq<T> {
    if |parts| == 0 then [] else Rejoin(parts[..|parts| - 1]) + Tail(parts[|parts| - 1])
  }

  /** The measurement positions of a chunk: what follows the metadata columns. */
  function Window(c: Chunk): seq<nat> {
    Tail(c.columns)
  }

  /** The column positions of every chunk, in chunk order. */
  function Positions(chunks: seq<Chunk>): seq<seq<nat>> {
    seq(|chunks|, k requires 0 <= k < |chunks| => chunks[k].columns)
  }

  /** The windows of all chunks, concatenated in chunk order. */
  function Windows(chunks: seq<Chunk>): seq<nat> {
    Rejoin(Positions(chunks))
  }

  /** The first measurement column of chunk `k`. */
  function Start(k: nat): nat {
    MetadataCols + k * DataColsSegment
  }

  lemma StartNext(k: nat)
    ensures Start(k + 1) == Start(k) + DataColsSegment
  {
  }

  /** The shape of chunk `k` of a log with `total` columns. */
  predicate ChunkShape(c: Chunk, k: nat, total: nat) {
    && c.number == k + 1
    && Start(k) < total
    && c.columns == Range(0, MetadataCols) + Range(Start(k), Min(Start(k) + DataColsSegment, total))
  }

  /** A chunk of that shape carries a non-empty window of at most DataColsSegment columns. */
  lemma ShapeWindow(c: Chunk, k: nat, total: nat)
    requires ChunkShape(c, k, total)
    ensures Window(c) == Range(Start(k), Min(Start(k) + DataColsSegment, total))
    ensures 0 < |Window(c)| <= DataColsSegment
  {
  }

  /** Appending the next chunk extends the covered measurement columns by its window. */
  lemma ExtendWindows(chunks: seq<Chunk>, c: Chunk, first: nat, last: nat)
    requires MetadataCols <= first <= last
    requires Windows(chunks) == Range(MetadataCols, first)
    requires Window(c) == Range(first, last)
    ensures Windows(chunks + [c]) == Range(MetadataCols, last)
  {
    var before := Positions(chunks + [c]);
    assert before[..|chunks|] == Positions(chunks) && before[|chunks|] == c.columns;
    RangeAppend(MetadataCols, first, last);
  }

  /** Appending chunk number |chunks| + 1 keeps every chunk in shape. */
  lemma ExtendShapes(chunks: seq<Chunk>, c: Chunk, total: nat)
    requires forall k :: 0 <= k < |chunks| ==> ChunkShape(chunks[k], k, total)
    requires ChunkShape(c, |chunks|, total)
    ensures forall k :: 0 <= k < |chunks| + 1 ==> ChunkShape((chunks + [c])[k], k, total)
  {
    forall k | 0 <= k < |chunks| + 1
      ensures ChunkShape((chunks + [c])[k], k, total)
    {
      if k < |chunks| {
        assert (chunks + [c])[k] == chunks[k];
      }
    }
  }

  /** `n` windows of `DataColsSegment` cover `x` positions exactly when n is ⌈x / DataColsSegment⌉. */
  lemma CeilingCount(x: nat, n: nat)
    requires n > 0 && (n - 1) * DataColsSegment < x <= n * DataColsSegment
    ensures n == (x + DataColsSegment - 1) / DataColsSegment
  {
  }

  /**
    The chunk plan for a log with `total` columns: none below
    MetadataCols + DataColCap columns; otherwise ⌈(total − MetadataCols) /
    DataColsSegment⌉ chunks, each the metadata columns followed by a
    non-empty window of at most DataColsSegment consecutive measurement
    columns, the windows together giving every measurement column once, in
    order.
   */
  method SplitPlan(total: nat) returns (chunks: seq<Chunk>)
    ensures |chunks| == 0 <==> total < MetadataCols + DataColCap
    ensures |chunks| > 0 ==> |chunks| == (total - MetadataCols + DataColsSegment - 1) / DataColsSegment
    ensures forall k :: 0 <= k < |chunks| ==> ChunkShape(chunks[k], k, total)
    ensures forall k :: 0 <= k < |chunks| ==> 0 < |Window(chunks[k])| <= DataColsSegment
    ensures |chunks| > 0 ==> Windows(chunks) == Range(MetadataCols, total)
    ensures |chunks| > 0 ==> total <= Start(|chunks|)
  {
    chunks := [];
    if total < MetadataCols + DataColCap {
      return;
    }
    var i := 1;
    var first := MetadataCols;
    while first < total
      invariant i == |chunks| + 1
      invariant first == Start(|chunks|)
      invariant |chunks| > 0 ==> Start(|chunks| - 1) < total
      invariant forall k :: 0 <= k < |chunks| ==> ChunkShape(chunks[k], k, total)
      invariant Windows(chunks) == Range(MetadataCols, Min(first, total))
      decreases total - first
    {
      var last := first + DataColsSegment;
      var columns;
      if last < total {
        columns := Range(0, MetadataCols) + Range(first, last);
      } else {
        columns := Range(0, MetadataCols) + Range(first, total);
      }
      var chunk := Chunk(i, columns);
      assert ChunkShape(chunk, |chunks|, total);
      ShapeWindow(chunk, |chunks|, total);
      ExtendWindows(chunks, chunk, first, Min(last, total));
      ExtendShapes(chunks, chunk, total);
      StartNext(|chunks|);
      chunks := chunks + [chunk];
      first := last;
      i := i + 1;
    }
    CeilingCount(total - MetadataCols, |chunks|);
    forall k | 0 <= k < |chunks|
      ensures 0 < |Window(chunks[k])| <= DataColsSegment
    {
      ShapeWindow(chunks[k], k, total);
    }
  }

  /** 16 columns are not split; 17 columns give two chunks. */
  method SplitBoundary() returns (narrow: nat, wide: nat)
    ensures narrow == 0 && wide == 2
  {
    var a := SplitPlan(MetadataCols + DataColCap - 1);
    var b := SplitPlan(MetadataCols + DataColCap);
    narrow, wide := |a|, |b|;
  }

  /** The part of the table a chunk selects: same rows, the chosen columns in order. */
  function ChunkTable(t: LogTable, c: Chunk): (r: LogTable)
    requires WellFormed(t)
    requires forall k :: 0 <= k < |c.columns| ==> c.columns[k] < |t.columns|
    ensures WellFormed(r)
    ensures |r.columns| == |c.columns| && |r.rows| == |t.rows|
    ensures forall k :: 0 <= k < |c.columns| ==> r.columns[k] == t.columns[c.columns[k]]
    ensures forall i, k :: 0 <= i < |t.rows| && 0 <= k < |c.columns| ==>
      r.rows[i].index == t.rows[i].index && r.rows[i].cells[k] == t.rows[i].cells[c.columns[k]]
  {
    var rows := seq(|t.rows|, i requires 0 <= i < |t.rows| =>
      Row(t.rows[i].index, seq(|c.columns|, k requires 0 <= k < |c.columns| => t.rows[i].cells[c.columns[k]])));
    assert forall i :: 0 <= i < |rows| ==> rows[i].index == t.rows[i].index;
    LogTable(seq(|c.columns|, k requires 0 <= k < |c.columns| => t.columns[c.columns[k]]), rows)
  }

  /** One past the last measurement column of chunk `k`. */
  function End(k: nat, total: nat): nat {
    Min(Start(k) + DataColsSegment, total)
  }

  /** What chunk `k` keeps of a header or a row: the metadata block, then its window. */
  function Slice<T>(xs: seq<T>, k: nat): seq<T>
    requires Start(k) < |xs|
  {
    xs[..MetadataCols] + xs[Start(k)..End(k, |xs|)]
  }

  /** Pieces that are the slices of chunks 0, 1, ... of `xs`, in order. */
  ghost predicate SlicesOf<T>(pieces: seq<seq<T>>, xs: seq<T>) {
    forall k :: 0 <= k < |pieces| ==> Start(k) < |xs| && pieces[k] == Slice(xs, k)
  }

  /** The slices of the first chunks rejoin to the measurement columns they cover. */
  lemma {:induction false} RejoinSlices<T>(xs: seq<T>, pieces: seq<seq<T>>)
    requires 0 < |pieces| && SlicesOf(pieces, xs)
    ensures Start(|pieces| - 1) < |xs|
    ensures Rejoin(pieces) == xs[MetadataCols..End(|pieces| - 1, |xs|)]
  {
    var count := |pieces|;
    assert Start(count - 1) < |xs| && pieces[count - 1] == Slice(xs, count - 1);
    assert Tail(pieces[count - 1]) == xs[Start(count - 1)..End(count - 1, |xs|)];
    var before := pieces[..count - 1];
    if count == 1 {
      assert before == [];
    } else {
      assert forall k :: 0 <= k < |before| ==> before[k] == pieces[k];
      RejoinSlices(xs, before);
      assert End(count - 2, |xs|) == Start(count - 1);
      assert xs[MetadataCols..Start(count - 1)] + xs[Start(count - 1)..End(count - 1, |xs|)]
          == xs[MetadataCols..End(count - 1, |xs|)];
    }
  }

  /** Slices covering every column rejoin, after the metadata block, to the whole header or row. */
  lemma {:induction false} CoveringSlicesRejoin<T>(xs: seq<T>, pieces: seq<seq<T>>)
    requires 0 < |pieces| && SlicesOf(pieces, xs) && MetadataCols < |xs| <= Start(|pieces|)
    ensures xs[..MetadataCols] + Rejoin(pieces) == xs
  {
    RejoinSlices(xs, pieces);
    StartNext(|pieces| - 1);
    assert End(|pieces| - 1, |xs|) == |xs|;
    assert xs[..MetadataCols] + xs[MetadataCols..] == xs;
  }

  /** `p` has the rows of `t` and begins with its whole metadata block. */
  predicate PartOf(p: LogTable, t: LogTable)
    requires WellFormed(t)
  {
    && |t.columns| > MetadataCols
    && WellFormed(p)
    && |p.rows| == |t.rows|
    && |p.columns| > MetadataCols
    && p.columns[..MetadataCols] == t.columns[..MetadataCols]
    && forall i, k :: 0 <= i < |t.rows| && 0 <= k < MetadataCols ==>
         p.rows[i].index == t.rows[i].index && p.rows[i].cells[k] == t.rows[i].cells[k]
  }

  /** A chunk of that shape lists the metadata positions, then its window, all inside the table. */
  lemma {:induction false} ShapeIndices(c: Chunk, k: nat, total: nat)
    requires ChunkShape(c, k, total)
    ensures |c.columns| == End(k, total) - Start(k) + MetadataCols
    ensures forall m :: 0 <= m < MetadataCols ==> c.columns[m] == m
    ensures forall m :: MetadataCols <= m < |c.columns| ==> c.columns[m] == Start(k) + (m - MetadataCols)
    ensures forall m :: 0 <= m < |c.columns| ==> c.columns[m] < total
  {
    assert forall m :: 0 <= m < MetadataCols ==> c.columns[m] == m;
    assert forall m :: MetadataCols <= m < |c.columns| ==> c.columns[m] == Start(k) + (m - MetadataCols);
  }

  /** Reading a header or a row at a chunk's positions gives that chunk's slice of it. */
  lemma {:induction false} PickedSlice<T>(xs: seq<T>, ys: seq<T>, c: Chunk, k: nat)
    requires ChunkShape(c, k, |xs|)
    requires |ys| == |c.columns| && forall m :: 0 <= m < |c.columns| ==> ys[m] == xs[c.columns[m]]
    ensures ys == Slice(xs, k)
  {
    ShapeIndices(c, k, |xs|);
    var s := Slice(xs, k);
    assert |s| == |ys|;
    forall m | 0 <= m < |ys|
      ensures ys[m] == s[m]
    {
      if m < MetadataCols {
        assert s[m] == xs[m];
      } else {
        assert s[m] == xs[Start(k) + (m - MetadataCols)];
      }
    }
  }

  /** The part a planned chunk produces: the metadata block and the chunk's window, on every row. */
  function PlannedPart(t: LogTable, c: Chunk, k: nat): (p: LogTable)
    requires WellFormed(t) && ChunkShape(c, k, |t.columns|)
    ensures PartOf(p, t)
    ensures SlicedPart(p, t, k)
  {
    ShapeIndices(c, k, |t.columns|);
    var p := ChunkTable(t, c);
    PickedSlice(t.columns, p.columns, c, k);
    forall i | 0 <= i < |t.rows|
      ensures p.rows[i] == Row(t.rows[i].index, Slice(t.rows[i].cells, k))
    {
      PickedSlice(t.rows[i].cells, p.rows[i].cells, c, k);
    }
    p
  }

  /** `p` is part `n` of `t`: the metadata block and window `n`, of the header and of every row. */
  predicate SlicedPart(p: LogTable, t: LogTable, n: nat)
    requires WellFormed(t)
  {
    && Start(n) < |t.columns|
    && p.columns == Slice(t.columns, n)
    && |p.rows| == |t.rows|
    && forall i :: 0 <= i < |t.rows| ==> p.rows[i] == Row(t.rows[i].index, Slice(t.rows[i].cells, n))
  }

  /** The headers of the parts, in part order. */
  function Headers(parts: seq<LogTable>): seq<seq<string>> {
    seq(|parts|, n requires 0 <= n < |parts| => parts[n].columns)
  }

  /** Row `i` of every part, in part order; a part without that row contributes nothing. */
  function RowCells(parts: seq<LogTable>, i: nat): seq<seq<Cell>> {
    seq(|parts|, n requires 0 <= n < |parts| => if i < |parts[n].rows| then parts[n].rows[i].cells else [])
  }

  /**
    The parts of a wide log (CoreQC.split_export). Part n keeps the metadata
    block and the window of chunk n, of the header and of every row; putting
    the parts' windows back side by side gives the log again.
   */
  method SplitLog(t: LogTable) returns (parts: seq<LogTable>)
    requires WellFormed(t)
    ensures |parts| == 0 <==> |t.columns| < MetadataCols + DataColCap
    ensures |parts| > 0 ==> |parts| == (|t.columns| - MetadataCols + DataColsSegment - 1) / DataColsSegment
    ensures forall n :: 0 <= n < |parts| ==> PartOf(parts[n], t)
    ensures forall n :: 0 <= n < |parts| ==> SlicedPart(parts[n], t, n)
    ensures |parts| > 0 ==> t.columns[..MetadataCols] + Rejoin(Headers(parts)) == t.columns
    ensures |parts| > 0 ==> forall i :: 0 <= i < |t.rows| ==>
      t.rows[i].cells[..MetadataCols] + Rejoin(RowCells(parts, i)) == t.rows[i].cells
  {
    var plan := SplitPlan(|t.columns|);
    parts := [];
    for n := 0 to |plan|
      invariant |parts| == n
      invariant forall m :: 0 <= m < n ==> PartOf(parts[m], t)
      invariant forall m :: 0 <= m < n ==> SlicedPart(parts[m], t, m)
    {
      var p := PlannedPart(t, plan[n], n);
      forall m | 0 <= m < n + 1
        ensures PartOf((parts + [p])[m], t) && SlicedPart((parts + [p])[m], t, m)
      {
        if m < n {
          assert (parts + [p])[m] == parts[m];
        }
      }
      parts := parts + [p];
    }
    if |parts| > 0 {
      HeadersRejoin(t, parts);
      forall i | 0 <= i < |t.rows|
        ensures t.rows[i].cells[..MetadataCols] + Rejoin(RowCells(parts, i)) == t.rows[i].cells
      {
        RowRejoins(t, parts, i);
      }
    }
  }

  /** Parts sliced as the plan slices them, covering every column. */
  predicate Covering(t: LogTable, parts: seq<LogTable>)
    requires WellFormed(t)
  {
    && 0 < |parts|
    && MetadataCols < |t.columns| <= Start(|parts|)
    && forall n :: 0 <= n < |parts| ==> SlicedPart(parts[n], t, n)
  }

  /** The whole header comes back from covering parts. */
  lemma HeadersRejoin(t: LogTable, parts: seq<LogTable>)
    requires WellFormed(t) && Covering(t, parts)
    ensures t.columns[..MetadataCols] + Rejoin(Headers(parts)) == t.columns
  {
    forall k | 0 <= k < |parts|
      ensures Start(k) < |t.columns| && Headers(parts)[k] == Slice(t.columns, k)
    {
      assert SlicedPart(parts[k], t, k);
    }
    CoveringSlicesRejoin(t.columns, Headers(parts));
  }

  /** Every row comes back whole from covering parts. */
  lemma RowRejoins(t: LogTable, parts: seq<LogTable>, i: nat)
    requires WellFormed(t) && Covering(t, parts) && i < |t.rows|
    ensures t.rows[i].cells[..MetadataCols] + Rejoin(RowCells(parts, i)) == t.rows[i].cells
  {
    var cells := t.rows[i].cells;
    forall k | 0 <= k < |parts|
      ensures Start(k) < |cells| && RowCells(parts, i)[k] == Slice(cells, k)
    {
      assert SlicedPart(parts[k], t, k);
    }
    CoveringSlicesRejoin(cells, RowCells(parts, i));
  }
}
