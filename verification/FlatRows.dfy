/** cpp/cpp_target.cpp (advance_buffers): the copy that shifts rows works on flat positions of the buffer;
    accesses use addresses.  They agree.
 */
module FlatRows {
  import opened IslModel
  import opened FoldedMemory
  import opened ScheduledPrograms
  import opened IndexArithmetic
  import opened Buffers
  import opened DataShifting
  import opened MovedRows

  /** Position of an index in an array of the given sizes, the last dimension being contiguous. */
  function Flat(v: Vec, sizes: seq<int>): int
    requires |v| == |sizes|
  {
    if v == [] then 0 else Flat(v[..|v| - 1], sizes[..|v| - 1]) * sizes[|v| - 1] + v[|v| - 1]
  }

  ghost predicate Within(v: Vec, sizes: seq<int>) {
    |v| == |sizes| && forall d :: 0 <= d < |v| ==> 0 <= v[d] < sizes[d]
  }

  /** Dimensions of size 1, which are not stored, do not change the position. */
  lemma {:induction false} FlatOfAddress(v: Vec, sizes: seq<int>)
    requires Within(v, sizes)
    ensures |Wide(v, sizes)| == |Wide(sizes, sizes)| && Flat(Wide(v, sizes), Wide(sizes, sizes)) == Flat(v, sizes)
  {
    if v != [] {
      var n := |v| - 1;
      FlatOfAddress(v[..n], sizes[..n]);
      WideAgrees(v[..n], sizes, v[..n], sizes[..n]);
      WideAgrees(sizes[..n], sizes, sizes[..n], sizes[..n]);
      var w, s := Wide(v[..n], sizes), Wide(sizes[..n], sizes);
      if sizes[n] == 1 {
        assert Wide(v, sizes) == w && Wide(sizes, sizes) == s && v[n] == 0;
      } else {
        assert Wide(v, sizes) == w + [v[n]] && Wide(sizes, sizes) == s + [sizes[n]];
        FlatAppended(w, s, v[n], sizes[n]);
      }
    }
  }

  lemma FlatAppended(w: Vec, s: seq<int>, x: int, y: int)
    requires |w| == |s|
    ensures Flat(w + [x], s + [y]) == Flat(w, s) * y + x
  {
    assert (w + [x])[..|w|] == w && (s + [y])[..|s|] == s;
  }

  lemma {:induction false} FlatBound(v: Vec, sizes: seq<int>)
    requires Within(v, sizes)
    ensures 0 <= Flat(v, sizes) < Product(sizes)
  {
    if v != [] {
      var n := |v| - 1;
      assert sizes[..|sizes| - 1] == sizes[..n];
      FlatBound(v[..n], sizes[..n]);
      CellInside(Flat(v[..n], sizes[..n]), v[n], sizes[n], Product(sizes[..n]));
    }
  }

  /** Different indexes have different positions. */
  lemma {:induction false} FlatInjective(v: Vec, w: Vec, sizes: seq<int>)
    requires Within(v, sizes) && Within(w, sizes) && Flat(v, sizes) == Flat(w, sizes)
    ensures v == w
  {
    if v != [] {
      var n := |v| - 1;
      var a, b := Flat(v[..n], sizes[..n]), Flat(w[..n], sizes[..n]);
      if a != b || v[n] != w[n] {
        CellsDiffer(a, v[n], b, w[n], sizes[n]);
      }
      FlatInjective(v[..n], w[..n], sizes[..n]);
      assert v == v[..n] + [v[n]] && w == w[..n] + [w[n]];
    }
  }

  /** Rows are blocks of cells. */
  lemma {:induction false} FlatByRow(v: Vec, sizes: seq<int>)
    requires 0 < |v| == |sizes|
    ensures Flat(v, sizes) == Cell(v[0], Flat(v[1..], sizes[1..]), Product(sizes[1..]))
  {
    var n := |v| - 1;
    if n == 0 {
      assert v[1..] == [] && v[..0] == [] && sizes[1..] == [];
    } else {
      FlatByRow(v[..n], sizes[..n]);
      assert v[..n][1..] == v[1..][..n - 1] && sizes[..n][1..] == sizes[1..][..n - 1];
      var rest, factor := Flat(v[1..][..n - 1], sizes[1..][..n - 1]), Product(sizes[1..][..n - 1]);
      assert Flat(v[1..], sizes[1..]) == rest * sizes[n] + v[n] && Product(sizes[1..]) == factor * sizes[n];
      RowOfBlocks(v[0], rest, factor, sizes[n]);
    }
  }

  lemma RowOfBlocks(row: int, rest: int, factor: int, size: int)
    ensures (row * factor + rest) * size == row * (factor * size) + rest * size
  {
    Distribute(row * factor, rest, size);
  }

  lemma ShiftedByRow(v: Vec, sizes: seq<int>, rows: int)
    requires 0 < |v| == |sizes|
    ensures Flat(Shifted(v, rows), sizes) == Cell(v[0] + rows, Flat(v[1..], sizes[1..]), Product(sizes[1..]))
  {
    assert Shifted(v, rows)[1..] == v[1..];
    FlatByRow(Shifted(v, rows), sizes);
  }

  lemma FlatShifted(v: Vec, sizes: seq<int>, rows: int)
    requires 0 < |v| == |sizes|
    ensures Flat(Shifted(v, rows), sizes) == Flat(v, sizes) + rows * Product(sizes[1..])
  {
    FlatByRow(v, sizes);
    ShiftedByRow(v, sizes, rows);
    MovedCell(v[0], rows, Flat(v[1..], sizes[1..]), Product(sizes[1..]));
  }

  lemma MovedCell(row: int, rows: int, c: int, factor: int)
    ensures Cell(row + rows, c, factor) == Cell(row, c, factor) + rows * factor
  {
    Distribute(row, rows, factor);
  }

  /** Memory at the addresses of array k is laid out in data. */
  ghost predicate LaidOut(memory: map<Place, int>, k: nat, sizes: seq<int>, data: seq<int>) {
    |data| == Product(sizes) && forall v: Vec :: Within(v, sizes) ==> LaidOutAt(memory, k, sizes, data, v)
  }

  ghost predicate LaidOutAt(memory: map<Place, int>, k: nat, sizes: seq<int>, data: seq<int>, v: Vec)
    requires |v| == |sizes|
  {
    0 <= Flat(v, sizes) < |data| && data[Flat(v, sizes)] == Lookup(memory, Place(k, Wide(v, sizes)))
  }

  /** The rows of a shift, and their blocks of cells. */
  ghost predicate ShiftFits(sizes: seq<int>, source: int, size: int, back: int) {
    sizes != [] && sizes[0] > 1 && (forall d :: 0 <= d < |sizes| ==> sizes[d] >= 1)
    && 0 <= source - back <= source <= source + size <= sizes[0]
  }

  lemma {:induction false} ProductPositive(sizes: seq<int>)
    requires forall d :: 0 <= d < |sizes| ==> sizes[d] >= 1
    ensures Product(sizes) >= 1
  {
    if sizes != [] {
      ProductPositive(sizes[..|sizes| - 1]);
      ProductGrows(1, Product(sizes[..|sizes| - 1]), sizes[|sizes| - 1]);
    }
  }

  lemma {:induction false} ProductByRow(sizes: seq<int>)
    requires sizes != []
    ensures Product(sizes) == sizes[0] * Product(sizes[1..])
  {
    var n := |sizes| - 1;
    if n == 0 {
      assert sizes[1..] == [] && sizes[..0] == [];
    } else {
      ProductByRow(sizes[..n]);
      assert sizes[..n][1..] == sizes[1..][..n - 1];
      RowOfBlocks(sizes[0], 0, Product(sizes[1..][..n - 1]), sizes[n]);
    }
  }

  lemma BlockBounds(sizes: seq<int>, source: int, size: int, back: int)
    requires ShiftFits(sizes, source, size, back)
    ensures var factor := Product(sizes[1..]);
      && factor >= 1 && 0 <= (source - back) * factor <= source * factor <= (source + size) * factor <= Product(sizes)
      && (source - back) * factor == source * factor - back * factor && (source + size) * factor == source * factor + size * factor
  {
    var factor := Product(sizes[1..]);
    ProductPositive(sizes[1..]);
    ProductByRow(sizes);
    ProductGrows(0, source - back, factor);
    ProductGrows(source - back, source, factor);
    ProductGrows(source, source + size, factor);
    ProductGrows(source + size, sizes[0], factor);
    Distribute(source - back, back, factor);
    Distribute(source, size, factor);
  }

  /** An index is in the rows that the copy writes to exactly when its position is in the block. */
  lemma InBlock(v: Vec, sizes: seq<int>, first: int, size: int)
    requires Within(v, sizes) && sizes != [] && size >= 0
    ensures var factor := Product(sizes[1..]);
      first <= v[0] < first + size <==> first * factor <= Flat(v, sizes) < first * factor + size * factor
  {
    FlatByRow(v, sizes);
    FlatBound(v[1..], sizes[1..]);
    CellInBlock(v[0], Flat(v[1..], sizes[1..]), first, size, Product(sizes[1..]));
  }

  lemma CellInBlock(row: int, c: int, first: int, size: int, factor: int)
    requires 0 <= c < factor && size >= 0
    ensures first <= row < first + size <==> first * factor <= Cell(row, c, factor) < first * factor + size * factor
  {
    if first <= row < first + size {
      CopiedCell(row, c, first, size, factor);
    } else if row < first {
      ProductGrows(row + 1, first, factor);
      Distribute(row, 1, factor);
    } else {
      ProductGrows(first + size, row, factor);
      Distribute(first, size, factor);
    }
  }

  /** The copy of advance_buffers on the flat array, with the bounds that it computes. */
  method ShiftData(data: array<int>, sizes: seq<int>, source: int, size: int, back: int)
    requires ShiftFits(sizes, source, size, back) && data.Length == Product(sizes)
    modifies data
    ensures forall v: Vec :: Within(v, sizes) ==> MovedAt(old(data[..]), data[..], sizes, source - back, size, back, v)
  {
    var factor := Product(sizes[1..]);
    BlockBounds(sizes, source, size, back);
    CopyForward(data, source * factor, (source + size) * factor, (source - back) * factor);
    forall v: Vec | Within(v, sizes) ensures MovedAt(old(data[..]), data[..], sizes, source - back, size, back, v) {
      PositionInShift(v, sizes, source, size, back);
    }
  }

  /** The cell of v has what its cell, or that of the row `back` rows further, had. */
  ghost predicate MovedAt(before: seq<int>, after: seq<int>, sizes: seq<int>, dest: int, size: int, back: int, v: Vec)
    requires |v| == |sizes|
  {
    var p, q := Flat(v, sizes), Flat(Shifted(v, back), sizes);
    && 0 <= p < |after| == |before| && sizes != []
    && if dest <= v[0] < dest + size then 0 <= q < |before| && after[p] == before[q] else after[p] == before[p]
  }

  lemma PositionInShift(v: Vec, sizes: seq<int>, source: int, size: int, back: int)
    requires ShiftFits(sizes, source, size, back) && Within(v, sizes)
    ensures 0 <= Flat(v, sizes) < Product(sizes)
    ensures Flat(Shifted(v, back), sizes) == Flat(v, sizes) + back * Product(sizes[1..])
    ensures var factor, dest := Product(sizes[1..]), source - back;
      && (dest <= v[0] < dest + size <==> dest * factor <= Flat(v, sizes) < dest * factor + size * factor)
      && (dest <= v[0] < dest + size ==> 0 <= Flat(Shifted(v, back), sizes) < Product(sizes))
  {
    FlatBound(v, sizes);
    FlatShifted(v, sizes, back);
    InBlock(v, sizes, source - back, size);
    if source - back <= v[0] < source - back + size {
      FlatBound(Shifted(v, back), sizes);
    }
  }

  /** So a buffer laid out as addresses say is so after the shift. */
  lemma ShiftKeepsLayout(memory: map<Place, int>, after: map<Place, int>, k: nat, sizes: seq<int>, data: seq<int>, shifted: seq<int>,
                         source: int, size: int, back: int)
    requires ShiftFits(sizes, source, size, back) && LaidOut(memory, k, sizes, data) && |shifted| == |data|
    requires forall v: Vec :: Within(v, sizes) ==> MovedAt(data, shifted, sizes, source - back, size, back, v)
    requires IsShiftOf(memory, after, k, source - back, size, back)
    ensures LaidOut(after, k, sizes, shifted)
  {
    forall v: Vec | Within(v, sizes) ensures LaidOutAt(after, k, sizes, shifted, v) {
      ShiftedCell(memory, after, k, sizes, data, shifted, source, size, back, v);
    }
  }

  lemma ShiftedCell(memory: map<Place, int>, after: map<Place, int>, k: nat, sizes: seq<int>, data: seq<int>, shifted: seq<int>,
                    source: int, size: int, back: int, v: Vec)
    requires ShiftFits(sizes, source, size, back) && LaidOut(memory, k, sizes, data) && Within(v, sizes)
    requires MovedAt(data, shifted, sizes, source - back, size, back, v)
    requires IsShiftOf(memory, after, k, source - back, size, back)
    ensures LaidOutAt(after, k, sizes, shifted, v)
  {
    var q, w, dest := Place(k, Wide(v, sizes)), Shifted(v, back), source - back;
    WideShifted(v, sizes, back);
    assert Lookup(after, q)
        == if InRows(q, k, dest, size) then Lookup(memory, Place(k, Shifted(q.index, back))) else Lookup(memory, q);
    assert LaidOutAt(memory, k, sizes, data, v);
    if dest <= v[0] < dest + size {
      assert LaidOutAt(memory, k, sizes, data, w);
    }
  }

  /** The shift that buffer_analysis plans stays inside its buffer. */
  lemma PlannedShiftFits(a: ArrayInfo, opt: Buffers.Options, buf: Buffer)
    requires IsShiftingBuffer(a, opt, buf) && buf.hasPhase
    ensures ShiftFits(buf.dimensionSize, buf.shift.source, buf.shift.size, buf.shift.periodCount * a.period)
  {
    ProductGrows(1, buf.shift.periodCount, a.period);
    forall d | 0 <= d < |buf.dimensionSize| ensures buf.dimensionSize[d] >= 1 {
      if d > 0 {
        assert IsModuloDimension(a, opt, d, buf.dimensionSize[d], buf.needsWrapping[d]);
      }
    }
  }
}
