/** cpp/cpp_target.cpp and cpp/cpp_from_polyhedral.cpp: buffer shapes, and the index expressions and
    phase updates of circular buffers.
 */
module Buffers {
  import opened IslModel
  import opened BufferSizing
  import opened IndexArithmetic

  /** size[0] is -1 for an infinite array. */
  datatype ArrayInfo = ArrayInfo(
    isInfinite: bool,
    size: seq<int>,
    bufferSize: seq<int>,
    period: int,
    firstAccess: int,
    lastAccess: int)

  datatype Options = Options(dataShifting: bool, powerOfTwo: bool)

  datatype DataShift = DataShift(source: int, size: int, periodCount: int)

  datatype Buffer = Buffer(
    periodOffset: int,
    hasPhase: bool,
    shift: DataShift,
    dimensionSize: seq<int>,
    needsWrapping: seq<bool>,
    volume: int)

  /** What the storage allocator and the scheduler leave in the array. */
  ghost predicate WellFormed(a: ArrayInfo) {
    && (forall d :: 0 <= d < |a.bufferSize| ==> a.bufferSize[d] >= 1)
    && (forall d :: 0 <= d < |a.bufferSize| && a.bufferSize[d] > 1 ==> d < |a.size|)
    && (a.isInfinite ==> a.period > 0 && 0 <= a.firstAccess <= a.lastAccess)
  }

  predicate Shifts(a: ArrayInfo, opt: Options) {
    a.isInfinite && opt.dataShifting && |a.bufferSize| > 0 && a.bufferSize[0] > 1
  }

  predicate Streams(a: ArrayInfo, d: nat) {
    d == 0 && a.isInfinite
  }

  /** The number of rows that one period and the next both access. */
  function Overlap(a: ArrayInfo): int {
    a.lastAccess - (a.firstAccess + a.period) + 1
  }

  function PeriodSize(a: ArrayInfo): int {
    a.lastAccess - a.firstAccess + 1
  }

  // ---- Shapes -------------------------------------------------------------------------------

  function Volume(extent: seq<int>): int {
    if extent == [] then 0 else Product(extent)
  }

  function Product(extent: seq<int>): int {
    if extent == [] then 1 else Product(extent[..|extent| - 1]) * extent[|extent| - 1]
  }

  method ComputeVolume(extent: seq<int>) returns (v: int)
    ensures v == Volume(extent)
  {
    if extent == [] {
      return 0;
    }
    v := 1;
    for k := 0 to |extent|
      invariant v == Product(extent[..k])
    {
      assert extent[..k + 1][..k] == extent[..k];
      v := v * extent[k];
    }
    assert extent[..|extent|] == extent;
  }

  /** A dimension that is not shifted: a wrapped dimension is rounded to the least power of two on
      request; an unwrapped one holds the array's whole extent or a single element. */
  ghost predicate IsModuloDimension(a: ArrayInfo, opt: Options, d: nat, size: int, wraps: bool)
    requires WellFormed(a) && d < |a.bufferSize|
  {
    var needed := a.bufferSize[d];
    && (wraps <==> needed > 1 && (Streams(a, d) || a.size[d] > needed))
    && (if wraps && opt.powerOfTwo then
          IsPow2(size) && size >= needed && forall k: nat :: Pow2(k) >= needed ==> Pow2(k) >= size
        else
          size == needed)
  }

  /** The shifting buffer: as many periods as keep the copying below a tenth of the rows accessed. */
  ghost predicate IsShiftPlan(a: ArrayInfo, hasPhase: bool, shift: DataShift) {
    if Overlap(a) > 0 then
      && hasPhase
      && shift.size == Overlap(a)
      && shift.source == a.firstAccess + shift.periodCount * a.period
      && shift.periodCount >= 1
      && 10 * Overlap(a) <= shift.periodCount * PeriodSize(a)
      && (shift.periodCount > 1 ==> (shift.periodCount - 1) * PeriodSize(a) < 10 * Overlap(a))
    else
      !hasPhase && shift == DataShift(0, 0, 1)
  }

  function CeilDiv(a: int, b: int): int
    requires b >= 1
  {
    (a + b - 1) / b
  }

  lemma CeilDivIsLeast(a: int, b: int)
    requires a >= 1 && b >= 1
    ensures CeilDiv(a, b) >= 1 && a <= CeilDiv(a, b) * b && (CeilDiv(a, b) - 1) * b < a
  {
    var c := CeilDiv(a, b);
    assert a + b - 1 == b * c + (a + b - 1) % b;
    assert b * c >= a;
  }

  /** One pass of the loop over dimensions for the streaming dimension of a shifting buffer. */
  method PlanShift(a: ArrayInfo) returns (hasPhase: bool, shift: DataShift, size: int)
    requires WellFormed(a) && a.isInfinite
    ensures IsShiftPlan(a, hasPhase, shift)
    ensures size == a.lastAccess + shift.periodCount * a.period + 1
  {
    var periodSize := a.lastAccess - a.firstAccess + 1;
    var overlap := a.lastAccess - (a.firstAccess + a.period) + 1;
    hasPhase, shift := false, DataShift(0, 0, 0);
    if overlap > 0 {
      var periods := CeilDiv(10 * overlap, periodSize);
      CeilDivIsLeast(10 * overlap, periodSize);
      periods := if periods > 1 then periods else 1;
      hasPhase := true;
      shift := DataShift(a.firstAccess + periods * a.period, overlap, periods);
    } else {
      shift := shift.(periodCount := 1);
    }
    size := a.lastAccess + shift.periodCount * a.period + 1;
  }

  /** One pass for any other dimension. */
  method SizeDimension(a: ArrayInfo, opt: Options, d: nat) returns (size: int, wraps: bool)
    requires WellFormed(a) && d < |a.bufferSize| && !(d == 0 && Shifts(a, opt))
    ensures IsModuloDimension(a, opt, d, size, wraps) && size >= 1
  {
    size, wraps := a.bufferSize[d], false;
    if size <= 1 {
      return;
    }
    wraps := if d == 0 && a.isInfinite then true else a.size[d] > size;
    if wraps && opt.powerOfTwo {
      forall k: nat ensures IsPow2(RoundUp(size)) && (Pow2(k) >= size ==> Pow2(k) >= RoundUp(size)) {
        RoundUpIsLeast(size, k);
      }
      size := RoundUp(size);
    }
  }

  /** A buffer of wrapped and whole dimensions, as BufferAnalysis makes it without shifting. */
  ghost predicate IsModuloBuffer(a: ArrayInfo, opt: Options, buf: Buffer) {
    && WellFormed(a) && !Shifts(a, opt)
    && |buf.dimensionSize| == |buf.needsWrapping| == |a.bufferSize|
    && (forall d :: 0 <= d < |a.bufferSize| ==>
          IsModuloDimension(a, opt, d, buf.dimensionSize[d], buf.needsWrapping[d]))
    && buf.periodOffset == a.period && buf.shift == DataShift(0, 0, 0)
    && (buf.hasPhase <==> a.isInfinite && |a.bufferSize| > 0 && a.bufferSize[0] > 1
                          && buf.dimensionSize[0] >= 1 && a.period % buf.dimensionSize[0] != 0)
  }

  /** A buffer whose rows are not wrapped, and whose other dimensions are as in a modulo buffer. */
  ghost predicate KeepsRows(a: ArrayInfo, opt: Options, buf: Buffer) {
    && WellFormed(a) && Shifts(a, opt)
    && |buf.dimensionSize| == |buf.needsWrapping| == |a.bufferSize| && !buf.needsWrapping[0]
    && forall d :: 0 < d < |a.bufferSize| ==> IsModuloDimension(a, opt, d, buf.dimensionSize[d], buf.needsWrapping[d])
  }

  /** A buffer that shifts its rows, as BufferAnalysis makes it. */
  ghost predicate IsShiftingBuffer(a: ArrayInfo, opt: Options, buf: Buffer) {
    && KeepsRows(a, opt, buf) && IsShiftPlan(a, buf.hasPhase, buf.shift) && buf.periodOffset == a.period
    && buf.dimensionSize[0] == a.lastAccess + buf.shift.periodCount * a.period + 1
  }

  method BufferAnalysis(a: ArrayInfo, opt: Options) returns (buf: Buffer)
    requires WellFormed(a)
    ensures if Shifts(a, opt) then IsShiftingBuffer(a, opt, buf) else IsModuloBuffer(a, opt, buf)
    ensures buf.volume == Volume(buf.dimensionSize)
  {
    buf := Buffer(a.period, false, DataShift(0, 0, 0), [], [], 0);
    for d := 0 to |a.bufferSize|
      invariant |buf.dimensionSize| == |buf.needsWrapping| == d
      invariant buf.periodOffset == a.period
      invariant forall k :: 0 <= k < d && !(k == 0 && Shifts(a, opt)) ==>
        IsModuloDimension(a, opt, k, buf.dimensionSize[k], buf.needsWrapping[k])
      invariant Shifts(a, opt) && d > 0 ==>
        && IsShiftPlan(a, buf.hasPhase, buf.shift)
        && buf.dimensionSize[0] == a.lastAccess + buf.shift.periodCount * a.period + 1
        && !buf.needsWrapping[0]
      invariant !Shifts(a, opt) ==> buf.shift == DataShift(0, 0, 0)
      invariant d == 0 ==> !buf.hasPhase
      invariant !Shifts(a, opt) && d > 0 ==>
        (buf.hasPhase <==> a.isInfinite && a.bufferSize[0] > 1
                           && buf.dimensionSize[0] >= 1 && a.period % buf.dimensionSize[0] != 0)
    {
      var size, wraps;
      if d == 0 && Shifts(a, opt) {
        var hasPhase, shift;
        hasPhase, shift, size := PlanShift(a);
        buf := buf.(hasPhase := hasPhase, shift := shift);
        wraps := false;
      } else {
        size, wraps := SizeDimension(a, opt, d);
        if d == 0 && a.isInfinite && a.bufferSize[0] > 1 {
          buf := buf.(hasPhase := a.period % size != 0);
        }
      }
      buf := buf.(dimensionSize := buf.dimensionSize + [size], needsWrapping := buf.needsWrapping + [wraps]);
    }
    var volume := ComputeVolume(buf.dimensionSize);
    buf := buf.(volume := volume);
  }

  // ---- The shapes, in the array's own terms -------------------------------------------------

  ghost predicate IsAnalyzed(a: ArrayInfo, opt: Options, buf: Buffer) {
    if Shifts(a, opt) then IsShiftingBuffer(a, opt, buf) else IsModuloBuffer(a, opt, buf)
  }

  lemma LeastPowerIsClose(needed: int, size: int)
    requires needed >= 1 && IsPow2(size) && forall k: nat :: Pow2(k) >= needed ==> Pow2(k) >= size
    ensures size < 2 * needed
  {
    var j: nat :| size == Pow2(j);
    if j > 0 {
      var i: nat := j - 1;
      assert size == 2 * Pow2(i);
    }
  }

  /** A dimension that is not shifted gets the size that the allocator asks for, or, rounded on request where
      indexes have to be wrapped, a power of two less than twice that.  Indexes are wrapped where they can reach
      the size. */
  lemma NoNeedlessCells(a: ArrayInfo, opt: Options, buf: Buffer, d: nat)
    requires IsAnalyzed(a, opt, buf) && d < |a.bufferSize| && !(d == 0 && a.isInfinite && opt.dataShifting && a.bufferSize[0] > 1)
    ensures a.bufferSize[d] <= buf.dimensionSize[d] < 2 * a.bufferSize[d]
    ensures buf.needsWrapping[d] <==> a.bufferSize[d] > 1 && ((d == 0 && a.isInfinite) || a.size[d] > a.bufferSize[d])
    ensures if opt.powerOfTwo && buf.needsWrapping[d] then exists k: nat :: buf.dimensionSize[d] == Pow2(k)
            else buf.dimensionSize[d] == a.bufferSize[d]
  {
    assert IsModuloDimension(a, opt, d, buf.dimensionSize[d], buf.needsWrapping[d]);
    if buf.needsWrapping[d] && opt.powerOfTwo {
      LeastPowerIsClose(a.bufferSize[d], buf.dimensionSize[d]);
    }
  }

  lemma SameResidue(r: int, period: int, size: int)
    requires size >= 1
    ensures r % size == (r + period) % size <==> period % size == 0
  {
    if period % size == 0 {
      ModuloOfSum(r, period, size);
    }
    if r % size == (r + period) % size {
      var p, q := r / size, (r + period) / size;
      assert period == size * (q - p) + 0;
      QuotientUnique(period, size, q - p, 0);
    }
  }

  /** A circular buffer has a phase exactly if a row and the row one period later have different cells. */
  lemma PhaseIsNeeded(a: ArrayInfo, opt: Options, buf: Buffer, row: int)
    requires IsAnalyzed(a, opt, buf) && a.isInfinite && !opt.dataShifting && |a.bufferSize| > 0 && a.bufferSize[0] > 1
    ensures buf.dimensionSize[0] >= 1
    ensures buf.hasPhase <==> row % buf.dimensionSize[0] != (row + a.period) % buf.dimensionSize[0]
  {
    NoNeedlessCells(a, opt, buf, 0);
    SameResidue(row, a.period, buf.dimensionSize[0]);
  }

  /** A shifting buffer copies the rows that two periods share, as soon as that is at most a tenth of the rows
      accessed since the last time. */
  lemma ShiftsSoon(a: ArrayInfo, opt: Options, buf: Buffer, p: nat)
    requires IsAnalyzed(a, opt, buf) && a.isInfinite && opt.dataShifting && |a.bufferSize| > 0 && a.bufferSize[0] > 1
    ensures buf.hasPhase <==> a.firstAccess + a.period <= a.lastAccess
    ensures buf.shift.size == if buf.hasPhase then a.lastAccess - a.firstAccess - a.period + 1 else 0
    ensures 10 * buf.shift.size <= buf.shift.periodCount * (a.lastAccess - a.firstAccess + 1)
    ensures 1 <= p < buf.shift.periodCount ==> p * (a.lastAccess - a.firstAccess + 1) < 10 * buf.shift.size
    ensures !buf.hasPhase ==> buf.shift.periodCount == 1
  {
    if 1 <= p < buf.shift.periodCount {
      ProductGrows(p, buf.shift.periodCount - 1, a.lastAccess - a.firstAccess + 1);
    }
  }

  /** A shifting buffer reserves exactly one period of rows more than its accesses, at the phase that the period
      has, and its shifts reach. */
  lemma OnePeriodIsSpare(a: ArrayInfo, opt: Options, buf: Buffer, row: int, q: nat)
    requires IsAnalyzed(a, opt, buf) && a.isInfinite && opt.dataShifting && |a.bufferSize| > 0 && a.bufferSize[0] > 1
    requires row <= a.lastAccess && q < buf.shift.periodCount
    ensures buf.dimensionSize[0] == a.lastAccess + buf.shift.periodCount * a.period + 1
    ensures row + q * a.period < buf.dimensionSize[0] - a.period
    ensures row == a.lastAccess && q == buf.shift.periodCount - 1 ==> row + q * a.period == buf.dimensionSize[0] - a.period - 1
    ensures buf.hasPhase ==> buf.shift.source + buf.shift.size <= buf.dimensionSize[0] - a.period
  {
    ProductGrows(q, buf.shift.periodCount - 1, a.period);
    Distribute(buf.shift.periodCount - 1, 1, a.period);
  }

  // ---- Accesses -----------------------------------------------------------------------------

  /** The coordinates that address the buffer: dimensions of size 1 are not stored. */
  function Wide(v: Vec, sizes: seq<int>): (w: Vec)
    requires |v| <= |sizes|
  {
    if v == [] then []
    else Wide(v[..|v| - 1], sizes) + if sizes[|v| - 1] == 1 then [] else [v[|v| - 1]]
  }

  ghost predicate Indexable(buf: Buffer, index: Vec) {
    && |index| <= |buf.dimensionSize| == |buf.needsWrapping|
    && forall d :: 0 <= d < |index| && buf.needsWrapping[d] ==> buf.dimensionSize[d] >= 1 && index[d] >= 0
  }

  /** Coordinates taken modulo the sizes of the wrapped dimensions. */
  ghost function Wrapped(buf: Buffer, index: Vec): (w: Vec)
    requires Indexable(buf, index)
    ensures |w| == |index|
  {
    seq(|index|, d requires 0 <= d < |index| =>
      if buf.needsWrapping[d] then index[d] % buf.dimensionSize[d] else index[d])
  }

  /** What is added to the first index: both the phase and the statement's data offset count in periodic
      code only. */
  function Amount(buf: Buffer, inPeriod: bool, phase: int, offset: int): int {
    if inPeriod then (if buf.hasPhase then phase else 0) + offset else 0
  }

  /** generate_buffer_access */
  method GenerateBufferAccess(buf: Buffer, index: Vec, inPeriod: bool, phase: int, offset: int) returns (address: Vec)
    requires Indexable(buf, Shifted(index, Amount(buf, inPeriod, phase, offset)))
    ensures address == Wide(Wrapped(buf, Shifted(index, Amount(buf, inPeriod, phase, offset))), buf.dimensionSize)
  {
    var bufferIndex := index;
    address := [];
    if index == [] {
      return;
    }
    if inPeriod && buf.hasPhase {
      bufferIndex := bufferIndex[0 := bufferIndex[0] + phase];
    }
    if inPeriod && offset != 0 {
      bufferIndex := bufferIndex[0 := bufferIndex[0] + offset];
    }
    assert bufferIndex == Shifted(index, Amount(buf, inPeriod, phase, offset));
    ghost var wrapped := Wrapped(buf, bufferIndex);
    for d := 0 to |bufferIndex|
      invariant address == Wide(wrapped[..d], buf.dimensionSize)
    {
      assert wrapped[..d + 1][..d] == wrapped[..d];
      var size := buf.dimensionSize[d];
      if size == 1 {
        continue;
      }
      var i := bufferIndex[d];
      if buf.needsWrapping[d] {
        WrapIsModulo(i, size);
        i := Wrap(i, size);
      }
      address := address + [i];
    }
    assert wrapped[..|bufferIndex|] == wrapped;
  }

  // ---- Circular buffers over whole runs -----------------------------------------------------

  /** x is the index of an element of the array. */
  ghost predicate InArray(a: ArrayInfo, x: Vec) {
    && |x| == |a.bufferSize|
    && forall d :: 0 <= d < |x| ==> x[d] >= 0 && (Streams(a, d) || (d < |a.size| ==> x[d] < a.size[d]))
  }

  lemma ModuloSizesPositive(a: ArrayInfo, opt: Options, buf: Buffer)
    requires IsModuloBuffer(a, opt, buf)
    ensures forall d :: 0 <= d < |a.bufferSize| ==> buf.dimensionSize[d] >= a.bufferSize[d] >= 1
  {
    forall d | 0 <= d < |a.bufferSize| ensures buf.dimensionSize[d] >= a.bufferSize[d] >= 1 {
      assert IsModuloDimension(a, opt, d, buf.dimensionSize[d], buf.needsWrapping[d]);
    }
  }

  /** Coordinates of dimensions of size 1 do not matter, nor do the other sizes. */
  lemma {:induction false} WideAgrees(f: Vec, fSizes: seq<int>, g: Vec, gSizes: seq<int>)
    requires |f| == |g| && |f| <= |fSizes| && |f| <= |gSizes|
    requires forall d :: 0 <= d < |f| ==> (fSizes[d] == 1 <==> gSizes[d] == 1) && (fSizes[d] == 1 || f[d] == g[d])
    ensures Wide(f, fSizes) == Wide(g, gSizes)
  {
    if f != [] {
      WideAgrees(f[..|f| - 1], fSizes, g[..|g| - 1], gSizes);
    }
  }

  /** The first coordinate stays first. */
  lemma {:induction false} WideShifted(v: Vec, sizes: seq<int>, rows: int)
    requires 0 < |v| <= |sizes| && sizes[0] != 1
    ensures Wide(v, sizes) != [] && Wide(v, sizes)[0] == v[0]
    ensures Wide(Shifted(v, rows), sizes) == Shifted(Wide(v, sizes), rows)
  {
    var n := |v| - 1;
    if n > 0 {
      assert Shifted(v, rows)[..n] == Shifted(v[..n], rows);
      WideShifted(v[..n], sizes, rows);
    } else {
      assert v[..n] == [] && Shifted(v, rows)[..n] == [];
    }
  }

  /** Leaving a dimension unwrapped, or out of the address, gives the same cell as the modulo. */
  lemma UnwrappedIsFold(a: ArrayInfo, opt: Options, buf: Buffer, x: Vec, d: nat)
    requires WellFormed(a) && |buf.dimensionSize| == |buf.needsWrapping| == |a.bufferSize|
    requires InArray(a, x) && Indexable(buf, x) && d < |x| && buf.dimensionSize[d] >= 1
    requires IsModuloDimension(a, opt, d, buf.dimensionSize[d], buf.needsWrapping[d])
    ensures buf.dimensionSize[d] == 1 || Wrapped(buf, x)[d] == x[d] % buf.dimensionSize[d]
  {
    if !buf.needsWrapping[d] && buf.dimensionSize[d] != 1 {
      QuotientUnique(x[d], buf.dimensionSize[d], 0, x[d]);
    }
  }

  /** Addresses tell elements apart exactly when their folded indexes do. */
  lemma {:induction false} SameAddressIffSameFold(f: Vec, g: Vec, sizes: seq<int>)
    requires |f| == |g| <= |sizes|
    requires forall d :: 0 <= d < |f| && sizes[d] == 1 ==> f[d] == g[d]
    ensures Wide(f, sizes) == Wide(g, sizes) <==> f == g
  {
    if f == [] {
      assert f == g;
    } else {
      var n := |f| - 1;
      SameAddressIffSameFold(f[..n], g[..n], sizes);
      WideLength(f[..n], g[..n], sizes);
      assert f == f[..n] + [f[n]] && g == g[..n] + [g[n]];
      assert f == g <==> f[..n] == g[..n] && f[n] == g[n];
      AppendedEqual(Wide(f[..n], sizes), Wide(g[..n], sizes), f[n], g[n]);
      if sizes[n] == 1 {
        assert Wide(f, sizes) == Wide(f[..n], sizes) && Wide(g, sizes) == Wide(g[..n], sizes);
      }
    }
  }

  lemma AppendedEqual(p: Vec, q: Vec, a: int, b: int)
    requires |p| == |q|
    ensures p + [a] == q + [b] <==> p == q && a == b
  {
    assert (p + [a])[..|p|] == p && (q + [b])[..|p|] == q;
    assert (p + [a])[|p|] == a && (q + [b])[|p|] == b;
  }

  lemma {:induction false} WideLength(f: Vec, g: Vec, sizes: seq<int>)
    requires |f| == |g| <= |sizes|
    ensures |Wide(f, sizes)| == |Wide(g, sizes)|
  {
    if f != [] {
      WideLength(f[..|f| - 1], g[..|g| - 1], sizes);
    }
  }

  /** Two array elements of a modulo buffer have the same address iff they have the same fold. */
  lemma AddressesSeparateLikeFolds(a: ArrayInfo, opt: Options, buf: Buffer, x: Vec, y: Vec)
    requires IsModuloBuffer(a, opt, buf) && InArray(a, x) && InArray(a, y) && Indexable(buf, x) && Indexable(buf, y)
    requires forall d :: 0 <= d < |a.bufferSize| ==> buf.dimensionSize[d] >= 1
    ensures Wide(Wrapped(buf, x), buf.dimensionSize) == Wide(Wrapped(buf, y), buf.dimensionSize)
       <==> Fold(x, buf.dimensionSize) == Fold(y, buf.dimensionSize)
  {
    WholeAddressIsFold(a, opt, buf, x);
    WholeAddressIsFold(a, opt, buf, y);
    SameAddressIffSameFold(Fold(x, buf.dimensionSize), Fold(y, buf.dimensionSize), buf.dimensionSize);
  }

  lemma MultipleOfSize(k: nat, period: int, size: int)
    requires size >= 1 && period % size == 0
    ensures (k * period) % size == 0
  {
    var q := period / size;
    assert k * period == size * (k * q);
    QuotientUnique(k * period, size, k * q, 0);
  }

  /** Rows of the streaming dimension that differ by whole periods, with the phase, and elements
      that agree elsewhere have the same address. */
  lemma SameResidueSameAddress(a: ArrayInfo, opt: Options, buf: Buffer, x: Vec, y: Vec)
    requires IsModuloBuffer(a, opt, buf) && a.isInfinite && Indexable(buf, x) && Indexable(buf, y)
    requires 0 < |x| == |y| == |a.bufferSize| && x[1..] == y[1..]
    requires buf.dimensionSize[0] >= 1 && x[0] % buf.dimensionSize[0] == y[0] % buf.dimensionSize[0]
    ensures Wide(Wrapped(buf, x), buf.dimensionSize) == Wide(Wrapped(buf, y), buf.dimensionSize)
  {
    assert forall d :: 0 < d < |x| ==> x[d] == x[1..][d - 1] && y[d] == y[1..][d - 1];
    assert IsModuloDimension(a, opt, 0, buf.dimensionSize[0], buf.needsWrapping[0]);
    WideAgrees(Wrapped(buf, x), buf.dimensionSize, Wrapped(buf, y), buf.dimensionSize);
  }

  /** The generated index y addresses the cell of x, folded. */
  ghost predicate IsFolded(buf: Buffer, y: Vec, x: Vec) {
    && Indexable(buf, y) && |x| == |buf.dimensionSize| && (forall d :: 0 <= d < |x| ==> buf.dimensionSize[d] >= 1)
    && Wide(Wrapped(buf, y), buf.dimensionSize) == Wide(Fold(x, buf.dimensionSize), buf.dimensionSize)
  }

  ghost predicate PhaseFits(buf: Buffer, rows: nat, phase: int) {
    buf.dimensionSize != [] && buf.dimensionSize[0] >= 1 && rows % buf.dimensionSize[0] == if buf.hasPhase then phase else 0
  }

  /** A row has the address that it has `rows` rows later, if the phase is that number modulo the size;
      without a phase, if the size divides it. */
  lemma PhasedIndexFolds(a: ArrayInfo, opt: Options, buf: Buffer, index: Vec, offset: int, rows: nat, phase: int)
    requires IsModuloBuffer(a, opt, buf) && a.isInfinite && index != [] && InArray(a, Shifted(index, offset))
    requires PhaseFits(buf, rows, phase)
    ensures IsFolded(buf, Shifted(index, Amount(buf, true, phase, offset)), Shifted(index, offset + rows))
  {
    ModuloSizesPositive(a, opt, buf);
    var y, x, z := Shifted(index, Amount(buf, true, phase, offset)), Shifted(index, offset + rows), Shifted(index, offset);
    assert z[0] >= 0 && x[0] == z[0] + rows && y[0] == z[0] + rows % buf.dimensionSize[0];
    assert forall d :: 0 < d < |x| ==> y[d] == x[d] == z[d];
    assert y[1..] == x[1..] && Indexable(buf, y) && Indexable(buf, x);
    ModuloOfSum(z[0], rows, buf.dimensionSize[0]);
    SameResidueSameAddress(a, opt, buf, x, y);
    WholeAddressIsFold(a, opt, buf, x);
  }

  lemma WholeAddressIsFold(a: ArrayInfo, opt: Options, buf: Buffer, x: Vec)
    requires IsModuloBuffer(a, opt, buf) && InArray(a, x) && Indexable(buf, x)
    requires forall d :: 0 <= d < |a.bufferSize| ==> buf.dimensionSize[d] >= 1
    ensures Wide(Wrapped(buf, x), buf.dimensionSize) == Wide(Fold(x, buf.dimensionSize), buf.dimensionSize)
  {
    forall d | 0 <= d < |x| ensures buf.dimensionSize[d] == 1 || Wrapped(buf, x)[d] == Fold(x, buf.dimensionSize)[d] {
      UnwrappedIsFold(a, opt, buf, x, d);
    }
    WideAgrees(Wrapped(buf, x), buf.dimensionSize, Fold(x, buf.dimensionSize), buf.dimensionSize);
  }
}
