/** cpp/cpp_target.cpp and cpp/cpp_from_polyhedral.cpp: the generated program on its buffers, circular and
    shifting ones together, with their phase variables, over whole runs.
 */
module GeneratedRuns {
  import opened IslModel
  import opened BufferSizing
  import opened FoldedMemory
  import opened ScheduledPrograms
  import opened IndexArithmetic
  import opened Buffers
  import opened GeneratedStorage
  import opened MovedRows

  /** A read or write in the code.  Its element is named by the index in period 0, to which the periodic
      code adds the statement's data offset. */
  datatype Access = Access(event: Event<Place>, offset: int)

  type Code = seq<Access>

  /** Rows by which a period moves on. */
  function Move(a: ArrayInfo): int {
    if a.isInfinite then a.period else 0
  }

  /** Rows moved after k periods. */
  function RowsAfter(k: nat, rows: int): int {
    if k == 0 then 0 else RowsAfter(k - 1, rows) + rows
  }

  lemma {:induction false} RowsAreProduct(k: nat, rows: int)
    ensures RowsAfter(k, rows) == k * rows
  {
    if k == 0 {
      assert 0 * rows == 0;
    } else {
      RowsAreProduct(k - 1, rows);
      Distribute(k - 1, 1, rows);
    }
  }

  lemma {:induction false} RowsGrow(j: nat, k: nat, rows: int)
    requires j < k && rows > 0
    ensures RowsAfter(j, rows) < RowsAfter(k, rows)
  {
    if j < k - 1 {
      RowsGrow(j, k - 1, rows);
    }
  }

  lemma {:induction false} RowsNonNegative(k: nat, rows: int)
    requires rows >= 0
    ensures RowsAfter(k, rows) >= 0
  {
    if k > 0 {
      RowsNonNegative(k - 1, rows);
    }
  }

  function ElementOf(arrays: seq<ArrayInfo>, access: Access, inPeriod: bool, k: nat): Place {
    var p := access.event.elem;
    if inPeriod then
      Place(p.arr, Shifted(p.index, access.offset + if p.arr < |arrays| then RowsAfter(k, Move(arrays[p.arr])) else 0))
    else p
  }

  /** What the code does as the prelude, and as period k. */
  function EventIn(arrays: seq<ArrayInfo>, access: Access, inPeriod: bool, k: nat): Event<Place> {
    access.event.(elem := ElementOf(arrays, access, inPeriod, k))
  }

  function EventsIn(arrays: seq<ArrayInfo>, code: Code, inPeriod: bool, k: nat): (trace: seq<Event<Place>>)
    ensures |trace| == |code|
  {
    seq(|code|, j requires 0 <= j < |code| => EventIn(arrays, code[j], inPeriod, k))
  }

  function Unrolled(arrays: seq<ArrayInfo>, prelude: Code, periods: seq<Code>): seq<Event<Place>> {
    if periods == [] then EventsIn(arrays, prelude, false, 0)
    else Unrolled(arrays, prelude, periods[..|periods| - 1]) + EventsIn(arrays, periods[|periods| - 1], true, |periods| - 1)
  }

  /** An access of the prelude names an element; one of a period names an element of period 0.  The rows of
      a shifting buffer are those that the allocator found in a period. */
  ghost predicate Runnable(arrays: seq<ArrayInfo>, opt: Buffers.Options, access: Access, inPeriod: bool) {
    var p := access.event.elem;
    && p.arr < |arrays|
    && InArray(arrays[p.arr], if inPeriod then Shifted(p.index, access.offset) else p.index)
    && (Shifts(arrays[p.arr], opt) ==>
          RowInside(arrays[p.arr], p.index[0] + if inPeriod then access.offset else 0, inPeriod))
  }

  ghost predicate RowInside(a: ArrayInfo, row: int, inPeriod: bool) {
    (inPeriod ==> a.firstAccess <= row) && row <= a.lastAccess
  }

  /** Buffers are those of buffer_analysis, for the arrays of the storage. */
  ghost predicate Fit(arrays: seq<ArrayInfo>, opt: Buffers.Options, buffers: seq<Buffer>, storage: seq<Storage>) {
    && |arrays| == |buffers| == |storage|
    && forall k {:trigger Analyzed(arrays[k], opt, buffers[k], storage[k])} :: 0 <= k < |arrays| ==>
         Analyzed(arrays[k], opt, buffers[k], storage[k])
  }

  /** The arrays whose buffers shift rows. */
  function Apart(arrays: seq<ArrayInfo>, opt: Buffers.Options): (apart: seq<bool>)
    ensures |apart| == |arrays| && forall k :: 0 <= k < |arrays| ==> apart[k] == Shifts(arrays[k], opt)
  {
    seq(|arrays|, k requires 0 <= k < |arrays| => Shifts(arrays[k], opt))
  }

  // ---- Phases -------------------------------------------------------------------------------

  /** The phase of a circular buffer after k periods. */
  function PhaseAfter(k: nat, period: int, size: int): int {
    if k == 0 || size < 1 then 0 else (PhaseAfter(k - 1, period, size) + period) % size
  }

  lemma PhaseStep(phase: int, rows: int, period: int, size: int)
    requires size >= 1 && phase == rows % size
    ensures (phase + period) % size == (rows + period) % size
  {
    ModuloOfSum(period, rows, size);
    assert phase + period == period + rows % size && rows + period == period + rows;
  }

  lemma {:induction false} PhaseIsRows(k: nat, period: int, size: int)
    requires size >= 1
    ensures PhaseAfter(k, period, size) == RowsAfter(k, period) % size
  {
    if k > 0 {
      PhaseIsRows(k - 1, period, size);
      PhaseStep(PhaseAfter(k - 1, period, size), RowsAfter(k - 1, period), period, size);
    }
  }

  /** It is the number of rows that the stream has moved on, modulo the size. */
  lemma PhaseIsModulo(k: nat, period: int, size: int)
    requires size >= 1
    ensures 0 <= PhaseAfter(k, period, size) < size
    ensures PhaseAfter(k, period, size) == (k * period) % size
  {
    PhaseIsRows(k, period, size);
    RowsAreProduct(k, period);
  }

  /** Periods since the last shift, when rows are shifted every n periods. */
  function SinceShift(k: nat, n: int): (j: nat)
    ensures j == 0 || j < n
  {
    if k == 0 || SinceShift(k - 1, n) + 1 >= n then 0 else SinceShift(k - 1, n) + 1
  }

  /** The phase of a shifting buffer after k periods. */
  lemma {:induction false} SinceShiftIsModulo(k: nat, n: int)
    requires n >= 1
    ensures SinceShift(k, n) == k % n
  {
    if k > 0 {
      SinceShiftIsModulo(k - 1, n);
      NextModulo(k - 1, n);
    } else {
      QuotientUnique(0, n, 0, 0);
    }
  }

  lemma NextModulo(k: nat, n: int)
    requires n >= 1
    ensures (k + 1) % n == if k % n + 1 == n then 0 else k % n + 1
  {
    var q := k / n;
    if k % n + 1 == n {
      Distribute(q, 1, n);
      QuotientUnique(k + 1, n, q + 1, 0);
    } else {
      QuotientUnique(k + 1, n, q, k % n + 1);
    }
  }

  ghost predicate IsPhase(a: ArrayInfo, opt: Buffers.Options, buf: Buffer, phase: int, periods: nat) {
    if Shifts(a, opt) then phase == RowsAfter(SinceShift(periods, buf.shift.periodCount), a.period)
    else buf.hasPhase && buf.dimensionSize != [] ==> phase == PhaseAfter(periods, a.period, buf.dimensionSize[0])
  }

  /** In a shifting buffer it grows by a period's rows until the rows are shifted; in a circular one it is the
      number of rows that the stream has moved on, modulo the size. */
  lemma PhaseIsExact(a: ArrayInfo, opt: Buffers.Options, buf: Buffer, phase: int, periods: nat)
    requires IsPhase(a, opt, buf, phase, periods) && buf.hasPhase && buf.dimensionSize != []
    ensures Shifts(a, opt) && buf.shift.periodCount >= 1 ==> phase == (periods % buf.shift.periodCount) * a.period
    ensures !Shifts(a, opt) && buf.dimensionSize[0] >= 1 ==> phase == (periods * a.period) % buf.dimensionSize[0]
  {
    if Shifts(a, opt) && buf.shift.periodCount >= 1 {
      SinceShiftIsModulo(periods, buf.shift.periodCount);
      RowsAreProduct(SinceShift(periods, buf.shift.periodCount), a.period);
    }
    if !Shifts(a, opt) && buf.dimensionSize[0] >= 1 {
      PhaseIsModulo(periods, a.period, buf.dimensionSize[0]);
    }
  }

  /** Where rows are looked for in period `periods`. */
  function ViewAt(a: ArrayInfo, opt: Buffers.Options, phase: int, periods: nat): View {
    if Shifts(a, opt) then
      View(true, phase - RowsAfter(periods, a.period),
           if periods == 0 then 0 else a.firstAccess + RowsAfter(periods, a.period),
           a.lastAccess + RowsAfter(periods, a.period))
    else View(false, 0, 0, 0)
  }

  // ---- Addresses ----------------------------------------------------------------------------

  /** The element is one of the array in every period. */
  lemma StaysInArray(a: ArrayInfo, index: Vec, offset: int, k: nat)
    requires WellFormed(a) && InArray(a, Shifted(index, offset))
    ensures InArray(a, Shifted(index, offset + RowsAfter(k, Move(a))))
  {
    var x, y := Shifted(index, offset), Shifted(index, offset + RowsAfter(k, Move(a)));
    RowsNonNegative(k, Move(a));
    if a.isInfinite {
      forall d | 0 <= d < |y| ensures y[d] >= x[d] && (d > 0 ==> y[d] == x[d]) {
      }
    } else {
      NoRows(k);
      assert y == x;
    }
  }

  function IndexIn(a: ArrayInfo, index: Vec, inPeriod: bool, offset: int, k: nat): Vec {
    if inPeriod then Shifted(index, offset + RowsAfter(k, Move(a))) else index
  }

  lemma StreamAddress(a: ArrayInfo, opt: Buffers.Options, buf: Buffer, index: Vec, phase: int, offset: int, k: nat)
    requires IsModuloBuffer(a, opt, buf) && a.isInfinite && index != [] && InArray(a, Shifted(index, offset))
    requires IsPhase(a, opt, buf, phase, k)
    ensures IsFolded(buf, Shifted(index, Amount(buf, true, phase, offset)), Shifted(index, offset + RowsAfter(k, a.period)))
  {
    RowsModuloSize(a, opt, buf, phase, k);
    var rows: nat := RowsAfter(k, a.period);
    PhasedIndexFolds(a, opt, buf, index, offset, rows, phase);
  }

  lemma {:induction false} RowsAreMultiple(k: nat, period: int, size: int)
    requires size >= 1 && period % size == 0
    ensures RowsAfter(k, period) % size == 0
  {
    RowsAreProduct(k, period);
    MultipleOfSize(k, period, size);
  }

  lemma RowsModuloSize(a: ArrayInfo, opt: Buffers.Options, buf: Buffer, phase: int, k: nat)
    requires IsModuloBuffer(a, opt, buf) && a.isInfinite && a.bufferSize != [] && IsPhase(a, opt, buf, phase, k)
    ensures RowsAfter(k, a.period) >= 0 && PhaseFits(buf, RowsAfter(k, a.period), phase)
  {
    RowsNonNegative(k, a.period);
    ModuloSizesPositive(a, opt, buf);
    if buf.hasPhase {
      PhaseIsRows(k, a.period, buf.dimensionSize[0]);
    } else {
      assert IsModuloDimension(a, opt, 0, buf.dimensionSize[0], buf.needsWrapping[0]);
      if a.bufferSize[0] > 1 {
        RowsAreMultiple(k, a.period, buf.dimensionSize[0]);
      }
    }
  }

  lemma PlainAddress(a: ArrayInfo, opt: Buffers.Options, buf: Buffer, x: Vec)
    requires IsModuloBuffer(a, opt, buf) && InArray(a, x)
    ensures IsFolded(buf, x, x)
  {
    ModuloSizesPositive(a, opt, buf);
    assert Indexable(buf, x);
    WholeAddressIsFold(a, opt, buf, x);
  }

  /** A circular buffer: the address is that of the element, folded. */
  lemma CircularAddress(a: ArrayInfo, opt: Buffers.Options, buf: Buffer, index: Vec, inPeriod: bool, phase: int, offset: int, k: nat)
    requires IsModuloBuffer(a, opt, buf) && InArray(a, if inPeriod then Shifted(index, offset) else index)
    requires IsPhase(a, opt, buf, phase, k)
    ensures IsFolded(buf, Shifted(index, Amount(buf, inPeriod, phase, offset)), IndexIn(a, index, inPeriod, offset, k))
  {
    if inPeriod && a.isInfinite && index != [] {
      StreamAddress(a, opt, buf, index, phase, offset, k);
    } else {
      PlainIndex(a, opt, buf, index, inPeriod, phase, offset, k);
      PlainAddress(a, opt, buf, IndexIn(a, index, inPeriod, offset, k));
    }
  }

  lemma {:induction false} NoRows(k: nat)
    ensures RowsAfter(k, 0) == 0
  {
    if k > 0 {
      NoRows(k - 1);
    }
  }

  lemma PlainIndex(a: ArrayInfo, opt: Buffers.Options, buf: Buffer, index: Vec, inPeriod: bool, phase: int, offset: int, k: nat)
    requires IsModuloBuffer(a, opt, buf) && !(inPeriod && a.isInfinite && index != [])
    ensures Shifted(index, Amount(buf, inPeriod, phase, offset)) == IndexIn(a, index, inPeriod, offset, k)
    ensures IndexIn(a, index, inPeriod, offset, k) == if inPeriod then Shifted(index, offset) else index
  {
    NoRows(k);
  }

  lemma NoPhaseIsZero(a: ArrayInfo, opt: Buffers.Options, buf: Buffer, phase: int, k: nat)
    requires IsShiftingBuffer(a, opt, buf) && IsPhase(a, opt, buf, phase, k)
    ensures !buf.hasPhase || k == 0 ==> phase == 0
  {
  }

  lemma ShiftingFold(a: ArrayInfo, opt: Buffers.Options, buf: Buffer, x: Vec, y: Vec, d: nat)
    requires KeepsRows(a, opt, buf) && InArray(a, x) && Indexable(buf, y) && 0 < d < |x| == |y| && y[d] == x[d]
    requires buf.dimensionSize[d] >= 1
    ensures buf.dimensionSize[d] == 1 || Wrapped(buf, y)[d] == x[d] % buf.dimensionSize[d]
  {
    assert IsModuloDimension(a, opt, d, buf.dimensionSize[d], buf.needsWrapping[d]);
    if !buf.needsWrapping[d] && buf.dimensionSize[d] != 1 {
      QuotientUnique(x[d], buf.dimensionSize[d], 0, x[d]);
    }
  }

  ghost predicate IsDisplaced(buf: Buffer, rounded: seq<int>, y: Vec, x: Vec, rows: int) {
    && Indexable(buf, y) && |x| == |rounded| > 0 && (forall d :: 0 <= d < |rounded| ==> rounded[d] >= 1)
    && var c := Wide(Coordinates(true, x, rounded), rounded);
    && c != [] && c[0] == x[0] && Wide(Wrapped(buf, y), buf.dimensionSize) == Shifted(c, rows)
  }

  /** A buffer that shifts rows: the row is displaced, the rest is that of the element, folded. */
  lemma RowsDisplaced(a: ArrayInfo, opt: Buffers.Options, buf: Buffer, rounded: seq<int>, x: Vec, y: Vec, rows: int)
    requires KeepsRows(a, opt, buf) && InArray(a, x) && y == Shifted(x, rows) && buf.dimensionSize[0] > 1
    requires rounded == buf.dimensionSize[0 := a.bufferSize[0]] && forall d :: 0 <= d < |rounded| ==> rounded[d] >= 1
    ensures IsDisplaced(buf, rounded, y, x, rows)
  {
    var c, w := Coordinates(true, x, rounded), Wrapped(buf, y);
    WideShifted(c, rounded, rows);
    var moved := Shifted(c, rows);
    forall d | 0 <= d < |x| ensures (buf.dimensionSize[d] == 1 <==> rounded[d] == 1) && (rounded[d] == 1 || w[d] == moved[d]) {
      if d > 0 {
        ShiftingFold(a, opt, buf, x, y, d);
        assert moved[d] == c[d] == x[d] % rounded[d];
      } else {
        assert w[0] == y[0] && moved[0] == x[0] + rows;
      }
    }
    WideAgrees(w, buf.dimensionSize, moved, rounded);
  }

  lemma ShiftingIndex(a: ArrayInfo, opt: Buffers.Options, buf: Buffer, index: Vec, inPeriod: bool, phase: int, offset: int, k: nat)
    requires IsShiftingBuffer(a, opt, buf) && IsPhase(a, opt, buf, phase, k) && (inPeriod || k == 0)
    ensures Shifted(index, Amount(buf, inPeriod, phase, offset))
         == Shifted(IndexIn(a, index, inPeriod, offset, k), phase - RowsAfter(k, a.period))
  {
    NoPhaseIsZero(a, opt, buf, phase, k);
    ShiftedTwice(index, if inPeriod then offset + RowsAfter(k, a.period) else 0, phase - RowsAfter(k, a.period));
  }

  lemma ShiftingRows(a: ArrayInfo, opt: Buffers.Options, buf: Buffer)
    requires IsShiftingBuffer(a, opt, buf)
    ensures buf.shift.periodCount >= 1 && buf.dimensionSize[0] > 1 && a.period > 0 && a.isInfinite
  {
    ProductGrows(1, buf.shift.periodCount, a.period);
  }

  // ---- One access ---------------------------------------------------------------------------

  ghost function ViewsAt(arrays: seq<ArrayInfo>, opt: Buffers.Options, phases: seq<int>, periods: nat): (views: seq<View>)
    requires |phases| == |arrays|
    ensures |views| == |arrays| && forall k :: 0 <= k < |arrays| ==> views[k] == ViewAt(arrays[k], opt, phases[k], periods)
  {
    seq(|arrays|, k requires 0 <= k < |arrays| => ViewAt(arrays[k], opt, phases[k], periods))
  }

  ghost predicate Phases(arrays: seq<ArrayInfo>, opt: Buffers.Options, buffers: seq<Buffer>, phases: seq<int>, periods: nat) {
    |arrays| == |buffers| == |phases|
    && forall k :: 0 <= k < |arrays| ==> PhaseOf(arrays, opt, buffers, k, phases[k], periods)
  }

  ghost predicate PhaseOf(arrays: seq<ArrayInfo>, opt: Buffers.Options, buffers: seq<Buffer>, k: int, phase: int, periods: nat)
    requires 0 <= k < |arrays| == |buffers|
  {
    IsPhase(arrays[k], opt, buffers[k], phase, periods)
  }

  /** What the generated address of an access amounts to. */
  ghost predicate IsAddress(a: ArrayInfo, opt: Buffers.Options, view: View, c: Vec, address: Vec) {
    if Shifts(a, opt) then c != [] && view.first <= c[0] <= view.last && address == Shifted(c, view.ahead)
    else address == c
  }

  lemma ShiftingAccess(a: ArrayInfo, opt: Buffers.Options, buf: Buffer, s: Storage, index: Vec, inPeriod: bool, phase: int,
                       offset: int, k: nat)
    requires Analyzed(a, opt, buf, s) && Shifts(a, opt) && IsPhase(a, opt, buf, phase, k) && (inPeriod || k == 0)
    requires InArray(a, if inPeriod then Shifted(index, offset) else index)
    requires RowInside(a, index[0] + if inPeriod then offset else 0, inPeriod)
    ensures FoldableIn(s, IndexIn(a, index, inPeriod, offset, k))
    ensures var y, c := Shifted(index, Amount(buf, inPeriod, phase, offset)),
                        Wide(Coordinates(true, IndexIn(a, index, inPeriod, offset, k), s.rounded), s.rounded);
      Indexable(buf, y) && IsAddress(a, opt, ViewAt(a, opt, phase, k), c, Wide(Wrapped(buf, y), buf.dimensionSize))
  {
    RoundedSizes(a, opt, buf, s);
    ShiftingRows(a, opt, buf);
    var x, y := IndexIn(a, index, inPeriod, offset, k), Shifted(index, Amount(buf, inPeriod, phase, offset));
    IndexInArray(a, index, inPeriod, offset, k);
    ShiftingIndex(a, opt, buf, index, inPeriod, phase, offset, k);
    RowsDisplaced(a, opt, buf, s.rounded, x, y, phase - RowsAfter(k, a.period));
    RowInView(a, opt, index, inPeriod, phase, offset, k);
    DisplacedIsAddress(a, opt, buf, s.rounded, y, x, ViewAt(a, opt, phase, k));
  }

  lemma IndexInArray(a: ArrayInfo, index: Vec, inPeriod: bool, offset: int, k: nat)
    requires WellFormed(a) && InArray(a, if inPeriod then Shifted(index, offset) else index)
    ensures InArray(a, IndexIn(a, index, inPeriod, offset, k))
  {
    if inPeriod {
      StaysInArray(a, index, offset, k);
    }
  }

  lemma RowInView(a: ArrayInfo, opt: Buffers.Options, index: Vec, inPeriod: bool, phase: int, offset: int, k: nat)
    requires Shifts(a, opt) && index != [] && (inPeriod || k == 0)
    requires RowInside(a, index[0] + if inPeriod then offset else 0, inPeriod) && index[0] + (if inPeriod then offset else 0) >= 0
    ensures var view, row := ViewAt(a, opt, phase, k), IndexIn(a, index, inPeriod, offset, k)[0];
      view.first <= row <= view.last
  {
  }

  lemma DisplacedIsAddress(a: ArrayInfo, opt: Buffers.Options, buf: Buffer, rounded: seq<int>, y: Vec, x: Vec, view: View)
    requires Shifts(a, opt) && IsDisplaced(buf, rounded, y, x, view.ahead) && view.first <= x[0] <= view.last
    ensures IsAddress(a, opt, view, Wide(Coordinates(true, x, rounded), rounded), Wide(Wrapped(buf, y), buf.dimensionSize))
  {
  }

  lemma CircularAccess(a: ArrayInfo, opt: Buffers.Options, buf: Buffer, s: Storage, index: Vec, inPeriod: bool, phase: int,
                       offset: int, k: nat)
    requires Analyzed(a, opt, buf, s) && !Shifts(a, opt) && IsPhase(a, opt, buf, phase, k)
    requires InArray(a, if inPeriod then Shifted(index, offset) else index)
    ensures FoldableIn(s, IndexIn(a, index, inPeriod, offset, k))
    ensures var y, c := Shifted(index, Amount(buf, inPeriod, phase, offset)),
                        Wide(Coordinates(false, IndexIn(a, index, inPeriod, offset, k), s.rounded), s.rounded);
      Indexable(buf, y) && IsAddress(a, opt, ViewAt(a, opt, phase, k), c, Wide(Wrapped(buf, y), buf.dimensionSize))
  {
    CircularAddress(a, opt, buf, index, inPeriod, phase, offset, k);
  }

  lemma ArrayAccess(a: ArrayInfo, opt: Buffers.Options, buf: Buffer, s: Storage, index: Vec, inPeriod: bool, phase: int,
                    offset: int, k: nat)
    requires Analyzed(a, opt, buf, s) && IsPhase(a, opt, buf, phase, k) && (inPeriod || k == 0)
    requires InArray(a, if inPeriod then Shifted(index, offset) else index)
    requires Shifts(a, opt) ==> RowInside(a, index[0] + if inPeriod then offset else 0, inPeriod)
    ensures FoldableIn(s, IndexIn(a, index, inPeriod, offset, k))
    ensures var y, c := Shifted(index, Amount(buf, inPeriod, phase, offset)),
                        Wide(Coordinates(Shifts(a, opt), IndexIn(a, index, inPeriod, offset, k), s.rounded), s.rounded);
      Indexable(buf, y) && IsAddress(a, opt, ViewAt(a, opt, phase, k), c, Wide(Wrapped(buf, y), buf.dimensionSize))
  {
    if Shifts(a, opt) {
      ShiftingAccess(a, opt, buf, s, index, inPeriod, phase, offset, k);
    } else {
      CircularAccess(a, opt, buf, s, index, inPeriod, phase, offset, k);
    }
  }

  lemma MovedIs(a: ArrayInfo, opt: Buffers.Options, views: seq<View>, k: nat, phase: int, periods: nat, c: Vec, address: Vec)
    requires k < |views| && views[k] == ViewAt(a, opt, phase, periods) && IsAddress(a, opt, views[k], c, address)
    ensures MovedTo(views, Place(k, c)) == Place(k, address) && Kept(views, Place(k, c)) && Written(views, Place(k, c))
  {
  }

  /** The element that an access means, where its buffer has it. */
  ghost function CellIn(arrays: seq<ArrayInfo>, opt: Buffers.Options, storage: seq<Storage>, access: Access, inPeriod: bool, k: nat): Place
  {
    AddressAt(Apart(arrays, opt), storage, ElementOf(arrays, access, inPeriod, k))
  }

  lemma CellIs(arrays: seq<ArrayInfo>, opt: Buffers.Options, storage: seq<Storage>, access: Access, inPeriod: bool, k: nat)
    requires access.event.elem.arr < |arrays| == |storage|
    requires var p := access.event.elem; FoldableIn(storage[p.arr], IndexIn(arrays[p.arr], p.index, inPeriod, access.offset, k))
    ensures var p := access.event.elem;
      var x, rounded := IndexIn(arrays[p.arr], p.index, inPeriod, access.offset, k), storage[p.arr].rounded;
      CellIn(arrays, opt, storage, access, inPeriod, k) == Place(p.arr, Wide(Coordinates(Shifts(arrays[p.arr], opt), x, rounded), rounded))
  {
  }

  /** The cell of an accessed element is in the buffer, at the address generated for the access. */
  lemma AccessIsMoved(arrays: seq<ArrayInfo>, opt: Buffers.Options, buffers: seq<Buffer>, storage: seq<Storage>,
                      phases: seq<int>, periods: nat, access: Access, inPeriod: bool)
    requires Fit(arrays, opt, buffers, storage) && Phases(arrays, opt, buffers, phases, periods)
    requires Runnable(arrays, opt, access, inPeriod) && (inPeriod || periods == 0)
    ensures var p := access.event.elem;
      var buf, y := buffers[p.arr], Shifted(p.index, Amount(buffers[p.arr], inPeriod, phases[p.arr], access.offset));
      var views, c := ViewsAt(arrays, opt, phases, periods), CellIn(arrays, opt, storage, access, inPeriod, periods);
      && Indexable(buf, y) && MovedTo(views, c) == Place(p.arr, Wide(Wrapped(buf, y), buf.dimensionSize))
      && Kept(views, c) && Written(views, c)
  {
    var p := access.event.elem;
    var a, buf, s, phase := arrays[p.arr], buffers[p.arr], storage[p.arr], phases[p.arr];
    assert Analyzed(a, opt, buf, s) && PhaseOf(arrays, opt, buffers, p.arr, phase, periods);
    ArrayAccess(a, opt, buf, s, p.index, inPeriod, phase, access.offset, periods);
    CellIs(arrays, opt, storage, access, inPeriod, periods);
    var c := CellIn(arrays, opt, storage, access, inPeriod, periods);
    var y := Shifted(p.index, Amount(buf, inPeriod, phase, access.offset));
    MovedIs(a, opt, ViewsAt(arrays, opt, phases, periods), p.arr, phase, periods, c.index, Wide(Wrapped(buf, y), buf.dimensionSize));
  }

  // ---- The end of a period ------------------------------------------------------------------

  /** The phase of a shifting buffer after one more period. */
  lemma NextShiftPhase(a: ArrayInfo, opt: Buffers.Options, buf: Buffer, phase: int, k: nat)
    requires IsShiftingBuffer(a, opt, buf) && IsPhase(a, opt, buf, phase, k)
    ensures var moved, n := phase + buf.periodOffset, buf.shift.periodCount;
      && IsPhase(a, opt, buf, if moved >= n * buf.periodOffset then 0 else moved, k + 1)
      && (moved >= n * buf.periodOffset ==> moved == n * buf.periodOffset)
  {
    ShiftingRows(a, opt, buf);
    var n, j := buf.shift.periodCount, SinceShift(k, buf.shift.periodCount);
    RowsAreProduct(n, a.period);
    assert phase + a.period == RowsAfter(j + 1, a.period);
    if j + 1 < n {
      RowsGrow(j + 1, n, a.period);
    }
  }

  /** Without a shift, rows are looked for where they were, or there are none that remain. */
  lemma KeptInPlace(a: ArrayInfo, opt: Buffers.Options, buf: Buffer, phase: int, next: int, k: nat)
    requires IsShiftingBuffer(a, opt, buf) && IsPhase(a, opt, buf, phase, k) && IsPhase(a, opt, buf, next, k + 1)
    requires if buf.hasPhase then next == phase + a.period else next == phase
    ensures var v, w := ViewAt(a, opt, phase, k), ViewAt(a, opt, next, k + 1);
      w.shifting == v.shifting && w.first >= v.first && w.last >= v.last && (w.ahead == v.ahead || w.first > v.last)
  {
    ShiftingRows(a, opt, buf);
    RowsNonNegative(k, a.period);
  }

  /** With one, they are in the range that is shifted. */
  lemma KeptInShift(a: ArrayInfo, opt: Buffers.Options, buf: Buffer, phase: int, back: int, k: nat)
    requires IsShiftingBuffer(a, opt, buf) && IsPhase(a, opt, buf, phase, k) && buf.hasPhase
    requires back == phase + a.period == buf.shift.periodCount * a.period
    ensures var v, w, dest := ViewAt(a, opt, phase, k), ViewAt(a, opt, 0, k + 1), buf.shift.source - back;
      && w.shifting && v.shifting && w.first >= v.first && w.last >= v.last && w.ahead == v.ahead - back
      && dest <= w.first + w.ahead && v.last + w.ahead < dest + buf.shift.size
  {
    ShiftingRows(a, opt, buf);
    RowsNonNegative(k, a.period);
  }

  lemma NextCircularPhase(a: ArrayInfo, opt: Buffers.Options, buf: Buffer, phase: int, k: nat)
    requires IsModuloBuffer(a, opt, buf) && buf.hasPhase && IsPhase(a, opt, buf, phase, k)
    ensures buf.dimensionSize != [] && buf.dimensionSize[0] >= 1 && phase + buf.periodOffset >= 0
    ensures IsPhase(a, opt, buf, (phase + buf.periodOffset) % buf.dimensionSize[0], k + 1)
  {
    PhaseIsModulo(k, a.period, buf.dimensionSize[0]);
  }

  // ---- The program --------------------------------------------------------------------------

  ghost predicate IsCellOf(cell: Place -> Place, apart: seq<bool>, storage: seq<Storage>) {
    forall p: Place {:trigger AddressAt(apart, storage, p)} :: cell(p) == AddressAt(apart, storage, p)
  }

  class GeneratedProgram {
    const arrays: seq<ArrayInfo>
    const opt: Buffers.Options
    const buffers: seq<Buffer>
    var phases: seq<int>

    /** Contents of the buffers, by array and address, and the values read. */
    var memory: map<Place, int>
    var log: seq<int>

    /** The program on unbounded arrays, how far it is executed, and the cell of each element. */
    ghost const storage: seq<Storage>
    ghost const cell: Place -> Place
    ghost const trace: seq<Event<Place>>
    ghost var done: nat
    ghost var periods: nat

    ghost predicate Valid()
      reads `phases, `periods
    {
      && Fit(arrays, opt, buffers, storage) && IsCellOf(cell, Apart(arrays, opt), storage) && ReadsAreWritten(trace)
      && Phases(arrays, opt, buffers, phases, periods)
    }

    /** The state of the program on a cell for each element, or for all elements that share it. */
    ghost function Cells(): State<Place>
      requires done <= |trace|
      reads `done
    {
      Run(trace[..done], cell)
    }

    ghost predicate Agrees(views: seq<View>)
      reads `memory, `log, `done
    {
      done <= |trace| && log == Cells().log && Mirrors(views, memory, Cells().memory)
    }

    /** The buffers have what they should, where it is looked for in this period. */
    ghost predicate InStep()
      reads this
    {
      |phases| == |arrays| && Agrees(ViewsAt(arrays, opt, phases, periods))
    }

    constructor (arrays: seq<ArrayInfo>, opt: Buffers.Options, buffers: seq<Buffer>, ghost storage: seq<Storage>,
                 ghost trace: seq<Event<Place>>)
      requires Fit(arrays, opt, buffers, storage) && ReadsAreWritten(trace)
      ensures Valid() && InStep() && periods == 0 && done == 0
      ensures this.arrays == arrays && this.opt == opt && this.trace == trace
      ensures this.cell == AddressOf(Apart(arrays, opt), storage)
    {
      this.arrays, this.opt, this.buffers, this.storage, this.trace := arrays, opt, buffers, storage, trace;
      this.cell := AddressOf(Apart(arrays, opt), storage);
      phases := seq(|arrays|, _ => 0);
      memory, log, periods, done := map[], [], 0, 0;
    }

    ghost function Does(access: Access, inPeriod: bool): Event<Place>
      reads `periods
    {
      EventIn(arrays, access, inPeriod, periods)
    }

    /** The generated address: where the buffer has the element that the access means. */
    method Address(access: Access, inPeriod: bool) returns (place: Place)
      requires Valid() && Runnable(arrays, opt, access, inPeriod) && (inPeriod || periods == 0)
      ensures var views, c := ViewsAt(arrays, opt, phases, periods), cell(Does(access, inPeriod).elem);
        place == MovedTo(views, c) && Kept(views, c) && Written(views, c)
    {
      var p := access.event.elem;
      AccessIsMoved(arrays, opt, buffers, storage, phases, periods, access, inPeriod);
      var address := GenerateBufferAccess(buffers[p.arr], p.index, inPeriod, phases[p.arr], access.offset);
      place := Place(p.arr, address);
    }

    method ExecuteAccess(access: Access, inPeriod: bool)
      requires Valid() && InStep() && Runnable(arrays, opt, access, inPeriod) && (inPeriod || periods == 0)
      requires done < |trace| && trace[done] == Does(access, inPeriod)
      modifies `memory, `log, `done
      ensures InStep() && done == old(done) + 1
    {
      var place := Address(access, inPeriod);
      ghost var views, c := ViewsAt(arrays, opt, phases, periods), cell(trace[done].elem);
      match access.event {
        case Read(_) => ReadAt(place, views, c);
        case Write(_, compute) => WriteAt(place, compute, views, c);
      }
    }

    method ReadAt(place: Place, ghost views: seq<View>, ghost c: Place)
      requires Agrees(views) && done < |trace| && ReadsAreWritten(trace) && trace[done].Read? && c == cell(trace[done].elem)
      requires place == MovedTo(views, c) && Kept(views, c)
      modifies `log, `done
      ensures Agrees(views) && done == old(done) + 1
    {
      OneMoreEvent(trace, done, cell);
      ReadIsStored(trace, done, cell);
      ReadMirrors(views, memory, Cells().memory, c);
      log, done := log + [Lookup(memory, place)], done + 1;
    }

    method WriteAt(place: Place, compute: seq<int> -> int, ghost views: seq<View>, ghost c: Place)
      requires Agrees(views) && done < |trace| && trace[done] == Write(trace[done].elem, compute) && c == cell(trace[done].elem)
      requires place == MovedTo(views, c) && Written(views, c)
      modifies `memory, `done
      ensures Agrees(views) && done == old(done) + 1
    {
      OneMoreEvent(trace, done, cell);
      WriteMirrors(views, memory, Cells().memory, c, compute(log));
      memory, done := memory[place := compute(log)], done + 1;
    }

    /** The events from here on are those of the code. */
    ghost predicate Follows(code: Code, inPeriod: bool, from: nat)
      reads `periods
    {
      from + |code| <= |trace| && forall j :: 0 <= j < |code| ==> trace[from + j] == Does(code[j], inPeriod)
    }

    ghost predicate AllRunnable(code: Code, inPeriod: bool) {
      forall j :: 0 <= j < |code| ==> Runnable(arrays, opt, code[j], inPeriod)
    }

    /** Straight-line code, as the prelude or as the current period. */
    method Execute(code: Code, inPeriod: bool)
      requires Valid() && InStep() && AllRunnable(code, inPeriod) && (inPeriod || periods == 0) && Follows(code, inPeriod, done)
      modifies `memory, `log, `done
      ensures InStep() && done == old(done) + |code|
    {
      ghost var from := done;
      for j := 0 to |code|
        invariant InStep() && done == from + j && Follows(code, inPeriod, from)
      {
        assert trace[from + j] == Does(code[j], inPeriod);
        ExecuteAccess(code[j], inPeriod);
      }
    }

    /** advance_buffers: every buffer that has a phase; a buffer that shifts its rows does so when the phase
        has reached its limit. */
    method AdvanceBuffers()
      requires Valid() && InStep()
      modifies `phases, `memory, `periods
      ensures Valid() && InStep() && periods == old(periods) + 1
    {
      var next := phases;
      ghost var views := ViewsAt(arrays, opt, phases, periods);
      for k := 0 to |arrays|
        invariant |next| == |arrays| == |views| && phases == old(phases) && periods == old(periods) && done == old(done)
        invariant Agrees(views)
        invariant forall j :: 0 <= j < k ==> PhaseOf(arrays, opt, buffers, j, next[j], periods + 1)
        invariant forall j :: 0 <= j < k ==> views[j] == ViewAt(arrays[j], opt, next[j], periods + 1)
        invariant forall j :: k <= j < |arrays| ==> next[j] == phases[j] && views[j] == ViewAt(arrays[j], opt, phases[j], periods)
      {
        var phase := AdvanceBuffer(k, views);
        next := next[k := phase];
        views := views[k := ViewAt(arrays[k], opt, phase, periods + 1)];
      }
      assert views == ViewsAt(arrays, opt, next, periods + 1);
      phases, periods := next, periods + 1;
    }

    method AdvanceBuffer(k: nat, ghost views: seq<View>) returns (next: int)
      requires Valid() && Agrees(views) && k < |arrays| == |views|
      requires views[k] == ViewAt(arrays[k], opt, phases[k], periods)
      modifies `memory
      ensures Agrees(views[k := ViewAt(arrays[k], opt, next, periods + 1)])
      ensures PhaseOf(arrays, opt, buffers, k, next, periods + 1)
    {
      assert Analyzed(arrays[k], opt, buffers[k], storage[k]) && PhaseOf(arrays, opt, buffers, k, phases[k], periods);
      if buffers[k].hasPhase && buffers[k].shift.size != 0 {
        next := AdvanceShifting(k, views);
      } else {
        next := AdvanceInPlace(k, views);
      }
    }

    method AdvanceShifting(k: nat, ghost views: seq<View>) returns (next: int)
      requires Agrees(views) && k < |arrays| == |views| == |phases| == |buffers|
      requires IsShiftingBuffer(arrays[k], opt, buffers[k]) && IsPhase(arrays[k], opt, buffers[k], phases[k], periods)
      requires buffers[k].hasPhase && views[k] == ViewAt(arrays[k], opt, phases[k], periods)
      modifies `memory
      ensures Agrees(views[k := ViewAt(arrays[k], opt, next, periods + 1)])
      ensures IsPhase(arrays[k], opt, buffers[k], next, periods + 1)
    {
      var moved, back := phases[k] + buffers[k].periodOffset, buffers[k].shift.periodCount * buffers[k].periodOffset;
      NextShiftPhase(arrays[k], opt, buffers[k], phases[k], periods);
      if moved >= back {
        next := 0;
        KeptInShift(arrays[k], opt, buffers[k], phases[k], back, periods);
        ShiftRows(k, views, ViewAt(arrays[k], opt, 0, periods + 1), back);
      } else {
        next := moved;
        KeptInPlace(arrays[k], opt, buffers[k], phases[k], next, periods);
        LaterViewMirrors(views, memory, Cells().memory, k, ViewAt(arrays[k], opt, next, periods + 1));
      }
    }

    /** The rows of the overlap go back. */
    method ShiftRows(k: nat, ghost views: seq<View>, ghost later: View, back: int)
      requires Agrees(views) && k < |views| == |buffers| && views[k].shifting && later.shifting
      requires later.first >= views[k].first && later.last >= views[k].last && later.ahead == views[k].ahead - back
      requires buffers[k].shift.source - back <= later.first + later.ahead
      requires views[k].last + later.ahead < buffers[k].shift.source - back + buffers[k].shift.size
      modifies `memory
      ensures Agrees(views[k := later])
    {
      var shift := buffers[k].shift;
      var after := ShiftMemory(memory, k, shift.source - back, shift.size, back);
      ShiftMirrors(views, memory, after, Cells().memory, k, later, shift.source - back, shift.size, back);
      memory := after;
    }

    method AdvanceInPlace(k: nat, ghost views: seq<View>) returns (next: int)
      requires Agrees(views) && k < |arrays| == |views| == |phases| == |buffers| == |storage|
      requires Analyzed(arrays[k], opt, buffers[k], storage[k]) && IsPhase(arrays[k], opt, buffers[k], phases[k], periods)
      requires !(buffers[k].hasPhase && buffers[k].shift.size != 0)
      requires views[k] == ViewAt(arrays[k], opt, phases[k], periods)
      ensures Agrees(views[k := ViewAt(arrays[k], opt, next, periods + 1)])
      ensures IsPhase(arrays[k], opt, buffers[k], next, periods + 1)
    {
      next := phases[k];
      if buffers[k].hasPhase {
        var size := buffers[k].dimensionSize[0];
        NextCircularPhase(arrays[k], opt, buffers[k], phases[k], periods);
        WrapIsModulo(phases[k] + buffers[k].periodOffset, size);
        next := Wrap(phases[k] + buffers[k].periodOffset, size);
      } else if Shifts(arrays[k], opt) {
        NextShiftPhase(arrays[k], opt, buffers[k], phases[k], periods);
        KeptInPlace(arrays[k], opt, buffers[k], phases[k], next, periods);
      }
      LaterViewMirrors(views, memory, Cells().memory, k, ViewAt(arrays[k], opt, next, periods + 1));
    }

    method RunPeriod(code: Code)
      requires Valid() && InStep() && AllRunnable(code, true) && Follows(code, true, done)
      modifies this
      ensures Valid() && InStep() && periods == old(periods) + 1 && done == old(done) + |code|
    {
      Execute(code, true);
      AdvanceBuffers();
    }

    lemma FollowsPrelude(prelude: Code, code: seq<Code>)
      requires trace == Unrolled(arrays, prelude, code) && periods == 0
      ensures Follows(prelude, false, 0) && |Unrolled(arrays, prelude, code[..0])| == |prelude|
    {
      PreludeEvents(arrays, prelude, code);
    }

    lemma FollowsPeriod(prelude: Code, code: seq<Code>, k: nat)
      requires trace == Unrolled(arrays, prelude, code) && k < |code| && periods == k
      ensures Follows(code[k], true, |Unrolled(arrays, prelude, code[..k])|)
      ensures |Unrolled(arrays, prelude, code[..k + 1])| == |Unrolled(arrays, prelude, code[..k])| + |code[k]|
    {
      PeriodEvents(arrays, prelude, code, k);
      UnrolledOneMore(arrays, prelude, code, k);
    }

    ghost predicate AllPeriodsRunnable(code: seq<Code>) {
      forall k :: 0 <= k < |code| ==> AllRunnable(code[k], true)
    }

    /** After k periods, all their events are executed. */
    ghost predicate Executed(prelude: Code, code: seq<Code>, k: nat)
      reads `periods, `done
    {
      k <= |code| && periods == k && done == |Unrolled(arrays, prelude, code[..k])|
    }

    /** The prelude, and then every period followed by the update of the buffers. */
    method RunAll(prelude: Code, code: seq<Code>)
      requires Valid() && InStep() && periods == 0 && done == 0 && trace == Unrolled(arrays, prelude, code)
      requires AllRunnable(prelude, false) && AllPeriodsRunnable(code)
      modifies this
      ensures InStep() && done == |trace|
    {
      FollowsPrelude(prelude, code);
      Execute(prelude, false);
      for k := 0 to |code|
        invariant Valid() && InStep() && Executed(prelude, code, k)
      {
        FollowsPeriod(prelude, code, k);
        RunPeriod(code[k]);
      }
      assert code[..|code|] == code;
    }
  }

  lemma UnrolledOneMore(arrays: seq<ArrayInfo>, prelude: Code, code: seq<Code>, k: nat)
    requires k < |code|
    ensures Unrolled(arrays, prelude, code[..k + 1]) == Unrolled(arrays, prelude, code[..k]) + EventsIn(arrays, code[k], true, k)
  {
    var c := code[..k + 1];
    assert c[..|c| - 1] == code[..k] && c[|c| - 1] == code[k];
  }

  lemma {:induction false} UnrolledIsPrefix(arrays: seq<ArrayInfo>, prelude: Code, code: seq<Code>, k: nat)
    requires k <= |code|
    ensures Unrolled(arrays, prelude, code[..k]) <= Unrolled(arrays, prelude, code)
    decreases |code|
  {
    if k == |code| {
      assert code[..k] == code;
    } else {
      var shorter := code[..|code| - 1];
      UnrolledIsPrefix(arrays, prelude, shorter, k);
      assert shorter[..k] == code[..k];
    }
  }

  lemma PreludeEvents(arrays: seq<ArrayInfo>, prelude: Code, code: seq<Code>)
    ensures |prelude| <= |Unrolled(arrays, prelude, code)| && |Unrolled(arrays, prelude, code[..0])| == |prelude|
    ensures forall j :: 0 <= j < |prelude| ==> Unrolled(arrays, prelude, code)[j] == EventIn(arrays, prelude[j], false, 0)
  {
    UnrolledIsPrefix(arrays, prelude, code, 0);
    assert code[..0] == [];
  }

  lemma PeriodEvents(arrays: seq<ArrayInfo>, prelude: Code, code: seq<Code>, k: nat)
    requires k < |code|
    ensures var trace, from := Unrolled(arrays, prelude, code), |Unrolled(arrays, prelude, code[..k])|;
      from + |code[k]| <= |trace| && forall j :: 0 <= j < |code[k]| ==> trace[from + j] == EventIn(arrays, code[k][j], true, k)
  {
    UnrolledOneMore(arrays, prelude, code, k);
    UnrolledIsPrefix(arrays, prelude, code, k + 1);
    EventsInPrefix(Unrolled(arrays, prelude, code), Unrolled(arrays, prelude, code[..k]), EventsIn(arrays, code[k], true, k));
  }

  lemma EventsInPrefix(trace: seq<Event<Place>>, done: seq<Event<Place>>, part: seq<Event<Place>>)
    requires done + part <= trace
    ensures forall j :: 0 <= j < |part| ==> trace[|done| + j] == part[j]
  {
    forall j | 0 <= j < |part| ensures trace[|done| + j] == part[j] {
      assert (done + part)[|done| + j] == part[j];
    }
  }

  lemma OneMoreEvent(trace: seq<Event<Place>>, n: nat, cell: Place -> Place)
    requires n < |trace|
    ensures Run(trace[..n + 1], cell) == Step(Run(trace[..n], cell), trace[n], cell)
  {
    assert trace[..n + 1][..n] == trace[..n];
  }

  lemma {:induction false} WrittenIsStored(trace: seq<Event<Place>>, n: nat, cell: Place -> Place, x: Place)
    requires n <= |trace| && WrittenBefore(trace, n, x)
    ensures cell(x) in Run(trace[..n], cell).memory
  {
    OneMoreEvent(trace, n - 1, cell);
    if !(trace[n - 1].Write? && trace[n - 1].elem == x) {
      WrittenIsStored(trace, n - 1, cell, x);
    }
  }

  lemma ReadIsStored(trace: seq<Event<Place>>, n: nat, cell: Place -> Place)
    requires n < |trace| && ReadsAreWritten(trace) && trace[n].Read?
    ensures cell(trace[n].elem) in Run(trace[..n], cell).memory
  {
    WrittenIsStored(trace, n, cell, trace[n].elem);
  }

  // ---- The main result on generated storage -------------------------------------------------

  lemma AnalyzedFits(arrays: seq<ArrayInfo>, opt: Buffers.Options, buffers: seq<Buffer>, storage: seq<Storage>)
    requires Fit(arrays, opt, buffers, storage)
    ensures ApartFits(Apart(arrays, opt), storage)
  {
    forall k | 0 <= k < |storage| && Apart(arrays, opt)[k] ensures storage[k].rounded != [] ==> storage[k].rounded[0] != 1 {
      assert Analyzed(arrays[k], opt, buffers[k], storage[k]);
    }
  }

  /** The generated program, with some buffers circular and others shifting their rows, run for any number
      of periods, reads what the program reads on unbounded arrays. */
  method RunGenerated(ghost isl: Isl, ghost classic: bool, arrays: seq<ArrayInfo>, opt: Buffers.Options, buffers: seq<Buffer>,
                      ghost storage: seq<Storage>, ghost order: seq<Relation>, ghost loops: seq<Loop>,
                      prelude: Code, periods: seq<Code>, ghost times: seq<Vec>)
    returns (log: seq<int>)
    requires Fit(arrays, opt, buffers, storage) && IsLexOrder(order)
    requires forall a :: 0 <= a < |storage| ==> Stored(isl, classic, order, loops, storage[a])
    requires forall j :: 0 <= j < |prelude| ==> Runnable(arrays, opt, prelude[j], false)
    requires forall k, j :: 0 <= k < |periods| && 0 <= j < |periods[k]| ==> Runnable(arrays, opt, periods[k][j], true)
    requires var trace := Unrolled(arrays, prelude, periods);
      Scheduled(storage, trace, times) && InOrder(trace, times, loops) && Produced(trace, times, loops)
    ensures log == Run(Unrolled(arrays, prelude, periods), Own()).log
  {
    ghost var trace := Unrolled(arrays, prelude, periods);
    ProducedReadsAreWritten(trace, times, loops);
    var program := new GeneratedProgram(arrays, opt, buffers, storage, trace);
    program.RunAll(prelude, periods);
    log := program.log;
    assert trace[..|trace|] == trace;
    AnalyzedFits(arrays, opt, buffers, storage);
    GeneratedProgramIsCorrect(isl, classic, Apart(arrays, opt), storage, order, loops, trace, times);
  }
}
