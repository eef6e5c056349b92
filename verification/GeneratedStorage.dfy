/** From the sizes that the allocator chose to the addresses that the generated code computes. */
module GeneratedStorage {
  import opened IslModel
  import opened BufferSizing
  import opened FoldedMemory
  import opened ScheduledPrograms
  import opened Buffers

  /** buffer_analysis was given the allocator's sizes.  A buffer that shifts data does not wrap its rows. */
  ghost predicate Analyzed(a: ArrayInfo, opt: Buffers.Options, buf: Buffer, s: Storage) {
    && a.bufferSize == s.size
    && if Shifts(a, opt) then IsShiftingBuffer(a, opt, buf) && s.rounded == buf.dimensionSize[0 := a.bufferSize[0]]
       else IsModuloBuffer(a, opt, buf) && s.rounded == buf.dimensionSize
  }

  lemma RoundedSizes(a: ArrayInfo, opt: Buffers.Options, buf: Buffer, s: Storage)
    requires Analyzed(a, opt, buf, s)
    ensures |s.rounded| == |s.size| && forall d :: 0 <= d < |s.size| ==> s.rounded[d] >= s.size[d] >= 1
  {
    if Shifts(a, opt) {
      forall d | 0 < d < |s.size| ensures s.rounded[d] >= s.size[d] >= 1 {
        assert IsModuloDimension(a, opt, d, buf.dimensionSize[d], buf.needsWrapping[d]);
      }
    } else {
      ModuloSizesPositive(a, opt, buf);
    }
  }

  /** Rounding by buffer_analysis only enlarges, so its shapes are as good as the allocator's. */
  lemma AnalysisGivesAllocation(isl: Isl, classic: bool, a: ArrayInfo, opt: Buffers.Options, buf: Buffer, s: Storage)
    requires Sound(isl, s.n) && |s.size| == s.n && SizesFor(s.n, s.conflicts, isl.deltas(s.conflicts), classic, s.size)
    requires Analyzed(a, opt, buf, s)
    ensures Allocation(isl, classic, s)
  {
    RoundedSizes(a, opt, buf, s);
  }

  /** The folded coordinates of an element; a shifting buffer keeps its rows apart. */
  function Coordinates(apart: bool, index: Vec, rounded: seq<int>): (c: Vec)
    requires |index| == |rounded| && forall d :: 0 <= d < |rounded| ==> rounded[d] >= 1
    ensures |c| == |index|
  {
    if apart && index != [] then Fold(index, rounded)[0 := index[0]] else Fold(index, rounded)
  }

  /** The address of an element in its buffer, or its row and the rest of its address if the buffer shifts
      rows; `apart` says of which arrays it does. */
  function AddressAt(apart: seq<bool>, storage: seq<Storage>, p: Place): Place {
    if p.arr < |storage| && FoldableIn(storage[p.arr], p.index)
    then Place(p.arr, Wide(Coordinates(p.arr < |apart| && apart[p.arr], p.index, storage[p.arr].rounded), storage[p.arr].rounded))
    else p
  }

  function AddressOf(apart: seq<bool>, storage: seq<Storage>): Place -> Place {
    (p: Place) => AddressAt(apart, storage, p)
  }

  /** Elements of an array have the same address only if they have the same cell. */
  lemma AddressesSeparateCells(apart: seq<bool>, storage: seq<Storage>, p: Place, q: Place)
    requires p.arr < |storage| && q.arr < |storage|
    requires FoldableIn(storage[p.arr], p.index) && FoldableIn(storage[q.arr], q.index)
    requires p.arr < |apart| && apart[p.arr] && p.index != [] ==> storage[p.arr].rounded[0] != 1
    requires AddressOf(apart, storage)(p) == AddressOf(apart, storage)(q)
    ensures CellOf(storage)(p) == CellOf(storage)(q)
  {
    var rounded, rows := storage[p.arr].rounded, p.arr < |apart| && apart[p.arr];
    var c, d := Coordinates(rows, p.index, rounded), Coordinates(rows, q.index, rounded);
    SameAddressIffSameFold(c, d, rounded);
    assert forall i :: 0 <= i < |c| ==> c[i] == d[i];
    assert Fold(p.index, rounded) == Fold(q.index, rounded);
  }

  /** Rows are kept apart only where they are not dropped from the address. */
  ghost predicate ApartFits(apart: seq<bool>, storage: seq<Storage>) {
    forall k :: 0 <= k < |storage| && k < |apart| && apart[k] && storage[k].rounded != [] ==> storage[k].rounded[0] != 1
  }

  /** The generated program reads from its buffers what the program reads from unbounded arrays. */
  lemma GeneratedProgramIsCorrect(isl: Isl, classic: bool, apart: seq<bool>, storage: seq<Storage>, order: seq<Relation>,
                                  loops: seq<Loop>, trace: seq<Event<Place>>, times: seq<Vec>)
    requires IsLexOrder(order) && ApartFits(apart, storage)
    requires forall a :: 0 <= a < |storage| ==> Stored(isl, classic, order, loops, storage[a])
    requires Scheduled(storage, trace, times) && InOrder(trace, times, loops) && Produced(trace, times, loops)
    ensures Run(trace, AddressOf(apart, storage)).log == Run(trace, Own()).log
  {
    ProducedReadsAreWritten(trace, times, loops);
    forall i, k, j ensures !Clobbers(trace, AddressOf(apart, storage), i, k, j) {
      if 0 <= i < k < j < |trace| && trace[i].Write? && trace[k].Write? && trace[j].Read?
         && trace[i].elem == trace[j].elem != trace[k].elem {
        NoClobberAtAddress(isl, classic, apart, storage, order, loops, trace, times, i, k, j);
      }
    }
    FoldedRefinesUnbounded(trace, AddressOf(apart, storage));
  }

  lemma NoClobberAtAddress(isl: Isl, classic: bool, apart: seq<bool>, storage: seq<Storage>, order: seq<Relation>, loops: seq<Loop>,
                           trace: seq<Event<Place>>, times: seq<Vec>, i: nat, k: nat, j: nat)
    requires IsLexOrder(order) && ApartFits(apart, storage)
    requires forall a :: 0 <= a < |storage| ==> Stored(isl, classic, order, loops, storage[a])
    requires Scheduled(storage, trace, times) && InOrder(trace, times, loops)
    requires i < k < j < |trace| && trace[i].Write? && trace[k].Write? && trace[j].Read?
    requires trace[i].elem == trace[j].elem != trace[k].elem
    ensures AddressOf(apart, storage)(trace[k].elem) != AddressOf(apart, storage)(trace[j].elem)
  {
    var p, q := trace[k].elem, trace[j].elem;
    SharedCellsAreClobberFree(isl, classic, storage, order, loops, trace, times, i, k, j);
    assert Stored(isl, classic, order, loops, storage[p.arr]) && Stored(isl, classic, order, loops, storage[q.arr]);
    if AddressOf(apart, storage)(p) == AddressOf(apart, storage)(q) {
      AddressesSeparateCells(apart, storage, p, q);
    }
  }
}
