/** Instances that write elements which are never read: the input statements, which write whole rows and are
    kept for all of them.
 */
module InputRows {
  import opened IslModel
  import opened BufferSizing
  import opened Conflicts
  import opened FoldedMemory
  import opened ParallelLoops
  import opened ScheduledPrograms

  // ---- When whole rows are safe -------------------------------------------------------------

  /** Each instance writes one row, all of it. */
  ghost predicate WritesRows(s: Storage) {
    && s.n > 0
    && (forall x: Vec, t: Vec :: InUnion(s.writers, x, t) ==> |x| == s.n)
    && forall x: Vec, y: Vec, t: Vec, u: Vec :: InUnion(s.writers, x, t) && InUnion(s.writers, y, u) ==>
         |x| == |y| == s.n && (x[0] == y[0] <==> t == u)
  }

  /** An element of every row written is read later. */
  ghost predicate RowsAreRead(s: Storage) {
    forall y: Vec, w: Vec :: InUnion(s.writers, y, w) ==>
      exists z: Vec :: InUnion(s.writers, z, w) && ReadLater(s, z, w)
  }

  /** The row written has the elements that are needed of other rows, and they are read later too. */
  ghost predicate ColumnsAreRead(s: Storage) {
    forall x: Vec, y: Vec, w: Vec ::
      InUnion(s.writers, y, w) && |x| == |y| == s.n > 0 && WrittenBy(s, x, w) && ReadLater(s, x, w) ==>
      var z := x[0 := y[0]];
      InUnion(s.writers, z, w) && ReadLater(s, z, w)
  }

  /** Rows written at once are no danger to other elements if of every row some element is read, in classic mode,
      or, in default mode, the same elements as of the rows that are still needed. */
  lemma WholeRowsAreUsed(classic: bool, s: Storage)
    requires WritesRows(s) && if classic then RowsAreRead(s) else ColumnsAreRead(s)
    ensures WritesAreUsed(classic, s)
  {
    forall y: Vec, w: Vec | InUnion(s.writers, y, w) ensures SparesLive(classic, s, y, w) {
      forall x: Vec | Elements(s.n, x, y) && WrittenBy(s, x, w) && ReadLater(s, x, w)
        ensures InUnion(s.writers, x, w) || exists z, d: nat :: StandsFor(classic, s, x, y, w, z, d)
      {
        RowIsSpared(classic, s, x, y, w);
      }
    }
  }

  lemma RowIsSpared(classic: bool, s: Storage, x: Vec, y: Vec, w: Vec)
    requires WritesRows(s) && if classic then RowsAreRead(s) else ColumnsAreRead(s)
    requires InUnion(s.writers, y, w) && Elements(s.n, x, y) && WrittenBy(s, x, w) && ReadLater(s, x, w)
    ensures InUnion(s.writers, x, w) || exists z, d: nat :: StandsFor(classic, s, x, y, w, z, d)
  {
    if x[0] != y[0] {
      var z: Vec;
      if classic {
        z :| InUnion(s.writers, z, w) && ReadLater(s, z, w);
      } else {
        z := x[0 := y[0]];
      }
      assert StandsFor(classic, s, x, y, w, z, 0);
    }
  }

  lemma LineFits(isl: Isl, classic: bool, n: nat, conflicts: Relation, size: seq<int>, x: Vec, y: Vec, d: nat)
    requires Sound(isl, n) && SizesFor(n, conflicts, isl.deltas(conflicts), classic, size)
    requires d < |x| == |y| == n && conflicts(x, y) && forall k :: 0 <= k < n && k != d ==> x[k] == y[k]
    ensures |size| == n && Abs(y[d] - x[d]) < size[d]
  {
    var deltas, w := isl.deltas(conflicts), Minus(y, x);
    assert IsDelta(n, conflicts, w);
    assert Demands(n, deltas, classic, d, w);
    SizesForAreLeast(n, conflicts, deltas, classic, size);
    assert IsLeastSize(n, deltas, classic, d, size[d]);
  }

  /** The buffer holds in each dimension what one instance accesses in it. */
  lemma InstanceFits(isl: Isl, classic: bool, n: nat, writers: seq<Relation>, readers: seq<Relation>, order: seq<Relation>,
                     parallel: Relation, conflicts: Relation, size: seq<int>, x: Vec, y: Vec, t: Vec, d: nat)
    requires Sound(isl, n) && ConflictsFor(n, writers, readers, order, parallel, conflicts)
    requires SizesFor(n, conflicts, isl.deltas(conflicts), classic, size)
    requires d < |x| == |y| == n && forall k :: 0 <= k < n && k != d ==> x[k] == y[k]
    requires (InUnion(writers, x, t) && InUnion(writers, y, t)) || (InUnion(readers, x, t) && InUnion(readers, y, t))
    ensures |size| == n && Abs(y[d] - x[d]) < size[d]
  {
    if conflicts(x, y) {
      LineFits(isl, classic, n, conflicts, size, x, y, d);
    } else {
      assert Conflict(writers, readers, order, parallel, x, y);
      LineFits(isl, classic, n, conflicts, size, y, x, d);
    }
  }

  /** A stream of vectors of which one component is read, in the same period. */
  function VectorStream(m: nat): Relation {
    (x: Vec, t: Vec) => |x| == 2 && x[0] >= 0 && 0 <= x[1] < m && t == [x[0], 0]
  }

  function OneComponent(): Relation {
    (x: Vec, t: Vec) => |x| == 2 && x[0] >= 0 && x[1] == 0 && t == [x[0], 1]
  }

  ghost predicate IsVectorStream(m: nat, s: Storage) {
    m > 0 && s.n == 2 && s.writers == [VectorStream(m)] && s.readers == [OneComponent()]
  }

  lemma VectorStreamHasRows(m: nat, s: Storage)
    requires IsVectorStream(m, s)
    ensures WritesRows(s)
  {
    assert s.writers[0] == VectorStream(m);
  }

  lemma VectorStreamHasColumns(m: nat, s: Storage)
    requires IsVectorStream(m, s)
    ensures RowsAreRead(s) && ColumnsAreRead(s)
  {
    forall y: Vec, w: Vec | InUnion(s.writers, y, w)
      ensures |y| == 2 && InUnion(s.writers, [y[0], 0], w) && ReadLater(s, [y[0], 0], w)
    {
      ComponentIsRead(m, s, y, w);
    }
    forall x: Vec, y: Vec, w: Vec | InUnion(s.writers, y, w) && |x| == |y| == 2 && ReadLater(s, x, w)
      ensures x[0 := y[0]] == [y[0], 0]
    {
      assert s.readers[0] == OneComponent();
    }
  }

  /** Whatever the mode, the components that are not read do no harm. */
  lemma VectorStreamIsUsed(classic: bool, m: nat, s: Storage)
    requires IsVectorStream(m, s)
    ensures WritesAreUsed(classic, s)
  {
    VectorStreamHasRows(m, s);
    VectorStreamHasColumns(m, s);
    WholeRowsAreUsed(classic, s);
  }

  lemma ComponentIsRead(m: nat, s: Storage, y: Vec, w: Vec)
    requires IsVectorStream(m, s) && InUnion(s.writers, y, w)
    ensures |y| == 2 && InUnion(s.writers, [y[0], 0], w) && ReadLater(s, [y[0], 0], w)
  {
    var z, r: Vec := [y[0], 0], [y[0], 1];
    assert s.writers[0](y, w) && s.writers[0](z, w) && s.readers[0](z, r);
    assert AgreeBefore(w, r, 1) && w[1] < r[1];
    assert InUnion(s.readers, z, r) && LexLess(w, r);
  }

  // ---- And when they are not ----------------------------------------------------------------

  /** Elements 0 and 1 are written at 0 and 1, and only 0 is read, at 2. */
  function Both(): Relation {
    (x: Vec, t: Vec) => |x| == 1 && 0 <= x[0] < 2 && t == x
  }

  function FirstOnly(): Relation {
    (x: Vec, t: Vec) => x == [0] && t == [2]
  }

  function CellFor(size: seq<int>): Vec -> Vec {
    (x: Vec) => if |x| == |size| && forall d :: 0 <= d < |size| ==> size[d] >= 1 then Fold(x, size) else x
  }

  const SKIPPING: seq<Event<Vec>> := [Write([0], _ => 5), Write([1], _ => 6), Read([0])]

  lemma OnlyOneInstance(x: Vec, y: Vec)
    ensures Conflict([Both()], [FirstOnly()], [Earlier()], NoneParallel(), x, y) ==> x == y
  {
    assert [Both()][0] == Both() && [FirstOnly()][0] == FirstOnly();
  }

  lemma OneCellIsLeft(isl: Isl, classic: bool, conflicts: Relation, d: nat)
    requires Sound(isl, 1) && ConflictsFor(1, [Both()], [FirstOnly()], [Earlier()], NoneParallel(), conflicts)
    ensures forall w :: Demands(1, isl.deltas(conflicts), classic, d, w) ==> w == [0]
  {
    forall w | Demands(1, isl.deltas(conflicts), classic, d, w) ensures w == [0] {
      assert IsDelta(1, conflicts, w);
      var x: Vec, y: Vec :| |x| == 1 && |y| == 1 && conflicts(x, y) && w == Minus(y, x);
      OnlyOneInstance(x, y);
    }
  }

  lemma SkippingRun()
    ensures Run(SKIPPING, CellFor([1])).log == [6] && Run(SKIPPING, Own()).log == [5]
  {
    var t := SKIPPING;
    assert t[..2][..1] == t[..1] && t[..1][..0] == [] && t[..2][1] == t[1] && t[..1][0] == t[0];
    assert Fold([0], [1]) == Fold([1], [1]);
    var cell := CellFor([1]);
    assert cell([0]) == cell([1]);
    assert Run(t[..1], cell) == Step(Run([], cell), t[0], cell);
    assert Run(t[..2], cell) == Step(Run(t[..1], cell), t[1], cell);
    assert Run(t[..1], Own()) == Step(Run([], Own()), t[0], Own());
    assert Run(t[..2], Own()) == Step(Run(t[..1], Own()), t[1], Own());
  }

  lemma SkippingIsBounded(isl: Isl, classic: bool, conflicts: Relation, d: nat)
    requires Sound(isl, 1) && ConflictsFor(1, [Both()], [FirstOnly()], [Earlier()], NoneParallel(), conflicts)
    ensures !NoBound(1, isl.deltas(conflicts), classic, d)
  {
    OneCellIsLeft(isl, classic, conflicts, d);
    assert !Exceeds(1, isl.deltas(conflicts), classic, d, 0);
  }

  lemma SkippingSizes(isl: Isl, classic: bool, conflicts: Relation, size: seq<int>)
    requires Sound(isl, 1) && ConflictsFor(1, [Both()], [FirstOnly()], [Earlier()], NoneParallel(), conflicts)
    requires SizesFor(1, conflicts, isl.deltas(conflicts), classic, size)
    ensures size == [1]
  {
    OneCellIsLeft(isl, classic, conflicts, 0);
    SizesForAreLeast(1, conflicts, isl.deltas(conflicts), classic, size);
    assert IsLeastSize(1, isl.deltas(conflicts), classic, 0, size[0]);
  }

  lemma FirstIsWritten()
    ensures InUnion([Both()], [0], [0])
  {
    assert [Both()][0]([0], [0]);
  }

  /** In both modes the allocator leaves one cell, and the unread element overwrites the one that is needed. */
  method UnreadElementOverwrites(isl: Isl, classic: bool, bufferSize: array<int>) returns (outcome: Outcome)
    requires Sound(isl, 1) && SoundOnSchedules(isl, 1) && bufferSize.Length == 1
    modifies bufferSize
    ensures outcome == Allocated && bufferSize[..] == [1]
    ensures Run(SKIPPING, CellFor(bufferSize[..])).log != Run(SKIPPING, Own()).log
  {
    ghost var conflicts;
    outcome, conflicts := ComputeBufferSize(isl, classic, 1, [Both()], [FirstOnly()], [Earlier()], NoneParallel(), bufferSize);
    FirstIsWritten();
    SkippingIsBounded(isl, classic, conflicts, 0);
    assert outcome != NoWriters && outcome != InfiniteDistance;
    ghost var size := bufferSize[..];
    SkippingSizes(isl, classic, conflicts, size);
    SkippingRun();
  }

  // ---- Reading something of every row is not enough in default mode -------------------------

  /** Rows 0 and 1 of two elements are written at 0 and 1, then element 1 of row 0 and element 0 of row 1 are read. */
  function TwoRows(): Relation {
    (x: Vec, t: Vec) => |x| == 2 && 0 <= x[0] < 2 && 0 <= x[1] < 2 && t == [x[0]]
  }

  function Crossed(): Relation {
    (x: Vec, t: Vec) => (x == [0, 1] && t == [2]) || (x == [1, 0] && t == [3])
  }

  const CROSSING: seq<Event<Vec>> :=
    [Write([0, 0], _ => 5), Write([0, 1], _ => 6), Write([1, 0], _ => 7), Write([1, 1], _ => 8), Read([0, 1]), Read([1, 0])]

  function CrossedConflict(x: Vec, y: Vec): bool {
    && |x| == |y| == 2 && 0 <= x[0] < 2 && 0 <= x[1] < 2 && 0 <= y[0] < 2 && 0 <= y[1] < 2
    && (x[0] == y[0] || (x[0] + x[1] == 1 && y[0] + y[1] == 1))
  }

  lemma CrossedConflicts(x: Vec, y: Vec)
    ensures Conflict([TwoRows()], [Crossed()], [Earlier()], NoneParallel(), x, y) ==> CrossedConflict(x, y)
  {
    assert [TwoRows()][0] == TwoRows() && [Crossed()][0] == Crossed();
  }

  lemma CrossedDistance(isl: Isl, conflicts: Relation, w: Vec)
    requires Sound(isl, 2) && ConflictsFor(2, [TwoRows()], [Crossed()], [Earlier()], NoneParallel(), conflicts)
    requires |w| == 2 && isl.deltas(conflicts)(w)
    ensures -1 <= w[1] <= 1 && (w[0] == 0 || (-1 <= w[0] <= 1 && w[1] == -w[0]))
  {
    assert IsDelta(2, conflicts, w);
    var x: Vec, y: Vec :| |x| == 2 && |y| == 2 && conflicts(x, y) && w == Minus(y, x);
    CrossedConflicts(x, y);
    CrossedConflicts(y, x);
  }

  lemma InFirstRow(c: int)
    requires 0 <= c < 2
    ensures InUnion([TwoRows()], [0, c], [0])
  {
    assert [TwoRows()][0]([0, c], [0]);
  }

  lemma RowDistance(isl: Isl, conflicts: Relation)
    requires Sound(isl, 2) && ConflictsFor(2, [TwoRows()], [Crossed()], [Earlier()], NoneParallel(), conflicts)
    ensures OnlyAt(2, isl.deltas(conflicts), 1, [0, 1]) || OnlyAt(2, isl.deltas(conflicts), 1, [0, -1])
  {
    var x: Vec, y: Vec := [0, 0], [0, 1];
    InFirstRow(0);
    InFirstRow(1);
    assert SameTime([TwoRows()], x, y);
    assert Minus(y, x) == [0, 1] && Minus(x, y) == [0, -1];
    assert conflicts(x, y) ==> IsDelta(2, conflicts, [0, 1]);
    assert conflicts(y, x) ==> IsDelta(2, conflicts, [0, -1]);
  }

  /** The distance between the two elements read is satisfied by the second dimension, so nothing is left that
      the first has to satisfy. */
  lemma CrossedDemands(isl: Isl, conflicts: Relation, d: nat, w: Vec)
    requires Sound(isl, 2) && ConflictsFor(2, [TwoRows()], [Crossed()], [Earlier()], NoneParallel(), conflicts)
    requires Demands(2, isl.deltas(conflicts), false, d, w)
    ensures w[0] == 0 && -1 <= w[1] <= 1
  {
    CrossedDistance(isl, conflicts, w);
    RowDistance(isl, conflicts);
    var u: Vec := if OnlyAt(2, isl.deltas(conflicts), 1, [0, 1]) then [0, 1] else [0, -1];
    assert LeftOver(2, isl.deltas(conflicts), w) ==> w[1] == 0 || Abs(u[1]) < Abs(w[1]);
  }

  lemma OneByTwo(deltas: Region, size: seq<int>)
    requires |size| == 2 && IsLeastSize(2, deltas, false, 0, size[0]) && IsLeastSize(2, deltas, false, 1, size[1])
    requires forall d: nat, w :: Demands(2, deltas, false, d, w) ==> w[0] == 0 && -1 <= w[1] <= 1
    requires OnlyAt(2, deltas, 1, [0, 1]) || OnlyAt(2, deltas, 1, [0, -1])
    ensures size == [1, 2]
  {
    assert Demands(2, deltas, false, 1, [0, 1]) || Demands(2, deltas, false, 1, [0, -1]);
  }

  lemma CrossedSizes(isl: Isl, conflicts: Relation, size: seq<int>)
    requires Sound(isl, 2) && ConflictsFor(2, [TwoRows()], [Crossed()], [Earlier()], NoneParallel(), conflicts)
    requires SizesFor(2, conflicts, isl.deltas(conflicts), false, size)
    ensures size == [1, 2]
  {
    var deltas := isl.deltas(conflicts);
    SizesForAreLeast(2, conflicts, deltas, false, size);
    forall d: nat, w | Demands(2, deltas, false, d, w) ensures w[0] == 0 && -1 <= w[1] <= 1 {
      CrossedDemands(isl, conflicts, d, w);
    }
    RowDistance(isl, conflicts);
    OneByTwo(deltas, size);
  }

  lemma CrossedIsBounded(isl: Isl, conflicts: Relation, d: nat)
    requires Sound(isl, 2) && ConflictsFor(2, [TwoRows()], [Crossed()], [Earlier()], NoneParallel(), conflicts)
    ensures !NoBound(2, isl.deltas(conflicts), false, d)
  {
    forall w | Demands(2, isl.deltas(conflicts), false, d, w) ensures w[0] == 0 && -1 <= w[1] <= 1 {
      CrossedDemands(isl, conflicts, d, w);
    }
    assert !Exceeds(2, isl.deltas(conflicts), false, d, 1);
  }

  lemma CrossingRun()
    ensures Lookup(Run(CROSSING[..4], CellFor([1, 2])).memory, [0, 1]) == 8
    ensures Lookup(Run(CROSSING[..4], Own()).memory, [0, 1]) == 6
  {
    var t, cell := CROSSING, CellFor([1, 2]);
    assert t[..4][..3] == t[..3] && t[..4][3] == t[3];
    assert t[..3][..2] == t[..2] && t[..3][2] == t[2];
    assert t[..2][..1] == t[..1] && t[..2][1] == t[1];
    assert Fold([1, 1], [1, 2]) == [0, 1];
    assert Run(t[..4], cell) == Step(Run(t[..3], cell), t[3], cell);
    assert Run(t[..4], Own()) == Step(Run(t[..3], Own()), t[3], Own());
    assert Run(t[..3], Own()) == Step(Run(t[..2], Own()), t[2], Own());
    assert Run(t[..2], Own()) == Step(Run(t[..1], Own()), t[1], Own());
  }

  /** Default mode: of each row an element is read, and still an unread one overwrites one that is needed. */
  method UnevenColumnsOverwrite(isl: Isl, bufferSize: array<int>) returns (outcome: Outcome)
    requires Sound(isl, 2) && SoundOnSchedules(isl, 2) && bufferSize.Length == 2
    modifies bufferSize
    ensures outcome == Allocated && bufferSize[..] == [1, 2]
    ensures Run(CROSSING, CellFor(bufferSize[..])).log != Run(CROSSING, Own()).log
  {
    ghost var conflicts;
    outcome, conflicts := ComputeBufferSize(isl, false, 2, [TwoRows()], [Crossed()], [Earlier()], NoneParallel(), bufferSize);
    InFirstRow(0);
    CrossedIsBounded(isl, conflicts, 0);
    CrossedIsBounded(isl, conflicts, 1);
    assert outcome != NoWriters && outcome != InfiniteDistance;
    ghost var size := bufferSize[..];
    CrossedSizes(isl, conflicts, size);
    CrossingReads();
  }

  lemma CrossingReads()
    ensures Run(CROSSING, CellFor([1, 2])).log != Run(CROSSING, Own()).log
  {
    CrossingRun();
    assert Fold([0, 1], [1, 2]) == [0, 1];
    assert CROSSING[4] == Read([0, 1]);
    ReadIsLogged(CROSSING, CellFor([1, 2]), 4);
    ReadIsLogged(CROSSING, Own(), 4);
  }
}
