/** The storage guarantee for whole runs: schedule, parallel loops, conflicts, sizes and folded
    memory together.
 */
module ScheduledPrograms {
  import opened IslModel
  import opened BufferSizing
  import opened Conflicts
  import opened FoldedMemory
  import opened ParallelLoops

  /** An element of one of the program's arrays, or a cell of its buffer. */
  datatype Place = Place(arr: nat, index: Vec)

  /** One array: its access schedules (element to time), the conflicts the allocator worked with,
      the sizes it chose and the sizes after rounding. */
  datatype Storage = Storage(
    n: nat,
    writers: seq<Relation>,
    readers: seq<Relation>,
    conflicts: Relation,
    size: seq<int>,
    rounded: seq<int>)

  function CellOf(storage: seq<Storage>): Place -> Place {
    (p: Place) =>
      if p.arr < |storage| && FoldableIn(storage[p.arr], p.index)
      then Place(p.arr, Fold(p.index, storage[p.arr].rounded))
      else p
  }

  predicate FoldableIn(s: Storage, index: Vec) {
    |index| == |s.rounded| && forall d :: 0 <= d < |s.rounded| ==> s.rounded[d] >= 1
  }

  /** The allocator's result for an array, rounded up in some dimensions. */
  ghost predicate Allocation(isl: Isl, classic: bool, s: Storage) {
    && Sound(isl, s.n)
    && |s.size| == |s.rounded| == s.n
    && SizesFor(s.n, s.conflicts, isl.deltas(s.conflicts), classic, s.size)
    && forall d :: 0 <= d < s.n ==> s.rounded[d] >= s.size[d] && s.rounded[d] >= 1
  }

  ghost predicate Elements(n: nat, x: Vec, y: Vec) {
    |x| == |y| == n && x != y
  }

  /** Elements live together in the schedule are in the conflict relation, in one direction or the
      other, as compute_conflicts leaves them; in default mode with a direction it can see. */
  ghost predicate CoversLive(classic: bool, order: seq<Relation>, s: Storage) {
    forall x: Vec, y: Vec :: Elements(s.n, x, y) && LiveTogether(s.writers, s.readers, order, x, y) ==>
      HasDistance(s.n, s.conflicts, classic, x, y) || HasDistance(s.n, s.conflicts, classic, y, x)
  }

  ghost predicate Accesses(s: Storage, x: Vec, t: Vec) {
    InUnion(s.writers, x, t) || InUnion(s.readers, x, t)
  }

  /** A parallel or vectorized loop of the period's code: its dimension, the schedule points, of any period,
      that it executes, and the schedule of the statement instances that one period executes in it. */
  datatype Loop = Loop(dim: nat, inside: Region, schedule: Relation)

  ghost predicate InterleavedBy(loop: Loop, s: Vec, t: Vec) {
    loop.inside(s) && loop.inside(t) && Concurrent(s, t, loop.dim)
  }

  /** The order of the two times is left open by one of the loops. */
  ghost predicate Interleaved(loops: seq<Loop>, s: Vec, t: Vec) {
    exists k :: 0 <= k < |loops| && InterleavedBy(loops[k], s, t)
  }

  /** The distance between elements accessed at interleaved times is a conflict distance.  It is
      enough that some period stored a pair at that distance. */
  ghost predicate CoversConcurrent(classic: bool, loops: seq<Loop>, s: Storage) {
    forall x: Vec, y: Vec, t: Vec, u: Vec ::
      Elements(s.n, x, y) && Accesses(s, x, t) && Accesses(s, y, u) && Interleaved(loops, t, u) ==>
      HasDistance(s.n, s.conflicts, classic, x, y) || HasDistance(s.n, s.conflicts, classic, y, x)
  }

  /** Elements that one instance writes are at a conflict distance. */
  ghost predicate CoversInstances(classic: bool, s: Storage) {
    forall x: Vec, y: Vec, t: Vec :: InUnion(s.writers, x, t) && InUnion(s.writers, y, t) && Elements(s.n, x, y) ==>
      HasDistance(s.n, s.conflicts, classic, x, y) || HasDistance(s.n, s.conflicts, classic, y, x)
  }

  ghost predicate ReadLater(s: Storage, x: Vec, w: Vec) {
    exists r: Vec :: InUnion(s.readers, x, r) && LexLess(w, r)
  }

  ghost predicate WrittenBy(s: Storage, x: Vec, w: Vec) {
    exists v: Vec :: InUnion(s.writers, x, v) && (v == w || LexLess(v, w))
  }

  /** z is written with y and is read later, and dimension d, which alone can tell x from z in this mode, tells
      x from y too. */
  ghost predicate StandsFor(classic: bool, s: Storage, x: Vec, y: Vec, w: Vec, z: Vec, d: nat)
    requires |x| == |y| == s.n
  {
    && |z| == s.n && InUnion(s.writers, z, w) && ReadLater(s, z, w)
    && d < s.n && x[d] != z[d] == y[d]
    && if classic then ZeroBefore(Minus(z, x), d) else ZeroBeside(Minus(z, x), d)
  }

  /** An element y that is written at w and not read later: the elements that are still needed are written by
      the same instance, or another element that it writes is read later and stands for y. */
  ghost predicate SparesLive(classic: bool, s: Storage, y: Vec, w: Vec) {
    forall x: Vec :: Elements(s.n, x, y) && WrittenBy(s, x, w) && ReadLater(s, x, w) ==>
      InUnion(s.writers, x, w) || exists z, d: nat :: StandsFor(classic, s, x, y, w, z, d)
  }

  /** What the schedule does with all writes.  An instance may write elements that are never read, as the input
      statements do, which write whole rows. */
  ghost predicate WritesAreUsed(classic: bool, s: Storage) {
    forall y: Vec, w: Vec :: InUnion(s.writers, y, w) ==> ReadLater(s, y, w) || SparesLive(classic, s, y, w)
  }

  ghost predicate IsLexOrder(order: seq<Relation>) {
    forall s: Vec, t: Vec :: InUnion(order, s, t) <==> LexLess(s, t)
  }

  ghost function LexOrder(): seq<Relation> {
    [(s: Vec, t: Vec) => LexLess(s, t)]
  }

  lemma OrderIsLexOrder()
    ensures IsLexOrder(LexOrder())
  {
    assert forall s: Vec, t: Vec :: LexOrder()[0](s, t) <==> LexLess(s, t);
  }

  /** Event k happens at times[k], as the schedules of its array say. */
  ghost predicate Scheduled(storage: seq<Storage>, trace: seq<Event<Place>>, times: seq<Vec>) {
    && |trace| == |times|
    && forall k {:trigger trace[k]} :: 0 <= k < |trace| ==>
         var p := trace[k].elem;
         && p.arr < |storage|
         && |p.index| == storage[p.arr].n
         && InUnion(if trace[k].Write? then storage[p.arr].writers else storage[p.arr].readers, p.index, times[k])
  }

  /** Events happen in schedule order, and at one schedule point reads come first, except that
      iterations of the parallel loops are interleaved in any way. */
  ghost predicate InOrder(trace: seq<Event<Place>>, times: seq<Vec>, loops: seq<Loop>) {
    && |trace| == |times|
    && forall i, j :: 0 <= i < j < |trace| ==>
         || LexLess(times[i], times[j])
         || (times[i] == times[j] && !(trace[i].Write? && trace[j].Read?))
         || Interleaved(loops, times[i], times[j])
  }

  lemma LexIrreflexive(s: Vec)
    ensures !LexLess(s, s)
  {
  }

  lemma LexTransitive(s: Vec, t: Vec, u: Vec)
    requires LexLess(s, t) && LexLess(t, u)
    ensures LexLess(s, u)
  {
    var d: nat :| d < |s| && d < |t| && AgreeBefore(s, t, d) && s[d] < t[d];
    var e: nat :| e < |t| && e < |u| && AgreeBefore(t, u, e) && t[e] < u[e];
    var m := if d < e then d else e;
    assert AgreeBefore(s, u, m) && s[m] < u[m];
  }

  lemma InterleavedSymmetric(loops: seq<Loop>, s: Vec, t: Vec)
    ensures Interleaved(loops, s, t) <==> Interleaved(loops, t, s)
  {
    forall k | 0 <= k < |loops| ensures InterleavedBy(loops[k], s, t) <==> InterleavedBy(loops[k], t, s) {
    }
  }

  /** A dependency that the parallel loops do not carry is kept by every interleaving. */
  lemma DependencyIsKept(trace: seq<Event<Place>>, times: seq<Vec>, loops: seq<Loop>, i: nat, j: nat)
    requires InOrder(trace, times, loops) && i < |trace| && j < |trace|
    requires LexLess(times[i], times[j]) && !Interleaved(loops, times[i], times[j])
    ensures i < j
  {
    LexIrreflexive(times[i]);
    InterleavedSymmetric(loops, times[i], times[j]);
    if LexLess(times[j], times[i]) {
      LexTransitive(times[i], times[j], times[i]);
    }
  }

  /** Each read's element is written by an instance that the schedule and the parallelism check put
      before it. */
  ghost predicate Produced(trace: seq<Event<Place>>, times: seq<Vec>, loops: seq<Loop>) {
    && |trace| == |times|
    && forall j {:trigger trace[j]} :: 0 <= j < |trace| && trace[j].Read? ==>
         exists i: nat :: i < |trace| && Produces(trace, times, loops, i, j)
  }

  ghost predicate Produces(trace: seq<Event<Place>>, times: seq<Vec>, loops: seq<Loop>, i: nat, j: int)
    requires |trace| == |times| && 0 <= j < |trace| && i < |trace|
  {
    && trace[i].Write? && trace[i].elem == trace[j].elem
    && LexLess(times[i], times[j]) && !Interleaved(loops, times[i], times[j])
  }

  lemma ProducedReadsAreWritten(trace: seq<Event<Place>>, times: seq<Vec>, loops: seq<Loop>)
    requires InOrder(trace, times, loops) && Produced(trace, times, loops)
    ensures ReadsAreWritten(trace)
  {
    forall j | 0 <= j < |trace| && trace[j].Read? ensures WrittenBefore(trace, j, trace[j].elem) {
      var i: nat :| i < |trace| && Produces(trace, times, loops, i, j);
      DependencyIsKept(trace, times, loops, i, j);
    }
  }

  /** A write of y, which is read later, between the write and a read of x makes them live together. */
  lemma BetweenMeansConflict(order: seq<Relation>, s: Storage, x: Vec, y: Vec, wx: Vec, wy: Vec, rx: Vec)
    requires IsLexOrder(order) && ReadLater(s, y, wy)
    requires InUnion(s.writers, x, wx) && InUnion(s.writers, y, wy) && InUnion(s.readers, x, rx)
    requires (LexLess(wx, wy) || wx == wy) && LexLess(wy, rx)
    ensures LiveTogether(s.writers, s.readers, order, x, y)
  {
    var ry: Vec :| InUnion(s.readers, y, ry) && LexLess(wy, ry);
    if wx != wy {
      LexTransitive(wx, wy, ry);
    }
    assert InUnion(order, wx, ry) && InUnion(order, wy, rx);
  }

  /** The size of the only dimension that can tell x from z is large enough to do so, hence to tell x from y. */
  lemma StandInTellsApart(isl: Isl, classic: bool, s: Storage, x: Vec, y: Vec, w: Vec, z: Vec, d: nat)
    requires Allocation(isl, classic, s) && |x| == |y| == s.n && StandsFor(classic, s, x, y, w, z, d)
    requires HasDistance(s.n, s.conflicts, classic, x, z) || HasDistance(s.n, s.conflicts, classic, z, x)
    ensures Fold(x, s.rounded) != Fold(y, s.rounded)
  {
    var deltas := isl.deltas(s.conflicts);
    var v := if HasDistance(s.n, s.conflicts, classic, x, z) then Minus(z, x) else Minus(x, z);
    assert deltas(v) && Demands(s.n, deltas, classic, d, v);
    SizesForAreLeast(s.n, s.conflicts, deltas, classic, s.size);
    assert IsLeastSize(s.n, deltas, classic, d, s.size[d]);
    assert SeparatedAt(s.size, Minus(y, x), d);
    SeparatedCellsDiffer(x, y, s.size, s.rounded);
  }

  /** A write of y between the write and a read of x leaves the cell of x alone. */
  lemma BetweenSpares(isl: Isl, classic: bool, order: seq<Relation>, s: Storage, x: Vec, y: Vec, wx: Vec, wy: Vec, rx: Vec)
    requires IsLexOrder(order) && Allocation(isl, classic, s) && WritesAreUsed(classic, s)
    requires CoversLive(classic, order, s) && CoversInstances(classic, s) && Elements(s.n, x, y)
    requires InUnion(s.writers, x, wx) && InUnion(s.writers, y, wy) && InUnion(s.readers, x, rx)
    requires (LexLess(wx, wy) || wx == wy) && LexLess(wy, rx)
    ensures Fold(x, s.rounded) != Fold(y, s.rounded)
  {
    if ReadLater(s, y, wy) {
      BetweenMeansConflict(order, s, x, y, wx, wy, rx);
      ConflictsGetDifferentCells(isl, s.n, s.conflicts, classic, s.size, s.rounded, x, y);
    } else {
      assert SparesLive(classic, s, y, wy) && WrittenBy(s, x, wy) && ReadLater(s, x, wy);
      if InUnion(s.writers, x, wy) {
        ConflictsGetDifferentCells(isl, s.n, s.conflicts, classic, s.size, s.rounded, x, y);
      } else {
        var z, d: nat :| StandsFor(classic, s, x, y, wy, z, d);
        BetweenMeansConflict(order, s, x, z, wx, wy, rx);
        assert Elements(s.n, x, z);
        StandInTellsApart(isl, classic, s, x, y, wy, z, d);
      }
    }
  }

  lemma ClobberIsSpared(isl: Isl, classic: bool, storage: seq<Storage>, trace: seq<Event<Place>>, times: seq<Vec>,
                        order: seq<Relation>, loops: seq<Loop>, i: nat, k: nat, j: nat)
    requires Scheduled(storage, trace, times) && InOrder(trace, times, loops)
    requires i < k < j < |trace| && trace[i].Write? && trace[k].Write? && trace[j].Read?
    requires trace[i].elem == trace[j].elem != trace[k].elem && trace[k].elem.arr == trace[j].elem.arr
    requires IsLexOrder(order) && Stored(isl, classic, order, loops, storage[trace[j].elem.arr])
    ensures var s, x, y := storage[trace[j].elem.arr], trace[j].elem.index, trace[k].elem.index;
      |x| == |y| == s.n && Fold(x, s.rounded) != Fold(y, s.rounded)
  {
    var s, x, y := storage[trace[j].elem.arr], trace[j].elem.index, trace[k].elem.index;
    assert Elements(s.n, x, y);
    assert Accesses(s, x, times[i]) && Accesses(s, y, times[k]) && Accesses(s, x, times[j]);
    if Interleaved(loops, times[i], times[k]) {
      ConflictsGetDifferentCells(isl, s.n, s.conflicts, classic, s.size, s.rounded, x, y);
    } else if Interleaved(loops, times[k], times[j]) {
      assert Elements(s.n, y, x);
      ConflictsGetDifferentCells(isl, s.n, s.conflicts, classic, s.size, s.rounded, x, y);
    } else {
      BetweenSpares(isl, classic, order, s, x, y, times[i], times[k], times[j]);
    }
  }

  ghost predicate Stored(isl: Isl, classic: bool, order: seq<Relation>, loops: seq<Loop>, s: Storage) {
    && Allocation(isl, classic, s)
    && WritesAreUsed(classic, s)
    && CoversLive(classic, order, s)
    && CoversInstances(classic, s)
    && CoversConcurrent(classic, loops, s)
  }

  lemma SharedCellsAreClobberFree(isl: Isl, classic: bool, storage: seq<Storage>, order: seq<Relation>, loops: seq<Loop>,
                                  trace: seq<Event<Place>>, times: seq<Vec>, i: nat, k: nat, j: nat)
    requires IsLexOrder(order)
    requires forall a :: 0 <= a < |storage| ==> Stored(isl, classic, order, loops, storage[a])
    requires Scheduled(storage, trace, times) && InOrder(trace, times, loops)
    requires i < k < j < |trace| && trace[i].Write? && trace[k].Write? && trace[j].Read?
    requires trace[i].elem == trace[j].elem != trace[k].elem
    ensures CellOf(storage)(trace[k].elem) != CellOf(storage)(trace[j].elem)
  {
    var p, q := trace[j].elem, trace[k].elem;
    if p.arr == q.arr {
      assert Stored(isl, classic, order, loops, storage[p.arr]);
      ClobberIsSpared(isl, classic, storage, trace, times, order, loops, i, k, j);
    }
  }

  /** The main result on storage: whatever the computations and however the parallel loops are
      interleaved, the program on folded buffers reads what it reads on unbounded arrays. */
  lemma FoldedProgramIsCorrect(isl: Isl, classic: bool, storage: seq<Storage>, order: seq<Relation>, loops: seq<Loop>,
                               trace: seq<Event<Place>>, times: seq<Vec>)
    requires IsLexOrder(order)
    requires forall a :: 0 <= a < |storage| ==> Stored(isl, classic, order, loops, storage[a])
    requires Scheduled(storage, trace, times) && InOrder(trace, times, loops) && Produced(trace, times, loops)
    ensures Run(trace, CellOf(storage)).log == Run(trace, Own()).log
  {
    ProducedReadsAreWritten(trace, times, loops);
    var cell := CellOf(storage);
    forall i, k, j ensures !Clobbers(trace, cell, i, k, j) {
      if 0 <= i < k < j < |trace| && trace[i].Write? && trace[k].Write? && trace[j].Read?
         && trace[i].elem == trace[j].elem != trace[k].elem {
        SharedCellsAreClobberFree(isl, classic, storage, order, loops, trace, times, i, k, j);
      }
    }
    FoldedRefinesUnbounded(trace, cell);
  }

  // ---- The hypotheses are what the passes establish -----------------------------------------

  /** Each conflicting pair is in the relation in a direction that the default mode can see. */
  ghost predicate SignSafe(n: nat, conflicts: Relation) {
    forall x: Vec, y: Vec :: Elements(n, x, y) && conflicts(x, y) ==>
      AtMostOneNegative(Minus(y, x)) || (conflicts(y, x) && AtMostOneNegative(Minus(x, y)))
  }

  /** Which holds of any relation in one dimension, and in up to three if pairs come in both directions. */
  lemma LowRanksAreSignSafe(n: nat, conflicts: Relation)
    requires n <= 1 || (n <= 3 && forall x: Vec, y: Vec :: conflicts(x, y) ==> conflicts(y, x))
    ensures SignSafe(n, conflicts)
  {
    forall x: Vec, y: Vec | Elements(n, x, y) && conflicts(x, y)
      ensures AtMostOneNegative(Minus(y, x)) || (conflicts(y, x) && AtMostOneNegative(Minus(x, y)))
    {
      ThreeDimensionsAreEnough(Minus(y, x));
      assert Negated(Minus(y, x)) == Minus(x, y);
    }
  }

  /** Statement instances: the elements of each array that they write and read, and when they run. */
  datatype Statements = Statements(written: nat -> Relation, read: nat -> Relation, schedule: Relation)

  ghost predicate At(schedule: Relation, accesses: Relation, x: Vec, t: Vec) {
    exists a: Vec :: accesses(a, x) && schedule(a, t)
  }

  /** The access schedules of an array are the schedule of the statements, mapped through their accesses
      (compute_buffer_size). */
  ghost predicate ScheduleOf(p: Statements, arr: nat, s: Storage) {
    forall x: Vec, t: Vec ::
      && (InUnion(s.writers, x, t) <==> At(p.schedule, p.written(arr), x, t))
      && (InUnion(s.readers, x, t) <==> At(p.schedule, p.read(arr), x, t))
  }

  /** How periods repeat: home(a) is the instance of period 0 that a repeats, and each period accesses
      array k move(k) rows further than the one before. */
  datatype Periodicity = Periodicity(home: Vec -> Vec, move: nat -> int)

  /** An access of the statement instances of period k is one of period 0, k periods further; the first
      coordinate of a schedule point is the period. */
  ghost predicate Repeats(p: Statements, period: Periodicity, loop: Loop) {
    && loop.dim > 0
    && forall a: Vec, t: Vec :: loop.inside(t) && p.schedule(a, t) ==>
         && t != [] && loop.schedule(period.home(a), t[0 := 0])
         && forall arr, x ::
              && (p.written(arr)(a, x) ==> p.written(arr)(period.home(a), Shifted(x, -(t[0] * period.move(arr)))))
              && (p.read(arr)(a, x) ==> p.read(arr)(period.home(a), Shifted(x, -(t[0] * period.move(arr)))))
  }

  /** The accesses of all arrays, an element being its array's number and its index (compute_order). */
  function AllOf(accesses: nat -> Relation): Relation {
    (a: Vec, e: Vec) => e != [] && e[0] >= 0 && accesses(e[0])(a, e[1..])
  }

  /** The order that compute_order gives, and a loop that current_schedule_dimension_is_parallel accepts
      with it. */
  ghost predicate Checked(p: Statements, explicit: Relation, order: Relation, loop: Loop) {
    && (forall a: Vec, b: Vec :: order(a, b) <==> Ordered(AllOf(p.written), AllOf(p.read), explicit, a, b))
    && (forall s: Vec, t: Vec :: OrderedTimes(order, loop.schedule, s, t) ==> !Concurrent(s, t, loop.dim))
  }

  /** Instances that a loop executes in the same period. */
  ghost predicate InOnePeriod(p: Statements, loop: Loop, a: Vec, b: Vec, s: Vec, t: Vec) {
    && loop.inside(s) && loop.inside(t) && p.schedule(a, s) && p.schedule(b, t)
    && s != [] && t != [] && s[0] == t[0]
  }

  /** Explicit order of instances of one period repeats with the periods. */
  ghost predicate OrderRepeats(p: Statements, period: Periodicity, explicit: Relation, loop: Loop) {
    forall a: Vec, b: Vec, s: Vec, t: Vec ::
      InOnePeriod(p, loop, a, b, s, t) && explicit(a, b) ==> explicit(period.home(a), period.home(b))
  }

  /** An element, with its array's number, moved back to period 0. */
  function Home(period: Periodicity, e: Vec, k: int): Vec
    requires e != [] && e[0] >= 0
  {
    [e[0]] + Shifted(e[1..], -(k * period.move(e[0])))
  }

  lemma AccessRepeats(p: Statements, period: Periodicity, loop: Loop, accesses: nat -> Relation, a: Vec, t: Vec, e: Vec)
    requires Repeats(p, period, loop) && accesses in {p.written, p.read} && loop.inside(t) && p.schedule(a, t) && t != []
    requires AllOf(accesses)(a, e)
    ensures AllOf(accesses)(period.home(a), Home(period, e, t[0]))
  {
    assert Home(period, e, t[0])[1..] == Shifted(e[1..], -(t[0] * period.move(e[0])));
  }

  /** An element that two instances of a period access is, moved, one that their homes access. */
  lemma TouchRepeats(p: Statements, period: Periodicity, loop: Loop, others: nat -> Relation, a: Vec, b: Vec, s: Vec, t: Vec)
    requires Repeats(p, period, loop) && others in {p.written, p.read}
    requires InOnePeriod(p, loop, a, b, s, t)
    requires Touches(AllOf(p.written), AllOf(others), a, b)
    ensures Touches(AllOf(p.written), AllOf(others), period.home(a), period.home(b))
  {
    var e: Vec :| AllOf(p.written)(a, e) && AllOf(others)(b, e);
    AccessRepeats(p, period, loop, p.written, a, s, e);
    AccessRepeats(p, period, loop, others, b, t, e);
  }

  /** The check looks at one period, and keeps every dependency in order in all of them: a write and a read
      or another write of an element, and explicit order. */
  lemma CheckedLoopKeepsOrder(p: Statements, period: Periodicity, explicit: Relation, order: Relation, loop: Loop,
                              a: Vec, b: Vec, s: Vec, t: Vec)
    requires Repeats(p, period, loop) && OrderRepeats(p, period, explicit, loop) && Checked(p, explicit, order, loop)
    requires p.schedule(a, s) && p.schedule(b, t) && order(a, b)
    ensures !InterleavedBy(loop, s, t)
  {
    if InterleavedBy(loop, s, t) {
      assert InOnePeriod(p, loop, a, b, s, t);
      if Touches(AllOf(p.written), AllOf(p.read), a, b) {
        TouchRepeats(p, period, loop, p.read, a, b, s, t);
      } else if Touches(AllOf(p.written), AllOf(p.written), a, b) {
        TouchRepeats(p, period, loop, p.written, a, b, s, t);
      }
      assert order(period.home(a), period.home(b));
      assert OrderedTimes(order, loop.schedule, s[0 := 0], t[0 := 0]);
      assert Concurrent(s[0 := 0], t[0 := 0], loop.dim);
    }
  }

  /** In particular a write of an element and a read of it, whatever explicit order there is. */
  lemma CheckedLoopKeepsProducers(p: Statements, period: Periodicity, explicit: Relation, order: Relation, loop: Loop,
                                  arr: nat, x: Vec, w: Vec, r: Vec)
    requires Repeats(p, period, loop) && Checked(p, explicit, order, loop)
    requires At(p.schedule, p.written(arr), x, w) && At(p.schedule, p.read(arr), x, r)
    ensures !InterleavedBy(loop, w, r)
  {
    if InterleavedBy(loop, w, r) {
      var a: Vec :| p.written(arr)(a, x) && p.schedule(a, w);
      var b: Vec :| p.read(arr)(b, x) && p.schedule(b, r);
      var e := [arr] + x;
      assert e[1..] == x && w[0] == r[0];
      assert AllOf(p.written)(a, e) && AllOf(p.read)(b, e);
      TouchRepeats(p, period, loop, p.read, a, b, w, r);
      assert OrderedTimes(order, loop.schedule, w[0 := 0], r[0 := 0]);
      assert Concurrent(w[0 := 0], r[0 := 0], loop.dim);
    }
  }

  /** Two events at times of ordered instances happen in this order, if the schedule says so. */
  ghost predicate OrderIsKept(p: Statements, order: Relation, times: seq<Vec>) {
    forall i, j, a: Vec, b: Vec :: 0 <= i < |times| && 0 <= j < |times| ==> PairIsKept(p, order, times, i, j, a, b)
  }

  ghost predicate PairIsKept(p: Statements, order: Relation, times: seq<Vec>, i: int, j: int, a: Vec, b: Vec)
    requires 0 <= i < |times| && 0 <= j < |times|
  {
    p.schedule(a, times[i]) && p.schedule(b, times[j]) && order(a, b) && LexLess(times[i], times[j]) ==> i < j
  }

  ghost predicate AllChecked(p: Statements, period: Periodicity, explicit: Relation, order: Relation, loops: seq<Loop>) {
    forall k :: 0 <= k < |loops| ==> Repeats(p, period, loops[k]) && Checked(p, explicit, order, loops[k])
  }

  ghost predicate AllOrdersRepeat(p: Statements, period: Periodicity, explicit: Relation, loops: seq<Loop>) {
    forall k :: 0 <= k < |loops| ==> OrderRepeats(p, period, explicit, loops[k])
  }

  lemma CheckedLoopsInterleaveNothing(p: Statements, period: Periodicity, explicit: Relation, order: Relation, loops: seq<Loop>,
                                      a: Vec, b: Vec, s: Vec, t: Vec)
    requires AllChecked(p, period, explicit, order, loops) && AllOrdersRepeat(p, period, explicit, loops)
    requires p.schedule(a, s) && p.schedule(b, t) && order(a, b)
    ensures !Interleaved(loops, s, t)
  {
    forall k | 0 <= k < |loops| ensures !InterleavedBy(loops[k], s, t) {
      CheckedLoopKeepsOrder(p, period, explicit, order, loops[k], a, b, s, t);
    }
  }

  /** Loops that pass the check keep all order, in every interleaving. */
  lemma CheckedLoopsKeepOrder(p: Statements, period: Periodicity, explicit: Relation, order: Relation, loops: seq<Loop>,
                              trace: seq<Event<Place>>, times: seq<Vec>)
    requires AllChecked(p, period, explicit, order, loops) && AllOrdersRepeat(p, period, explicit, loops)
    requires InOrder(trace, times, loops)
    ensures OrderIsKept(p, order, times)
  {
    forall i, j, a: Vec, b: Vec | 0 <= i < |times| && 0 <= j < |times| ensures PairIsKept(p, order, times, i, j, a, b) {
      if p.schedule(a, times[i]) && p.schedule(b, times[j]) && order(a, b) && LexLess(times[i], times[j]) {
        CheckedLoopsInterleaveNothing(p, period, explicit, order, loops, a, b, times[i], times[j]);
        DependencyIsKept(trace, times, loops, i, j);
      }
    }
  }

  /** The schedule puts a write of an element before each of its reads. */
  ghost predicate WritersComeFirst(trace: seq<Event<Place>>, times: seq<Vec>) {
    && |trace| == |times|
    && forall j {:trigger trace[j]} :: 0 <= j < |trace| && trace[j].Read? ==>
         exists i: nat :: i < |trace| && trace[i].Write? && trace[i].elem == trace[j].elem && LexLess(times[i], times[j])
  }

  lemma CheckedLoopsKeepProducers(storage: seq<Storage>, p: Statements, period: Periodicity, explicit: Relation, order: Relation,
                                  loops: seq<Loop>, trace: seq<Event<Place>>, times: seq<Vec>)
    requires forall k :: 0 <= k < |storage| ==> ScheduleOf(p, k, storage[k])
    requires forall k :: 0 <= k < |loops| ==> Repeats(p, period, loops[k]) && Checked(p, explicit, order, loops[k])
    requires Scheduled(storage, trace, times) && WritersComeFirst(trace, times)
    ensures Produced(trace, times, loops)
  {
    forall j | 0 <= j < |trace| && trace[j].Read?
      ensures exists i: nat :: i < |trace| && Produces(trace, times, loops, i, j)
    {
      var i: nat :| i < |trace| && trace[i].Write? && trace[i].elem == trace[j].elem && LexLess(times[i], times[j]);
      var x := trace[j].elem;
      assert ScheduleOf(p, x.arr, storage[x.arr]);
      forall k | 0 <= k < |loops| ensures !InterleavedBy(loops[k], times[i], times[j]) {
        CheckedLoopKeepsProducers(p, period, explicit, order, loops[k], x.arr, x.index, times[i], times[j]);
      }
      assert Produces(trace, times, loops, i, j);
    }
  }

  lemma InRelationHasDistance(n: nat, conflicts: Relation, classic: bool, x: Vec, y: Vec)
    requires Elements(n, x, y) && (classic || SignSafe(n, conflicts))
    requires conflicts(x, y) || conflicts(y, x)
    ensures HasDistance(n, conflicts, classic, x, y) || HasDistance(n, conflicts, classic, y, x)
  {
    assert conflicts(x, y) ==> IsDelta(n, conflicts, Minus(y, x));
    assert conflicts(y, x) ==> IsDelta(n, conflicts, Minus(x, y));
    assert Elements(n, y, x);
  }

  /** What compute_buffer_size leaves of an array: each conflicting pair in one direction at least. */
  ghost predicate ConflictsOf(order: seq<Relation>, s: Storage, parallel: Relation) {
    forall x: Vec, y: Vec :: |x| == s.n && |y| == s.n ==>
      (s.conflicts(x, y) || s.conflicts(y, x) <==> Conflict(s.writers, s.readers, order, parallel, x, y))
  }

  /** compute_buffer_size's relation covers the live pairs of the schedule. */
  lemma LivePairsAreCovered(classic: bool, order: seq<Relation>, s: Storage, parallel: Relation)
    requires ConflictsOf(order, s, parallel) && (classic || SignSafe(s.n, s.conflicts))
    ensures CoversLive(classic, order, s)
  {
    forall x: Vec, y: Vec | Elements(s.n, x, y) && LiveTogether(s.writers, s.readers, order, x, y)
      ensures HasDistance(s.n, s.conflicts, classic, x, y) || HasDistance(s.n, s.conflicts, classic, y, x)
    {
      InRelationHasDistance(s.n, s.conflicts, classic, x, y);
    }
  }

  lemma InstancesAreCovered(classic: bool, order: seq<Relation>, s: Storage, parallel: Relation)
    requires ConflictsOf(order, s, parallel) && (classic || SignSafe(s.n, s.conflicts))
    ensures CoversInstances(classic, s)
  {
    forall x: Vec, y: Vec, t: Vec | InUnion(s.writers, x, t) && InUnion(s.writers, y, t) && Elements(s.n, x, y)
      ensures HasDistance(s.n, s.conflicts, classic, x, y) || HasDistance(s.n, s.conflicts, classic, y, x)
    {
      assert SameTime(s.writers, x, y);
      InRelationHasDistance(s.n, s.conflicts, classic, x, y);
    }
  }

  lemma OppositeDistance(a: Vec, b: Vec)
    requires |a| == |b|
    ensures Minus(a, b) == Negated(Minus(b, a))
  {
  }

  lemma SameDistance(n: nat, conflicts: Relation, classic: bool, a: Vec, b: Vec, x: Vec, y: Vec)
    requires |a| == |b| == |x| == |y| == n && Minus(b, a) == Minus(y, x)
    requires HasDistance(n, conflicts, classic, a, b) || HasDistance(n, conflicts, classic, b, a)
    ensures HasDistance(n, conflicts, classic, x, y) || HasDistance(n, conflicts, classic, y, x)
  {
    OppositeDistance(a, b);
    OppositeDistance(x, y);
  }

  /** The access schedule of an array inside a loop, in one period
      (store_parallel_accesses_for_current_dimension). */
  ghost function AccessSchedule(p: Statements, loop: Loop, arr: nat): Relation {
    (x: Vec, t: Vec) => At(loop.schedule, p.written(arr), x, t) || At(loop.schedule, p.read(arr), x, t)
  }

  /** parallel holds what the loops stored for the array. */
  ghost predicate StoredFor(p: Statements, loops: seq<Loop>, arr: nat, parallel: Relation) {
    forall k, x: Vec, y: Vec ::
      0 <= k < |loops| && ParallelPair(AccessSchedule(p, loops[k], arr), loops[k].dim, x, y) ==> parallel(x, y)
  }

  /** An access in a loop is an access of period 0, moved. */
  lemma AccessIsRepeated(p: Statements, period: Periodicity, loop: Loop, arr: nat, s: Storage, x: Vec, t: Vec)
    requires Repeats(p, period, loop) && ScheduleOf(p, arr, s) && loop.inside(t) && Accesses(s, x, t)
    ensures t != [] && AccessSchedule(p, loop, arr)(Shifted(x, -(t[0] * period.move(arr))), t[0 := 0])
  {
    if InUnion(s.writers, x, t) {
      assert At(p.schedule, p.written(arr), x, t);
      var a: Vec :| p.written(arr)(a, x) && p.schedule(a, t);
      assert p.written(arr)(period.home(a), Shifted(x, -(t[0] * period.move(arr))));
    } else {
      assert At(p.schedule, p.read(arr), x, t);
      var a: Vec :| p.read(arr)(a, x) && p.schedule(a, t);
      var home := Shifted(x, -(t[0] * period.move(arr)));
      assert p.read(arr)(period.home(a), home);
      assert At(loop.schedule, p.read(arr), home, t[0 := 0]);
    }
  }

  /** Distances remain the same across periods: elements accessed by an earlier and a later iteration of a
      loop are a pair that one period stores, moved. */
  lemma StoredForOnePeriod(p: Statements, period: Periodicity, loop: Loop, arr: nat, s: Storage, x: Vec, y: Vec, t: Vec, u: Vec)
    returns (a: Vec, b: Vec)
    requires Repeats(p, period, loop) && ScheduleOf(p, arr, s)
    requires Elements(s.n, x, y) && Accesses(s, x, t) && Accesses(s, y, u)
    requires InterleavedBy(loop, t, u) && t[loop.dim] < u[loop.dim]
    ensures Elements(s.n, a, b) && Minus(b, a) == Minus(y, x)
    ensures ParallelPair(AccessSchedule(p, loop, arr), loop.dim, a, b)
  {
    AccessIsRepeated(p, period, loop, arr, s, x, t);
    AccessIsRepeated(p, period, loop, arr, s, y, u);
    assert t[0] == u[0];
    var rows := -(t[0] * period.move(arr));
    a, b := Shifted(x, rows), Shifted(y, rows);
    assert Minus(b, a) == Minus(y, x);
    var c :| 0 <= c < s.n && x[c] != y[c];
    assert a[c] != b[c];
    assert Concurrent(t[0 := 0], u[0 := 0], loop.dim);
  }

  /** Storing the parallel accesses of one period is enough for all of them. */
  lemma ConcurrentPairsAreCovered(classic: bool, order: seq<Relation>, p: Statements, period: Periodicity, loops: seq<Loop>,
                                  arr: nat, s: Storage, parallel: Relation)
    requires ConflictsOf(order, s, parallel) && (classic || SignSafe(s.n, s.conflicts))
    requires ScheduleOf(p, arr, s) && StoredFor(p, loops, arr, parallel)
    requires forall k :: 0 <= k < |loops| ==> Repeats(p, period, loops[k])
    ensures CoversConcurrent(classic, loops, s)
  {
    forall x: Vec, y: Vec, t: Vec, u: Vec |
      Elements(s.n, x, y) && Accesses(s, x, t) && Accesses(s, y, u) && Interleaved(loops, t, u)
      ensures HasDistance(s.n, s.conflicts, classic, x, y) || HasDistance(s.n, s.conflicts, classic, y, x)
    {
      var k :| 0 <= k < |loops| && InterleavedBy(loops[k], t, u);
      LoopPairIsCovered(classic, order, p, period, loops, k, arr, s, parallel, x, y, t, u);
    }
  }

  lemma LoopPairIsCovered(classic: bool, order: seq<Relation>, p: Statements, period: Periodicity, loops: seq<Loop>, k: nat,
                          arr: nat, s: Storage, parallel: Relation, x: Vec, y: Vec, t: Vec, u: Vec)
    requires ConflictsOf(order, s, parallel) && (classic || SignSafe(s.n, s.conflicts))
    requires ScheduleOf(p, arr, s) && StoredFor(p, loops, arr, parallel)
    requires k < |loops| && Repeats(p, period, loops[k])
    requires Elements(s.n, x, y) && Accesses(s, x, t) && Accesses(s, y, u) && InterleavedBy(loops[k], t, u)
    ensures HasDistance(s.n, s.conflicts, classic, x, y) || HasDistance(s.n, s.conflicts, classic, y, x)
  {
    var later := t[loops[k].dim] < u[loops[k].dim];
    var v, w := if later then x else y, if later then y else x;
    assert Elements(s.n, v, w) && InterleavedBy(loops[k], u, t);
    var a, b := StoredForOnePeriod(p, period, loops[k], arr, s, v, w, if later then t else u, if later then u else t);
    assert parallel(a, b);
    assert Conflict(s.writers, s.readers, order, parallel, a, b);
    InRelationHasDistance(s.n, s.conflicts, classic, a, b);
    SameDistance(s.n, s.conflicts, classic, a, b, v, w);
  }

  /** What the passes leave of array arr, and what the scheduler and scope_cleanup guarantee of it. */
  ghost predicate Compiled(isl: Isl, classic: bool, order: seq<Relation>, p: Statements, loops: seq<Loop>, arr: nat, s: Storage)
  {
    && Allocation(isl, classic, s) && ScheduleOf(p, arr, s) && WritesAreUsed(classic, s)
    && (classic || SignSafe(s.n, s.conflicts))
    && exists parallel :: ConflictsOf(order, s, parallel) && StoredFor(p, loops, arr, parallel)
  }

  ghost predicate AllCompiled(isl: Isl, classic: bool, order: seq<Relation>, p: Statements, loops: seq<Loop>,
                              storage: seq<Storage>)
  {
    forall a :: 0 <= a < |storage| ==> Compiled(isl, classic, order, p, loops, a, storage[a])
  }

  lemma CompiledIsStored(isl: Isl, classic: bool, order: seq<Relation>, p: Statements, period: Periodicity, loops: seq<Loop>,
                         arr: nat, s: Storage)
    requires Compiled(isl, classic, order, p, loops, arr, s)
    requires forall k :: 0 <= k < |loops| ==> Repeats(p, period, loops[k])
    ensures Stored(isl, classic, order, loops, s)
  {
    var parallel :| ConflictsOf(order, s, parallel) && StoredFor(p, loops, arr, parallel);
    LivePairsAreCovered(classic, order, s, parallel);
    InstancesAreCovered(classic, order, s, parallel);
    ConcurrentPairsAreCovered(classic, order, p, period, loops, arr, s, parallel);
  }

  /** All passes together: of the runs it is only assumed that periods repeat and that the schedule puts
      writes before reads.  Input and output, and all other explicit order, stay in order too. */
  lemma ParallelProgramIsCorrect(isl: Isl, classic: bool, storage: seq<Storage>, order: seq<Relation>, p: Statements,
                                 period: Periodicity, explicit: Relation, dependencies: Relation, loops: seq<Loop>,
                                 trace: seq<Event<Place>>, times: seq<Vec>)
    requires IsLexOrder(order)
    requires AllCompiled(isl, classic, order, p, loops, storage)
    requires AllChecked(p, period, explicit, dependencies, loops)
    requires Scheduled(storage, trace, times) && InOrder(trace, times, loops) && WritersComeFirst(trace, times)
    ensures AllOrdersRepeat(p, period, explicit, loops) ==> OrderIsKept(p, dependencies, times)
    ensures forall a :: 0 <= a < |storage| ==> Stored(isl, classic, order, loops, storage[a])
    ensures Produced(trace, times, loops)
    ensures Run(trace, CellOf(storage)).log == Run(trace, Own()).log
  {
    forall a | 0 <= a < |storage| ensures Stored(isl, classic, order, loops, storage[a]) {
      CompiledIsStored(isl, classic, order, p, period, loops, a, storage[a]);
    }
    forall a | 0 <= a < |storage| ensures ScheduleOf(p, a, storage[a]) {
      assert Compiled(isl, classic, order, p, loops, a, storage[a]);
    }
    if AllOrdersRepeat(p, period, explicit, loops) {
      CheckedLoopsKeepOrder(p, period, explicit, dependencies, loops, trace, times);
    }
    CheckedLoopsKeepProducers(storage, p, period, explicit, dependencies, loops, trace, times);
    FoldedProgramIsCorrect(isl, classic, storage, order, loops, trace, times);
  }
}
