/** A run of any number of periods whose stream is held in two cells, or in a buffer that shifts its rows:
    every hypothesis on generated storage is met.
 */
module StreamExample {
  import opened IslModel
  import opened BufferSizing
  import opened Conflicts
  import opened FoldedMemory
  import opened ParallelLoops
  import opened ScheduledPrograms
  import opened IndexArithmetic
  import opened Buffers
  import opened GeneratedStorage
  import opened GeneratedRuns

  /** Period k writes element k + 1 and then reads element k; the prelude writes element 0. */
  const STREAM := ArrayInfo(true, [-1], [2], 1, 0, 1)

  function First(log: seq<int>): int {
    0
  }

  function Next(log: seq<int>): int {
    |log| + 1
  }

  function Prelude(): Code {
    [Access(Write(Place(0, [0]), First), 0)]
  }

  function Period(): Code {
    [Access(Write(Place(0, [1]), Next), 0), Access(Read(Place(0, [0])), 0)]
  }

  function Periods(n: nat): (r: seq<Code>)
    ensures |r| == n && forall k :: 0 <= k < n ==> r[k] == Period()
  {
    seq(n, _ => Period())
  }

  // ---- Its storage --------------------------------------------------------------------------

  /** Element i is written at [i - 1, 0] and read at [i, 1]. */
  function Writes(): Relation {
    (x: Vec, t: Vec) => |x| == 1 && x[0] >= 0 && t == [x[0] - 1, 0]
  }

  function Reads(): Relation {
    (x: Vec, t: Vec) => |x| == 1 && x[0] >= 0 && t == [x[0], 1]
  }

  /** Neighbours are live together. */
  function Near(): Relation {
    (x: Vec, y: Vec) => |x| == 1 && |y| == 1 && x[0] >= 0 && y[0] >= 0 && -1 <= y[0] - x[0] <= 1
  }

  function StreamStorage(): Storage {
    Storage(1, [Writes()], [Reads()], Near(), [2], [2])
  }

  lemma LaterTime(a: int, b: int, c: int, d: int)
    ensures LexLess([a, b], [c, d]) <==> a < c || (a == c && b < d)
  {
    var s: Vec, t: Vec := [a, b], [c, d];
    if a < c {
      assert AgreeBefore(s, t, 0) && s[0] < t[0];
    } else if a == c && b < d {
      assert AgreeBefore(s, t, 1) && s[1] < t[1];
    }
    if LexLess(s, t) {
      var e: nat :| e < |s| && e < |t| && AgreeBefore(s, t, e) && s[e] < t[e];
      assert e == 0 || s[0] == t[0];
    }
  }

  lemma LiveAreNear(x: Vec, y: Vec)
    requires LiveTogether([Writes()], [Reads()], LexOrder(), x, y)
    ensures Near()(x, y)
  {
    WrittenBeforeRead(x, y);
    WrittenBeforeRead(y, x);
  }

  lemma WrittenBeforeRead(x: Vec, y: Vec)
    requires Precedes([Writes()], [Reads()], LexOrder(), x, y)
    ensures |x| == 1 && |y| == 1 && x[0] >= 0 && y[0] >= 0 && x[0] - 1 <= y[0]
  {
    var w: Vec, r: Vec :| InUnion([Writes()], x, w) && InUnion([Reads()], y, r) && InUnion(LexOrder(), w, r);
    OrderIsLexOrder();
    assert Writes()(x, w) && Reads()(y, r) && LexLess(w, r);
    LaterTime(x[0] - 1, 0, y[0], 1);
  }

  lemma NearDistances(isl: Isl, v: Vec)
    requires Sound(isl, 1) && |v| == 1
    ensures isl.deltas(Near())(v) <==> -1 <= v[0] <= 1
  {
    if -1 <= v[0] <= 1 {
      var x: Vec, y: Vec := [1], [1 + v[0]];
      assert Near()(x, y) && v == Minus(y, x);
    }
    assert isl.deltas(Near())(v) <==> IsDelta(1, Near(), v);
  }

  lemma NearAbsolute(isl: Isl, v: Vec)
    requires Sound(isl, 1)
    ensures Absolute(1, isl.deltas(Near()), v) <==> v == [0] || v == [1]
  {
    var deltas := isl.deltas(Near());
    NearDistances(isl, [0]);
    NearDistances(isl, [1]);
    if |v| == 1 {
      NearDistances(isl, v);
      NearDistances(isl, Flip(v, 0));
    }
  }

  /** Two cells, in either mode. */
  lemma TwoCells(isl: Isl, classic: bool)
    requires Sound(isl, 1)
    ensures SizesFor(1, Near(), isl.deltas(Near()), classic, [2])
  {
    var deltas, first := isl.deltas(Near()), if classic then [1] else [2];
    forall v: Vec ensures Absolute(1, deltas, v) <==> v == [0] || v == [1] {
      NearAbsolute(isl, v);
    }
    assert Near()([0], [0]);
    LargestNear(deltas, classic, first);
    assert Sizes(1, deltas, classic, first, [2]);
  }

  lemma LargestNear(deltas: Region, classic: bool, first: seq<int>)
    requires forall v: Vec :: Absolute(1, deltas, v) <==> v == [0] || v == [1]
    requires first == if classic then [1] else [2]
    ensures FirstSizes(1, deltas, classic, first) && SizeAt(1, deltas, classic, first, 0, 2)
  {
    assert Exclusive(1, deltas, 0, [1]) && [1][0] == 1;
    assert IsExclusiveMax(1, deltas, 0, 1);
    assert Level(1, deltas, classic, first, 0, [0]);
    if classic {
      assert Level(1, deltas, classic, first, 0, [1]);
      assert IsLevelMax(1, deltas, classic, first, 0, 1);
    } else {
      assert IsLevelMax(1, deltas, classic, first, 0, 0);
    }
  }

  lemma StreamIsStored(isl: Isl, classic: bool)
    requires Sound(isl, 1)
    ensures Stored(isl, classic, LexOrder(), [], StreamStorage())
  {
    var s := StreamStorage();
    TwoCells(isl, classic);
    forall x: Vec, y: Vec | Elements(s.n, x, y) && LiveTogether(s.writers, s.readers, LexOrder(), x, y)
      ensures HasDistance(s.n, s.conflicts, classic, x, y)
    {
      LiveAreNear(x, y);
      assert IsDelta(1, Near(), Minus(y, x));
    }
    forall y: Vec, w: Vec | InUnion(s.writers, y, w) ensures ReadLater(s, y, w) {
      assert Writes()(y, w) && Reads()(y, [y[0], 1]) && s.readers[0] == Reads();
      LaterTime(y[0] - 1, 0, y[0], 1);
      assert InUnion(s.readers, y, [y[0], 1]);
    }
  }

  // ---- Its run ------------------------------------------------------------------------------

  function WriteOf(i: nat): Event<Place> {
    Write(Place(0, [i]), if i == 0 then First else Next)
  }

  function ReadOf(i: nat): Event<Place> {
    Read(Place(0, [i]))
  }

  /** The run: the write of 0, then for each k the write of k + 1 and the read of k. */
  function Trace(n: nat): (trace: seq<Event<Place>>)
    ensures |trace| == 2 * n + 1
  {
    if n == 0 then [WriteOf(0)] else Trace(n - 1) + [WriteOf(n), ReadOf(n - 1)]
  }

  function Times(n: nat): (times: seq<Vec>)
    ensures |times| == 2 * n + 1
  {
    if n == 0 then [[-1, 0]] else Times(n - 1) + [[n - 1, 0], [n - 1, 1]]
  }

  lemma {:induction false} TraceIsUnrolled(n: nat)
    ensures Unrolled([STREAM], Prelude(), Periods(n)) == Trace(n)
  {
    if n == 0 {
      assert EventsIn([STREAM], Prelude(), false, 0) == [WriteOf(0)];
    } else {
      TraceIsUnrolled(n - 1);
      assert Periods(n)[..n - 1] == Periods(n - 1);
      RowsAreProduct(n - 1, 1);
      assert Move(STREAM) == 1;
      assert Shifted([1], n - 1) == [n] && Shifted([0], n - 1) == [n - 1];
      assert EventIn([STREAM], Period()[0], true, n - 1) == WriteOf(n);
      assert EventIn([STREAM], Period()[1], true, n - 1) == ReadOf(n - 1);
      assert EventsIn([STREAM], Period(), true, n - 1) == [WriteOf(n), ReadOf(n - 1)];
    }
  }

  /** Event j writes or reads an element at its time. */
  ghost predicate Happens(e: Event<Place>, t: Vec) {
    && e.elem.arr == 0 && |e.elem.index| == 1 && e.elem.index[0] >= 0
    && t == if e.Write? then [e.elem.index[0] - 1, 0] else [e.elem.index[0], 1]
  }

  lemma {:induction false} AllHappen(n: nat)
    ensures forall j :: 0 <= j < 2 * n + 1 ==> Happens(Trace(n)[j], Times(n)[j]) && Times(n)[j][0] < n
  {
    if n > 0 {
      AllHappen(n - 1);
    }
  }

  lemma TraceIsScheduled(n: nat)
    ensures Scheduled([StreamStorage()], Trace(n), Times(n))
  {
    AllHappen(n);
    var trace, times, s := Trace(n), Times(n), StreamStorage();
    forall k | 0 <= k < |trace|
      ensures InUnion(if trace[k].Write? then s.writers else s.readers, trace[k].elem.index, times[k])
    {
      assert Happens(trace[k], times[k]);
      assert (if trace[k].Write? then s.writers else s.readers)[0](trace[k].elem.index, times[k]);
    }
  }

  lemma {:induction false} TimesGrow(n: nat, i: nat, j: nat)
    requires i < j < 2 * n + 1
    ensures LexLess(Times(n)[i], Times(n)[j])
  {
    if j < 2 * n - 1 {
      TimesGrow(n - 1, i, j);
    } else {
      AllHappen(n - 1);
      var t := Times(n)[i];
      if i < 2 * n - 1 {
        assert t == Times(n - 1)[i] && Happens(Trace(n - 1)[i], t);
      }
      LaterTime(t[0], t[1], n - 1, j - (2 * n - 1));
    }
  }

  lemma TraceIsInOrder(n: nat)
    ensures InOrder(Trace(n), Times(n), [])
  {
    forall i, j | 0 <= i < j < 2 * n + 1 ensures LexLess(Times(n)[i], Times(n)[j]) {
      TimesGrow(n, i, j);
    }
  }

  lemma {:induction false} WriteComesFirst(n: nat, i: nat)
    requires i < n
    ensures exists k: nat :: k < 2 * n + 1 && Trace(n)[k] == WriteOf(i) && Times(n)[k] == [i - 1, 0]
  {
    if i < n - 1 {
      WriteComesFirst(n - 1, i);
      var k: nat :| k < 2 * n - 1 && Trace(n - 1)[k] == WriteOf(i) && Times(n - 1)[k] == [i - 1, 0];
      assert Trace(n)[k] == WriteOf(i) && Times(n)[k] == [i - 1, 0];
    } else if n == 1 {
      assert Trace(1)[0] == Trace(0)[0] && Times(1)[0] == Times(0)[0];
    } else {
      var k := 2 * n - 3;
      assert Trace(n)[k] == Trace(n - 1)[k] == WriteOf(n - 1) && Times(n)[k] == Times(n - 1)[k] == [n - 2, 0];
    }
  }

  lemma TraceIsProduced(n: nat)
    ensures Produced(Trace(n), Times(n), [])
  {
    var trace, times := Trace(n), Times(n);
    AllHappen(n);
    forall j | 0 <= j < |trace| && trace[j].Read? ensures exists i: nat :: i < |trace| && Produces(trace, times, [], i, j) {
      assert Happens(trace[j], times[j]);
      var x := trace[j].elem.index[0];
      WriteComesFirst(n, x);
      var k: nat :| k < |trace| && trace[k] == WriteOf(x) && times[k] == [x - 1, 0];
      LaterTime(x - 1, 0, x, 1);
      assert trace[j].elem == Place(0, [x]);
      assert Produces(trace, times, [], k, j);
    }
  }

  lemma {:induction false} ReadsCount(n: nat)
    ensures var s := Run(Trace(n), Own()); s.log == seq(n, i => i) && Lookup(s.memory, Place(0, [n])) == n
    ensures forall i :: i > n ==> Place(0, [i]) !in Run(Trace(n), Own()).memory
  {
    if n == 0 {
      assert [WriteOf(0)][..0] == [];
    } else {
      ReadsCount(n - 1);
      var trace := Trace(n);
      assert trace[..2 * n][..2 * n - 1] == Trace(n - 1) && trace[2 * n - 1] == WriteOf(n) && trace[2 * n] == ReadOf(n - 1);
      assert [n] != [n - 1];
    }
  }

  /** The buffer of an array of one dimension whose size need not be rounded. */
  method AnalyzeOne(a: ArrayInfo, opt: Buffers.Options, ghost s: Storage) returns (buf: Buffer)
    requires WellFormed(a) && |a.bufferSize| == 1 && s.size == s.rounded == a.bufferSize
    requires forall size, wraps :: IsModuloDimension(a, opt, 0, size, wraps) ==> size == a.bufferSize[0]
    ensures Fit([a], opt, [buf], [s])
  {
    buf := BufferAnalysis(a, opt);
    if Shifts(a, opt) {
      assert s.rounded == buf.dimensionSize[0 := a.bufferSize[0]];
    } else {
      assert IsModuloDimension(a, opt, 0, buf.dimensionSize[0], buf.needsWrapping[0]);
      assert s.rounded == buf.dimensionSize;
    }
    assert Analyzed(a, opt, buf, s);
  }

  lemma TwoIsRounded(opt: Buffers.Options, size: int, wraps: bool)
    requires WellFormed(STREAM) && IsModuloDimension(STREAM, opt, 0, size, wraps)
    ensures size == 2
  {
    assert Pow2(0) == 1 && Pow2(1) == 2;
  }

  lemma StreamIsRunnable(opt: Buffers.Options, n: nat)
    ensures forall j :: 0 <= j < |Prelude()| ==> Runnable([STREAM], opt, Prelude()[j], false)
    ensures forall k, j :: 0 <= k < |Periods(n)| && 0 <= j < |Periods(n)[k]| ==> Runnable([STREAM], opt, Periods(n)[k][j], true)
  {
    assert Shifted([1], 0) == [1] && Shifted([0], 0) == [0];
    forall j | 0 <= j < |Period()| ensures Runnable([STREAM], opt, Period()[j], true) {
    }
  }

  lemma StreamRuns(n: nat)
    ensures var trace := Unrolled([STREAM], Prelude(), Periods(n));
      && Scheduled([StreamStorage()], trace, Times(n)) && InOrder(trace, Times(n), []) && Produced(trace, Times(n), [])
      && Run(trace, Own()).log == seq(n, i => i)
  {
    TraceIsUnrolled(n);
    TraceIsScheduled(n);
    TraceIsInOrder(n);
    TraceIsProduced(n);
    ReadsCount(n);
  }

  lemma OnlyStream(isl: Isl, classic: bool, storage: seq<Storage>)
    requires Sound(isl, 1) && storage == [StreamStorage()]
    ensures IsLexOrder(LexOrder()) && forall a :: 0 <= a < |storage| ==> Stored(isl, classic, LexOrder(), [], storage[a])
  {
    OrderIsLexOrder();
    StreamIsStored(isl, classic);
  }

  method RunOn(ghost isl: Isl, ghost classic: bool, opt: Buffers.Options, buf: Buffer, n: nat) returns (log: seq<int>)
    requires Sound(isl, 1) && Fit([STREAM], opt, [buf], [StreamStorage()])
    ensures log == seq(n, i => i)
  {
    ghost var storage := [StreamStorage()];
    OnlyStream(isl, classic, storage);
    StreamIsRunnable(opt, n);
    StreamRuns(n);
    log := RunGenerated(isl, classic, [STREAM], opt, [buf], storage, LexOrder(), [], Prelude(), Periods(n), Times(n));
  }

  /** The run on the buffer that buffer_analysis makes, circular or shifting, in either mode of the allocator:
      it reads 0, 1, 2, ... */
  method RunStream(ghost isl: Isl, ghost classic: bool, opt: Buffers.Options, n: nat) returns (log: seq<int>)
    requires Sound(isl, 1)
    ensures log == seq(n, i => i)
  {
    forall size, wraps | IsModuloDimension(STREAM, opt, 0, size, wraps) ensures size == 2 {
      TwoIsRounded(opt, size, wraps);
    }
    var buf := AnalyzeOne(STREAM, opt, StreamStorage());
    log := RunOn(isl, classic, opt, buf, n);
  }
}
