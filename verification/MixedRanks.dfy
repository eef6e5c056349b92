/** A small run that meets every hypothesis of the storage theorem: two arrays of different ranks, written
    by two iterations of a parallel loop in the wrong order, and read after it.
 */
module MixedRanks {
  import opened IslModel
  import opened BufferSizing
  import opened Conflicts
  import opened FoldedMemory
  import opened ParallelLoops
  import opened ScheduledPrograms

  /** The element of each array that is used. */
  const USED: seq<Vec> := [[5], [3, 4]]

  function Only(arr: nat): Vec {
    if arr < 2 then USED[arr] else []
  }

  /** Instances 0 and 1 write to arrays 0 and 1; instances 2 and 3 read from them. */
  function Copying(): Statements {
    Statements(
      (arr: nat) => (a: Vec, x: Vec) => arr < 2 && a == [arr] && x == Only(arr),
      (arr: nat) => (a: Vec, x: Vec) => arr < 2 && a == [arr + 2] && x == Only(arr),
      (a: Vec, t: Vec) => |a| == 1 && 0 <= a[0] < 4 && t == [0, a[0]])
  }

  function WriteLoop(): Loop {
    Loop(1, (t: Vec) => |t| == 2 && t[0] == 0 && 0 <= t[1] < 2,
         (a: Vec, t: Vec) => |a| == 1 && 0 <= a[0] < 2 && t == [0, a[0]])
  }

  function Loops(): seq<Loop> {
    [WriteLoop()]
  }

  function Still(): Periodicity {
    Periodicity((a: Vec) => a, (arr: nat) => 0)
  }

  function Nothing(): Relation {
    (a: Vec, b: Vec) => false
  }

  function StorageOf(arr: nat): Storage
    requires arr < 2
  {
    var x := Only(arr);
    var ones := seq(|x|, _ => 1);
    Storage(|x|, [Exactly(x, [0, arr])], [Exactly(x, [0, arr + 2])], Exactly(x, x), ones, ones)
  }

  function Arrays(): (storage: seq<Storage>)
    ensures |storage| == 2 && forall arr :: 0 <= arr < 2 ==> storage[arr] == StorageOf(arr)
  {
    seq(2, arr requires 0 <= arr < 2 => StorageOf(arr))
  }

  ghost function Dependencies(): Relation {
    (a: Vec, b: Vec) => Ordered(AllOf(Copying().written), AllOf(Copying().read), Nothing(), a, b)
  }

  const TRACE: seq<Event<Place>> :=
    [Write(Place(1, [3, 4]), _ => 1), Write(Place(0, [5]), _ => 2), Read(Place(0, [5])), Read(Place(1, [3, 4]))]
  const TIMES: seq<Vec> := [[0, 1], [0, 0], [0, 2], [0, 3]]

  lemma OneElementNeedsOneCell(isl: Isl, n: nat, x: Vec, conflicts: Relation, ones: seq<int>)
    requires Sound(isl, n) && |x| == n && Ones(n, ones)
    requires forall a: Vec, b: Vec :: conflicts(a, b) <==> a == b == x
    ensures SizesFor(n, conflicts, isl.deltas(conflicts), false, ones)
  {
    var zero := Minus(x, x);
    assert conflicts(x, x) && Zero(zero) && IsDelta(n, conflicts, zero);
    forall v: Vec | |v| == n && isl.deltas(conflicts)(v) ensures v == zero {
      assert IsDelta(n, conflicts, v);
    }
    UnsafeDistancesAreInvisible(n, isl.deltas(conflicts), ones);
  }

  lemma OnePiece(x: Vec, t: Vec, a: Vec, b: Vec)
    ensures InUnion([Exactly(x, t)], a, b) <==> a == x && b == t
  {
    assert [Exactly(x, t)][0] == Exactly(x, t);
  }

  /** An array with one element, written at w and read at r. */
  lemma OneElementConflicts(s: Storage, x: Vec, w: Vec, r: Vec, order: seq<Relation>)
    requires |x| == s.n && s.writers == [Exactly(x, w)] && s.readers == [Exactly(x, r)] && s.conflicts == Exactly(x, x)
    requires IsLexOrder(order) && LexLess(w, r)
    ensures ConflictsOf(order, s, Nothing()) && WritesAreUsed(false, s) && SignSafe(s.n, s.conflicts)
  {
    forall a: Vec, b: Vec
      ensures InUnion(s.writers, a, b) <==> a == x && b == w
      ensures InUnion(s.readers, a, b) <==> a == x && b == r
    {
      OnePiece(x, w, a, b);
      OnePiece(x, r, a, b);
    }
    assert InUnion(order, w, r);
    assert Precedes(s.writers, s.readers, order, x, x);
  }

  lemma LaterInPeriod(i: int, j: int)
    requires i < j
    ensures LexLess([0, i], [0, j])
  {
    var s: Vec, t: Vec := [0, i], [0, j];
    assert AgreeBefore(s, t, 1) && s[1] < t[1];
  }

  lemma IsScheduled(arr: nat)
    requires arr < 2
    ensures ScheduleOf(Copying(), arr, StorageOf(arr))
  {
    var s, p := StorageOf(arr), Copying();
    forall x: Vec, t: Vec
      ensures InUnion(s.writers, x, t) <==> At(p.schedule, p.written(arr), x, t)
      ensures InUnion(s.readers, x, t) <==> At(p.schedule, p.read(arr), x, t)
    {
      OnePiece(Only(arr), [0, arr], x, t);
      OnePiece(Only(arr), [0, arr + 2], x, t);
      if x == Only(arr) && t == [0, arr] {
        assert p.written(arr)([arr], x) && p.schedule([arr], t);
      }
      if x == Only(arr) && t == [0, arr + 2] {
        assert p.read(arr)([arr + 2], x) && p.schedule([arr + 2], t);
      }
    }
  }

  /** The loop accesses each array in one iteration only. */
  lemma NothingIsStored(arr: nat)
    requires arr < 2
    ensures StoredFor(Copying(), Loops(), arr, Nothing())
  {
    var accesses := AccessSchedule(Copying(), WriteLoop(), arr);
    forall x: Vec, t: Vec | accesses(x, t) ensures t == [0, arr] {
      var a: Vec :| (Copying().written(arr)(a, x) || Copying().read(arr)(a, x)) && WriteLoop().schedule(a, t);
    }
    forall x: Vec, y: Vec ensures !ParallelPair(accesses, 1, x, y) {
    }
  }

  lemma IsAllocated(arr: nat)
    requires arr < 2
    ensures Allocation(Exact(), false, StorageOf(arr))
  {
    var s := StorageOf(arr);
    ExactIsSound(s.n);
    OneElementNeedsOneCell(Exact(), s.n, Only(arr), s.conflicts, s.size);
  }

  lemma IsCompiled(arr: nat)
    requires arr < 2
    ensures Compiled(Exact(), false, LexOrder(), Copying(), Loops(), arr, StorageOf(arr))
  {
    IsAllocated(arr);
    IsScheduled(arr);
    LaterInPeriod(arr, arr + 2);
    OrderIsLexOrder();
    OneElementConflicts(StorageOf(arr), Only(arr), [0, arr], [0, arr + 2], LexOrder());
    NothingIsStored(arr);
  }

  lemma LoopIsRepeated()
    ensures Repeats(Copying(), Still(), WriteLoop())
  {
    forall a: Vec, t: Vec | WriteLoop().inside(t) && Copying().schedule(a, t)
      ensures t[0 := 0] == t
    {
    }
    forall x: Vec, rows ensures rows == 0 ==> Shifted(x, rows) == x {
    }
  }

  lemma LoopIsChecked()
    ensures Checked(Copying(), Nothing(), Dependencies(), WriteLoop())
  {
    forall s: Vec, t: Vec | OrderedTimes(Dependencies(), WriteLoop().schedule, s, t) ensures s == t {
      var a: Vec, b: Vec :| WriteLoop().schedule(a, s) && WriteLoop().schedule(b, t) && Dependencies()(a, b);
      WritersAreApart(a, b);
    }
  }

  /** The loop's instances depend on each other only if they are the same. */
  lemma WritersAreApart(a: Vec, b: Vec)
    requires |a| == |b| == 1 && a[0] < 2 && b[0] < 2 && Dependencies()(a, b)
    ensures a == b
  {
    if e: Vec :| AllOf(Copying().written)(a, e) && AllOf(Copying().written)(b, e) {
      assert a == [e[0]] && b == [e[0]];
    } else {
      var e: Vec :| AllOf(Copying().written)(a, e) && AllOf(Copying().read)(b, e);
      assert false;
    }
  }

  lemma RunIsScheduled()
    ensures Scheduled(Arrays(), TRACE, TIMES)
  {
    OnePiece([5], [0, 0], [5], [0, 0]);
    OnePiece([5], [0, 2], [5], [0, 2]);
    OnePiece([3, 4], [0, 1], [3, 4], [0, 1]);
    OnePiece([3, 4], [0, 3], [3, 4], [0, 3]);
  }

  lemma RunIsInOrder()
    ensures InOrder(TRACE, TIMES, Loops()) && WritersComeFirst(TRACE, TIMES)
  {
    LaterInPeriod(0, 2);
    LaterInPeriod(0, 3);
    LaterInPeriod(1, 2);
    LaterInPeriod(1, 3);
    LaterInPeriod(2, 3);
    var loops := Loops();
    assert loops[0] == WriteLoop();
    assert InterleavedBy(loops[0], [0, 1], [0, 0]);
    assert Interleaved(loops, [0, 1], [0, 0]);
    assert TRACE[1].Write? && TRACE[1].elem == TRACE[2].elem && LexLess(TIMES[1], TIMES[2]);
    assert TRACE[0].Write? && TRACE[0].elem == TRACE[3].elem && LexLess(TIMES[0], TIMES[3]);
  }

  lemma ArraysAreCompiled()
    ensures AllCompiled(Exact(), false, LexOrder(), Copying(), Loops(), Arrays())
  {
    forall a | 0 <= a < |Arrays()| ensures Compiled(Exact(), false, LexOrder(), Copying(), Loops(), a, Arrays()[a]) {
      IsCompiled(a);
    }
  }

  lemma LoopsAreChecked()
    ensures AllChecked(Copying(), Still(), Nothing(), Dependencies(), Loops())
  {
    LoopIsRepeated();
    LoopIsChecked();
  }

  lemma RanksDiffer()
    ensures Arrays()[0].n == 1 && Arrays()[1].n == 2 && |Loops()| == 1
  {
  }

  lemma NothingRepeats()
    ensures AllOrdersRepeat(Copying(), Still(), Nothing(), Loops())
  {
  }

  /** The hypotheses of ParallelProgramIsCorrect hold together for arrays of ranks 1 and 2, so folding
      is right for this run. */
  lemma HypothesesCanBeMet()
    ensures Arrays()[0].n == 1 && Arrays()[1].n == 2 && |Loops()| == 1
    ensures IsLexOrder(LexOrder())
    ensures AllCompiled(Exact(), false, LexOrder(), Copying(), Loops(), Arrays())
    ensures AllChecked(Copying(), Still(), Nothing(), Dependencies(), Loops())
    ensures AllOrdersRepeat(Copying(), Still(), Nothing(), Loops())
    ensures Scheduled(Arrays(), TRACE, TIMES) && InOrder(TRACE, TIMES, Loops()) && WritersComeFirst(TRACE, TIMES)
  {
    RanksDiffer();
    OrderIsLexOrder();
    ArraysAreCompiled();
    LoopsAreChecked();
    NothingRepeats();
    RunIsScheduled();
    RunIsInOrder();
  }
}
