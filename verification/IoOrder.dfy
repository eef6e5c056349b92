/** Input and output of infinite channels stay in the clock's order, however the parallel loops are
    interleaved.
 */
module IoOrder {
  import opened IslModel
  import opened FoldedMemory
  import opened ParallelLoops
  import opened ScheduledPrograms
  import IoClock

  /** The statement instance of each access and tick, and when the schedule puts it. */
  datatype Timing = Timing(instance: IoClock.Point -> Vec, time: IoClock.Point -> Vec)

  ghost predicate StepTimed(p: Statements, order: Relation, timing: Timing, a: IoClock.Point, b: IoClock.Point) {
    && order(timing.instance(a), timing.instance(b))
    && p.schedule(timing.instance(a), timing.time(a)) && p.schedule(timing.instance(b), timing.time(b))
    && LexLess(timing.time(a), timing.time(b))
  }

  /** The clock's relations are part of the order, and the schedule satisfies them. */
  ghost predicate Timed(p: Statements, order: Relation, timing: Timing, streams: seq<IoClock.Stream>) {
    forall a, b :: IoClock.Related(streams, a, b) ==> StepTimed(p, order, timing, a, b)
  }

  /** A loop executes whatever the schedule puts between two of its iterations. */
  ghost predicate Covers(loop: Loop) {
    forall s: Vec, t: Vec, u: Vec ::
      InterleavedBy(loop, s, t) && LexLess(s, u) && LexLess(u, t) ==> loop.inside(u)
  }

  ghost predicate AllCover(loops: seq<Loop>) {
    forall k :: 0 <= k < |loops| ==> Covers(loops[k])
  }

  /** Two iterations that may be exchanged are not kept apart by what is between them. */
  lemma InterleavedThroughMiddle(loops: seq<Loop>, s: Vec, u: Vec, t: Vec)
    requires AllCover(loops) && LexLess(s, u) && LexLess(u, t) && Interleaved(loops, s, t)
    ensures Interleaved(loops, s, u) || Interleaved(loops, u, t)
  {
    var k :| 0 <= k < |loops| && InterleavedBy(loops[k], s, t);
    MiddleOfLoop(loops[k], s, u, t);
  }

  lemma MiddleOfLoop(loop: Loop, s: Vec, u: Vec, t: Vec)
    requires Covers(loop) && LexLess(s, u) && LexLess(u, t) && InterleavedBy(loop, s, t)
    ensures InterleavedBy(loop, s, u) || InterleavedBy(loop, u, t)
  {
    assert loop.inside(u);
    var e: nat :| e < |s| && e < |u| && AgreeBefore(s, u, e) && s[e] < u[e];
    var f: nat :| f < |u| && f < |t| && AgreeBefore(u, t, f) && u[f] < t[f];
    assert e >= loop.dim && f >= loop.dim;
  }

  /** Along a chain of the clock's relations, times grow and no loop exchanges the ends. */
  lemma {:induction false} ChainIsKept(p: Statements, period: Periodicity, explicit: Relation, order: Relation, loops: seq<Loop>,
                                       timing: Timing, streams: seq<IoClock.Stream>, path: seq<IoClock.Point>, k: nat)
    requires AllChecked(p, period, explicit, order, loops) && AllOrdersRepeat(p, period, explicit, loops) && AllCover(loops)
    requires Timed(p, order, timing, streams) && IoClock.Chain(streams, path) && 0 < k < |path|
    ensures LexLess(timing.time(path[0]), timing.time(path[k]))
    ensures !Interleaved(loops, timing.time(path[0]), timing.time(path[k]))
  {
    var a, b := path[k - 1], path[k];
    assert IoClock.Related(streams, a, path[k - 1 + 1]);
    assert StepTimed(p, order, timing, a, b);
    CheckedLoopsInterleaveNothing(p, period, explicit, order, loops, timing.instance(a), timing.instance(b), timing.time(a), timing.time(b));
    if k > 1 {
      ChainIsKept(p, period, explicit, order, loops, timing, streams, path, k - 1);
      LexTransitive(timing.time(path[0]), timing.time(a), timing.time(b));
      if Interleaved(loops, timing.time(path[0]), timing.time(b)) {
        InterleavedThroughMiddle(loops, timing.time(path[0]), timing.time(a), timing.time(b));
      }
    }
  }

  lemma LaterAccess(streams: seq<IoClock.Stream>, x: IoClock.Channel, i: nat, y: IoClock.Channel, j: nat)
    returns (path: seq<IoClock.Point>)
    requires IoClock.Infinite(streams, x) && IoClock.Infinite(streams, y) && i < j
    ensures IoClock.Chain(streams, path) && path[0] == IoClock.Io(x, i) && path[|path| - 1] == IoClock.Io(y, j)
  {
    IoClock.ClockIsQuadraticOrder(streams, x, i, y, j);
    path :| IoClock.Chain(streams, path) && path[0] == IoClock.Io(x, i) && path[|path| - 1] == IoClock.Io(y, j);
  }

  /** Accesses of any two infinite channels at indexes i < j happen in this order, in every interleaving of
      loops that pass the check. */
  lemma IoStaysInOrder(p: Statements, period: Periodicity, explicit: Relation, order: Relation, loops: seq<Loop>,
                       timing: Timing, streams: seq<IoClock.Stream>, trace: seq<Event<Place>>, times: seq<Vec>,
                       x: IoClock.Channel, i: nat, y: IoClock.Channel, j: nat, m: nat, n: nat)
    requires AllChecked(p, period, explicit, order, loops) && AllOrdersRepeat(p, period, explicit, loops) && AllCover(loops)
    requires Timed(p, order, timing, streams) && InOrder(trace, times, loops)
    requires IoClock.Infinite(streams, x) && IoClock.Infinite(streams, y) && i < j
    requires m < |times| && times[m] == timing.time(IoClock.Io(x, i))
    requires n < |times| && times[n] == timing.time(IoClock.Io(y, j))
    ensures m < n
  {
    var path := LaterAccess(streams, x, i, y, j);
    ChainIsKept(p, period, explicit, order, loops, timing, streams, path, |path| - 1);
    DependencyIsKept(trace, times, loops, m, n);
  }
}
