/** polyhedral/isl_ast_gen.cpp: when a loop may run in parallel, and the pairs of array elements that it
    then accesses at the same time.
 */
module ParallelLoops {
  import opened IslModel

  ghost predicate AgreeBefore(s: Vec, t: Vec, d: nat) {
    d <= |s| && d <= |t| && forall i :: 0 <= i < d ==> s[i] == t[i]
  }

  ghost predicate LexLess(s: Vec, t: Vec) {
    exists d: nat :: d < |s| && d < |t| && AgreeBefore(s, t, d) && s[d] < t[d]
  }

  /** Times of different iterations of a loop over dimension d inside the same outer iterations. */
  ghost predicate Concurrent(s: Vec, t: Vec, d: nat) {
    d < |s| && d < |t| && AgreeBefore(s, t, d) && s[d] != t[d]
  }

  // ---- The parallelism check ----------------------------------------------------------------

  ghost predicate Touches(accesses: Relation, others: Relation, s: Vec, t: Vec) {
    exists e: Vec :: accesses(s, e) && others(t, e)
  }

  /** compute_order: instance s must come before t. */
  ghost predicate Ordered(writing: Relation, reading: Relation, explicit: Relation, s: Vec, t: Vec) {
    Touches(writing, reading, s, t) || Touches(writing, writing, s, t) || explicit(s, t)
  }

  method Composed(isl: Isl, a: Relation, b: Relation) returns (c: Relation)
    requires SoundOnTimes(isl)
    ensures forall s: Vec, t: Vec :: c(s, t) <==> Touches(a, b, s, t)
  {
    var same: Relation := (x, y) => x == y;
    c := isl.relate(a, b, same);
    forall s: Vec, t: Vec ensures c(s, t) <==> Touches(a, b, s, t) {
      assert c(s, t) <==> Related(a, b, same, s, t);
      if e: Vec :| a(s, e) && b(t, e) {
        assert same(e, e);
      }
    }
  }

  method ComputeOrder(isl: Isl, writing: Relation, reading: Relation, explicit: Relation) returns (order: Relation)
    requires SoundOnTimes(isl)
    ensures forall s: Vec, t: Vec :: order(s, t) <==> Ordered(writing, reading, explicit, s, t)
    ensures forall s: Vec, t: Vec :: order(s, t) <==>
      || explicit(s, t)
      || exists e: Vec :: writing(s, e) && (reading(t, e) || writing(t, e))
  {
    var wr := Composed(isl, writing, reading);
    var ww := Composed(isl, writing, writing);
    order := (s, t) => wr(s, t) || ww(s, t) || explicit(s, t);
  }

  /** Two ordered instances at times s and t of the schedule. */
  ghost predicate OrderedTimes(order: Relation, schedule: Relation, s: Vec, t: Vec) {
    exists a: Vec, b: Vec :: schedule(a, s) && schedule(b, t) && order(a, b)
  }

  /** Ordered instances in the same outer iterations are in the same iteration of the dimension. */
  ghost predicate NothingAcross(order: Relation, schedule: Relation, dimension: nat) {
    forall a: Vec, b: Vec, s: Vec, t: Vec ::
      order(a, b) && schedule(a, s) && schedule(b, t) && dimension < |s| && dimension < |t| && s[..dimension] == t[..dimension] ==>
      s[dimension] == t[dimension]
  }

  /** current_schedule_dimension_is_parallel */
  method IsParallel(isl: Isl, order: Relation, schedule: Relation, dimension: nat) returns (ok: bool)
    requires SoundOnTimes(isl)
    requires forall a: Vec, s: Vec :: schedule(a, s) ==> |s| > dimension
    ensures ok <==> forall s: Vec, t: Vec :: OrderedTimes(order, schedule, s, t) ==> !Concurrent(s, t, dimension)
    ensures ok <==> NothingAcross(order, schedule, dimension)
  {
    var times: Relation := (t, a) => schedule(a, t);
    var dependencies := isl.relate(times, times, order);
    forall s: Vec, t: Vec ensures dependencies(s, t) <==> OrderedTimes(order, schedule, s, t) {
      DependenciesAreOrderedTimes(order, schedule, times, s, t);
    }
    ok := CarriesNothing(isl, dependencies, dimension);
    NothingAcrossExactly(order, schedule, dimension);
  }

  lemma NothingAcrossExactly(order: Relation, schedule: Relation, dimension: nat)
    ensures NothingAcross(order, schedule, dimension) <==>
      forall s: Vec, t: Vec :: OrderedTimes(order, schedule, s, t) ==> !Concurrent(s, t, dimension)
  {
    forall s: Vec, t: Vec ensures Concurrent(s, t, dimension) <==>
      dimension < |s| && dimension < |t| && s[..dimension] == t[..dimension] && s[dimension] != t[dimension]
    {
      if dimension < |s| && dimension < |t| {
        AgreeExactly(s, t, dimension);
      }
    }
    if NothingAcross(order, schedule, dimension) {
      forall s: Vec, t: Vec | OrderedTimes(order, schedule, s, t) ensures !Concurrent(s, t, dimension) {
        var a: Vec, b: Vec :| schedule(a, s) && schedule(b, t) && order(a, b);
      }
    } else {
      var a: Vec, b: Vec, s: Vec, t: Vec :|
        && order(a, b) && schedule(a, s) && schedule(b, t) && dimension < |s| && dimension < |t|
        && s[..dimension] == t[..dimension] && s[dimension] != t[dimension];
      assert OrderedTimes(order, schedule, s, t);
    }
  }

  lemma AgreeExactly(s: Vec, t: Vec, d: nat)
    requires d <= |s| && d <= |t|
    ensures AgreeBefore(s, t, d) <==> s[..d] == t[..d]
  {
    if s[..d] == t[..d] {
      forall i | 0 <= i < d ensures s[i] == t[i] {
        assert s[..d][i] == t[..d][i];
      }
    }
  }

  /** The test proper, on the dependencies between schedule points. */
  method CarriesNothing(isl: Isl, dependencies: Relation, dimension: nat) returns (ok: bool)
    requires SoundOnTimes(isl)
    requires forall s: Vec, t: Vec :: dependencies(s, t) ==> |s| > dimension && |t| > dimension
    ensures ok <==> forall s: Vec, t: Vec :: dependencies(s, t) ==> !Concurrent(s, t, dimension)
  {
    var nothing: Relation := (s, t) => false;
    if isl.isSubset(dependencies, nothing) {
      return true;
    }
    var scheduleDeps := EquateAll(dependencies, dimension);
    var allZero: Relation := (s, t) => dimension < |s| && dimension < |t| && s[dimension] == t[dimension];
    ok := isl.isSubset(scheduleDeps, allZero);
  }

  /** The pairs that agree in the outer dimensions. */
  method EquateAll(deps: Relation, dimension: nat) returns (equal: Relation)
    ensures forall s: Vec, t: Vec :: equal(s, t) <==> deps(s, t) && AgreeBefore(s, t, dimension)
  {
    equal := deps;
    for i := 0 to dimension
      invariant forall s: Vec, t: Vec :: equal(s, t) <==> deps(s, t) && AgreeBefore(s, t, i)
    {
      equal := Equate(equal, i);
    }
  }

  /** isl_map_equate on output and input dimension i */
  method Equate(deps: Relation, i: nat) returns (equal: Relation)
    ensures forall s: Vec, t: Vec :: equal(s, t) <==> deps(s, t) && i < |s| && i < |t| && s[i] == t[i]
  {
    equal := (s, t) => deps(s, t) && i < |s| && i < |t| && s[i] == t[i];
  }

  lemma DependenciesAreOrderedTimes(order: Relation, schedule: Relation, times: Relation, s: Vec, t: Vec)
    requires forall a: Vec, s: Vec :: times(s, a) <==> schedule(a, s)
    ensures OrderedTimes(order, schedule, s, t) <==> Related(times, times, order, s, t)
  {
    if a: Vec, b: Vec :| schedule(a, s) && schedule(b, t) && order(a, b) {
      assert times(s, a) && times(t, b);
    }
  }

  // ---- Parallel accesses --------------------------------------------------------------------

  /** x and y are accessed by an earlier and a later iteration of the loop over dimension d. */
  ghost predicate ParallelPair(accesses: Relation, d: nat, x: Vec, y: Vec) {
    exists s: Vec, t: Vec :: accesses(x, s) && accesses(y, t) && Concurrent(s, t, d) && s[d] < t[d]
  }

  /** store_parallel_accesses_for_current_dimension, for one array's access schedule */
  method StoreParallelAccesses(isl: Isl, accesses: Relation, dimension: nat, stored: Relation) returns (parallel: Relation)
    requires SoundOnTimes(isl)
    ensures forall x: Vec, y: Vec :: parallel(x, y) <==> stored(x, y) || ParallelPair(accesses, dimension, x, y)
  {
    var equal := EquateAll((s, t) => true, dimension);
    var parallelTimes: Relation := (s, t) => equal(s, t) && dimension < |s| && dimension < |t| && s[dimension] < t[dimension];
    var pairs := isl.relate(accesses, accesses, parallelTimes);
    parallel := (x, y) => stored(x, y) || pairs(x, y);
    forall x: Vec, y: Vec ensures pairs(x, y) <==> ParallelPair(accesses, dimension, x, y) {
      assert pairs(x, y) <==> Related(accesses, accesses, parallelTimes, x, y);
      if s: Vec, t: Vec :| accesses(x, s) && accesses(y, t) && Concurrent(s, t, dimension) && s[dimension] < t[dimension] {
        assert parallelTimes(s, t);
      }
    }
  }

  /** Pairs of elements that two iterations access, the first one earlier, under equal outer iterations. */
  lemma ParallelPairExactly(accesses: Relation, d: nat, x: Vec, y: Vec)
    ensures ParallelPair(accesses, d, x, y) <==>
      exists s: Vec, t: Vec ::
        accesses(x, s) && accesses(y, t) && d < |s| && d < |t| && s[..d] == t[..d] && s[d] < t[d]
  {
    forall s: Vec, t: Vec | d < |s| && d < |t| ensures AgreeBefore(s, t, d) <==> s[..d] == t[..d] {
      AgreeExactly(s, t, d);
    }
  }
}
