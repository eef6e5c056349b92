/** polyhedral/storage_alloc.cpp (find_inter_period_dependency): which rows of an array a period accesses,
    and whether the period needs anything that an earlier one left in the buffer.
 */
module PeriodUse {
  import opened Options
  import opened IslModel
  import BufferSizing
  import opened FoldedMemory
  import opened DataShifting
  import opened ScheduledPrograms

  datatype Use = Use(dependency: bool, range: Option<(int, int)>) | NoRange

  ghost predicate IsMinimum(n: nat, s: Region, dim: nat, m: int)
    requires dim < n
  {
    && (exists v: Vec :: |v| == n && s(v) && v[dim] == m)
    && (forall v: Vec :: |v| == n && s(v) ==> v[dim] >= m)
  }

  /** The least value is that of the mirrored set, negated. */
  method Minimum(isl: Isl, n: nat, s: Region, dim: nat) returns (m: Option<int>)
    requires Sound(isl, n) && dim < n
    ensures match m
      case Some(k) => IsMinimum(n, s, dim, k)
      case None => !exists k :: IsMinimum(n, s, dim, k)
  {
    var mirrored: Region := v => s(BufferSizing.Negated(v));
    var max := isl.maximum(n, mirrored, dim);
    forall k ensures IsMaximum(n, mirrored, dim, k) <==> IsMinimum(n, s, dim, -k) {
      MirroredMaximum(n, s, mirrored, dim, k);
    }
    if max == None {
      forall k ensures !IsMinimum(n, s, dim, k) {
        assert !IsMaximum(n, mirrored, dim, -k);
        assert -(-k) == k;
      }
      return None;
    }
    assert IsMaximum(n, mirrored, dim, max.value);
    return Some(-max.value);
  }

  lemma MirroredMaximum(n: nat, s: Region, mirrored: Region, dim: nat, k: int)
    requires dim < n && forall v: Vec :: mirrored(v) <==> s(BufferSizing.Negated(v))
    ensures IsMaximum(n, mirrored, dim, k) <==> IsMinimum(n, s, dim, -k)
  {
    forall v: Vec ensures BufferSizing.Negated(BufferSizing.Negated(v)) == v {}
    if IsMaximum(n, mirrored, dim, k) {
      var v: Vec :| |v| == n && mirrored(v) && v[dim] == k;
      var w := BufferSizing.Negated(v);
      assert |w| == n && s(w) && w[dim] == -k;
      forall u: Vec | |u| == n && s(u) ensures u[dim] >= -k {
        assert mirrored(BufferSizing.Negated(u));
      }
    }
    if IsMinimum(n, s, dim, -k) {
      var v: Vec :| |v| == n && s(v) && v[dim] == -k;
      var w := BufferSizing.Negated(v);
      assert |w| == n && mirrored(w) && w[dim] == k;
      forall u: Vec | |u| == n && mirrored(u) ensures u[dim] <= k {
        assert s(BufferSizing.Negated(u));
      }
    }
  }

  /** first and last are the least and the greatest row that the period accesses. */
  ghost predicate IsRange(n: nat, domain: Region, written: Region, read: Region, first: int, last: int)
    requires 0 < n
  {
    var accessed: Region := v => domain(v) && (written(v) || read(v));
    IsMinimum(n, accessed, 0, first) && IsMaximum(n, accessed, 0, last)
  }

  /** The period accesses a row further from row 0 than the bound. */
  ghost predicate ReachesBeyond(n: nat, domain: Region, written: Region, read: Region, bound: int) {
    exists v: Vec :: |v| == n > 0 && domain(v) && (written(v) || read(v)) && (v[0] < -bound || v[0] > bound)
  }

  /** written and read: elements that the statements of one period write and read. NoRange is where the
      source's assertion that both bounds are integers fails. */
  method FindInterPeriodDependency(isl: Isl, n: nat, isInfinite: bool, domain: Region, written: Region, read: Region)
    returns (use: Use)
    requires Sound(isl, n) && (isInfinite ==> n > 0)
    ensures use.Use? ==>
      (use.dependency <==> exists v: Vec :: |v| == n && domain(v) && read(v) && !written(v))
    ensures use.Use? ==> (use.range.Some? <==> isInfinite)
    ensures use.Use? && isInfinite ==> IsRange(n, domain, written, read, use.range.value.0, use.range.value.1)
    ensures use.Use? && isInfinite ==>
      forall v: Vec :: |v| == n && domain(v) && (written(v) || read(v)) ==> use.range.value.0 <= v[0] <= use.range.value.1
    ensures use.Use? && isInfinite ==>
      exists v: Vec :: |v| == n && domain(v) && (written(v) || read(v)) && v[0] == use.range.value.0
    ensures use.Use? && isInfinite ==>
      exists v: Vec :: |v| == n && domain(v) && (written(v) || read(v)) && v[0] == use.range.value.1
    ensures use == NoRange ==> isInfinite && !exists first, last :: IsRange(n, domain, written, read, first, last)
    ensures use == NoRange ==>
      || (forall v: Vec :: |v| == n && domain(v) ==> !written(v) && !read(v))
      || forall bound :: ReachesBeyond(n, domain, written, read, bound)
  {
    var remaining: Region := v => domain(v) && read(v) && !written(v);
    var dependency := !isl.isEmpty(n, remaining);
    if !isInfinite {
      return Use(dependency, None);
    }
    var range := PeriodRange(isl, n, domain, written, read);
    if range == None {
      RangeExists(n, domain, written, read);
      return NoRange;
    }
    RangeIsTight(n, domain, written, read, range.value.0, range.value.1);
    return Use(dependency, range);
  }

  method PeriodRange(isl: Isl, n: nat, domain: Region, written: Region, read: Region) returns (range: Option<(int, int)>)
    requires Sound(isl, n) && n > 0
    ensures range.Some? ==> IsRange(n, domain, written, read, range.value.0, range.value.1)
    ensures range.None? ==> !exists first, last :: IsRange(n, domain, written, read, first, last)
  {
    var accessed: Region := v => domain(v) && (written(v) || read(v));
    var first := Minimum(isl, n, accessed, 0);
    var last := isl.maximum(n, accessed, 0);
    SameRange(n, domain, written, read, accessed);
    if first == None || last == None {
      return None;
    }
    assert IsMaximum(n, accessed, 0, last.value);
    return Some((first.value, last.value));
  }

  lemma SameRange(n: nat, domain: Region, written: Region, read: Region, accessed: Region)
    requires 0 < n && forall v: Vec :: accessed(v) <==> domain(v) && (written(v) || read(v))
    ensures forall first, last :: IsRange(n, domain, written, read, first, last) <==>
      IsMinimum(n, accessed, 0, first) && IsMaximum(n, accessed, 0, last)
  {
  }

  lemma RangeIsTight(n: nat, domain: Region, written: Region, read: Region, first: int, last: int)
    requires 0 < n && IsRange(n, domain, written, read, first, last)
    ensures forall v: Vec :: |v| == n && domain(v) && (written(v) || read(v)) ==> first <= v[0] <= last
    ensures exists v: Vec :: |v| == n && domain(v) && (written(v) || read(v)) && v[0] == first
    ensures exists v: Vec :: |v| == n && domain(v) && (written(v) || read(v)) && v[0] == last
  {
    var accessed: Region := v => domain(v) && (written(v) || read(v));
    SameRange(n, domain, written, read, accessed);
  }

  /** Rows that are accessed, and not beyond some bound, have a least and a greatest one. */
  lemma BoundedRange(n: nat, domain: Region, written: Region, read: Region, v: Vec, bound: int) returns (first: int, last: int)
    requires |v| == n > 0 && domain(v) && (written(v) || read(v)) && !ReachesBeyond(n, domain, written, read, bound)
    ensures IsRange(n, domain, written, read, first, last)
  {
    var accessed: Region := v => domain(v) && (written(v) || read(v));
    var mirrored: Region := v => accessed(BufferSizing.Negated(v));
    SameRange(n, domain, written, read, accessed);
    last := BufferSizing.GreatestExists(n, accessed, 0, v, bound);
    assert BufferSizing.Negated(BufferSizing.Negated(v)) == v;
    forall w: Vec | |w| == n && mirrored(w) ensures w[0] <= bound {
      var u := BufferSizing.Negated(w);
      assert domain(u) && (written(u) || read(u)) && u[0] == -w[0];
    }
    var least := BufferSizing.GreatestExists(n, mirrored, 0, BufferSizing.Negated(v), bound);
    MirroredMaximum(n, accessed, mirrored, 0, least);
    first := -least;
  }

  lemma RangeExists(n: nat, domain: Region, written: Region, read: Region)
    requires 0 < n && !exists first, last :: IsRange(n, domain, written, read, first, last)
    ensures
      || (forall v: Vec :: |v| == n && domain(v) ==> !written(v) && !read(v))
      || forall bound :: ReachesBeyond(n, domain, written, read, bound)
  {
    forall v: Vec, bound | |v| == n && domain(v) && (written(v) || read(v)) ensures ReachesBeyond(n, domain, written, read, bound) {
      if !ReachesBeyond(n, domain, written, read, bound) {
        var first, last := BoundedRange(n, domain, written, read, v, bound);
      }
    }
  }

  // ---- What the answers are for -------------------------------------------------------------

  /** The code writes elements that the statements of the period write, and reads those that they read. */
  ghost predicate CodeOf(n: nat, domain: Region, written: Region, read: Region, factor: int, code: Code)
    requires 0 < n
  {
    && (forall j :: 0 <= j < |code| ==> 0 <= code[j].elem.1 < factor)
    && (forall j :: 0 <= j < |code| && code[j].Write? ==>
          exists v: Vec :: |v| == n && domain(v) && written(v) && v[0] == code[j].elem.0)
    && (forall j :: 0 <= j < |code| && code[j].Read? ==>
          exists v: Vec :: |v| == n && domain(v) && read(v) && v[0] == code[j].elem.0)
  }

  /** The rows that shifting buffers reserve and keep are those of the code. */
  lemma PeriodRowsAreInside(n: nat, domain: Region, written: Region, read: Region, first: int, last: int, factor: int, code: Code)
    requires 0 < n && IsRange(n, domain, written, read, first, last) && CodeOf(n, domain, written, read, factor, code)
    ensures first <= last && RowsWithin(code, first, last, factor)
  {
    RangeIsTight(n, domain, written, read, first, last);
    forall j | 0 <= j < |code| ensures first <= code[j].elem.0 <= last {
      assert code[j].Write? || code[j].Read?;
    }
  }

  /** Run code from a given memory and log. */
  function Continue<E, C>(s: State<C>, code: seq<Event<E>>, cell: E -> C): State<C> {
    if code == [] then s
    else Step(Continue(s, code[..|code| - 1], cell), code[|code| - 1], cell)
  }

  ghost predicate WrittenIn<E>(code: seq<Event<E>>, x: E) {
    WrittenBefore(code, |code|, x)
  }

  // ---- From the flag to the code of a period ------------------------------------------------

  /** What find_inter_period_dependency is given for an array, and the rows by which a period moves on. */
  datatype PeriodSets = PeriodSets(n: nat, domain: Region, written: Region, read: Region, move: int)

  ghost predicate Dependency(a: PeriodSets) {
    exists v: Vec :: |v| == a.n && a.domain(v) && a.read(v) && !a.written(v)
  }

  /** The code is that of period k: it reads what period 0 reads, moved, and writes all that it writes. */
  ghost predicate Performs(code: seq<Event<Place>>, arr: nat, a: PeriodSets, k: nat) {
    && (forall j :: 0 <= j < |code| && code[j].Read? && code[j].elem.arr == arr ==>
          ReadInPeriod(a, code[j].elem.index, k))
    && (forall v: Vec :: |v| == a.n && a.domain(v) && a.written(v) ==> WrittenIn(code, Place(arr, Shifted(v, k * a.move))))
  }

  ghost predicate ReadInPeriod(a: PeriodSets, x: Vec, k: nat) {
    exists v: Vec :: |v| == a.n && a.domain(v) && a.read(v) && x == Shifted(v, k * a.move)
  }

  /** Elements of the arrays whose flag is not set. */
  ghost predicate IsLocal(arrays: seq<PeriodSets>, p: Place) {
    p.arr < |arrays| && !Dependency(arrays[p.arr])
  }

  /** Elements of arrays without the dependency, which a period reads only if it writes them itself. */
  ghost predicate OwnReads<E>(local: E -> bool, code: seq<Event<E>>) {
    forall j :: 0 <= j < |code| && code[j].Read? && local(code[j].elem) ==> WrittenIn(code, code[j].elem)
  }

  /** That is what the flag says of every period. */
  lemma FlagMeansOwnReads(arrays: seq<PeriodSets>, code: seq<Event<Place>>, k: nat, local: Place -> bool)
    requires forall arr :: 0 <= arr < |arrays| ==> Performs(code, arr, arrays[arr], k)
    requires forall p :: local(p) ==> IsLocal(arrays, p)
    ensures OwnReads(local, code)
  {
    forall j | 0 <= j < |code| && code[j].Read? && local(code[j].elem) ensures WrittenIn(code, code[j].elem) {
      var p := code[j].elem;
      var a := arrays[p.arr];
      assert Performs(code, p.arr, a, k) && ReadInPeriod(a, p.index, k);
      var v: Vec :| |v| == a.n && a.domain(v) && a.read(v) && p.index == Shifted(v, k * a.move);
      assert a.written(v);
    }
  }

  ghost predicate OwnReadsInOrder<E>(local: E -> bool, code: seq<Event<E>>) {
    forall j :: 0 <= j < |code| && code[j].Read? && local(code[j].elem) ==> WrittenBefore(code, j, code[j].elem)
  }

  /** Its reads of such elements come after its own writes. */
  lemma OwnWritesComeFirst<E>(local: E -> bool, before: seq<Event<E>>, code: seq<Event<E>>)
    requires WrittenOnce(before + code) && ReadsAreWritten(before + code) && OwnReads(local, code)
    ensures OwnReadsInOrder(local, code)
  {
    var trace := before + code;
    forall j | 0 <= j < |code| && code[j].Read? && local(code[j].elem) ensures WrittenBefore(code, j, code[j].elem) {
      var i :| 0 <= i < |code| && code[i].Write? && code[i].elem == code[j].elem;
      assert trace[|before| + j] == code[j] && trace[|before| + i] == code[i];
      assert WrittenBefore(trace, |before| + j, code[j].elem);
    }
  }

  // ---- Runs that keep only some buffers -----------------------------------------------------

  /** Memories that agree on the cells that are kept. */
  ghost predicate SameKept<C(!new)>(lost: C -> bool, m: map<C, int>, m': map<C, int>) {
    forall c :: !lost(c) ==> Lookup(m, c) == Lookup(m', c)
  }

  ghost predicate CellWritten<E, C>(code: seq<Event<E>>, n: nat, cell: E -> C, c: C) {
    exists i :: 0 <= i < n && i < |code| && code[i].Write? && cell(code[i].elem) == c
  }

  /** Local elements are those in cells that are not kept. */
  ghost predicate LocalIsLost<E(!new), C>(local: E -> bool, cell: E -> C, lost: C -> bool) {
    forall x :: lost(cell(x)) ==> local(x)
  }

  /** From memories that agree on what is kept, the code reads the same, and they agree on it, and on what
      the code has written, afterwards. */
  lemma {:induction false} SameFromKeptMemory<E(!new), C(!new)>(local: E -> bool, cell: E -> C, lost: C -> bool,
                                                                code: seq<Event<E>>, n: nat, m: map<C, int>, m': map<C, int>, log: seq<int>)
    requires LocalIsLost(local, cell, lost) && OwnReadsInOrder(local, code) && SameKept(lost, m, m') && n <= |code|
    ensures var s, s' := Continue(State(m, log), code[..n], cell), Continue(State(m', log), code[..n], cell);
      && s.log == s'.log && SameKept(lost, s.memory, s'.memory)
      && forall c :: CellWritten(code, n, cell, c) ==> Lookup(s.memory, c) == Lookup(s'.memory, c)
  {
    if n > 0 {
      SameFromKeptMemory(local, cell, lost, code, n - 1, m, m', log);
      assert code[..n][..n - 1] == code[..n - 1] && code[..n][n - 1] == code[n - 1];
      var last := code[n - 1];
      if last.Read? && lost(cell(last.elem)) {
        var i :| 0 <= i < n - 1 && code[i].Write? && code[i].elem == last.elem;
        assert CellWritten(code, n - 1, cell, cell(last.elem));
      }
      forall c | CellWritten(code, n, cell, c) ensures (last.Write? && cell(last.elem) == c) || CellWritten(code, n - 1, cell, c) {
        var i :| 0 <= i < n && code[i].Write? && cell(code[i].elem) == c;
      }
    }
  }

  lemma {:induction false} ContinueIsRun<E, C>(before: seq<Event<E>>, code: seq<Event<E>>, cell: E -> C)
    ensures Continue(Run(before, cell), code, cell) == Run(before + code, cell)
  {
    if code == [] {
      assert before + code == before;
    } else {
      ContinueIsRun(before, code[..|code| - 1], cell);
      var trace := before + code;
      assert trace[..|trace| - 1] == before + code[..|code| - 1];
    }
  }

  function Joined<E>(before: seq<Event<E>>, periods: seq<seq<Event<E>>>): seq<Event<E>> {
    if periods == [] then before else Joined(before, periods[..|periods| - 1]) + periods[|periods| - 1]
  }

  /** Runs the periods, each starting with memory that kept only the cells that are not lost: entry[k] is
      memory at the start of period k. */
  ghost predicate IsKeptRun<E, C(!new)>(cell: E -> C, lost: C -> bool, start: State<C>, periods: seq<seq<Event<E>>>,
                                        entry: seq<map<C, int>>, states: seq<State<C>>)
  {
    && |entry| == |periods| && |states| == |periods| + 1 && states[0] == start
    && forall k :: 0 <= k < |periods| ==>
         && SameKept(lost, entry[k], states[k].memory)
         && states[k + 1] == Continue(State(entry[k], states[k].log), periods[k], cell)
  }

  lemma {:induction false} KeptRunIsRun<E(!new), C(!new)>(local: E -> bool, cell: E -> C, lost: C -> bool, before: seq<Event<E>>,
                                                          periods: seq<seq<Event<E>>>, entry: seq<map<C, int>>, states: seq<State<C>>, k: nat)
    requires WrittenOnce(Joined(before, periods)) && ReadsAreWritten(Joined(before, periods)) && LocalIsLost(local, cell, lost)
    requires forall i :: 0 <= i < |periods| ==> OwnReads(local, periods[i])
    requires IsKeptRun(cell, lost, Run(before, cell), periods, entry, states) && k <= |periods|
    ensures states[k].log == Run(Joined(before, periods[..k]), cell).log
    ensures SameKept(lost, states[k].memory, Run(Joined(before, periods[..k]), cell).memory)
  {
    if k > 0 {
      KeptRunIsRun(local, cell, lost, before, periods, entry, states, k - 1);
      var code, done := periods[k - 1], Joined(before, periods[..k - 1]);
      assert periods[..k][..k - 1] == periods[..k - 1];
      assert Joined(before, periods[..k]) == done + code;
      JoinedPrefix(before, periods, k);
      OwnWritesComeFirst(local, done, code);
      var kept := Run(done, cell);
      assert SameKept(lost, entry[k - 1], kept.memory);
      SameFromKeptMemory(local, cell, lost, code, |code|, entry[k - 1], kept.memory, kept.log);
      assert code[..|code|] == code;
      ContinueIsRun(done, code, cell);
    }
  }

  /** Buffers of arrays without the dependency need not be kept, also if their elements share cells: whatever
      they contain when a period starts, in every period, the whole run reads what it reads on unbounded
      arrays. */
  lemma BufferNeedNotBeKept<E(!new), C(!new)>(local: E -> bool, cell: E -> C, lost: C -> bool, before: seq<Event<E>>,
                                              periods: seq<seq<Event<E>>>, entry: seq<map<C, int>>, states: seq<State<C>>, k: nat)
    requires WrittenOnce(Joined(before, periods)) && ReadsAreWritten(Joined(before, periods)) && LocalIsLost(local, cell, lost)
    requires NoClobber(Joined(before, periods), cell)
    requires forall i :: 0 <= i < |periods| ==> OwnReads(local, periods[i])
    requires IsKeptRun(cell, lost, Run(before, cell), periods, entry, states) && k <= |periods|
    ensures states[k].log == Run(Joined(before, periods[..k]), Own()).log
  {
    KeptRunIsRun(local, cell, lost, before, periods, entry, states, k);
    JoinedPrefix(before, periods, k);
    JoinedIsPrefix(before, periods, k);
    NoClobberInPrefix(Joined(before, periods[..k]), Joined(before, periods), cell);
    FoldedRefinesUnbounded(Joined(before, periods[..k]), cell);
  }

  lemma {:induction false} JoinedIsPrefix<E>(before: seq<Event<E>>, periods: seq<seq<Event<E>>>, k: nat)
    requires k <= |periods|
    ensures Joined(before, periods[..k]) <= Joined(before, periods)
    decreases |periods|
  {
    if k == |periods| {
      assert periods[..k] == periods;
    } else {
      var shorter := periods[..|periods| - 1];
      JoinedIsPrefix(before, shorter, k);
      assert shorter[..k] == periods[..k];
    }
  }

  lemma NoClobberInPrefix<E(!new), C(!new)>(prefix: seq<Event<E>>, trace: seq<Event<E>>, cell: E -> C)
    requires prefix <= trace && NoClobber(trace, cell)
    ensures NoClobber(prefix, cell)
  {
    forall i, k, j ensures !Clobbers(prefix, cell, i, k, j) {
      assert Clobbers(prefix, cell, i, k, j) ==> Clobbers(trace, cell, i, k, j);
    }
  }

  lemma {:induction false} JoinedPrefix<E(!new)>(before: seq<Event<E>>, periods: seq<seq<Event<E>>>, k: nat)
    requires WrittenOnce(Joined(before, periods)) && ReadsAreWritten(Joined(before, periods)) && k <= |periods|
    ensures WrittenOnce(Joined(before, periods[..k])) && ReadsAreWritten(Joined(before, periods[..k]))
    decreases |periods|
  {
    if k == |periods| {
      assert periods[..k] == periods;
    } else {
      var shorter, last := periods[..|periods| - 1], periods[|periods| - 1];
      var trace := Joined(before, shorter);
      ReadsAreWrittenInPrefix(trace, last);
      assert forall i :: 0 <= i < |trace| ==> (trace + last)[i] == trace[i];
      JoinedPrefix(before, shorter, k);
      assert shorter[..k] == periods[..k];
    }
  }
}
