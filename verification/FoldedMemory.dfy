/** Memory whose elements share cells, against memory with a cell for every element.

    A trace lists the reads and writes of a run in the order they happen.  The value written may
    depend on everything read so far, so equal logs of read values mean equal behaviour.
 */
module FoldedMemory {

  datatype Event<E> = Read(elem: E) | Write(elem: E, compute: seq<int> -> int)

  datatype State<C> = State(memory: map<C, int>, log: seq<int>)

  function Lookup<C>(memory: map<C, int>, c: C): int {
    if c in memory then memory[c] else 0
  }

  function Step<E, C>(s: State<C>, e: Event<E>, cell: E -> C): State<C> {
    match e
    case Read(x) => s.(log := s.log + [Lookup(s.memory, cell(x))])
    case Write(x, compute) => s.(memory := s.memory[cell(x) := compute(s.log)])
  }

  function Run<E, C>(trace: seq<Event<E>>, cell: E -> C): State<C> {
    if trace == [] then State(map[], [])
    else Step(Run(trace[..|trace| - 1], cell), trace[|trace| - 1], cell)
  }

  function Own<E>(): E -> E {
    x => x
  }

  ghost predicate WrittenBefore<E>(trace: seq<Event<E>>, n: int, x: E) {
    exists i :: 0 <= i < n && i < |trace| && trace[i].Write? && trace[i].elem == x
  }

  ghost predicate ReadFrom<E>(trace: seq<Event<E>>, n: int, x: E) {
    exists j :: 0 <= n <= j < |trace| && trace[j].Read? && trace[j].elem == x
  }

  ghost predicate ReadsAreWritten<E>(trace: seq<Event<E>>) {
    forall j :: 0 <= j < |trace| && trace[j].Read? ==> WrittenBefore(trace, j, trace[j].elem)
  }

  ghost predicate WrittenOnce<E>(trace: seq<Event<E>>) {
    forall i, j :: 0 <= i < j < |trace| && trace[i].Write? && trace[j].Write? ==> trace[i].elem != trace[j].elem
  }

  /** The write at k falls between a write and a read of another element in the same cell. */
  ghost predicate Clobbers<E(!new), C(!new)>(trace: seq<Event<E>>, cell: E -> C, i: int, k: int, j: int) {
    && 0 <= i < k < j < |trace|
    && trace[i].Write? && trace[k].Write? && trace[j].Read?
    && trace[i].elem == trace[j].elem != trace[k].elem
    && cell(trace[k].elem) == cell(trace[j].elem)
  }

  ghost predicate NoClobber<E(!new), C(!new)>(trace: seq<Event<E>>, cell: E -> C) {
    forall i, k, j :: !Clobbers(trace, cell, i, k, j)
  }

  /** Every element that will still be read has its value in its (shared) cell. */
  ghost predicate LiveAgree<E(!new), C(!new)>(trace: seq<Event<E>>, cell: E -> C, n: nat)
    requires n <= |trace|
  {
    var folded, own := Run(trace[..n], cell), Run(trace[..n], Own());
    && folded.log == own.log
    && forall x :: WrittenBefore(trace, n, x) && ReadFrom(trace, n, x) ==>
         Lookup(folded.memory, cell(x)) == Lookup(own.memory, x)
  }

  lemma LiveCellIsKept<E(!new), C(!new)>(trace: seq<Event<E>>, cell: E -> C, n: nat, x: E)
    requires n < |trace| && NoClobber(trace, cell) && trace[n].Write? && trace[n].elem != x
    requires WrittenBefore(trace, n, x) && ReadFrom(trace, n + 1, x)
    ensures cell(trace[n].elem) != cell(x)
  {
    var i :| 0 <= i < n && trace[i].Write? && trace[i].elem == x;
    var j :| n + 1 <= j < |trace| && trace[j].Read? && trace[j].elem == x;
    assert !Clobbers(trace, cell, i, n, j);
  }

  lemma LiveStep<E(!new), C(!new)>(trace: seq<Event<E>>, cell: E -> C, n: nat)
    requires n < |trace| && NoClobber(trace, cell) && ReadsAreWritten(trace)
    requires LiveAgree(trace, cell, n)
    ensures LiveAgree(trace, cell, n + 1)
  {
    var e := trace[n];
    assert trace[..n + 1][..n] == trace[..n] && trace[..n + 1][n] == e;
    var folded, own := Run(trace[..n], cell), Run(trace[..n], Own());
    if e.Read? {
      assert WrittenBefore(trace, n, e.elem) && ReadFrom(trace, n, e.elem);
    }
    forall x | WrittenBefore(trace, n + 1, x) && ReadFrom(trace, n + 1, x)
      ensures Lookup(Step(folded, e, cell).memory, cell(x)) == Lookup(Step(own, e, Own()).memory, x)
    {
      assert ReadFrom(trace, n, x);
      if !(e.Write? && e.elem == x) {
        assert WrittenBefore(trace, n, x);
        if e.Write? {
          LiveCellIsKept(trace, cell, n, x);
        }
      }
    }
  }

  /** Folded memory refines unbounded memory: the same values are read, in the same order. */
  lemma {:induction false} FoldedRefinesUnbounded<E(!new), C(!new)>(trace: seq<Event<E>>, cell: E -> C)
    requires NoClobber(trace, cell) && ReadsAreWritten(trace)
    ensures Run(trace, cell).log == Run(trace, Own()).log
  {
    var n := 0;
    while n < |trace|
      invariant n <= |trace| && LiveAgree(trace, cell, n)
    {
      LiveStep(trace, cell, n);
      n := n + 1;
    }
    assert trace[..|trace|] == trace;
  }

  // ---- Nothing weaker will do ---------------------------------------------------------------

  /** The same reads and writes, whatever is computed. */
  ghost predicate SameAccesses<E>(a: seq<Event<E>>, b: seq<Event<E>>) {
    && |a| == |b|
    && forall k :: 0 <= k < |a| ==> a[k].elem == b[k].elem && (a[k].Write? <==> b[k].Write?)
  }

  /** The computation in which each write stores its own position. */
  function Positions<E>(trace: seq<Event<E>>): (p: seq<Event<E>>)
    ensures SameAccesses(trace, p)
  {
    seq(|trace|, k requires 0 <= k < |trace| =>
      match trace[k]
      case Read(x) => Read(x)
      case Write(x, _) => Write(x, _ => k))
  }

  /** After the write at k its cell holds a position not before k. */
  lemma {:induction false} CellHoldsLater<E(!new), C(!new)>(trace: seq<Event<E>>, cell: E -> C, k: nat, n: nat)
    requires k < n <= |trace| && trace[k].Write?
    ensures Lookup(Run(Positions(trace)[..n], cell).memory, cell(trace[k].elem)) >= k
  {
    var p := Positions(trace);
    assert p[..n][..n - 1] == p[..n - 1] && p[..n][n - 1] == p[n - 1];
    if n > k + 1 {
      CellHoldsLater(trace, cell, k, n - 1);
    }
  }

  /** An element written once holds the position of that write from then on. */
  lemma {:induction false} OwnCellHolds<E(!new)>(trace: seq<Event<E>>, i: nat, n: nat)
    requires i < n <= |trace| && trace[i].Write? && WrittenOnce(trace)
    ensures Lookup(Run(Positions(trace)[..n], Own()).memory, trace[i].elem) == i
  {
    var p := Positions(trace);
    assert p[..n][..n - 1] == p[..n - 1] && p[..n][n - 1] == p[n - 1];
    if n > i + 1 {
      OwnCellHolds(trace, i, n - 1);
    }
  }

  function Reads<E>(trace: seq<Event<E>>): nat {
    if trace == [] then 0
    else Reads(trace[..|trace| - 1]) + if trace[|trace| - 1].Read? then 1 else 0
  }

  lemma {:induction false} LogGrows<E, C>(trace: seq<Event<E>>, cell: E -> C, n: nat)
    requires n <= |trace|
    ensures |Run(trace[..n], cell).log| == Reads(trace[..n]) <= |Run(trace, cell).log|
    ensures Run(trace[..n], cell).log == Run(trace, cell).log[..Reads(trace[..n])]
    decreases |trace|, n
  {
    if n == |trace| {
      assert trace[..n] == trace;
      if n > 0 {
        LogGrows(trace[..n - 1], cell, n - 1);
        assert trace[..n - 1][..n - 1] == trace[..n - 1];
      }
    } else {
      LogGrows(trace[..|trace| - 1], cell, n);
      assert trace[..|trace| - 1][..n] == trace[..n];
    }
  }

  /** With each element written once, sharing cells is right for every computation exactly when no
      write falls between the write and a read of another element in its cell. */
  lemma RefinementIsExact<E(!new), C(!new)>(trace: seq<Event<E>>, cell: E -> C)
    requires ReadsAreWritten(trace) && WrittenOnce(trace)
    ensures NoClobber(trace, cell) <==>
      forall t :: SameAccesses(trace, t) ==> Run(t, cell).log == Run(t, Own()).log
  {
    if NoClobber(trace, cell) {
      forall t | SameAccesses(trace, t) ensures Run(t, cell).log == Run(t, Own()).log {
        SameAccessesKeep(trace, t, cell);
        FoldedRefinesUnbounded(t, cell);
      }
    } else {
      var i, k, j :| Clobbers(trace, cell, i, k, j);
      ClobberIsVisible(trace, cell, i, k, j);
    }
  }

  lemma SameAccessesKeep<E(!new), C(!new)>(trace: seq<Event<E>>, t: seq<Event<E>>, cell: E -> C)
    requires SameAccesses(trace, t) && NoClobber(trace, cell) && ReadsAreWritten(trace)
    ensures NoClobber(t, cell) && ReadsAreWritten(t)
  {
    forall i, k, j ensures !Clobbers(t, cell, i, k, j) {
      assert !Clobbers(trace, cell, i, k, j);
    }
    forall j | 0 <= j < |t| && t[j].Read? ensures WrittenBefore(t, j, t[j].elem) {
      assert WrittenBefore(trace, j, trace[j].elem);
      var i :| 0 <= i < j && trace[i].Write? && trace[i].elem == trace[j].elem;
      assert t[i].Write? && t[i].elem == t[j].elem;
    }
  }

  /** A read at j is the entry of the log after the reads before j. */
  lemma ReadIsLogged<E, C>(trace: seq<Event<E>>, cell: E -> C, j: nat)
    requires j < |trace| && trace[j].Read?
    ensures Reads(trace[..j]) < |Run(trace, cell).log|
    ensures Run(trace, cell).log[Reads(trace[..j])] == Lookup(Run(trace[..j], cell).memory, cell(trace[j].elem))
  {
    var upTo := trace[..j + 1];
    assert upTo[..|upTo| - 1] == trace[..j] && upTo[|upTo| - 1] == trace[j];
    LogGrows(trace, cell, j);
    LogGrows(trace, cell, j + 1);
    assert Run(upTo, cell) == Step(Run(trace[..j], cell), trace[j], cell);
  }

  lemma ClobberIsVisible<E(!new), C(!new)>(trace: seq<Event<E>>, cell: E -> C, i: nat, k: nat, j: nat)
    requires WrittenOnce(trace) && Clobbers(trace, cell, i, k, j)
    ensures Run(Positions(trace), cell).log != Run(Positions(trace), Own()).log
  {
    CellHoldsLater(trace, cell, k, j);
    OwnCellHolds(trace, i, j);
    ReadIsLogged(Positions(trace), cell, j);
    ReadIsLogged(Positions(trace), Own(), j);
  }
}
