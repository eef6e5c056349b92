/** frontend/reference_analysis.cpp: a depth-first search marks names so that every loop of references
    contains a marked name. */
module ReferenceAnalysis {
  import opened Options

  type Id = nat

  /** Node stands for every other kind of expression, by its subexpressions in the order visited. */
  datatype Expr = Ref(id: Id) | Scope(locals: seq<Id>, value: Expr) | Node(children: seq<Expr>)

  type Program = map<Id, Expr>

  /** Names that an expression refers to or declares. */
  function Mentions(e: Expr): set<Id> {
    match e
    case Ref(id) => {id}
    case Scope(locals, value) => Elements(locals) + Mentions(value)
    case Node(children) => MentionsAll(children)
  }

  function MentionsAll(es: seq<Expr>): set<Id> {
    if es == [] then {} else MentionsAll(es[..|es| - 1]) + Mentions(es[|es| - 1])
  }

  function Elements(ids: seq<Id>): set<Id> {
    set id | id in ids
  }

  predicate Edge(p: Program, a: Id, b: Id) {
    a in p && b in Mentions(p[a])
  }

  predicate Closed(p: Program) {
    forall id :: id in p ==> Mentions(p[id]) <= p.Keys
  }

  // ---- What the search computes -------------------------------------------------------------

  /** finished lists the names in the order in which their own visits end; the program has no such list,
      it serves the proofs. */
  datatype State = State(done: set<Id>, recursive: set<Id>, finished: seq<Id>)

  function Position(ids: seq<Id>, id: Id): (k: nat)
    requires id in ids
    ensures k < |ids| && ids[k] == id && id !in ids[..k]
  {
    if ids[0] == id then 0 else Position(ids[1..], id) + 1
  }

  ghost function Unvisited(p: Program, visited: seq<Id>): nat {
    |p.Keys - Elements(visited)|
  }

  lemma PushDecreases(p: Program, visited: seq<Id>, id: Id)
    requires id in p && id !in visited
    ensures Unvisited(p, visited + [id]) < Unvisited(p, visited)
  {
    var before := p.Keys - Elements(visited);
    var after := p.Keys - Elements(visited + [id]);
    assert after == before - {id};
  }

  ghost function Process(p: Program, id: Id, visited: seq<Id>, s: State): State
    requires Closed(p) && id in p
    decreases Unvisited(p, visited), 0
  {
    if id in s.done then s
    else if id in visited then
      State(s.done + {id}, s.recursive + Elements(visited[Position(visited, id)..]), s.finished)
    else
      PushDecreases(p, visited, id);
      var t := Visit(p, p[id], visited + [id], s);
      State(t.done + {id}, t.recursive, t.finished + [id])
  }

  ghost function ProcessAll(p: Program, ids: seq<Id>, visited: seq<Id>, s: State): State
    requires Closed(p) && Elements(ids) <= p.Keys
    decreases Unvisited(p, visited), 1, ids
  {
    if ids == [] then s
    else
      assert ids[|ids| - 1] in Elements(ids);
      Process(p, ids[|ids| - 1], visited, ProcessAll(p, ids[..|ids| - 1], visited, s))
  }

  ghost function Visit(p: Program, e: Expr, visited: seq<Id>, s: State): State
    requires Closed(p) && Mentions(e) <= p.Keys
    decreases Unvisited(p, visited), 2, e
  {
    match e
    case Ref(id) => Process(p, id, visited, s)
    case Scope(locals, value) => Visit(p, value, visited, ProcessAll(p, locals, visited, s))
    case Node(children) => VisitAll(p, children, visited, s)
  }

  ghost function VisitAll(p: Program, es: seq<Expr>, visited: seq<Id>, s: State): State
    requires Closed(p) && MentionsAll(es) <= p.Keys
    decreases Unvisited(p, visited), 2, es
  {
    if es == [] then s
    else Visit(p, es[|es| - 1], visited, VisitAll(p, es[..|es| - 1], visited, s))
  }

  // ---- Loops --------------------------------------------------------------------------------

  ghost predicate IsPath(p: Program, path: seq<Id>) {
    forall i :: 0 <= i < |path| - 1 ==> Edge(p, path[i], path[i + 1])
  }

  ghost predicate IsLoop(p: Program, loop: seq<Id>) {
    && loop != [] && IsPath(p, loop)
    && Edge(p, loop[|loop| - 1], loop[0])
  }

  ghost predicate OnLoop(p: Program, id: Id) {
    exists loop :: IsLoop(p, loop) && loop[0] == id
  }

  ghost predicate Reaches(p: Program, a: Id, b: Id) {
    exists path :: path != [] && IsPath(p, path) && path[0] == a && path[|path| - 1] == b
  }

  /** A loop can be entered at any of its members. */
  lemma Rotate(p: Program, loop: seq<Id>, k: nat)
    requires IsLoop(p, loop) && k < |loop|
    ensures OnLoop(p, loop[k])
  {
    var r := loop[k..] + loop[..k];
    var n := |loop|;
    forall i | 0 <= i < n - 1 ensures Edge(p, r[i], r[i + 1]) {
      if i == n - k - 1 {
        assert r[i] == loop[n - 1] && r[i + 1] == loop[0];
      } else if i < n - k - 1 {
        assert r[i] == loop[k + i] && r[i + 1] == loop[k + i + 1];
      } else {
        assert r[i] == loop[i - (n - k)] && r[i + 1] == loop[i - (n - k) + 1];
      }
    }
    assert r[n - 1] == loop[if k == 0 then n - 1 else k - 1];
    assert IsLoop(p, r) && r[0] == loop[k];
  }

  // ---- What every step keeps ----------------------------------------------------------------

  /** Whatever a finished name mentions is marked or finished before it. */
  ghost predicate Ordered(p: Program, s: State) {
    forall i, v :: 0 <= i < |s.finished| && Edge(p, s.finished[i], v) ==> v in s.recursive || v in s.finished[..i]
  }

  ghost predicate Unique(ids: seq<Id>) {
    forall i, j :: 0 <= i < j < |ids| ==> ids[i] != ids[j]
  }

  ghost predicate Good(p: Program, visited: seq<Id>, s: State) {
    && IsPath(p, visited) && Unique(visited) && Unique(s.finished)
    && Elements(visited) <= p.Keys && Elements(s.finished) <= p.Keys
    && Elements(visited) !! Elements(s.finished)
    && Ordered(p, s)
    && (forall id :: id in s.finished ==> id in s.done)
    && (forall id :: id in s.done ==> id in s.finished || (id in visited && id in s.recursive))
    && (forall id :: id in s.recursive ==> OnLoop(p, id))
    && (forall id :: id in s.recursive ==> id in s.finished || id in visited)
  }

  ghost predicate Settled(id: Id, s: State) {
    id in s.done && (id in s.recursive || id in s.finished)
  }

  ghost predicate Grows(s: State, t: State) {
    s.done <= t.done && s.recursive <= t.recursive && s.finished <= t.finished
  }

  lemma SettledStays(ids: set<Id>, s: State, t: State)
    requires Grows(s, t) && forall id :: id in ids ==> Settled(id, s)
    ensures forall id :: id in ids ==> Settled(id, t)
  {
    forall id | id in s.finished ensures id in t.finished {
      var k := Position(s.finished, id);
      assert t.finished[k] == id;
    }
  }

  /** The names from a visited one to the top of the stack form a loop. */
  lemma Marking(p: Program, id: Id, visited: seq<Id>, s: State)
    requires Good(p, visited, s) && id in visited && Edge(p, visited[|visited| - 1], id)
    ensures Good(p, visited, State(s.done + {id}, s.recursive + Elements(visited[Position(visited, id)..]), s.finished))
  {
    var loop := visited[Position(visited, id)..];
    assert loop[0] == id && loop[|loop| - 1] == visited[|visited| - 1];
    assert IsLoop(p, loop);
    forall v | v in Elements(loop) ensures OnLoop(p, v) {
      Rotate(p, loop, Position(loop, v));
    }
  }

  lemma Pushing(p: Program, id: Id, visited: seq<Id>, s: State)
    requires Good(p, visited, s) && id in p && id !in s.done && id !in visited
    requires visited != [] ==> Edge(p, visited[|visited| - 1], id)
    ensures Good(p, visited + [id], s)
  {
  }

  lemma Popping(p: Program, id: Id, visited: seq<Id>, s: State)
    requires Good(p, visited + [id], s)
    requires forall v :: v in Mentions(p[id]) ==> Settled(v, s)
    ensures Good(p, visited, State(s.done + {id}, s.recursive, s.finished + [id]))
  {
    var t := State(s.done + {id}, s.recursive, s.finished + [id]);
    assert (visited + [id])[|visited|] == id;
    assert Elements(visited + [id]) == Elements(visited) + {id};
    assert id in Elements(visited + [id]);
    forall i, v | 0 <= i < |t.finished| && Edge(p, t.finished[i], v)
      ensures v in t.recursive || v in t.finished[..i]
    {
      assert t.finished[..i] == s.finished[..i];
      if i < |s.finished| {
        assert Edge(p, s.finished[i], v);
      } else {
        assert s.finished[..i] == s.finished;
        assert Settled(v, s);
      }
    }
    assert Ordered(p, t);
    assert IsPath(p, visited) by {
      forall i | 0 <= i < |visited| - 1 ensures Edge(p, visited[i], visited[i + 1]) {
        assert (visited + [id])[i] == visited[i] && (visited + [id])[i + 1] == visited[i + 1];
      }
    }
    assert Unique(visited) && id !in visited by {
      forall i, j | 0 <= i < j < |visited| ensures visited[i] != visited[j] {
        assert (visited + [id])[i] == visited[i] && (visited + [id])[j] == visited[j];
      }
      forall i | 0 <= i < |visited| ensures visited[i] != id {
        assert (visited + [id])[i] == visited[i];
      }
    }
  }

  lemma {:induction false} ProcessKeeps(p: Program, id: Id, visited: seq<Id>, s: State)
    requires Closed(p) && id in p && Good(p, visited, s)
    requires visited != [] ==> Edge(p, visited[|visited| - 1], id)
    ensures var t := Process(p, id, visited, s); Good(p, visited, t) && Grows(s, t) && Settled(id, t)
    decreases Unvisited(p, visited), 0
  {
    if id in s.done {
    } else if id in visited {
      Marking(p, id, visited, s);
      assert visited[Position(visited, id)..][0] == id;
    } else {
      PushDecreases(p, visited, id);
      Pushing(p, id, visited, s);
      VisitKeeps(p, p[id], visited + [id], s);
      Popping(p, id, visited, Visit(p, p[id], visited + [id], s));
    }
  }

  lemma {:induction false} ProcessAllKeeps(p: Program, ids: seq<Id>, visited: seq<Id>, s: State)
    requires Closed(p) && Elements(ids) <= p.Keys && Good(p, visited, s)
    requires visited != [] ==> Elements(ids) <= Mentions(p[visited[|visited| - 1]])
    ensures var t := ProcessAll(p, ids, visited, s);
      Good(p, visited, t) && Grows(s, t) && forall id :: id in Elements(ids) ==> Settled(id, t)
    decreases Unvisited(p, visited), 1, ids
  {
    if ids != [] {
      var last := ids[|ids| - 1];
      var rest := ids[..|ids| - 1];
      assert last in Elements(ids);
      ProcessAllKeeps(p, rest, visited, s);
      var t := ProcessAll(p, rest, visited, s);
      var u := Process(p, last, visited, t);
      assert ProcessAll(p, ids, visited, s) == u;
      ProcessKeeps(p, last, visited, t);
      GrowsOn(s, t, u);
      SettledStays(Elements(rest), t, u);
      assert Elements(ids) == Elements(rest) + {last};
    }
  }

  lemma GrowsOn(s: State, t: State, u: State)
    requires Grows(s, t) && Grows(t, u)
    ensures Grows(s, u)
  {
  }

  lemma {:induction false} VisitKeeps(p: Program, e: Expr, visited: seq<Id>, s: State)
    requires Closed(p) && Good(p, visited, s)
    requires visited != [] && Mentions(e) <= Mentions(p[visited[|visited| - 1]])
    ensures Mentions(e) <= p.Keys
    ensures var t := Visit(p, e, visited, s);
      Good(p, visited, t) && Grows(s, t) && forall id :: id in Mentions(e) ==> Settled(id, t)
    decreases Unvisited(p, visited), 2, e
  {
    assert visited[|visited| - 1] in Elements(visited);
    match e
    case Ref(id) => ProcessKeeps(p, id, visited, s);
    case Scope(locals, value) =>
      ProcessAllKeeps(p, locals, visited, s);
      var t := ProcessAll(p, locals, visited, s);
      VisitKeeps(p, value, visited, t);
      SettledStays(Elements(locals), t, Visit(p, value, visited, t));
    case Node(children) => VisitAllKeeps(p, children, visited, s);
  }

  lemma {:induction false} VisitAllKeeps(p: Program, es: seq<Expr>, visited: seq<Id>, s: State)
    requires Closed(p) && Good(p, visited, s)
    requires visited != [] && MentionsAll(es) <= Mentions(p[visited[|visited| - 1]])
    ensures MentionsAll(es) <= p.Keys
    ensures var t := VisitAll(p, es, visited, s);
      Good(p, visited, t) && Grows(s, t) && forall id :: id in MentionsAll(es) ==> Settled(id, t)
    decreases Unvisited(p, visited), 2, es
  {
    assert visited[|visited| - 1] in Elements(visited);
    if es != [] {
      var last := es[|es| - 1];
      var rest := es[..|es| - 1];
      VisitAllKeeps(p, rest, visited, s);
      var t := VisitAll(p, rest, visited, s);
      VisitKeeps(p, last, visited, t);
      SettledStays(MentionsAll(rest), t, Visit(p, last, visited, t));
    }
  }

  // ---- What the marks are good for ----------------------------------------------------------

  const START := State({}, {}, [])

  ghost function Analysis(p: Program, ids: seq<Id>): State
    requires Closed(p) && Elements(ids) <= p.Keys
  {
    ProcessAll(p, ids, [], START)
  }

  lemma AnalysisIsGood(p: Program, ids: seq<Id>)
    requires Closed(p) && Elements(ids) <= p.Keys
    ensures Good(p, [], Analysis(p, ids))
    ensures forall id :: id in ids ==> id in Analysis(p, ids).finished
  {
    ProcessAllKeeps(p, ids, [], START);
    forall id | id in ids ensures id in Analysis(p, ids).finished {
      assert id in Elements(ids);
    }
  }

  /** Only members of loops are marked. */
  lemma MarkedAreRecursive(p: Program, ids: seq<Id>, id: Id)
    requires Closed(p) && Elements(ids) <= p.Keys
    requires id in Analysis(p, ids).recursive
    ensures OnLoop(p, id)
  {
    AnalysisIsGood(p, ids);
  }

  /** What is reachable from a finished name is finished once the stack is empty. */
  lemma {:induction false} PathStaysFinished(p: Program, s: State, path: seq<Id>)
    requires Good(p, [], s) && path != [] && IsPath(p, path) && path[0] in s.finished
    ensures forall i :: 0 <= i < |path| ==> path[i] in s.finished
  {
    if |path| > 1 {
      var k := Position(s.finished, path[0]);
      assert Edge(p, s.finished[k], path[1]);
      assert path[1] in s.finished[..k] ==> path[1] in s.finished;
      assert IsPath(p, path[1..]) by {
        forall i | 0 <= i < |path| - 2 ensures Edge(p, path[1..][i], path[1..][i + 1]) {
          assert path[1..][i] == path[i + 1] && path[1..][i + 1] == path[i + 2];
        }
      }
      PathStaysFinished(p, s, path[1..]);
      forall i | 0 < i < |path| ensures path[i] in s.finished {
        assert path[i] == path[1..][i - 1];
      }
    }
  }

  /** Along unmarked names, positions in the finishing order decrease. */
  lemma {:induction false} PositionsDecrease(p: Program, s: State, path: seq<Id>, k: nat)
    requires Ordered(p, s) && IsPath(p, path) && k < |path| && path[0] in s.finished
    requires forall i :: 0 <= i < |path| ==> path[i] !in s.recursive
    ensures path[k] in s.finished
    ensures k > 0 ==> Position(s.finished, path[k]) < Position(s.finished, path[0])
  {
    if k > 0 {
      PositionsDecrease(p, s, path, k - 1);
      var i := Position(s.finished, path[k - 1]);
      assert Edge(p, s.finished[i], path[k]);
      assert path[k] in s.finished[..i];
    }
  }

  lemma MarkOnLoop(p: Program, s: State, loop: seq<Id>)
    requires Ordered(p, s) && IsLoop(p, loop) && loop[0] in s.finished
    ensures exists i :: 0 <= i < |loop| && loop[i] in s.recursive
  {
    if forall i :: 0 <= i < |loop| ==> loop[i] !in s.recursive {
      var round := loop + [loop[0]];
      forall i | 0 <= i < |loop| ensures Edge(p, round[i], round[i + 1]) {
        if i < |loop| - 1 {
          assert round[i] == loop[i] && round[i + 1] == loop[i + 1];
        }
      }
      PositionsDecrease(p, s, round, |loop|);
    }
  }

  /** Every loop that can be reached from the processed names contains a marked name. */
  lemma EveryLoopIsMarked(p: Program, ids: seq<Id>, root: Id, loop: seq<Id>)
    requires Closed(p) && Elements(ids) <= p.Keys
    requires root in ids && IsLoop(p, loop) && Reaches(p, root, loop[0])
    ensures exists i :: 0 <= i < |loop| && loop[i] in Analysis(p, ids).recursive
  {
    AnalysisIsGood(p, ids);
    var path :| path != [] && IsPath(p, path) && path[0] == root && path[|path| - 1] == loop[0];
    PathStaysFinished(p, Analysis(p, ids), path);
    MarkOnLoop(p, Analysis(p, ids), loop);
  }

  /** The last name to finish, if nothing is unfinished, is marked if it is on a loop. */
  lemma LastIsMarked(p: Program, t: State, root: Id)
    requires Good(p, [], t) && t.finished != [] && t.finished[|t.finished| - 1] == root && OnLoop(p, root)
    ensures root in t.recursive
  {
    var loop :| IsLoop(p, loop) && loop[0] == root;
    PathStaysFinished(p, t, loop);
    var k := Position(t.finished, loop[|loop| - 1]);
    assert Edge(p, t.finished[k], root);
    LastIsNotBefore(t.finished, k);
  }

  lemma OneMoreRoot(p: Program, before: seq<Id>, root: Id)
    requires Closed(p) && Elements(before) <= p.Keys && root in p
    ensures Elements(before + [root]) <= p.Keys
    ensures Analysis(p, before + [root]) == Process(p, root, [], Analysis(p, before))
  {
    var ids := before + [root];
    assert ids[..|ids| - 1] == before;
    assert Elements(ids) == Elements(before) + {root};
  }

  /** A name at which the search starts afresh is marked if and only if it is on a loop: it finishes last. */
  lemma RootsAreExact(p: Program, before: seq<Id>, root: Id)
    requires Closed(p) && Elements(before) <= p.Keys && root in p
    requires root !in Analysis(p, before).done
    ensures Elements(before + [root]) <= p.Keys
    ensures root in Analysis(p, before + [root]).recursive <==> OnLoop(p, root)
  {
    OneMoreRoot(p, before, root);
    AnalysisIsGood(p, before);
    AnalysisIsGood(p, before + [root]);
    var t := Analysis(p, before + [root]);
    assert t.finished != [] && t.finished[|t.finished| - 1] == root;
    if OnLoop(p, root) {
      LastIsMarked(p, t, root);
    }
  }

  lemma LastIsNotBefore(ids: seq<Id>, k: nat)
    requires Unique(ids) && k < |ids|
    ensures ids[|ids| - 1] !in ids[..k]
  {
  }

  /** Other members of a loop may stay unmarked: of 0 = (1, 2), 1 = 0, 2 = 0, the last mention of 0 is
      skipped because 0 is already done, and 2 is not marked. */
  lemma MembersMayStayUnmarked()
    ensures Closed(EXAMPLE) && OnLoop(EXAMPLE, 2)
    ensures Analysis(EXAMPLE, [0]).done == {0, 1, 2} && Analysis(EXAMPLE, [0]).recursive == {0, 1}
  {
    ExampleMentions();
    assert Edge(EXAMPLE, 2, 0) && Edge(EXAMPLE, 0, 2);
    assert IsLoop(EXAMPLE, [2, 0]);
    ExampleFirstChild();
    ExampleSecondChild();
    assert [] + [0] == [0] && [0][..0] == [];
    assert Visit(EXAMPLE, EXAMPLE[0], [0], START) == VisitAll(EXAMPLE, BOTH, [0], START);
    assert Process(EXAMPLE, 0, [], START) == State({0, 1, 2}, {0, 1}, [1, 2, 0]);
    assert ProcessAll(EXAMPLE, [0][..0], [], START) == START;
    assert ProcessAll(EXAMPLE, [0], [], START) == Process(EXAMPLE, 0, [], START);
  }

  const BOTH: seq<Expr> := [Ref(1), Ref(2)]
  const EXAMPLE: Program := map[0 := Node(BOTH), 1 := Ref(0), 2 := Ref(0)]
  const AFTER_FIRST := State({0, 1}, {0, 1}, [1])

  lemma ExampleMentions()
    ensures Closed(EXAMPLE) && MentionsAll(BOTH) == Mentions(EXAMPLE[0]) == {1, 2} && MentionsAll([Ref(1)]) == {1}
    ensures BOTH[..1] == [Ref(1)] && [Ref(1)][..0] == []
  {
    assert BOTH[..1] == [Ref(1)] && [Ref(1)][..0] == [];
    assert MentionsAll([]) == {};
    assert MentionsAll([Ref(1)]) == {1};
  }

  lemma ExampleFirstChild()
    requires Closed(EXAMPLE) && MentionsAll([Ref(1)]) == {1}
    ensures VisitAll(EXAMPLE, [Ref(1)], [0], START) == AFTER_FIRST
  {
    assert [0] + [1] == [0, 1] && [Ref(1)][..0] == [];
    assert Position([0, 1], 0) == 0;
    assert Process(EXAMPLE, 0, [0, 1], START) == State({0}, {0, 1}, []);
    assert Visit(EXAMPLE, Ref(0), [0, 1], START) == State({0}, {0, 1}, []);
    assert Process(EXAMPLE, 1, [0], START) == AFTER_FIRST;
    assert VisitAll(EXAMPLE, [], [0], START) == START;
  }

  lemma ExampleSecondChild()
    requires Closed(EXAMPLE) && MentionsAll(BOTH) == {1, 2} && MentionsAll([Ref(1)]) == {1}
    requires BOTH[..1] == [Ref(1)] && VisitAll(EXAMPLE, [Ref(1)], [0], START) == AFTER_FIRST
    ensures VisitAll(EXAMPLE, BOTH, [0], START) == State({0, 1, 2}, {0, 1}, [1, 2])
  {
    assert [0] + [2] == [0, 2];
    assert Process(EXAMPLE, 0, [0, 2], AFTER_FIRST) == AFTER_FIRST;
    assert Visit(EXAMPLE, Ref(0), [0, 2], AFTER_FIRST) == AFTER_FIRST;
    assert Process(EXAMPLE, 2, [0], AFTER_FIRST) == State({0, 1, 2}, {0, 1}, [1, 2]);
  }

  // ---- The pass -----------------------------------------------------------------------------

  class Analyzer {
    const program: Program
    var visitedIds: seq<Id>
    var doneIds: set<Id>
    var recursive: set<Id>
    ghost var finished: seq<Id>

    ghost function Now(): State
      reads this
    {
      State(doneIds, recursive, finished)
    }

    constructor (p: Program)
      requires Closed(p)
      ensures program == p && visitedIds == [] && Now() == START
    {
      program := p;
      visitedIds, doneIds, recursive, finished := [], {}, {}, [];
    }

    method ProcessIds(ids: seq<Id>)
      requires Closed(program) && Elements(ids) <= program.Keys
      modifies this
      ensures visitedIds == old(visitedIds)
      ensures Now() == ProcessAll(program, ids, visitedIds, old(Now()))
      decreases Unvisited(program, visitedIds), 1
    {
      for i := 0 to |ids|
        invariant visitedIds == old(visitedIds)
        invariant Elements(ids[..i]) <= Elements(ids)
        invariant Now() == ProcessAll(program, ids[..i], visitedIds, old(Now()))
      {
        assert ids[..i + 1][..i] == ids[..i];
        assert ids[i] in Elements(ids);
        ProcessId(ids[i]);
      }
      assert ids[..|ids|] == ids;
    }

    method ProcessId(start: Id)
      requires Closed(program) && start in program
      modifies this
      ensures visitedIds == old(visitedIds)
      ensures Now() == Process(program, start, visitedIds, old(Now()))
      decreases Unvisited(program, visitedIds), 0
    {
      if start in doneIds {
        return;
      }
      if start in visitedIds {
        MarkFrom(start);
      } else {
        VisitDefinition(start);
      }
      doneIds := doneIds + {start};
    }

    method MarkFrom(start: Id)
      requires start in visitedIds
      modifies this`recursive
      ensures recursive == old(recursive) + Elements(visitedIds[Position(visitedIds, start)..])
    {
      var i := Find(visitedIds, start);
      ghost var from := i;
      while i < |visitedIds|
        invariant from <= i <= |visitedIds|
        invariant recursive == old(recursive) + Elements(visitedIds[from..i])
      {
        assert visitedIds[from..i + 1] == visitedIds[from..i] + [visitedIds[i]];
        recursive := recursive + {visitedIds[i]};
        i := i + 1;
      }
      assert visitedIds[from..i] == visitedIds[from..];
    }

    method VisitDefinition(start: Id)
      requires Closed(program) && start in program && start !in visitedIds
      modifies this
      ensures visitedIds == old(visitedIds)
      ensures var t := Visit(program, program[start], visitedIds + [start], old(Now()));
        Now() == State(t.done, t.recursive, t.finished + [start])
      decreases Unvisited(program, visitedIds), 0, 0
    {
      PushDecreases(program, visitedIds, start);
      visitedIds := visitedIds + [start];
      VisitExpr(program[start]);
      visitedIds := visitedIds[..|visitedIds| - 1];
      finished := finished + [start];
    }

    method VisitExpr(e: Expr)
      requires Closed(program) && Mentions(e) <= program.Keys
      modifies this
      ensures visitedIds == old(visitedIds)
      ensures Now() == Visit(program, e, visitedIds, old(Now()))
      decreases Unvisited(program, visitedIds), 2, e
    {
      match e
      case Ref(id) => ProcessId(id);
      case Scope(locals, value) =>
        ProcessIds(locals);
        VisitExpr(value);
      case Node(children) =>
        VisitChildren(children);
    }

    method VisitChildren(children: seq<Expr>)
      requires Closed(program) && MentionsAll(children) <= program.Keys
      modifies this
      ensures visitedIds == old(visitedIds)
      ensures Now() == VisitAll(program, children, visitedIds, old(Now()))
      decreases Unvisited(program, visitedIds), 2, children
    {
      for i := 0 to |children|
        invariant visitedIds == old(visitedIds)
        invariant MentionsAll(children[..i]) <= program.Keys
        invariant Now() == VisitAll(program, children[..i], visitedIds, old(Now()))
      {
        MentionsPrefix(children, i + 1);
        assert children[..i + 1][..i] == children[..i];
        VisitExpr(children[i]);
      }
      assert children[..|children|] == children;
    }
  }

  lemma {:induction false} MentionsPrefix(es: seq<Expr>, n: nat)
    requires n <= |es|
    ensures MentionsAll(es[..n]) <= MentionsAll(es)
    decreases |es| - n
  {
    if n < |es| {
      assert es[..n + 1][..n] == es[..n];
      MentionsPrefix(es, n + 1);
    } else {
      assert es[..n] == es;
    }
  }

  method Find(ids: seq<Id>, id: Id) returns (k: nat)
    requires id in ids
    ensures k == Position(ids, id)
  {
    k := 0;
    while ids[k] != id
      invariant k <= Position(ids, id)
      decreases |ids| - k
    {
      k := k + 1;
    }
    FirstPosition(ids, id, k);
  }

  lemma FirstPosition(ids: seq<Id>, id: Id, k: nat)
    requires k < |ids| && ids[k] == id && k <= Position(ids, id)
    ensures k == Position(ids, id)
  {
  }

  // ---- Flattening through unmarked names (frontend/linear_expr_gen.cpp) ---------------------

  /** Replace unmarked names by their definitions; None where a marked name or a scope is met. */
  function Flatten(p: Program, s: State, e: Expr, bound: nat): (r: Option<Expr>)
    requires Ordered(p, s) && bound <= |s.finished| && Elements(s.finished) <= p.Keys
    requires forall id :: id in Mentions(e) ==> id in s.recursive || id in s.finished[..bound]
    ensures r.Some? ==> Mentions(r.value) == {}
    decreases bound, e
  {
    match e
    case Ref(id) =>
      if id in s.recursive then None
      else
        var k := Position(s.finished[..bound], id);
        assert s.finished[k] == id && id in Elements(s.finished);
        assert forall v :: v in Mentions(p[id]) ==> Edge(p, s.finished[k], v);
        Flatten(p, s, p[id], k)
    case Scope(_, _) => None
    case Node(children) =>
      match FlattenAll(p, s, children, bound)
      case None => None
      case Some(es) => Some(Node(es))
  }

  function FlattenAll(p: Program, s: State, es: seq<Expr>, bound: nat): (r: Option<seq<Expr>>)
    requires Ordered(p, s) && bound <= |s.finished| && Elements(s.finished) <= p.Keys
    requires forall id :: id in MentionsAll(es) ==> id in s.recursive || id in s.finished[..bound]
    ensures r.Some? ==> MentionsAll(r.value) == {} && |r.value| == |es|
    decreases bound, es
  {
    if es == [] then Some([])
    else
      match (FlattenAll(p, s, es[..|es| - 1], bound), Flatten(p, s, es[|es| - 1], bound))
      case (Some(rest), Some(last)) => assert (rest + [last])[..|rest|] == rest; Some(rest + [last])
      case _ => None
  }

  // ---- When flattening succeeds, and what it gives ------------------------------------------

  predicate HasScope(e: Expr) {
    match e
    case Ref(_) => false
    case Scope(_, _) => true
    case Node(children) => AnyScope(children)
  }

  predicate AnyScope(es: seq<Expr>) {
    es != [] && (AnyScope(es[..|es| - 1]) || HasScope(es[|es| - 1]))
  }

  /** A chain of references from one of the names, through unmarked ones. */
  ghost predicate Follows(p: Program, s: State, ids: set<Id>, path: seq<Id>) {
    && path != [] && path[0] in ids && IsPath(p, path)
    && forall i :: 0 <= i < |path| - 1 ==> path[i] !in s.recursive
  }

  ghost predicate Plain(p: Program, s: State, id: Id) {
    id !in s.recursive && (id in p ==> !HasScope(p[id]))
  }

  /** Every name met on the way is unmarked, and its definition has no scope. */
  ghost predicate AllPlain(p: Program, s: State, ids: set<Id>) {
    forall path :: Follows(p, s, ids, path) ==> Plain(p, s, path[|path| - 1])
  }

  lemma PlainInBoth(p: Program, s: State, a: set<Id>, b: set<Id>)
    ensures AllPlain(p, s, a + b) <==> AllPlain(p, s, a) && AllPlain(p, s, b)
  {
    forall path ensures Follows(p, s, a + b, path) <==> Follows(p, s, a, path) || Follows(p, s, b, path) {
    }
  }

  lemma PlainThroughName(p: Program, s: State, id: Id)
    requires id in p
    ensures AllPlain(p, s, {id}) <==> Plain(p, s, id) && AllPlain(p, s, Mentions(p[id]))
  {
    if AllPlain(p, s, {id}) {
      assert Follows(p, s, {id}, [id]);
      forall path | Follows(p, s, Mentions(p[id]), path) ensures Plain(p, s, path[|path| - 1]) {
        var longer := [id] + path;
        assert longer[|longer| - 1] == path[|path| - 1];
        forall i | 0 <= i < |path| ensures Edge(p, longer[i], longer[i + 1]) && longer[i] !in s.recursive {
          assert i > 0 ==> longer[i] == path[i - 1] && longer[i + 1] == path[i - 1 + 1];
        }
        assert Follows(p, s, {id}, longer);
      }
    } else if Plain(p, s, id) {
      var path :| Follows(p, s, {id}, path) && !Plain(p, s, path[|path| - 1]);
      var rest := path[1..];
      assert rest[|rest| - 1] == path[|path| - 1];
      forall i | 0 <= i < |rest| - 1 ensures Edge(p, rest[i], rest[i + 1]) && rest[i] !in s.recursive {
        assert rest[i] == path[i + 1] && rest[i + 1] == path[i + 1 + 1];
      }
      assert Edge(p, path[0], path[0 + 1]);
      assert Follows(p, s, Mentions(p[id]), rest);
    }
  }

  /** Flattening succeeds exactly when no scope and no marked name is met. */
  lemma {:induction false} FlattenSucceeds(p: Program, s: State, e: Expr, bound: nat)
    requires Ordered(p, s) && bound <= |s.finished| && Elements(s.finished) <= p.Keys
    requires forall id :: id in Mentions(e) ==> id in s.recursive || id in s.finished[..bound]
    ensures Flatten(p, s, e, bound).Some? <==> !HasScope(e) && AllPlain(p, s, Mentions(e))
    decreases bound, e
  {
    match e
    case Ref(id) =>
      if id in s.recursive {
        assert Follows(p, s, {id}, [id]) && !Plain(p, s, id);
      } else {
        var k := Position(s.finished[..bound], id);
        assert s.finished[k] == id && id in Elements(s.finished);
        assert forall v :: v in Mentions(p[id]) ==> Edge(p, s.finished[k], v);
        FlattenSucceeds(p, s, p[id], k);
        PlainThroughName(p, s, id);
      }
    case Scope(_, _) =>
    case Node(children) => FlattenAllSucceeds(p, s, children, bound);
  }

  lemma {:induction false} FlattenAllSucceeds(p: Program, s: State, es: seq<Expr>, bound: nat)
    requires Ordered(p, s) && bound <= |s.finished| && Elements(s.finished) <= p.Keys
    requires forall id :: id in MentionsAll(es) ==> id in s.recursive || id in s.finished[..bound]
    ensures FlattenAll(p, s, es, bound).Some? <==> !AnyScope(es) && AllPlain(p, s, MentionsAll(es))
    decreases bound, es
  {
    if es != [] {
      var rest, last := es[..|es| - 1], es[|es| - 1];
      FlattenAllSucceeds(p, s, rest, bound);
      FlattenSucceeds(p, s, last, bound);
      PlainInBoth(p, s, MentionsAll(rest), Mentions(last));
    }
  }

  /** The definitions put in place of names, to the given depth. */
  function Expanded(p: Program, e: Expr, depth: nat): Expr
    decreases depth, e
  {
    match e
    case Ref(id) => if depth > 0 && id in p then Expanded(p, p[id], depth - 1) else e
    case Scope(_, _) => e
    case Node(children) => Node(ExpandedAll(p, children, depth))
  }

  function ExpandedAll(p: Program, es: seq<Expr>, depth: nat): (r: seq<Expr>)
    ensures |r| == |es|
    decreases depth, es
  {
    if es == [] then [] else ExpandedAll(p, es[..|es| - 1], depth) + [Expanded(p, es[|es| - 1], depth)]
  }

  /** Once no name is left, more depth changes nothing. */
  lemma {:induction false} ExpandedFully(p: Program, e: Expr, n: nat, m: nat)
    requires n <= m && Mentions(Expanded(p, e, n)) == {}
    ensures Expanded(p, e, m) == Expanded(p, e, n)
    decreases n, e
  {
    match e
    case Ref(id) =>
      if n > 0 && id in p {
        ExpandedFully(p, p[id], n - 1, m - 1);
      }
    case Scope(_, _) =>
    case Node(children) => AllExpandedFully(p, children, n, m);
  }

  lemma {:induction false} AllExpandedFully(p: Program, es: seq<Expr>, n: nat, m: nat)
    requires n <= m && MentionsAll(ExpandedAll(p, es, n)) == {}
    ensures ExpandedAll(p, es, m) == ExpandedAll(p, es, n)
    decreases n, es
  {
    if es != [] {
      var rest, last := es[..|es| - 1], es[|es| - 1];
      var r := ExpandedAll(p, es, n);
      assert r[..|r| - 1] == ExpandedAll(p, rest, n) && r[|r| - 1] == Expanded(p, last, n);
      AllExpandedFully(p, rest, n, m);
      ExpandedFully(p, last, n, m);
    }
  }

  /** What flattening gives is the expression with all definitions in place. */
  lemma {:induction false} FlattenIsExpansion(p: Program, s: State, e: Expr, bound: nat)
    requires Ordered(p, s) && bound <= |s.finished| && Elements(s.finished) <= p.Keys
    requires forall id :: id in Mentions(e) ==> id in s.recursive || id in s.finished[..bound]
    requires Flatten(p, s, e, bound).Some?
    ensures Flatten(p, s, e, bound).value == Expanded(p, e, bound)
    decreases bound, e
  {
    match e
    case Ref(id) =>
      var k := Position(s.finished[..bound], id);
      assert s.finished[k] == id && id in Elements(s.finished);
      assert forall v :: v in Mentions(p[id]) ==> Edge(p, s.finished[k], v);
      FlattenIsExpansion(p, s, p[id], k);
      ExpandedFully(p, p[id], k, bound - 1);
    case Node(children) => FlattenAllIsExpansion(p, s, children, bound);
  }

  lemma {:induction false} FlattenAllIsExpansion(p: Program, s: State, es: seq<Expr>, bound: nat)
    requires Ordered(p, s) && bound <= |s.finished| && Elements(s.finished) <= p.Keys
    requires forall id :: id in MentionsAll(es) ==> id in s.recursive || id in s.finished[..bound]
    requires FlattenAll(p, s, es, bound).Some?
    ensures FlattenAll(p, s, es, bound).value == ExpandedAll(p, es, bound)
    decreases bound, es
  {
    if es != [] {
      FlattenAllIsExpansion(p, s, es[..|es| - 1], bound);
      FlattenIsExpansion(p, s, es[|es| - 1], bound);
    }
  }
}
