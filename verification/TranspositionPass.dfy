/** frontend/array_transpose.cpp: the pass itself, and the accesses it misses. */
module TranspositionPass {
  import opened Options
  import opened ArrayPrograms
  import opened Transposition

  // ---- The pass -----------------------------------------------------------------------------

  /** q is what the pass leaves of p: arrays rearranged, accesses rewritten where the visitor goes. */
  ghost predicate IsProcessed(t: Orders, p: Program, q: Program) {
    && q.Keys == p.Keys
    && forall id :: id in p ==> q[id] == MoveDef(t, id, p[id], Rewritten(t, id, BodyOf(p[id])))
  }

  ghost function Streams(p: Program): set<Id> {
    set id | id in p && !Finite(SizeOf(p[id]))
  }

  /** A name with an unbounded dimension is only mentioned with arguments; scalars and finite arrays may be
      mentioned without. */
  predicate ProperExpr(streams: set<Id>, current: Id, e: Expr) {
    match e
    case Const(_) => true
    case Bool(_) => true
    case Var(_) => true
    case Prim(_, operands) => forall i :: 0 <= i < |operands| ==> ProperExpr(streams, current, operands[i])
    case Case(cases) =>
      forall i :: 0 <= i < |cases| ==>
        ProperExpr(streams, current, cases[i].guard) && ProperExpr(streams, current, cases[i].value)
    case App(target, args) =>
      && (Target(target, current) in streams ==> |args| > 0)
      && forall i :: 0 <= i < |args| ==> ProperExpr(streams, current, args[i])
  }

  ghost predicate ProperProgram(p: Program) {
    forall id :: id in p ==> WellFormedDef(p[id]) && ProperExpr(Streams(p), id, BodyOf(p[id]))
  }

  /** The pass does not throw. */
  ghost predicate Processable(t: Orders, p: Program) {
    OrdersOf(t, p) && forall id :: id in p ==> VarsMovable(t, id, p[id]) && Accepted(t, id, BodyOf(p[id]))
  }

  /** The pass preserves the meaning of every program in which no argument of an application itself
      contains an access that has to be rearranged. */
  lemma PassPreservesMeaning(t: Orders, p: Program, q: Program, w: World, u: World, depth: nat, id: Id, index: seq<int>)
    requires ProperProgram(p) && Processable(t, p) && IsProcessed(t, p, q) && SameWorld(t, p, w, u)
    requires forall i :: i in p ==> ArgsSettled(t, i, BodyOf(p[i]))
    ensures Element(u, q, depth, id, MoveIndex(t, id, index)) == Element(w, p, depth, id, index)
  {
    forall i | i in p
      ensures q[i] == MoveDef(t, i, p[i], Transposed(t, i, BodyOf(p[i]))) && AcceptedDeep(t, i, BodyOf(p[i]))
    {
      RewritingIsComplete(t, i, BodyOf(p[i]));
    }
    TranspositionPreservesMeaning(t, p, q, w, u, depth);
    assert ElementKept(t, p, q, w, u, depth, id, index);
  }

  lemma StreamIsUnique(size: seq<int>, s: nat, r: nat)
    requires StreamsAt(size, s) && StreamsAt(size, r)
    ensures s == r
  {
  }

  lemma OrderIsUnique(t: Orders, u: Orders, p: Program, id: Id)
    requires OrdersOf(t, p) && OrdersOf(u, p) && id in t
    ensures id in u && t[id] == u[id]
  {
    var s :| StreamsAt(SizeOf(p[id]), s) && t[id] == StreamFirst(|SizeOf(p[id])|, s);
    assert !Finite(SizeOf(p[id]));
    var r :| StreamsAt(SizeOf(p[id]), r) && u[id] == StreamFirst(|SizeOf(p[id])|, r);
    StreamIsUnique(SizeOf(p[id]), s, r);
  }

  lemma OrdersAreUnique(t: Orders, u: Orders, p: Program)
    requires OrdersOf(t, p) && OrdersOf(u, p)
    ensures t == u
  {
    forall id | id in t ensures id in u && t[id] == u[id] {
      OrderIsUnique(t, u, p, id);
    }
    forall id | id in u ensures id in t {
      OrderIsUnique(u, t, p, id);
    }
  }

  /** One definition can be transposed: at most one unbounded dimension, and nothing implicit that
      would have to move. */
  ghost predicate Transposable(def: Def) {
    || Finite(SizeOf(def))
    || exists s :: StreamsAt(SizeOf(def), s) &&
         var order := StreamFirst(|SizeOf(def)|, s);
         match def
         case Array(vars, _, _) => Closed(order, |vars|)
         case External(_) => true
         case _ => false
  }

  lemma ProcessableIsTransposable(t: Orders, p: Program, id: Id)
    requires Processable(t, p) && id in p
    ensures Transposable(p[id])
  {
    assert VarsMovable(t, id, p[id]);
    if id in t {
      var s :| StreamsAt(SizeOf(p[id]), s) && t[id] == StreamFirst(|SizeOf(p[id])|, s);
    }
  }

  // ---- When the pass succeeds, in the program's own terms -----------------------------------

  /** An array of this size may be mentioned with m arguments: those for the unbounded dimension and all
      before it are there. */
  ghost predicate ReachesStream(size: seq<int>, m: nat) {
    forall s: nat :: StreamsAt(size, s) ==> s < m <= |size|
  }

  /** So are all applications, except those inside arguments, which the visitor does not reach. */
  ghost predicate ArgsReachStreams(p: Program, current: Id, e: Expr) {
    match e
    case Const(_) => true
    case Bool(_) => true
    case Var(_) => true
    case Prim(_, operands) => forall i :: 0 <= i < |operands| ==> ArgsReachStreams(p, current, operands[i])
    case Case(cases) =>
      forall i :: 0 <= i < |cases| ==>
        ArgsReachStreams(p, current, cases[i].guard) && ArgsReachStreams(p, current, cases[i].value)
    case App(target, args) =>
      Target(target, current) in p ==> ReachesStream(SizeOf(p[Target(target, current)]), |args|)
  }

  /** At most one dimension is unbounded, and then the array is an external one or has a variable for it. */
  ghost predicate OneStream(def: Def) {
    || Finite(SizeOf(def))
    || exists s: nat :: StreamsAt(SizeOf(def), s) && (def.External? || (def.Array? && s < |def.vars|))
  }

  ghost predicate StreamsAreReached(p: Program) {
    forall id :: id in p ==> OneStream(p[id]) && ArgsReachStreams(p, id, BodyOf(p[id]))
  }

  /** With the stream at dimension s of n, the visitor accepts m arguments exactly if s < m <= n. */
  lemma ArgsAreAccepted(t: Orders, current: Id, target: Object, args: seq<Expr>, n: nat, s: nat)
    requires Target(target, current) in t && s < n && t[Target(target, current)] == StreamFirst(n, s)
    ensures Accepted(t, current, App(target, args)) <==> s < |args| <= n
  {
    if 0 < |args| <= n {
      PartialIsClosed(n, s, |args|);
    }
  }

  lemma {:induction false} AcceptedExactly(t: Orders, p: Program, current: Id, e: Expr)
    requires OrdersOf(t, p)
    ensures Accepted(t, current, e) <==> ArgsReachStreams(p, current, e)
  {
    match e
    case Const(_) =>
    case Bool(_) =>
    case Var(_) =>
    case Prim(_, operands) =>
      forall i | 0 <= i < |operands| ensures Accepted(t, current, operands[i]) <==> ArgsReachStreams(p, current, operands[i]) {
        AcceptedExactly(t, p, current, operands[i]);
      }
    case Case(cases) =>
      forall i | 0 <= i < |cases|
        ensures Accepted(t, current, cases[i].guard) <==> ArgsReachStreams(p, current, cases[i].guard)
        ensures Accepted(t, current, cases[i].value) <==> ArgsReachStreams(p, current, cases[i].value)
      {
        AcceptedExactly(t, p, current, cases[i].guard);
        AcceptedExactly(t, p, current, cases[i].value);
      }
    case App(target, args) =>
      ApplicationExactly(t, p, current, target, args);
  }

  lemma ApplicationExactly(t: Orders, p: Program, current: Id, target: Object, args: seq<Expr>)
    requires OrdersOf(t, p)
    ensures Accepted(t, current, App(target, args)) <==> ArgsReachStreams(p, current, App(target, args))
  {
    var id := Target(target, current);
    if id in t {
      var size := SizeOf(p[id]);
      var s: nat :| StreamsAt(size, s) && t[id] == StreamFirst(|size|, s);
      ArgsAreAccepted(t, current, target, args, |size|, s);
      assert ReachesStream(size, |args|) <==> s < |args| <= |size| by {
        forall r: nat | StreamsAt(size, r) ensures r == s {
          StreamIsUnique(size, s, r);
        }
      }
    } else if id in p {
      assert Finite(SizeOf(p[id]));
    }
  }

  lemma VarsExactly(t: Orders, p: Program, id: Id)
    requires OrdersOf(t, p) && id in p && WellFormedDef(p[id])
    ensures VarsMovable(t, id, p[id]) <==> OneStream(p[id])
  {
    if id in t {
      var size := SizeOf(p[id]);
      var s: nat :| StreamsAt(size, s) && t[id] == StreamFirst(|size|, s);
      forall r: nat | StreamsAt(size, r) ensures r == s {
        StreamIsUnique(size, s, r);
      }
      if p[id].Array? {
        PartialIsClosed(|size|, s, |p[id].vars|);
      }
    }
  }

  /** The orders of a program in which each definition has one stream at most. */
  lemma OrdersExist(p: Program) returns (t: Orders)
    requires forall id :: id in p ==> OneStream(p[id])
    ensures OrdersOf(t, p)
  {
    t := map id | id in p && !Finite(SizeOf(p[id])) :: StreamFirst(|SizeOf(p[id])|, StreamOf(p[id]));
  }

  ghost function StreamOf(def: Def): (s: nat)
    requires OneStream(def) && !Finite(SizeOf(def))
    ensures StreamsAt(SizeOf(def), s) && (def.External? || (def.Array? && s < |def.vars|))
  {
    var s: nat :| StreamsAt(SizeOf(def), s) && (def.External? || (def.Array? && s < |def.vars|));
    s
  }

  lemma ProcessableExactly(p: Program)
    requires forall id :: id in p ==> WellFormedDef(p[id])
    ensures (exists t :: Processable(t, p)) <==> StreamsAreReached(p)
  {
    if t :| Processable(t, p) {
      OrdersReached(t, p);
    }
    if StreamsAreReached(p) {
      var t := OrdersExist(p);
      OrdersReached(t, p);
    }
  }

  lemma OrdersReached(t: Orders, p: Program)
    requires OrdersOf(t, p) && forall id :: id in p ==> WellFormedDef(p[id])
    ensures Processable(t, p) <==> StreamsAreReached(p)
  {
    forall id | id in p
      ensures VarsMovable(t, id, p[id]) <==> OneStream(p[id])
      ensures Accepted(t, id, BodyOf(p[id])) <==> ArgsReachStreams(p, id, BodyOf(p[id]))
    {
      VarsExactly(t, p, id);
      AcceptedExactly(t, p, id, BodyOf(p[id]));
    }
  }

  ghost predicate MovedDef(t: Orders, id: Id, def: Def, moved: Def) {
    && moved == MoveDef(t, id, def, BodyOf(def))
    && VarsMovable(t, id, def)
    && if id in t then
         && (def.Array? || def.External?)
         && exists s :: StreamsAt(SizeOf(def), s) && t[id] == StreamFirst(|SizeOf(def)|, s)
       else
         Finite(SizeOf(def))
  }

  /** The first phase, with the definitions in `done` transposed. */
  ghost predicate Moved(t: Orders, p: Program, q: Program, done: set<Id>) {
    && done <= p.Keys == q.Keys && t.Keys <= done
    && forall id :: id in p ==> if id in done then MovedDef(t, id, p[id], q[id]) else q[id] == p[id]
  }

  function SetBody(def: Def, body: Expr): Def {
    match def
    case Array(vars, size, _) => Array(vars, size, body)
    case External(size) => External(size)
    case Other(size, _) => Other(size, body)
    case Scalar(_) => Scalar(body)
    case Joined(_, _, _) => def
  }

  class ArrayTransposer {
    var program: Program
    var transpositions: Orders

    /** Rewriting the accesses of one expression. */
    method Visit(current: Id, e: Expr) returns (ok: bool, r: Expr)
      requires ProperExpr(transpositions.Keys, current, e)
      ensures ok <==> Accepted(transpositions, current, e)
      ensures ok ==> r == Rewritten(transpositions, current, e)
      decreases e
    {
      ok, r := true, e;
      match e {
        case Const(_) =>
        case Bool(_) =>
        case Var(_) =>
        case Prim(op, operands) =>
          var visited: seq<Expr> := [];
          for i := 0 to |operands|
            invariant |visited| == i
            invariant forall k :: 0 <= k < i ==>
              Accepted(transpositions, current, operands[k]) && visited[k] == Rewritten(transpositions, current, operands[k])
          {
            var x;
            ok, x := Visit(current, operands[i]);
            if !ok {
              return;
            }
            visited := visited + [x];
          }
          ok, r := true, Prim(op, visited);
        case Case(cases) =>
          var visited: seq<Branch> := [];
          for i := 0 to |cases|
            invariant |visited| == i
            invariant forall k :: 0 <= k < i ==>
              && Accepted(transpositions, current, cases[k].guard) && Accepted(transpositions, current, cases[k].value)
              && visited[k] == Branch(Rewritten(transpositions, current, cases[k].guard), Rewritten(transpositions, current, cases[k].value))
          {
            var g, v;
            ok, g := Visit(current, cases[i].guard);
            if !ok {
              return;
            }
            ok, v := Visit(current, cases[i].value);
            if !ok {
              return;
            }
            visited := visited + [Branch(g, v)];
          }
          ok, r := true, Case(visited);
        case App(target, args) =>
          var id := Target(target, current);
          if id !in transpositions {
            return;
          }
          if |args| > |transpositions[id]| {
            ok := false;
            return;
          }
          var moved;
          ok, moved := Rearrange(transpositions[id], args);
          r := App(target, moved);
      }
    }

    /** transpose_array: one array's variables and sizes. */
    method TransposeArray(id: Id) returns (ok: bool)
      requires id in program && WellFormedDef(program[id]) && id !in transpositions
      modifies this
      ensures ok <==> Transposable(old(program[id]))
      ensures ok ==> OneMoved(old(transpositions), transpositions, old(program), program, id)
    {
      var def := program[id];
      if def.Scalar? {
        return true;
      }
      var size := SizeOf(def);
      var streaming, order;
      ok, streaming, order := TransposeOrder(size);
      if !ok || !streaming {
        return;
      }
      ghost var s :| StreamsAt(size, s) && order == StreamFirst(|size|, s);
      forall s' | StreamsAt(size, s') ensures s' == s {
      }
      match def {
        case Array(vars, _, body) =>
          var ordered, sizes, closed;
          ok, ordered := Rearrange(order, vars);
          if !ok {
            return;
          }
          closed, sizes := Rearrange(order, size);
          program := program[id := Array(ordered, sizes, body)];
        case External(_) =>
          var sizes, closed;
          closed, sizes := Rearrange(order, size);
          program := program[id := External(sizes)];
        case _ =>
          ok := false;
          return;
      }
      transpositions := transpositions[id := order];
    }

    method TransposeArrays() returns (ok: bool)
      requires ProperProgram(program) && transpositions == map[]
      modifies this
      ensures ok <==> forall id :: id in old(program) ==> Transposable(old(program)[id])
      ensures ok ==> Moved(transpositions, old(program), program, old(program).Keys)
    {
      ghost var p := program;
      var remaining := program.Keys;
      while remaining != {}
        invariant remaining <= p.Keys
        invariant Moved(transpositions, p, program, p.Keys - remaining)
        invariant forall id :: id in p && id !in remaining ==> Transposable(p[id])
        decreases |remaining|
      {
        var id :| id in remaining;
        ghost var t, q, done := transpositions, program, p.Keys - remaining;
        assert program[id] == p[id];
        ok := TransposeArray(id);
        if !ok {
          return;
        }
        MovedOneMore(t, transpositions, p, q, program, done, id);
        remaining := remaining - {id};
        assert p.Keys - remaining == done + {id};
      }
      assert p.Keys - {} == p.Keys;
      ok := true;
    }

    method TransposeAccesses() returns (ok: bool)
      requires forall id :: id in program ==> ProperExpr(transpositions.Keys, id, BodyOf(program[id]))
      modifies `program
      ensures ok <==> forall id :: id in old(program) ==> Accepted(transpositions, id, BodyOf(old(program)[id]))
      ensures ok ==> program.Keys == old(program).Keys
      ensures ok ==> forall id :: id in old(program) ==>
        program[id] == SetBody(old(program)[id], Rewritten(transpositions, id, BodyOf(old(program)[id])))
    {
      ghost var p := program;
      var remaining := program.Keys;
      while remaining != {}
        invariant remaining <= p.Keys == program.Keys
        invariant forall id :: id in remaining ==> program[id] == p[id]
        invariant forall id :: id in p && id !in remaining ==>
          && Accepted(transpositions, id, BodyOf(p[id]))
          && program[id] == SetBody(p[id], Rewritten(transpositions, id, BodyOf(p[id])))
        decreases |remaining|
      {
        var id :| id in remaining;
        var body;
        ok, body := Visit(id, BodyOf(program[id]));
        if !ok {
          return;
        }
        program := program[id := SetBody(program[id], body)];
        remaining := remaining - {id};
      }
      ok := true;
    }

    /** process: ok is false where the source throws. */
    method Process() returns (ok: bool, ghost t: Orders)
      requires ProperProgram(program)
      modifies this
      ensures ok <==> StreamsAreReached(old(program))
      ensures ok ==> Processable(t, old(program)) && IsProcessed(t, old(program), program)
      ensures !ok ==> !exists u :: Processable(u, old(program))
      ensures transpositions == map[]
    {
      ghost var p := program;
      transpositions := map[];
      t := map[];
      ok := TransposeArrays();
      if ok {
        t := transpositions;
        ghost var moved := program;
        MovedIsProper(t, p, moved);
        ok := TransposeAccesses();
        if ok {
          AccessesComplete(t, p, moved, program);
        } else {
          forall u ensures !Processable(u, p) {
            if Processable(u, p) {
              OrdersAreUnique(t, u, p);
            }
          }
        }
      } else {
        forall u ensures !Processable(u, p) {
          if Processable(u, p) {
            forall id | id in p ensures Transposable(p[id]) {
              ProcessableIsTransposable(u, p, id);
            }
          }
        }
      }
      transpositions := map[];
      ProcessableExactly(p);
    }
  }

  /** What one call of TransposeArray does. */
  ghost predicate OneMoved(t: Orders, u: Orders, q: Program, r: Program, id: Id)
    requires id in q
  {
    if Finite(SizeOf(q[id])) then u == t && r == q
    else
      && (exists s :: StreamsAt(SizeOf(q[id]), s) && u == t[id := StreamFirst(|SizeOf(q[id])|, s)])
      && r == q[id := MoveDef(u, id, q[id], BodyOf(q[id]))]
  }

  lemma NewlyMoved(t: Orders, u: Orders, q: Program, r: Program, id: Id)
    requires id in q && id !in t && WellFormedDef(q[id]) && Transposable(q[id]) && OneMoved(t, u, q, r, id)
    ensures MovedDef(u, id, q[id], r[id])
  {
    if !Finite(SizeOf(q[id])) {
      var s :| StreamsAt(SizeOf(q[id]), s) && u == t[id := StreamFirst(|SizeOf(q[id])|, s)];
      forall x | StreamsAt(SizeOf(q[id]), x) ensures x == s {
        StreamIsUnique(SizeOf(q[id]), x, s);
      }
    }
  }

  lemma StillMoved(t: Orders, u: Orders, id: Id, def: Def, moved: Def)
    requires MovedDef(t, id, def, moved) && (id in t <==> id in u) && (id in t ==> u[id] == t[id])
    ensures MovedDef(u, id, def, moved)
  {
  }

  lemma MovedOneMore(t: Orders, u: Orders, p: Program, q: Program, r: Program, done: set<Id>, id: Id)
    requires Moved(t, p, q, done) && id in p && id !in done && WellFormedDef(p[id]) && Transposable(p[id])
    requires OneMoved(t, u, q, r, id)
    ensures Moved(u, p, r, done + {id})
  {
    NewlyMoved(t, u, q, r, id);
    forall i | i in done ensures MovedDef(u, i, p[i], r[i]) {
      StillMoved(t, u, i, p[i], q[i]);
    }
  }

  lemma MovedIsProper(t: Orders, p: Program, q: Program)
    requires ProperProgram(p) && Moved(t, p, q, p.Keys)
    ensures OrdersOf(t, p) && t.Keys == Streams(p)
    ensures forall id :: id in p ==> BodyOf(q[id]) == BodyOf(p[id])
    ensures forall id :: id in q ==> ProperExpr(t.Keys, id, BodyOf(q[id]))
  {
    forall id | id in p ensures BodyOf(q[id]) == BodyOf(p[id]) && (id in t <==> !Finite(SizeOf(p[id]))) {
      assert MovedDef(t, id, p[id], q[id]);
    }
  }

  lemma AccessesComplete(t: Orders, p: Program, q: Program, r: Program)
    requires OrdersOf(t, p) && Moved(t, p, q, p.Keys) && r.Keys == q.Keys
    requires forall id :: id in p ==> BodyOf(q[id]) == BodyOf(p[id])
    requires forall id :: id in q ==>
      Accepted(t, id, BodyOf(q[id])) && r[id] == SetBody(q[id], Rewritten(t, id, BodyOf(q[id])))
    ensures Processable(t, p) && IsProcessed(t, p, r)
  {
    forall id | id in p ensures r[id] == MoveDef(t, id, p[id], Rewritten(t, id, BodyOf(p[id]))) {
      assert MovedDef(t, id, p[id], q[id]);
      BodyReplaced(t, id, p[id], Rewritten(t, id, BodyOf(p[id])));
    }
    forall id | id in p ensures VarsMovable(t, id, p[id]) && Accepted(t, id, BodyOf(p[id])) {
      assert MovedDef(t, id, p[id], q[id]);
    }
  }

  lemma BodyReplaced(t: Orders, id: Id, def: Def, body: Expr)
    ensures SetBody(MoveDef(t, id, def, BodyOf(def)), body) == MoveDef(t, id, def, body)
  {
  }

  // ---- An access inside an argument is missed -----------------------------------------------

  /** Array 0 is y[i, n] = 10 * i + n for i < 2, array 1 is the table x of 16 elements x[k] = k, and array
      2 is z[n] = x[y[0, n]]. */
  function ExampleProgram(vars: seq<VarId>, size: seq<int>): Program {
    map[0 := Array(vars, size, Sum()), 1 := Array([2], [16], Var(2)), 2 := Array([3], [-1], Nested())]
  }

  function Sum(): Expr {
    Prim(0, [Var(0), Var(1)])
  }

  function Nested(): Expr {
    App(Ref(1), [App(Ref(0), [Const(0), Var(3)])])
  }

  function ExampleWorld(): World {
    World((op, values: seq<int>) => if |values| == 2 then 10 * values[0] + values[1] else 0, (id, index) => 0)
  }

  function ExampleOrders(): Orders {
    map[0 := [1, 0], 2 := [0]]
  }

  lemma ExampleOrdersMove()
    ensures var t := ExampleOrders();
      && StreamFirst(2, 1) == [1, 0] && StreamFirst(1, 0) == [0]
      && Rearranged(t[0], [0, 1]) == [1, 0] && Rearranged(t[0], [2, -1]) == [-1, 2]
      && Rearranged(t[2], [3]) == [3] && Rearranged(t[2], [-1]) == [-1]
  {
  }

  lemma ExampleOperands()
    ensures Rewritten(ExampleOrders(), 0, Sum()) == Sum()
  {
    assert Rewritten(ExampleOrders(), 0, Sum()).operands == Sum().operands;
  }

  lemma ExampleIsProper()
    ensures ProperProgram(ExampleProgram([0, 1], [2, -1]))
  {
    var p := ExampleProgram([0, 1], [2, -1]);
    ExampleBodiesAreProper(Streams(p));
    assert WellFormedDef(p[0]) && WellFormedDef(p[1]) && WellFormedDef(p[2]);
  }

  lemma ExampleBodiesAreProper(streams: set<Id>)
    ensures ProperExpr(streams, 0, Sum()) && ProperExpr(streams, 1, Var(2)) && ProperExpr(streams, 2, Nested())
  {
    assert ProperExpr(streams, 2, App(Ref(0), [Const(0), Var(3)]));
  }

  lemma ExampleBodiesAreAccepted()
    ensures var t := ExampleOrders(); Accepted(t, 0, Sum()) && Accepted(t, 1, Var(2)) && Accepted(t, 2, Nested())
  {
  }

  lemma ExampleOrdersFit()
    ensures OrdersOf(ExampleOrders(), ExampleProgram([0, 1], [2, -1]))
  {
    ExampleOrdersMove();
    var t, p := ExampleOrders(), ExampleProgram([0, 1], [2, -1]);
    assert StreamsAt(SizeOf(p[0]), 1) && t[0] == StreamFirst(|SizeOf(p[0])|, 1);
    assert StreamsAt(SizeOf(p[2]), 0) && t[2] == StreamFirst(|SizeOf(p[2])|, 0);
  }

  lemma ExampleIsProcessable()
    ensures Processable(ExampleOrders(), ExampleProgram([0, 1], [2, -1]))
  {
    ExampleOrdersFit();
    ExampleBodiesAreAccepted();
    var t, p := ExampleOrders(), ExampleProgram([0, 1], [2, -1]);
    assert Closed(t[0], 2) && Closed(t[2], 1);
    assert VarsMovable(t, 0, p[0]) && VarsMovable(t, 1, p[1]) && VarsMovable(t, 2, p[2]);
  }

  lemma ExampleIsProcessed()
    ensures IsProcessed(ExampleOrders(), ExampleProgram([0, 1], [2, -1]), ExampleProgram([1, 0], [-1, 2]))
  {
    ExampleOrdersMove();
    ExampleOperands();
    var t, p, q := ExampleOrders(), ExampleProgram([0, 1], [2, -1]), ExampleProgram([1, 0], [-1, 2]);
    assert q[0] == MoveDef(t, 0, p[0], Rewritten(t, 0, p[0].body));
    assert q[1] == MoveDef(t, 1, p[1], Rewritten(t, 1, p[1].body));
    assert q[2] == MoveDef(t, 2, p[2], Rewritten(t, 2, p[2].body));
  }

  /** The visitor returns at the access of the table, which does not move, and so does not reach the access
      of y in its argument: y becomes y[n, i], the access y[0, n] stays, and z[1] changes its value. */
  lemma NestedAccessChangesMeaning()
    ensures var t, p, q := ExampleOrders(), ExampleProgram([0, 1], [2, -1]), ExampleProgram([1, 0], [-1, 2]);
      && ProperProgram(p) && Processable(t, p) && IsProcessed(t, p, q)
      && Element(ExampleWorld(), p, 4, 2, [1]) == Some(1)
      && Element(ExampleWorld(), q, 4, 2, MoveIndex(t, 2, [1])) == Some(10)
  {
    ExampleIsProper();
    ExampleIsProcessable();
    ExampleIsProcessed();
    ExampleElement([0, 1], [2, -1]);
    ExampleElement([1, 0], [-1, 2]);
    assert MoveIndex(ExampleOrders(), 2, [1]) == [1];
  }

  lemma ExampleElement(vars: seq<VarId>, size: seq<int>)
    requires (vars == [0, 1] && size == [2, -1]) || (vars == [1, 0] && size == [-1, 2])
    ensures Element(ExampleWorld(), ExampleProgram(vars, size), 4, 2, [1]) == Some(if vars[0] == 0 then 1 else 10)
  {
    var p, y := ExampleProgram(vars, size), if vars[0] == 0 then 1 else 10;
    ExampleInner(p, vars, size);
    ExampleOuter(p, y);
  }

  lemma ExampleInner(p: Program, vars: seq<VarId>, size: seq<int>)
    requires (vars == [0, 1] && size == [2, -1]) || (vars == [1, 0] && size == [-1, 2])
    requires 0 in p && p[0] == Array(vars, size, Sum())
    ensures Element(ExampleWorld(), p, 3, 0, [0, 1]) == Some(if vars[0] == 0 then 1 else 10)
  {
    var w, env := ExampleWorld(), Bind(vars, [0, 1]);
    BoundVariable(vars, [0, 1], 0);
    BoundVariable(vars, [0, 1], 1);
    EvalAllPointwise(w, p, 2, 0, [Var(0), Var(1)], env, []);
    assert [0, 1][2..] == [];
  }

  lemma AppliedToOne(w: World, p: Program, depth: nat, current: Id, id: Id, arg: Expr, env: map<VarId, int>, x: int)
    requires Eval(w, p, depth, current, arg, env, []) == Some(x)
    ensures Eval(w, p, depth, current, App(Ref(id), [arg]), env, []) == Element(w, p, depth, id, [x])
  {
    EvalAllPointwise(w, p, depth, current, [arg], env, []);
    var values := EvalAll(w, p, depth, current, [arg], env, []).value;
    assert values == [x] && [x] + [] == [x];
  }

  lemma AppliedToTwo(w: World, p: Program, depth: nat, current: Id, id: Id, a: Expr, b: Expr, env: map<VarId, int>, x: int, y: int)
    requires Eval(w, p, depth, current, a, env, []) == Some(x) && Eval(w, p, depth, current, b, env, []) == Some(y)
    ensures Eval(w, p, depth, current, App(Ref(id), [a, b]), env, []) == Element(w, p, depth, id, [x, y])
  {
    EvalAllPointwise(w, p, depth, current, [a, b], env, []);
    var values := EvalAll(w, p, depth, current, [a, b], env, []).value;
    assert values == [x, y] && [x, y] + [] == [x, y];
  }

  lemma ElementOfTable(w: World, p: Program, x: int)
    requires 1 in p && p[1] == Array([2], [16], Var(2)) && 0 <= x < 16
    ensures Element(w, p, 3, 1, [x]) == Some(x)
  {
    BoundVariable([2], [x], 0);
    assert [x][1..] == [];
  }

  lemma ExampleOuter(p: Program, y: int)
    requires 1 in p && p[1] == Array([2], [16], Var(2)) && 2 in p && p[2] == Array([3], [-1], Nested())
    requires Element(ExampleWorld(), p, 3, 0, [0, 1]) == Some(y) && 0 <= y < 16
    ensures Element(ExampleWorld(), p, 4, 2, [1]) == Some(y)
  {
    var w, env := ExampleWorld(), Bind([3], [1]);
    BoundVariable([3], [1], 0);
    AppliedToTwo(w, p, 3, 2, 0, Const(0), Var(3), env, 0, 1);
    AppliedToOne(w, p, 3, 2, 1, App(Ref(0), [Const(0), Var(3)]), env, y);
    ElementOfTable(w, p, y);
    assert [1][1..] == [];
  }
}
