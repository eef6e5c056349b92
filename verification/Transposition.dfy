/** frontend/array_transpose.cpp: the unbounded dimension of every array moves to the front. */
module Transposition {
  import opened Options
  import opened ArrayPrograms

  // ---- The order of dimensions --------------------------------------------------------------

  ghost predicate StreamsAt(size: seq<int>, s: nat) {
    s < |size| && size[s] < 0 && forall i :: 0 <= i < |size| && i != s ==> size[i] >= 0
  }

  ghost predicate Finite(size: seq<int>) {
    forall i :: 0 <= i < |size| ==> size[i] >= 0
  }

  /** Dimension s first, the others in their order. */
  function StreamFirst(n: nat, s: nat): (order: seq<nat>)
    requires s < n
    ensures |order| == n && forall k :: 0 <= k < n ==> order[k] < n
  {
    seq(n, k requires 0 <= k < n => if k == 0 then s else if k <= s then (k - 1) as nat else k)
  }

  /** The order is a permutation: every dimension occurs, once, the stream first and the others as they were. */
  lemma OrderIsPermutation(n: nat, s: nat, i: nat)
    requires s < n && i < n
    ensures StreamFirst(n, s)[0] == s && forall j, k :: 0 < j < k < n ==> StreamFirst(n, s)[j] < StreamFirst(n, s)[k]
    ensures exists k :: 0 <= k < n && StreamFirst(n, s)[k] == i
    ensures forall j, k :: 0 <= j < k < n ==> StreamFirst(n, s)[j] != StreamFirst(n, s)[k]
  {
    var k := if i == s then 0 else if i < s then i + 1 else i;
    assert StreamFirst(n, s)[k] == i;
  }

  /** transpose_order: ok is false for more than one unbounded dimension. */
  method TransposeOrder(size: seq<int>) returns (ok: bool, streaming: bool, order: seq<nat>)
    ensures ok <==> Finite(size) || exists s :: StreamsAt(size, s)
    ensures ok ==> (streaming <==> !Finite(size))
    ensures ok && streaming ==> exists s :: StreamsAt(size, s) && order == StreamFirst(|size|, s)
  {
    ok, streaming, order := true, false, [];
    ghost var s: nat := 0;
    for i := 0 to |size|
      invariant ok && |order| == i
      invariant !streaming ==> Finite(size[..i]) && forall k :: 0 <= k < i ==> order[k] == k
      invariant streaming ==> StreamsAt(size[..i], s) && order == StreamFirst(i, s)
    {
      assert size[..i + 1] == size[..i] + [size[i]];
      if size[i] >= 0 {
        order := order + [i];
      } else {
        if streaming {
          ok := false;
          assert size[..i][s] == size[s] < 0;
          return;
        }
        streaming := true;
        s := i;
        order := [i] + order;
      }
    }
    assert size[..|size|] == size;
  }

  function Rearranged<T>(order: seq<nat>, v: seq<T>): (r: seq<T>)
    requires |v| <= |order| && forall k :: 0 <= k < |v| ==> order[k] < |v|
    ensures |r| == |v| && forall k :: 0 <= k < |v| ==> r[k] == v[order[k]]
  {
    seq(|v|, k requires 0 <= k < |v| => v[order[k]])
  }

  /** The loop that fills transposed variables or arguments; it gives up ("Can not reorder implicit
      array dimension" or "arguments") when a needed one is missing. */
  method Rearrange<T>(order: seq<nat>, v: seq<T>) returns (ok: bool, r: seq<T>)
    requires |v| <= |order|
    ensures ok <==> forall k :: 0 <= k < |v| ==> order[k] < |v|
    ensures ok ==> r == Rearranged(order, v)
  {
    ok, r := true, [];
    while |r| < |v|
      invariant |r| <= |v| && ok
      invariant forall k :: 0 <= k < |r| ==> order[k] < |v| && r[k] == v[order[k]]
    {
      var src := order[|r|];
      if src >= |v| {
        ok := false;
        return;
      }
      r := r + [v[src]];
    }
  }

  /** Dimensions are rearranged among the first m of them exactly when the stream is one of those. */
  lemma PartialIsClosed(n: nat, s: nat, m: nat)
    requires s < n && m <= n
    ensures (forall k :: 0 <= k < m ==> StreamFirst(n, s)[k] < m) <==> m == 0 || s < m
  {
    if m > 0 {
      assert StreamFirst(n, s)[0] == s;
    }
  }

  /** Arguments that are rearranged among themselves stay in front of the remaining indexes. */
  lemma RearrangedPrefix(n: nat, s: nat, v: seq<int>, rest: seq<int>)
    requires s < n && |v| + |rest| == n && (v == [] || s < |v|)
    ensures |v| > 0 ==> Rearranged(StreamFirst(n, s), v + rest) == Rearranged(StreamFirst(n, s), v) + rest
  {
    var order := StreamFirst(n, s);
    if |v| > 0 {
      forall k | 0 <= k < n ensures Rearranged(order, v + rest)[k] == (Rearranged(order, v) + rest)[k] {
      }
    }
  }

  // ---- Rewriting accesses -------------------------------------------------------------------

  /** The new order of dimensions of each transposed array. */
  type Orders = map<Id, seq<nat>>

  predicate Closed(order: seq<nat>, m: nat) {
    m <= |order| && forall k :: 0 <= k < m ==> order[k] < m
  }

  function MoveArgs(t: Orders, id: Id, args: seq<Expr>): (moved: seq<Expr>)
    ensures |moved| == |args|
  {
    if id in t && Closed(t[id], |args|) then Rearranged(t[id], args) else args
  }

  /** The rewriting as the visitor does it: it does not go into the arguments of an application. */
  function Rewritten(t: Orders, current: Id, e: Expr): Expr {
    match e
    case Const(_) => e
    case Bool(_) => e
    case Var(_) => e
    case Prim(op, operands) =>
      Prim(op, seq(|operands|, i requires 0 <= i < |operands| => Rewritten(t, current, operands[i])))
    case Case(cases) =>
      Case(seq(|cases|, i requires 0 <= i < |cases| =>
        Branch(Rewritten(t, current, cases[i].guard), Rewritten(t, current, cases[i].value))))
    case App(target, args) => App(target, MoveArgs(t, Target(target, current), args))
  }

  /** The rewriting that also goes into arguments. */
  function Transposed(t: Orders, current: Id, e: Expr): Expr {
    match e
    case Const(_) => e
    case Bool(_) => e
    case Var(_) => e
    case Prim(op, operands) =>
      Prim(op, seq(|operands|, i requires 0 <= i < |operands| => Transposed(t, current, operands[i])))
    case Case(cases) =>
      Case(seq(|cases|, i requires 0 <= i < |cases| =>
        Branch(Transposed(t, current, cases[i].guard), Transposed(t, current, cases[i].value))))
    case App(target, args) =>
      App(target, MoveArgs(t, Target(target, current),
        seq(|args|, i requires 0 <= i < |args| => Transposed(t, current, args[i]))))
  }

  function TransposedAll(t: Orders, current: Id, es: seq<Expr>): (moved: seq<Expr>)
    ensures |moved| == |es| && forall i :: 0 <= i < |es| ==> moved[i] == Transposed(t, current, es[i])
  {
    seq(|es|, i requires 0 <= i < |es| => Transposed(t, current, es[i]))
  }

  /** An application has at least one argument. */
  predicate ArgsMovable(t: Orders, id: Id, m: nat) {
    id in t ==> m > 0 && Closed(t[id], m)
  }

  /** No application that the visitor reaches needs an argument that is not there. */
  predicate Accepted(t: Orders, current: Id, e: Expr) {
    match e
    case Const(_) => true
    case Bool(_) => true
    case Var(_) => true
    case Prim(_, operands) => forall i :: 0 <= i < |operands| ==> Accepted(t, current, operands[i])
    case Case(cases) =>
      forall i :: 0 <= i < |cases| ==> Accepted(t, current, cases[i].guard) && Accepted(t, current, cases[i].value)
    case App(target, args) => ArgsMovable(t, Target(target, current), |args|)
  }

  /** The same for all applications. */
  predicate AcceptedDeep(t: Orders, current: Id, e: Expr) {
    match e
    case Const(_) => true
    case Bool(_) => true
    case Var(_) => true
    case Prim(_, operands) => forall i :: 0 <= i < |operands| ==> AcceptedDeep(t, current, operands[i])
    case Case(cases) =>
      forall i :: 0 <= i < |cases| ==> AcceptedDeep(t, current, cases[i].guard) && AcceptedDeep(t, current, cases[i].value)
    case App(target, args) =>
      && ArgsMovable(t, Target(target, current), |args|)
      && forall i :: 0 <= i < |args| ==> AcceptedDeep(t, current, args[i])
  }

  /** Arguments contain no access that transposition would change. */
  predicate ArgsSettled(t: Orders, current: Id, e: Expr) {
    match e
    case Const(_) => true
    case Bool(_) => true
    case Var(_) => true
    case Prim(_, operands) => forall i :: 0 <= i < |operands| ==> ArgsSettled(t, current, operands[i])
    case Case(cases) =>
      forall i :: 0 <= i < |cases| ==> ArgsSettled(t, current, cases[i].guard) && ArgsSettled(t, current, cases[i].value)
    case App(_, args) =>
      forall i :: 0 <= i < |args| ==> AcceptedDeep(t, current, args[i]) && Transposed(t, current, args[i]) == args[i]
  }

  ghost predicate IsOrder(order: seq<nat>) {
    exists s :: 0 <= s < |order| && order == StreamFirst(|order|, s)
  }

  /** Where dimension i goes when dimension s moves to the front. */
  function NewPlace(s: nat, i: nat): nat {
    if i == s then 0 else if i < s then i + 1 else i
  }

  lemma PlaceInOrder(order: seq<nat>, m: nat) returns (s: nat)
    requires IsOrder(order) && Closed(order, m)
    ensures s < |order| && order == StreamFirst(|order|, s)
    ensures forall i: nat {:trigger NewPlace(s, i)} :: i < m ==> NewPlace(s, i) < m && order[NewPlace(s, i)] == i
  {
    s :| 0 <= s < |order| && order == StreamFirst(|order|, s);
    PartialIsClosed(|order|, s, m);
  }

  ghost predicate AreOrders(t: Orders) {
    forall id :: id in t ==> IsOrder(t[id])
  }

  lemma RearrangedInjective(order: seq<nat>, v: seq<Expr>, w: seq<Expr>)
    requires IsOrder(order) && |v| == |w| && Closed(order, |v|)
    requires Rearranged(order, v) == Rearranged(order, w)
    ensures v == w
  {
    var s := PlaceInOrder(order, |v|);
    forall i | 0 <= i < |v| ensures v[i] == w[i] {
      var k := NewPlace(s, i);
      assert Rearranged(order, v)[k] == v[i] && Rearranged(order, w)[k] == w[i];
    }
  }

  /** The visitor's rewriting is the full one exactly when nothing inside arguments has to move. */
  lemma {:induction false} RewritingIsComplete(t: Orders, current: Id, e: Expr)
    requires AreOrders(t) && Accepted(t, current, e)
    ensures Rewritten(t, current, e) == Transposed(t, current, e) && AcceptedDeep(t, current, e)
       <==> ArgsSettled(t, current, e)
  {
    match e
    case Const(_) =>
    case Bool(_) =>
    case Var(_) =>
    case Prim(op, operands) =>
      var r := seq(|operands|, i requires 0 <= i < |operands| => Rewritten(t, current, operands[i]));
      var d := seq(|operands|, i requires 0 <= i < |operands| => Transposed(t, current, operands[i]));
      forall i | 0 <= i < |operands|
        ensures r[i] == d[i] && AcceptedDeep(t, current, operands[i]) <==> ArgsSettled(t, current, operands[i])
      {
        RewritingIsComplete(t, current, operands[i]);
      }
      assert r == d <==> forall i :: 0 <= i < |operands| ==> r[i] == d[i];
    case Case(cases) =>
      var r := seq(|cases|, i requires 0 <= i < |cases| =>
        Branch(Rewritten(t, current, cases[i].guard), Rewritten(t, current, cases[i].value)));
      var d := seq(|cases|, i requires 0 <= i < |cases| =>
        Branch(Transposed(t, current, cases[i].guard), Transposed(t, current, cases[i].value)));
      forall i | 0 <= i < |cases|
        ensures r[i] == d[i] && AcceptedDeep(t, current, cases[i].guard) && AcceptedDeep(t, current, cases[i].value)
           <==> ArgsSettled(t, current, cases[i].guard) && ArgsSettled(t, current, cases[i].value)
      {
        RewritingIsComplete(t, current, cases[i].guard);
        RewritingIsComplete(t, current, cases[i].value);
      }
      assert r == d <==> forall i :: 0 <= i < |cases| ==> r[i] == d[i];
    case App(target, args) =>
      var id := Target(target, current);
      var d := seq(|args|, i requires 0 <= i < |args| => Transposed(t, current, args[i]));
      assert d == args <==> forall i :: 0 <= i < |args| ==> Transposed(t, current, args[i]) == args[i];
      if id in t && Rearranged(t[id], args) == Rearranged(t[id], d) {
        RearrangedInjective(t[id], args, d);
      }
  }

  // ---- Whole programs -----------------------------------------------------------------------

  /** t gives every array with an unbounded dimension its new order. */
  ghost predicate OrdersOf(t: Orders, p: Program) {
    && (forall id :: id in t ==> id in p && (p[id].Array? || p[id].External?) && |t[id]| == |SizeOf(p[id])|)
    && (forall id :: id in p ==>
         if id in t then exists s :: StreamsAt(SizeOf(p[id]), s) && t[id] == StreamFirst(|SizeOf(p[id])|, s)
         else Finite(SizeOf(p[id])))
  }

  /** What the type checker and array reduction guarantee of a definition. */
  ghost predicate WellFormedDef(def: Def) {
    && !def.Joined?
    && (def.Array? ==> Distinct(def.vars) && 0 < |def.vars| <= |def.size|)
  }

  ghost predicate VarsMovable(t: Orders, id: Id, def: Def) {
    id in t && def.Array? ==> Closed(t[id], |def.vars|)
  }

  function MoveDef(t: Orders, id: Id, def: Def, body: Expr): Def {
    match def
    case Array(vars, size, _) =>
      if id in t && Closed(t[id], |vars|) && Closed(t[id], |size|)
      then Array(Rearranged(t[id], vars), Rearranged(t[id], size), body)
      else Array(vars, size, body)
    case External(size) =>
      External(if id in t && Closed(t[id], |size|) then Rearranged(t[id], size) else size)
    case Other(size, _) => Other(size, body)
    case Scalar(_) => Scalar(body)
    case Joined(_, _, _) => def
  }

  function BodyOf(def: Def): Expr {
    match def
    case Array(_, _, body) => body
    case External(_) => Const(0)
    case Other(_, body) => body
    case Scalar(body) => body
    case Joined(_, _, _) => Const(0)
  }

  /** q is p with arrays rearranged, and accesses rewritten everywhere. */
  ghost predicate IsTransposedProgram(t: Orders, p: Program, q: Program) {
    && q.Keys == p.Keys
    && forall id :: id in p ==> q[id] == MoveDef(t, id, p[id], Transposed(t, id, BodyOf(p[id])))
  }

  ghost predicate ProgramAccepted(t: Orders, p: Program) {
    forall id :: id in p ==>
      WellFormedDef(p[id]) && VarsMovable(t, id, p[id]) && AcceptedDeep(t, id, BodyOf(p[id]))
  }

  function MoveIndex(t: Orders, id: Id, index: seq<int>): (moved: seq<int>)
    ensures |moved| == |index|
  {
    if id in t && |index| == |t[id]| && Closed(t[id], |index|) then Rearranged(t[id], index) else index
  }

  /** The external arrays of the second world are those of the first, rearranged. */
  ghost predicate SameWorld(t: Orders, p: Program, w: World, u: World) {
    && u.prim == w.prim
    && forall id, index :: id in p && p[id].External? && |index| == |SizeOf(p[id])| ==>
         u.input(id, MoveIndex(t, id, index)) == w.input(id, index)
  }

  lemma RearrangedDistinct(order: seq<nat>, vars: seq<VarId>)
    requires IsOrder(order) && Distinct(vars) && Closed(order, |vars|)
    ensures Distinct(Rearranged(order, vars))
  {
    var s := PlaceInOrder(order, |vars|);
    forall i, j | 0 <= i < j < |vars| ensures Rearranged(order, vars)[i] != Rearranged(order, vars)[j] {
      assert order[i] != order[j];
    }
  }

  lemma RearrangedNames(order: seq<nat>, vars: seq<VarId>)
    requires IsOrder(order) && Closed(order, |vars|)
    ensures forall v :: v in Rearranged(order, vars) <==> v in vars
  {
    var s := PlaceInOrder(order, |vars|);
    var vs := Rearranged(order, vars);
    forall v | v in vars ensures v in vs {
      var i :| 0 <= i < |vars| && vars[i] == v;
      assert vs[NewPlace(s, i)] == v;
    }
  }

  /** Rearranging variables and indexes together binds the same. */
  lemma RearrangedBinding(order: seq<nat>, vars: seq<VarId>, index: seq<int>)
    requires IsOrder(order) && |vars| <= |index| == |order| && Distinct(vars)
    requires Closed(order, |vars|) && Closed(order, |index|)
    ensures Bind(Rearranged(order, vars), Rearranged(order, index)) == Bind(vars, index)
  {
    var s := PlaceInOrder(order, |vars|);
    var vs, xs := Rearranged(order, vars), Rearranged(order, index);
    RearrangedDistinct(order, vars);
    RearrangedNames(order, vars);
    BoundNames(vars, index);
    BoundNames(vs, xs);
    forall v | v in vars ensures Bind(vs, xs)[v] == Bind(vars, index)[v] {
      var i :| 0 <= i < |vars| && vars[i] == v;
      BoundVariable(vars, index, i);
      BoundVariable(vs, xs, NewPlace(s, i));
    }
  }

  lemma RearrangedRest(order: seq<nat>, m: nat, index: seq<int>)
    requires IsOrder(order) && m <= |index| == |order| && Closed(order, m) && Closed(order, |index|)
    ensures m > 0 ==> Rearranged(order, index)[m..] == index[m..]
  {
    var s := PlaceInOrder(order, m);
    PartialIsClosed(|order|, s, m);
  }

  lemma ArrayIndexBinds(t: Orders, p: Program, q: Program, id: Id, index: seq<int>)
    requires OrdersOf(t, p) && ProgramAccepted(t, p) && IsTransposedProgram(t, p, q)
    requires id in p && p[id].Array? && |index| == |p[id].size|
    ensures q[id].Array? && |q[id].vars| == |p[id].vars| && |q[id].size| == |p[id].size|
    ensures Bind(q[id].vars, MoveIndex(t, id, index)) == Bind(p[id].vars, index)
    ensures MoveIndex(t, id, index)[|p[id].vars|..] == index[|p[id].vars|..]
  {
    if id in t {
      assert IsOrder(t[id]) && Closed(t[id], |t[id]|);
      RearrangedBinding(t[id], p[id].vars, index);
      RearrangedRest(t[id], |p[id].vars|, index);
    }
  }

  lemma MovedExternal(t: Orders, p: Program, q: Program, id: Id)
    requires OrdersOf(t, p) && IsTransposedProgram(t, p, q) && id in p && p[id].External?
    ensures q[id].External? && |q[id].size| == |p[id].size|
  {
  }

  lemma ArrayElement(w: World, p: Program, depth: nat, id: Id, index: seq<int>)
    requires depth > 0 && id in p && p[id].Array? && |p[id].vars| <= |p[id].size|
    ensures Element(w, p, depth, id, index) ==
      if InBounds(p[id].size, index)
      then Eval(w, p, depth - 1, id, p[id].body, Bind(p[id].vars, index), index[|p[id].vars|..])
      else None
  {
  }

  /** Sizes and indexes rearranged together keep their bounds. */
  lemma BoundsMove(order: seq<nat>, size: seq<int>, index: seq<int>)
    requires IsOrder(order) && |size| == |order| == |index| && Closed(order, |order|)
    ensures InBounds(Rearranged(order, size), Rearranged(order, index)) <==> InBounds(size, index)
  {
    var s := PlaceInOrder(order, |order|);
    if InBounds(Rearranged(order, size), Rearranged(order, index)) {
      forall i | 0 <= i < |size| ensures 0 <= index[i] && (size[i] >= 0 ==> index[i] < size[i]) {
        var k := NewPlace(s, i);
        assert Rearranged(order, size)[k] == size[i] && Rearranged(order, index)[k] == index[i];
      }
    }
  }

  lemma MovedBounds(t: Orders, p: Program, q: Program, id: Id, index: seq<int>)
    requires OrdersOf(t, p) && IsTransposedProgram(t, p, q) && id in p && WellFormedDef(p[id]) && VarsMovable(t, id, p[id])
    ensures InBounds(SizeOf(q[id]), MoveIndex(t, id, index)) <==> InBounds(SizeOf(p[id]), index)
    ensures |SizeOf(q[id])| == |SizeOf(p[id])|
    ensures id in t ==> |t[id]| == |SizeOf(p[id])|
  {
    if id in t {
      assert IsOrder(t[id]) && Closed(t[id], |t[id]|);
      if |index| == |t[id]| {
        BoundsMove(t[id], SizeOf(p[id]), index);
      }
    }
  }

  lemma ExternalIsKept(t: Orders, p: Program, q: Program, w: World, u: World, depth: nat, id: Id, index: seq<int>)
    requires OrdersOf(t, p) && IsTransposedProgram(t, p, q) && SameWorld(t, p, w, u)
    requires id in p && p[id].External?
    ensures ElementKept(t, p, q, w, u, depth, id, index)
  {
    MovedExternal(t, p, q, id);
    MovedBounds(t, p, q, id, index);
  }

  lemma OthersKeepShape(t: Orders, p: Program, q: Program, id: Id, index: seq<int>)
    requires OrdersOf(t, p) && IsTransposedProgram(t, p, q) && id in p && (p[id].Other? || p[id].Scalar?)
    ensures id !in t && MoveIndex(t, id, index) == index
    ensures q[id] == if p[id].Other? then Other(p[id].size, Transposed(t, id, p[id].body)) else Scalar(Transposed(t, id, p[id].body))
  {
  }

  /** An element keeps its value; an index of the wrong length names no element. */
  ghost predicate ElementKept(t: Orders, p: Program, q: Program, w: World, u: World, depth: nat, id: Id, index: seq<int>) {
    && Element(u, q, depth, id, MoveIndex(t, id, index)) == Element(w, p, depth, id, index)
    && (id in t && |index| != |t[id]| ==> Element(u, q, depth, id, index) == None)
  }

  ghost predicate ElementsKept(t: Orders, p: Program, q: Program, w: World, u: World, depth: nat) {
    forall id, index :: ElementKept(t, p, q, w, u, depth, id, index)
  }

  lemma {:induction false} ValueIsKept(t: Orders, p: Program, q: Program, w: World, u: World, depth: nat, current: Id,
                                       e: Expr, env: map<VarId, int>, rest: seq<int>)
    requires AreOrders(t) && u.prim == w.prim && ElementsKept(t, p, q, w, u, depth)
    requires AcceptedDeep(t, current, e)
    ensures Eval(u, q, depth, current, Transposed(t, current, e), env, rest) == Eval(w, p, depth, current, e, env, rest)
    decreases e, 1 + if e.Case? then |e.cases| else 0
  {
    match e
    case Const(_) =>
    case Bool(_) =>
    case Var(_) =>
    case Prim(op, operands) =>
      ValuesAreKept(t, p, q, w, u, depth, current, operands, env, rest);
    case Case(_) =>
      CasesAreKept(t, p, q, w, u, depth, current, e, 0, env, rest);
    case App(target, args) =>
      ValuesAreKept(t, p, q, w, u, depth, current, args, env, []);
      ApplicationIsKept(t, p, q, w, u, depth, current, target, args, env, rest);
  }

  lemma ApplicationIsKept(t: Orders, p: Program, q: Program, w: World, u: World, depth: nat, current: Id, target: Object,
                          args: seq<Expr>, env: map<VarId, int>, rest: seq<int>)
    requires AreOrders(t) && ElementsKept(t, p, q, w, u, depth) && ArgsMovable(t, Target(target, current), |args|)
    requires EvalAll(u, q, depth, current, TransposedAll(t, current, args), env, []) == EvalAll(w, p, depth, current, args, env, [])
    ensures Eval(u, q, depth, current, App(target, MoveArgs(t, Target(target, current), TransposedAll(t, current, args))), env, rest)
         == Eval(w, p, depth, current, App(target, args), env, rest)
  {
    var id := Target(target, current);
    AppliedIndexMoves(t, u, q, depth, current, id, TransposedAll(t, current, args), env, rest);
    var values := EvalAll(w, p, depth, current, args, env, []);
    if values.Some? {
      assert ElementKept(t, p, q, w, u, depth, id, values.value + rest);
      var moved := EvalAll(u, q, depth, current, MoveArgs(t, id, TransposedAll(t, current, args)), env, []);
      assert ElementKept(t, p, q, w, u, depth, id, moved.value + rest);
    }
  }

  lemma {:induction false} CasesAreKept(t: Orders, p: Program, q: Program, w: World, u: World, depth: nat, current: Id,
                                        e: Expr, k: nat, env: map<VarId, int>, rest: seq<int>)
    requires AreOrders(t) && u.prim == w.prim && ElementsKept(t, p, q, w, u, depth)
    requires e.Case? && AcceptedDeep(t, current, e)
    ensures EvalCases(u, q, depth, current, Transposed(t, current, e), k, env, rest)
         == EvalCases(w, p, depth, current, e, k, env, rest)
    decreases e, |e.cases| - k
  {
    if k < |e.cases| {
      TransposedCase(t, current, e, k);
      ValueIsKept(t, p, q, w, u, depth, current, e.cases[k].guard, env, []);
      ValueIsKept(t, p, q, w, u, depth, current, e.cases[k].value, env, rest);
      CasesAreKept(t, p, q, w, u, depth, current, e, k + 1, env, rest);
      SameFromCase(w, p, u, q, depth, current, e, Transposed(t, current, e), k, env, rest);
    }
  }

  lemma TransposedCase(t: Orders, current: Id, e: Expr, k: nat)
    requires e.Case? && k < |e.cases|
    ensures Transposed(t, current, e).Case? && |Transposed(t, current, e).cases| == |e.cases|
    ensures Transposed(t, current, e).cases[k]
         == Branch(Transposed(t, current, e.cases[k].guard), Transposed(t, current, e.cases[k].value))
  {
  }

  lemma SameFromCase(w: World, p: Program, u: World, q: Program, depth: nat, current: Id, e: Expr, f: Expr, k: nat,
                     env: map<VarId, int>, rest: seq<int>)
    requires e.Case? && f.Case? && k < |e.cases| == |f.cases|
    requires Eval(u, q, depth, current, f.cases[k].guard, env, []) == Eval(w, p, depth, current, e.cases[k].guard, env, [])
    requires Eval(u, q, depth, current, f.cases[k].value, env, rest) == Eval(w, p, depth, current, e.cases[k].value, env, rest)
    requires EvalCases(u, q, depth, current, f, k + 1, env, rest) == EvalCases(w, p, depth, current, e, k + 1, env, rest)
    ensures EvalCases(u, q, depth, current, f, k, env, rest) == EvalCases(w, p, depth, current, e, k, env, rest)
  {
  }

  lemma {:induction false} ValuesAreKept(t: Orders, p: Program, q: Program, w: World, u: World, depth: nat, current: Id,
                                         es: seq<Expr>, env: map<VarId, int>, rest: seq<int>)
    requires AreOrders(t) && u.prim == w.prim && ElementsKept(t, p, q, w, u, depth)
    requires forall i :: 0 <= i < |es| ==> AcceptedDeep(t, current, es[i])
    ensures EvalAll(u, q, depth, current, TransposedAll(t, current, es), env, rest)
         == EvalAll(w, p, depth, current, es, env, rest)
    decreases es, 0
  {
    var moved := TransposedAll(t, current, es);
    forall i | 0 <= i < |es|
      ensures Eval(u, q, depth, current, moved[i], env, rest) == Eval(w, p, depth, current, es[i], env, rest)
    {
      ValueIsKept(t, p, q, w, u, depth, current, es[i], env, rest);
    }
    SamePointwise(w, p, u, q, depth, current, es, moved, env, rest);
  }

  lemma SamePointwise(w: World, p: Program, u: World, q: Program, depth: nat, current: Id, es: seq<Expr>, fs: seq<Expr>,
                      env: map<VarId, int>, rest: seq<int>)
    requires |es| == |fs|
    requires forall i :: 0 <= i < |es| ==> Eval(u, q, depth, current, fs[i], env, rest) == Eval(w, p, depth, current, es[i], env, rest)
    ensures EvalAll(u, q, depth, current, fs, env, rest) == EvalAll(w, p, depth, current, es, env, rest)
  {
    EvalAllPointwise(w, p, depth, current, es, env, rest);
    EvalAllPointwise(u, q, depth, current, fs, env, rest);
    var r, v := EvalAll(u, q, depth, current, fs, env, rest), EvalAll(w, p, depth, current, es, env, rest);
    if r.Some? {
      assert r.value == v.value;
    }
  }

  lemma RearrangedValues(w: World, p: Program, depth: nat, current: Id, order: seq<nat>, args: seq<Expr>,
                         env: map<VarId, int>)
    requires IsOrder(order) && Closed(order, |args|)
    ensures var r, v := EvalAll(w, p, depth, current, Rearranged(order, args), env, []), EvalAll(w, p, depth, current, args, env, []);
      match v
      case None => r.None?
      case Some(values) => r == Some(Rearranged(order, values))
  {
    EvalAllPointwise(w, p, depth, current, args, env, []);
    EvalAllPointwise(w, p, depth, current, Rearranged(order, args), env, []);
    var s := PlaceInOrder(order, |args|);
    var moved := Rearranged(order, args);
    var r, v := EvalAll(w, p, depth, current, moved, env, []), EvalAll(w, p, depth, current, args, env, []);
    assert forall k :: 0 <= k < |args| ==> moved[k] == args[order[k]];
    if r.Some? {
      forall i | 0 <= i < |args| ensures Eval(w, p, depth, current, args[i], env, []).Some? {
        assert moved[NewPlace(s, i)] == args[i];
      }
    }
    if v.Some? {
      forall k | 0 <= k < |args|
        ensures Eval(w, p, depth, current, moved[k], env, []) == Some(Rearranged(order, v.value)[k])
      {
      }
      assert r.value == Rearranged(order, v.value);
    }
  }

  /** Rearranged arguments, in front of the remaining indexes, are the rearranged index. */
  lemma AppliedIndexMoves(t: Orders, w: World, q: Program, depth: nat, current: Id, id: Id, args: seq<Expr>,
                          env: map<VarId, int>, rest: seq<int>)
    requires AreOrders(t) && ArgsMovable(t, id, |args|)
    ensures var r, v := EvalAll(w, q, depth, current, MoveArgs(t, id, args), env, []), EvalAll(w, q, depth, current, args, env, []);
      match v
      case None => r.None?
      case Some(values) =>
        && r.Some? && |r.value| == |values|
        && (id !in t ==> r == v)
        && (id in t && |values + rest| == |t[id]| ==> r.value + rest == MoveIndex(t, id, values + rest))
  {
    if id in t {
      var n := |t[id]|;
      var s := PlaceInOrder(t[id], |args|);
      PartialIsClosed(n, s, |args|);
      RearrangedValues(w, q, depth, current, t[id], args, env);
      var v := EvalAll(w, q, depth, current, args, env, []);
      if v.Some? && |v.value + rest| == n {
        RearrangedPrefix(n, s, v.value, rest);
        assert Closed(t[id], n);
      }
    }
  }

  lemma ArrayOfSameShape(t: Orders, p: Program, q: Program, w: World, u: World, depth: nat, id: Id, index: seq<int>)
    requires AreOrders(t) && u.prim == w.prim && depth > 0 && ElementsKept(t, p, q, w, u, depth - 1)
    requires id in p && id in q && p[id].Array? && q[id].Array?
    requires |q[id].vars| == |p[id].vars| <= |p[id].size| == |q[id].size|
    requires InBounds(q[id].size, MoveIndex(t, id, index)) <==> InBounds(p[id].size, index)
    requires InBounds(p[id].size, index) ==>
      && Bind(q[id].vars, MoveIndex(t, id, index)) == Bind(p[id].vars, index)
      && MoveIndex(t, id, index)[|p[id].vars|..] == index[|p[id].vars|..]
    requires AcceptedDeep(t, id, p[id].body) && q[id].body == Transposed(t, id, p[id].body)
    requires id in t ==> |t[id]| == |p[id].size|
    ensures ElementKept(t, p, q, w, u, depth, id, index)
  {
    ArrayElement(w, p, depth, id, index);
    ArrayElement(u, q, depth, id, MoveIndex(t, id, index));
    if InBounds(p[id].size, index) {
      ValueIsKept(t, p, q, w, u, depth - 1, id, p[id].body, Bind(p[id].vars, index), index[|p[id].vars|..]);
    }
  }

  lemma ArrayElementIsKept(t: Orders, p: Program, q: Program, w: World, u: World, depth: nat, id: Id, index: seq<int>)
    requires OrdersOf(t, p) && ProgramAccepted(t, p) && IsTransposedProgram(t, p, q) && u.prim == w.prim
    requires depth > 0 && ElementsKept(t, p, q, w, u, depth - 1) && id in p && p[id].Array?
    ensures ElementKept(t, p, q, w, u, depth, id, index)
  {
    MovedLength(t, p, q, id);
    MovedBounds(t, p, q, id, index);
    if |index| == |p[id].size| {
      ArrayIndexBinds(t, p, q, id, index);
    }
    OrdersAreOrders(t, p);
    ArrayOfSameShape(t, p, q, w, u, depth, id, index);
  }

  lemma OrdersAreOrders(t: Orders, p: Program)
    requires OrdersOf(t, p)
    ensures AreOrders(t)
  {
    forall id | id in t ensures IsOrder(t[id]) {
      assert id in p;
    }
  }

  lemma MovedLength(t: Orders, p: Program, q: Program, id: Id)
    requires OrdersOf(t, p) && IsTransposedProgram(t, p, q) && id in p && p[id].Array? && WellFormedDef(p[id])
    ensures q[id].Array? && |q[id].size| == |p[id].size| && |q[id].vars| == |p[id].vars|
    ensures q[id].body == Transposed(t, id, p[id].body)
    ensures id in t ==> |t[id]| == |p[id].size|
  {
  }

  lemma OtherElementIsKept(t: Orders, p: Program, q: Program, w: World, u: World, depth: nat, id: Id, index: seq<int>)
    requires OrdersOf(t, p) && ProgramAccepted(t, p) && IsTransposedProgram(t, p, q) && u.prim == w.prim
    requires depth > 0 && ElementsKept(t, p, q, w, u, depth - 1) && id in p && (p[id].Other? || p[id].Scalar?)
    ensures ElementKept(t, p, q, w, u, depth, id, index)
  {
    OthersKeepShape(t, p, q, id, index);
    OrdersAreOrders(t, p);
    assert AcceptedDeep(t, id, p[id].body);
    ValueIsKept(t, p, q, w, u, depth - 1, id, p[id].body, map[], index);
  }

  /** The element of the transposed program at the rearranged index is the element of the original,
      to every depth of references. */
  lemma {:induction false} TranspositionPreservesMeaning(t: Orders, p: Program, q: Program, w: World, u: World, depth: nat)
    requires OrdersOf(t, p) && ProgramAccepted(t, p) && IsTransposedProgram(t, p, q) && SameWorld(t, p, w, u)
    ensures ElementsKept(t, p, q, w, u, depth)
  {
    if depth > 0 {
      TranspositionPreservesMeaning(t, p, q, w, u, depth - 1);
      forall id, index ensures ElementKept(t, p, q, w, u, depth, id, index) {
        if id in p {
          if p[id].Array? {
            ArrayElementIsKept(t, p, q, w, u, depth, id, index);
          } else if p[id].External? {
            ExternalIsKept(t, p, q, w, u, depth, id, index);
          } else {
            OtherElementIsKept(t, p, q, w, u, depth, id, index);
          }
        }
      }
    }
  }
}
