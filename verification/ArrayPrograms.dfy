/** Mutually recursive array programs (common/functional_model.hpp), as they are after type checking,
    and what they mean.
 */
module ArrayPrograms {
  import opened Options

  type Id = nat
  type VarId = nat

  datatype Object = Ref(id: Id) | SelfRef

  datatype Expr =
    | Const(value: int)
    | Bool(truth: bool)
    | Var(v: VarId)
    | Prim(op: nat, operands: seq<Expr>)
    | Case(cases: seq<Branch>)
    | App(target: Object, args: seq<Expr>)

  datatype Branch = Branch(guard: Expr, value: Expr)

  datatype Join = Concatenate | Enumerate

  /** An operand of `++` or of an enumeration: a scalar, an array written in place (the definition
      with its own name, which only its self references use), or a named array. */
  datatype Operand =
    | Single(e: Expr)
    | Literal(id: Id, size: seq<int>)
    | Named(id: Id, size: seq<int>)

  /** size holds -1 for an unbounded dimension; an array may have more dimensions than variables. */
  datatype Def =
    | Array(vars: seq<VarId>, size: seq<int>, body: Expr)
    | External(size: seq<int>)
    | Other(size: seq<int>, body: Expr)
    | Scalar(body: Expr)
    | Joined(join: Join, size: seq<int>, parts: seq<Operand>)

  type Program = map<Id, Def>

  function SizeOf(def: Def): seq<int> {
    match def
    case Array(_, size, _) => size
    case External(size) => size
    case Other(size, _) => size
    case Scalar(_) => []
    case Joined(_, size, _) => size
  }

  function Target(target: Object, current: Id): Id {
    match target
    case Ref(id) => id
    case SelfRef => current
  }

  predicate InBounds(size: seq<int>, index: seq<int>) {
    |index| == |size| && forall i :: 0 <= i < |size| ==> 0 <= index[i] && (size[i] >= 0 ==> index[i] < size[i])
  }

  // ---- Joined arrays ------------------------------------------------------------------------

  /** Extent of an operand in the first dimension of the result; -1 if unbounded. */
  function Extent(join: Join, part: Operand): int {
    if join == Enumerate || part.Single? || part.size == [] then 1 else part.size[0]
  }

  /** Which operand row i belongs to, and where in that operand, counting from operand j. */
  function Locate(join: Join, parts: seq<Operand>, j: nat, i: int): (r: Option<(nat, int)>)
    ensures r.Some? ==> j <= r.value.0 < |parts|
    decreases |parts| - j
  {
    if j >= |parts| then None
    else
      var c := Extent(join, parts[j]);
      if c < 0 || i < c then Some((j, i)) else Locate(join, parts, j + 1, i - c)
  }

  /** The index at which an operand is read: dimensions of size 1 are broadcast. */
  function PartIndex(join: Join, size: seq<int>, row: int, index: seq<int>): (r: seq<int>)
    ensures |r| == |size|
  {
    seq(|size|, d requires 0 <= d < |size| =>
      if join == Concatenate && d == 0 then row
      else
        var from := if join == Concatenate then d else d + 1;
        if size[d] == 1 || from >= |index| then 0 else index[from])
  }

  // ---- Meaning ------------------------------------------------------------------------------

  /** What primitives compute, and what external arrays contain. */
  datatype World = World(prim: (nat, seq<int>) -> int, input: (Id, seq<int>) -> int)

  function Bind(vars: seq<VarId>, index: seq<int>): map<VarId, int>
    requires |vars| <= |index|
  {
    if vars == [] then map[]
    else Bind(vars[..|vars| - 1], index)[vars[|vars| - 1] := index[|vars| - 1]]
  }

  /** The element of an array at a full index, to a given depth of references. */
  function Element(w: World, p: Program, depth: nat, id: Id, index: seq<int>): Option<int>
    decreases depth, 0
  {
    if depth == 0 || id !in p || !InBounds(SizeOf(p[id]), index) then None
    else
      match p[id]
      case Array(vars, _, body) =>
        if |vars| <= |index|
        then Eval(w, p, depth - 1, id, body, Bind(vars, index), index[|vars|..])
        else None
      case External(_) => Some(w.input(id, index))
      case Other(_, body) => Eval(w, p, depth - 1, id, body, map[], index)
      case Scalar(body) => Eval(w, p, depth - 1, id, body, map[], [])
      case Joined(join, _, parts) =>
        if index == [] then None
        else
          match Locate(join, parts, 0, index[0])
          case None => None
          case Some((j, row)) => PartElement(w, p, depth - 1, id, join, parts[j], row, index)
  }

  /** The element of an operand, at the depth of the body of the joined array. */
  function PartElement(w: World, p: Program, depth: nat, id: Id, join: Join, part: Operand, row: int, index: seq<int>):
    Option<int>
    decreases depth, 2
  {
    match part
    case Single(e) => Eval(w, p, depth, id, e, map[], [])
    case Named(other, size) => Element(w, p, depth, other, PartIndex(join, size, row, index))
    case Literal(own, size) =>
      var at := PartIndex(join, size, row, index);
      if own in p && p[own].Array? && p[own].size == size && |p[own].vars| == |size| && InBounds(size, at)
      then Eval(w, p, depth, own, p[own].body, Bind(p[own].vars, at), [])
      else None
  }

  /** The value of an expression, applied to the remaining indexes if it is an array. */
  function Eval(w: World, p: Program, depth: nat, current: Id, e: Expr, env: map<VarId, int>, rest: seq<int>): Option<int>
    decreases depth, 1, e, 1 + if e.Case? then |e.cases| else 0
  {
    match e
    case Const(value) => Some(value)
    case Bool(truth) => Some(if truth then 1 else 0)
    case Var(v) => if v in env then Some(env[v]) else None
    case Prim(op, operands) =>
      (match EvalAll(w, p, depth, current, operands, env, rest)
       case None => None
       case Some(values) => Some(w.prim(op, values)))
    case Case(_) => EvalCases(w, p, depth, current, e, 0, env, rest)
    case App(target, args) =>
      (match EvalAll(w, p, depth, current, args, env, [])
       case None => None
       case Some(values) => Element(w, p, depth, Target(target, current), values + rest))
  }

  function EvalAll(w: World, p: Program, depth: nat, current: Id, es: seq<Expr>, env: map<VarId, int>, rest: seq<int>):
    (r: Option<seq<int>>)
    ensures r.Some? ==> |r.value| == |es|
    decreases depth, 1, es, 0
  {
    if es == [] then Some([])
    else
      match EvalAll(w, p, depth, current, es[..|es| - 1], env, rest)
      case None => None
      case Some(values) =>
        match Eval(w, p, depth, current, es[|es| - 1], env, rest)
        case None => None
        case Some(v) => Some(values + [v])
  }

  /** The value of the first case, from case k on, whose guard is not zero. */
  function EvalCases(w: World, p: Program, depth: nat, current: Id, e: Expr, k: nat, env: map<VarId, int>,
                     rest: seq<int>): Option<int>
    requires e.Case?
    decreases depth, 1, e, |e.cases| - k
  {
    if k >= |e.cases| then None
    else
      match Eval(w, p, depth, current, e.cases[k].guard, env, [])
      case None => None
      case Some(g) =>
        if g != 0 then Eval(w, p, depth, current, e.cases[k].value, env, rest)
        else EvalCases(w, p, depth, current, e, k + 1, env, rest)
  }

  // ---- Facts about evaluation ---------------------------------------------------------------

  ghost predicate Distinct(vars: seq<VarId>) {
    forall i, j :: 0 <= i < j < |vars| ==> vars[i] != vars[j]
  }

  lemma {:induction false} BoundVariable(vars: seq<VarId>, index: seq<int>, i: nat)
    requires i < |vars| <= |index| && Distinct(vars)
    ensures vars[i] in Bind(vars, index) && Bind(vars, index)[vars[i]] == index[i]
  {
    var n := |vars| - 1;
    if i < n {
      BoundVariable(vars[..n], index, i);
    }
  }

  lemma {:induction false} BoundNames(vars: seq<VarId>, index: seq<int>)
    requires |vars| <= |index|
    ensures Bind(vars, index).Keys == set v | v in vars
  {
    if vars != [] {
      var n := |vars| - 1;
      BoundNames(vars[..n], index);
      assert vars == vars[..n] + [vars[n]];
    }
  }

  lemma {:induction false} EvalAllPointwise(w: World, p: Program, depth: nat, current: Id, es: seq<Expr>,
                                            env: map<VarId, int>, rest: seq<int>)
    ensures var r := EvalAll(w, p, depth, current, es, env, rest);
      && (r.Some? <==> forall i :: 0 <= i < |es| ==> Eval(w, p, depth, current, es[i], env, rest).Some?)
      && (r.Some? ==> forall i :: 0 <= i < |es| ==> Eval(w, p, depth, current, es[i], env, rest) == Some(r.value[i]))
  {
    if es != [] {
      var n := |es| - 1;
      EvalAllPointwise(w, p, depth, current, es[..n], env, rest);
      assert forall i :: 0 <= i < n ==> es[..n][i] == es[i];
    }
  }
}
