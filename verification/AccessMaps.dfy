/** frontend/ph_model_gen.cpp: array accesses as affine relations, with parameters for what is not
    affine.
 */
module AccessMaps {
  import opened Options
  import opened IslModel

  datatype Op = Add | Subtract | Multiply | DivideInteger | Modulo | Max | Min

  /** Unknown stands for every other kind of expression, an array access for instance. */
  datatype IndexExpr =
    | Int(value: int)
    | Iterator(dim: nat)
    | Negate(a: IndexExpr)
    | Binary(op: Op, a: IndexExpr, b: IndexExpr)
    | Unknown(id: nat)

  /** Piecewise affine expressions over the iteration vector and parameters. */
  datatype Piecewise =
    | Constant(value: int)
    | Variable(dim: nat)
    | Parameter(index: nat)
    | Minus(a: Piecewise)
    | Apply(op: Op, a: Piecewise, b: Piecewise)

  /** Quotient rounded toward negative infinity. */
  function FloorDiv(a: int, b: int): (q: int)
    requires b != 0
    ensures b > 0 ==> b * q <= a < b * (q + 1)
    ensures b < 0 ==> b * q >= a > b * (q + 1)
  {
    var q := if b > 0 then a / b else (-a) / (-b);
    assert b < 0 ==> -a == (-b) * q + (-a) % (-b);
    q
  }

  /** The value of an operator; modulo is for positive divisors only, as in the set library. */
  function Operate(op: Op, a: int, b: int): Option<int> {
    match op
    case Add => Some(a + b)
    case Subtract => Some(a - b)
    case Multiply => Some(a * b)
    case DivideInteger => if b == 0 then None else Some(FloorDiv(a, b))
    case Modulo => if b <= 0 then None else Some(a % b)
    case Max => Some(if a > b then a else b)
    case Min => Some(if a < b then a else b)
  }

  function Combine(op: Op, a: Option<int>, b: Option<int>): Option<int> {
    if a.Some? && b.Some? then Operate(op, a.value, b.value) else None
  }

  /** The index that the program computes, given the values of unknown expressions. */
  function Value(e: IndexExpr, x: Vec, unknownValue: nat -> int): Option<int> {
    match e
    case Int(value) => Some(value)
    case Iterator(dim) => if dim < |x| then Some(x[dim]) else None
    case Negate(a) => (match Value(a, x, unknownValue) case None => None case Some(v) => Some(-v))
    case Binary(op, a, b) => Combine(op, Value(a, x, unknownValue), Value(b, x, unknownValue))
    case Unknown(id) => Some(unknownValue(id))
  }

  function Eval(e: Piecewise, x: Vec, params: seq<int>): Option<int> {
    match e
    case Constant(value) => Some(value)
    case Variable(dim) => if dim < |x| then Some(x[dim]) else None
    case Parameter(index) => if index < |params| then Some(params[index]) else None
    case Minus(a) => (match Eval(a, x, params) case None => None case Some(v) => Some(-v))
    case Apply(op, a, b) => Combine(op, Eval(a, x, params), Eval(b, x, params))
  }

  /** What the library says about a piecewise expression: whether each piece is constant, and the
      value if the whole is one constant. */
  datatype Library = Library(isConstant: Piecewise -> bool, constant: Piecewise -> Option<int>)

  ghost predicate Truthful(lib: Library) {
    forall e, x, params :: lib.constant(e).Some? && Eval(e, x, params).Some? ==> Eval(e, x, params) == lib.constant(e)
  }

  // ---- Building -----------------------------------------------------------------------------

  predicate CanApply(lib: Library, op: Op, a: Piecewise, b: Piecewise) {
    match op
    case Multiply => lib.isConstant(a) || lib.isConstant(b)
    case DivideInteger => lib.isConstant(b)
    case Modulo => lib.constant(b).Some?
    case _ => true
  }

  function Applied(lib: Library, op: Op, a: Piecewise, b: Piecewise): Piecewise
    requires CanApply(lib, op, a, b)
  {
    Apply(op, a, if op == Modulo then Constant(lib.constant(b).value) else b)
  }

  /** The expression built when `count` parameters exist, and how many exist afterwards. */
  function Built(lib: Library, e: IndexExpr, count: nat): (r: (Piecewise, nat))
    ensures r.1 >= count
  {
    match e
    case Int(value) => (Constant(value), count)
    case Iterator(dim) => (Variable(dim), count)
    case Negate(a) => var r := Built(lib, a, count); (Minus(r.0), r.1)
    case Binary(op, a, b) =>
      var l := Built(lib, a, count);
      var r := Built(lib, b, l.1);
      if CanApply(lib, op, l.0, r.0) then (Applied(lib, op, l.0, r.0), r.1) else (Parameter(r.1), r.1 + 1)
    case Unknown(_) => (Parameter(count), count + 1)
  }

  /** The expressions that the new parameters stand for. */
  function NonAffine(lib: Library, e: IndexExpr, count: nat): (es: seq<IndexExpr>)
    ensures |es| == Built(lib, e, count).1 - count
  {
    match e
    case Int(_) => []
    case Iterator(_) => []
    case Negate(a) => NonAffine(lib, a, count)
    case Binary(op, a, b) =>
      var l := Built(lib, a, count);
      NonAffine(lib, a, count) + NonAffine(lib, b, l.1)
      + if CanApply(lib, op, l.0, Built(lib, b, l.1).0) then [] else [e]
    case Unknown(_) => [e]
  }

  lemma Regroup<T>(p: seq<T>, a: seq<T>, b: seq<T>, c: seq<T>)
    ensures p + (a + b + c) == ((p + a) + b) + c
  {
  }

  lemma InTwoSteps(lib: Library, op: Op, a: IndexExpr, b: IndexExpr, count: nat, before: seq<IndexExpr>)
    ensures var l := Built(lib, a, count); var r := Built(lib, b, l.1); var e := Binary(op, a, b);
      before + NonAffine(lib, e, count) == before + NonAffine(lib, a, count) + NonAffine(lib, b, l.1)
                                           + if CanApply(lib, op, l.0, r.0) then [] else [e]
  {
    var l := Built(lib, a, count);
    var r := Built(lib, b, l.1);
    var e := Binary(op, a, b);
    var last := if CanApply(lib, op, l.0, r.0) then [] else [e];
    assert NonAffine(lib, e, count) == NonAffine(lib, a, count) + NonAffine(lib, b, l.1) + last;
    Regroup(before, NonAffine(lib, a, count), NonAffine(lib, b, l.1), last);
  }

  // ---- What needs no parameter --------------------------------------------------------------

  /** Iterators and literals, their sums, differences, negation, maximum and minimum, products with a literal,
      and quotient and modulo by a literal. */
  predicate Affine(e: IndexExpr) {
    match e
    case Int(_) => true
    case Iterator(_) => true
    case Negate(a) => Affine(a)
    case Binary(op, a, b) =>
      && Affine(a) && Affine(b)
      && (op == Multiply ==> a.Int? || b.Int?)
      && (op == DivideInteger || op == Modulo ==> b.Int?)
    case Unknown(_) => false
  }

  predicate HasUnknown(e: IndexExpr) {
    match e
    case Int(_) => false
    case Iterator(_) => false
    case Negate(a) => HasUnknown(a)
    case Binary(_, a, b) => HasUnknown(a) || HasUnknown(b)
    case Unknown(_) => true
  }

  ghost predicate KnowsLiterals(lib: Library) {
    forall v :: lib.isConstant(Constant(v)) && lib.constant(Constant(v)) == Some(v)
  }

  lemma {:induction false} AffineNeedsNoParameter(lib: Library, e: IndexExpr, count: nat)
    requires KnowsLiterals(lib) && Affine(e)
    ensures Built(lib, e, count).1 == count
  {
    match e
    case Negate(a) => AffineNeedsNoParameter(lib, a, count);
    case Binary(op, a, b) =>
      AffineNeedsNoParameter(lib, a, count);
      AffineNeedsNoParameter(lib, b, count);
    case _ =>
  }

  /** And an index with a subexpression that the builder does not know always needs one. */
  lemma {:induction false} UnknownNeedsParameter(lib: Library, e: IndexExpr, count: nat)
    requires HasUnknown(e)
    ensures Built(lib, e, count).1 > count
  {
    match e
    case Negate(a) => UnknownNeedsParameter(lib, a, count);
    case Binary(op, a, b) =>
      if HasUnknown(a) {
        UnknownNeedsParameter(lib, a, count);
      } else {
        UnknownNeedsParameter(lib, b, Built(lib, a, count).1);
      }
    case _ =>
  }

  lemma {:induction false} AffineArgsNeedNoParameter(lib: Library, args: seq<IndexExpr>, count: nat)
    requires KnowsLiterals(lib) && forall a :: 0 <= a < |args| ==> Affine(args[a])
    ensures ParamsAfter(lib, args, count) == count
  {
    if args != [] {
      AffineArgsNeedNoParameter(lib, args[..|args| - 1], count);
      AffineNeedsNoParameter(lib, args[|args| - 1], count);
    }
  }

  /** piecewise_affine_expr_builder: the space grows a parameter for each non-affine expression. */
  class PiecewiseBuilder {
    const lib: Library
    var params: nat
    var nonaffine: seq<IndexExpr>

    constructor (lib: Library)
      ensures this.lib == lib && params == 0 && nonaffine == []
    {
      this.lib, params, nonaffine := lib, 0, [];
    }

    method Build(e: IndexExpr) returns (r: Piecewise)
      modifies this
      ensures (r, params) == Built(lib, e, old(params))
      ensures nonaffine == old(nonaffine) + NonAffine(lib, e, old(params))
      decreases e
    {
      match e {
        case Int(value) =>
          return Constant(value);
        case Iterator(dim) =>
          return Variable(dim);
        case Negate(a) =>
          r := Build(a);
          return Minus(r);
        case Binary(op, a, b) =>
          var lhs := Build(a);
          var rhs := Build(b);
          InTwoSteps(lib, op, a, b, old(params), old(nonaffine));
          if CanApply(lib, op, lhs, rhs) {
            return Applied(lib, op, lhs, rhs);
          }
        case Unknown(_) =>
      }
      nonaffine := nonaffine + [e];
      r := Parameter(params);
      params := params + 1;
    }

    /** The arguments of an access, one after the other in one growing space. */
    method BuildArgs(args: seq<IndexExpr>) returns (built: seq<Piecewise>)
      modifies this
      ensures built == BuiltArgs(lib, args, old(params)) && params == ParamsAfter(lib, args, old(params))
      ensures |nonaffine| - |old(nonaffine)| == params - old(params) && old(nonaffine) <= nonaffine
      ensures KnowsLiterals(lib) && (forall a :: 0 <= a < |args| ==> Affine(args[a])) ==>
        params == old(params) && nonaffine == old(nonaffine)
    {
      built := [];
      for k := 0 to |args|
        invariant built == BuiltArgs(lib, args[..k], old(params)) && params == ParamsAfter(lib, args[..k], old(params))
        invariant |nonaffine| - |old(nonaffine)| == params - old(params) && old(nonaffine) <= nonaffine
      {
        assert args[..k + 1][..k] == args[..k];
        var e := Build(args[k]);
        built := built + [e];
      }
      assert args[..|args|] == args;
      if KnowsLiterals(lib) && forall a :: 0 <= a < |args| ==> Affine(args[a]) {
        AffineArgsNeedNoParameter(lib, args, old(params));
      }
    }
  }

  function ParamsAfter(lib: Library, args: seq<IndexExpr>, count: nat): (n: nat)
    ensures n >= count
  {
    if args == [] then count
    else Built(lib, args[|args| - 1], ParamsAfter(lib, args[..|args| - 1], count)).1
  }

  function BuiltArgs(lib: Library, args: seq<IndexExpr>, count: nat): (built: seq<Piecewise>)
    ensures |built| == |args|
  {
    if args == [] then []
    else
      var before := args[..|args| - 1];
      BuiltArgs(lib, before, count) + [Built(lib, args[|args| - 1], ParamsAfter(lib, before, count)).0]
  }

  // ---- Parameters that reproduce the real values --------------------------------------------

  /** Values for the parameters that building e adds. */
  ghost function Assignment(lib: Library, e: IndexExpr, count: nat, x: Vec, unknownValue: nat -> int): (p: seq<int>)
    ensures |p| == Built(lib, e, count).1 - count
  {
    match e
    case Int(_) => []
    case Iterator(_) => []
    case Negate(a) => Assignment(lib, a, count, x, unknownValue)
    case Binary(op, a, b) =>
      var l := Built(lib, a, count);
      var r := Built(lib, b, l.1);
      Assignment(lib, a, count, x, unknownValue) + Assignment(lib, b, l.1, x, unknownValue)
      + if CanApply(lib, op, l.0, r.0) then [] else [if Value(e, x, unknownValue).Some? then Value(e, x, unknownValue).value else 0]
    case Unknown(id) => [unknownValue(id)]
  }

  function ValueOr0(e: IndexExpr, x: Vec, unknownValue: nat -> int): int {
    if Value(e, x, unknownValue).Some? then Value(e, x, unknownValue).value else 0
  }

  /** Each parameter has the value of the expression that was recorded for it. */
  lemma {:induction false} ParametersAreNonAffine(lib: Library, e: IndexExpr, count: nat, x: Vec, unknownValue: nat -> int)
    ensures forall k :: 0 <= k < |NonAffine(lib, e, count)| ==>
      Assignment(lib, e, count, x, unknownValue)[k] == ValueOr0(NonAffine(lib, e, count)[k], x, unknownValue)
  {
    match e
    case Negate(a) => ParametersAreNonAffine(lib, a, count, x, unknownValue);
    case Binary(op, a, b) =>
      ParametersAreNonAffine(lib, a, count, x, unknownValue);
      ParametersAreNonAffine(lib, b, Built(lib, a, count).1, x, unknownValue);
    case _ =>
  }

  ghost predicate UsesBelow(e: Piecewise, n: nat) {
    match e
    case Constant(_) => true
    case Variable(_) => true
    case Parameter(index) => index < n
    case Minus(a) => UsesBelow(a, n)
    case Apply(_, a, b) => UsesBelow(a, n) && UsesBelow(b, n)
  }

  lemma {:induction false} UsesBelowMore(e: Piecewise, n: nat, m: nat)
    requires UsesBelow(e, n) && n <= m
    ensures UsesBelow(e, m)
  {
    match e
    case Minus(a) => UsesBelowMore(a, n, m);
    case Apply(_, a, b) =>
      UsesBelowMore(a, n, m);
      UsesBelowMore(b, n, m);
    case _ =>
  }

  lemma {:induction false} BuiltUsesBelow(lib: Library, e: IndexExpr, count: nat)
    ensures UsesBelow(Built(lib, e, count).0, Built(lib, e, count).1)
  {
    match e
    case Negate(a) => BuiltUsesBelow(lib, a, count);
    case Binary(op, a, b) =>
      var l := Built(lib, a, count);
      var r := Built(lib, b, l.1);
      BuiltUsesBelow(lib, a, count);
      BuiltUsesBelow(lib, b, l.1);
      UsesBelowMore(l.0, l.1, r.1);
    case _ =>
  }

  /** Parameters that an expression does not use do not matter. */
  lemma {:induction false} MoreParameters(e: Piecewise, x: Vec, p: seq<int>, more: seq<int>)
    requires UsesBelow(e, |p|)
    ensures Eval(e, x, p + more) == Eval(e, x, p)
  {
    match e
    case Minus(a) => MoreParameters(a, x, p, more);
    case Apply(_, a, b) =>
      MoreParameters(a, x, p, more);
      MoreParameters(b, x, p, more);
    case _ =>
  }

  lemma AppliedIsExact(lib: Library, op: Op, a: Piecewise, b: Piecewise, x: Vec, p: seq<int>)
    requires Truthful(lib) && CanApply(lib, op, a, b) && Eval(b, x, p).Some?
    ensures Eval(Applied(lib, op, a, b), x, p) == Combine(op, Eval(a, x, p), Eval(b, x, p))
  {
  }

  lemma {:induction false} BuiltIsExact(lib: Library, e: IndexExpr, p: seq<int>, x: Vec, unknownValue: nat -> int)
    requires Truthful(lib) && Value(e, x, unknownValue).Some?
    ensures Eval(Built(lib, e, |p|).0, x, p + Assignment(lib, e, |p|, x, unknownValue)) == Value(e, x, unknownValue)
    decreases e, 1
  {
    match e
    case Negate(a) => BuiltIsExact(lib, a, p, x, unknownValue);
    case Binary(op, a, b) => BinaryIsExact(lib, op, a, b, p, x, unknownValue);
    case _ =>
  }

  lemma {:induction false} BinaryIsExact(lib: Library, op: Op, a: IndexExpr, b: IndexExpr, p: seq<int>, x: Vec,
                                         unknownValue: nat -> int)
    requires Truthful(lib) && Value(Binary(op, a, b), x, unknownValue).Some?
    ensures var e := Binary(op, a, b);
      Eval(Built(lib, e, |p|).0, x, p + Assignment(lib, e, |p|, x, unknownValue)) == Value(e, x, unknownValue)
    decreases Binary(op, a, b), 0
  {
    var l := Built(lib, a, |p|);
    var r := Built(lib, b, l.1);
    var pa := p + Assignment(lib, a, |p|, x, unknownValue);
    var pb := Assignment(lib, b, l.1, x, unknownValue);
    BuiltIsExact(lib, a, p, x, unknownValue);
    BuiltIsExact(lib, b, pa, x, unknownValue);
    BuiltUsesBelow(lib, a, |p|);
    MoreParameters(l.0, x, pa, pb);
    BinaryFromOperands(lib, op, a, b, p, x, unknownValue, pa, pb);
  }

  lemma BinaryFromOperands(lib: Library, op: Op, a: IndexExpr, b: IndexExpr, p: seq<int>, x: Vec, unknownValue: nat -> int,
                           pa: seq<int>, pb: seq<int>)
    requires Truthful(lib) && Value(Binary(op, a, b), x, unknownValue).Some?
    requires var l := Built(lib, a, |p|); var r := Built(lib, b, l.1);
      && pa == p + Assignment(lib, a, |p|, x, unknownValue) && pb == Assignment(lib, b, l.1, x, unknownValue)
      && Eval(l.0, x, pa + pb) == Value(a, x, unknownValue) && Eval(r.0, x, pa + pb) == Value(b, x, unknownValue)
    ensures var e := Binary(op, a, b);
      Eval(Built(lib, e, |p|).0, x, p + Assignment(lib, e, |p|, x, unknownValue)) == Value(e, x, unknownValue)
  {
    var e := Binary(op, a, b);
    var l := Built(lib, a, |p|);
    var r := Built(lib, b, l.1);
    var q := p + Assignment(lib, e, |p|, x, unknownValue);
    if CanApply(lib, op, l.0, r.0) {
      Regroup(p, Assignment(lib, a, |p|, x, unknownValue), pb, []);
      assert q == pa + pb;
      AppliedIsExact(lib, op, l.0, r.0, x, q);
    } else {
      var last := [Value(e, x, unknownValue).value];
      Regroup(p, Assignment(lib, a, |p|, x, unknownValue), pb, last);
      assert q == (pa + pb) + last && |pa + pb| == r.1;
      assert Built(lib, e, |p|).0 == Parameter(r.1);
    }
  }

  // ---- Access maps --------------------------------------------------------------------------

  /** The relation that visit_array_app makes: parameters are projected out, and dimensions without
      an argument are free. */
  ghost predicate AccessMap(built: seq<Piecewise>, params: nat, dims: nat, x: Vec, y: Vec) {
    |y| == dims && exists p: seq<int> :: |p| == params && Fits(built, x, y, p)
  }

  ghost predicate Fits(built: seq<Piecewise>, x: Vec, y: Vec, p: seq<int>) {
    |built| <= |y| && forall a :: 0 <= a < |built| ==> Eval(built[a], x, p) == Some(y[a])
  }

  ghost predicate Accesses(args: seq<IndexExpr>, dims: nat, x: Vec, unknownValue: nat -> int, y: Vec) {
    |args| <= dims == |y| && forall a :: 0 <= a < |args| ==> Value(args[a], x, unknownValue) == Some(y[a])
  }

  lemma {:induction false} OneAssignmentFitsAll(lib: Library, args: seq<IndexExpr>, x: Vec, unknownValue: nat -> int, y: Vec)
    returns (p: seq<int>)
    requires Truthful(lib) && Accesses(args, |y|, x, unknownValue, y)
    ensures |p| == ParamsAfter(lib, args, 0) && Fits(BuiltArgs(lib, args, 0), x, y, p)
    ensures forall a :: 0 <= a < |args| ==> UsesBelow(BuiltArgs(lib, args, 0)[a], |p|)
  {
    if args == [] {
      return [];
    }
    var n := |args| - 1;
    var before := OneAssignmentFitsAll(lib, args[..n], x, unknownValue, y);
    var added := Assignment(lib, args[n], |before|, x, unknownValue);
    BuiltIsExact(lib, args[n], before, x, unknownValue);
    BuiltUsesBelow(lib, args[n], |before|);
    p := before + added;
    forall a | 0 <= a < n
      ensures Eval(BuiltArgs(lib, args, 0)[a], x, p) == Some(y[a]) && UsesBelow(BuiltArgs(lib, args, 0)[a], |p|)
    {
      assert BuiltArgs(lib, args, 0)[a] == BuiltArgs(lib, args[..n], 0)[a];
      MoreParameters(BuiltArgs(lib, args[..n], 0)[a], x, before, added);
      UsesBelowMore(BuiltArgs(lib, args[..n], 0)[a], |before|, |p|);
    }
  }

  /** The access map contains every element that the access can read, whatever the values of its
      non-affine subexpressions. */
  lemma AccessMapOverApproximates(lib: Library, args: seq<IndexExpr>, dims: nat, x: Vec, unknownValue: nat -> int, y: Vec)
    requires Truthful(lib) && Accesses(args, dims, x, unknownValue, y)
    ensures AccessMap(BuiltArgs(lib, args, 0), ParamsAfter(lib, args, 0), dims, x, y)
  {
    var p := OneAssignmentFitsAll(lib, args, x, unknownValue, y);
  }

  /** Without parameters it contains nothing else. */
  lemma AffineAccessMapIsExact(lib: Library, args: seq<IndexExpr>, dims: nat, x: Vec, unknownValue: nat -> int, y: Vec)
    requires Truthful(lib) && |args| <= dims && ParamsAfter(lib, args, 0) == 0
    requires forall a :: 0 <= a < |args| ==> Value(args[a], x, unknownValue).Some?
    ensures AccessMap(BuiltArgs(lib, args, 0), 0, dims, x, y) <==> Accesses(args, dims, x, unknownValue, y)
  {
    if AccessMap(BuiltArgs(lib, args, 0), 0, dims, x, y) {
      var q: seq<int> :| |q| == 0 && Fits(BuiltArgs(lib, args, 0), x, y, q);
      var z := seq(dims, a requires 0 <= a < dims => if a < |args| then Value(args[a], x, unknownValue).value else 0);
      var p := OneAssignmentFitsAll(lib, args, x, unknownValue, z);
      assert p == q;
    }
    if Accesses(args, dims, x, unknownValue, y) {
      AccessMapOverApproximates(lib, args, dims, x, unknownValue, y);
    }
  }

  /** Iterators of n dimensions, and literals that are positive where something is divided by them. */
  predicate InScope(e: IndexExpr, n: nat) {
    match e
    case Int(_) => true
    case Iterator(dim) => dim < n
    case Negate(a) => InScope(a, n)
    case Binary(op, a, b) => InScope(a, n) && InScope(b, n) && (op == DivideInteger || op == Modulo ==> b.Int? && b.value > 0)
    case Unknown(_) => true
  }

  lemma {:induction false} InScopeHasValue(e: IndexExpr, x: Vec, unknownValue: nat -> int)
    requires InScope(e, |x|)
    ensures Value(e, x, unknownValue).Some?
  {
    match e
    case Negate(a) => InScopeHasValue(a, x, unknownValue);
    case Binary(op, a, b) =>
      InScopeHasValue(a, x, unknownValue);
      InScopeHasValue(b, x, unknownValue);
    case _ =>
  }

  /** An access with affine indexes has the elements that it reads as its access map. */
  lemma AffineIndexesAreExact(lib: Library, args: seq<IndexExpr>, dims: nat, x: Vec, unknownValue: nat -> int, y: Vec)
    requires Truthful(lib) && KnowsLiterals(lib) && |args| <= dims
    requires forall a :: 0 <= a < |args| ==> Affine(args[a]) && InScope(args[a], |x|)
    ensures AccessMap(BuiltArgs(lib, args, 0), ParamsAfter(lib, args, 0), dims, x, y) <==> Accesses(args, dims, x, unknownValue, y)
  {
    AffineArgsNeedNoParameter(lib, args, 0);
    forall a | 0 <= a < |args| ensures Value(args[a], x, unknownValue).Some? {
      InScopeHasValue(args[a], x, unknownValue);
    }
    AffineAccessMapIsExact(lib, args, dims, x, unknownValue, y);
  }
}
