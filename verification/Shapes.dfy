/** common/func_types.cpp, and the loops of frontend/type_check.cpp that fold it over operands. */
module Shapes {
  import opened Options
  import opened ArrayPrograms

  /** Size of each dimension; -1 is infinite. A scalar has the empty shape. */
  type Shape = seq<int>

  /** An operand of shape s can be read at every index of an array of shape c. */
  predicate Fits(s: Shape, c: Shape) {
    |s| <= |c| && forall d :: 0 <= d < |s| ==> s[d] == 1 || s[d] == c[d]
  }

  ghost predicate FitAll(shapes: set<Shape>, c: Shape) {
    forall s :: s in shapes ==> Fits(s, c)
  }

  /** The least shape that all shapes fit, or nothing if they fit none. */
  ghost predicate IsJoin(shapes: set<Shape>, r: Option<Shape>) {
    match r
    case Some(c) => FitAll(shapes, c) && forall u :: FitAll(shapes, u) ==> Fits(c, u)
    case None => forall u :: !FitAll(shapes, u)
  }

  lemma FitsIsTransitive(a: Shape, b: Shape, c: Shape)
    requires Fits(a, b) && Fits(b, c)
    ensures Fits(a, c)
  {
  }

  /** A set of shapes has one join. */
  lemma JoinIsUnique(shapes: set<Shape>, r: Option<Shape>, t: Option<Shape>)
    requires IsJoin(shapes, r) && IsJoin(shapes, t)
    ensures r == t
  {
    if r.Some? && t.Some? {
      var a, b := r.value, t.value;
      assert Fits(a, b) && Fits(b, a);
      assert a == b;
    }
  }

  method CommonArraySize(a: Shape, b: Shape) returns (r: Option<Shape>)
    ensures IsJoin({a, b}, r)
  {
    if a == [] {
      return Some(b);
    }
    if b == [] {
      return Some(a);
    }
    var maxDims := if |a| > |b| then |a| else |b|;
    var commonDims := if |a| < |b| then |a| else |b|;
    var common := seq(maxDims, _ => 0);
    for d := 0 to commonDims
      invariant |common| == maxDims
      invariant forall e :: 0 <= e < d ==> a[e] == b[e] || a[e] == 1 || b[e] == 1
      invariant forall e :: 0 <= e < d ==> common[e] == if a[e] == 1 then b[e] else a[e]
    {
      if a[d] != b[d] && a[d] != 1 && b[d] != 1 {
        forall u ensures !FitAll({a, b}, u) {
          if Fits(a, u) {
            assert a[d] == u[d];
            assert !Fits(b, u);
          }
          assert a in {a, b} && b in {a, b};
        }
        return None;
      }
      common := common[d := if a[d] == 1 then b[d] else a[d]];
    }
    for d := commonDims to maxDims
      invariant |common| == maxDims
      invariant forall e :: 0 <= e < commonDims ==> common[e] == if a[e] == 1 then b[e] else a[e]
      invariant forall e :: commonDims <= e < d ==> common[e] == if e < |a| then a[e] else b[e]
    {
      common := common[d := if d < |a| then a[d] else b[d]];
    }
    forall u | FitAll({a, b}, u) ensures Fits(common, u) {
      assert Fits(a, u) && Fits(b, u);
    }
    return Some(common);
  }

  /** What folding does with an operand: join its shape with that of the operands before it. */
  lemma JoinWithNext(shapes: set<Shape>, c: Shape, s: Shape, r: Option<Shape>)
    requires IsJoin(shapes, Some(c)) && IsJoin({c, s}, r)
    ensures IsJoin(shapes + {s}, r)
  {
    forall u | FitAll(shapes + {s}, u) ensures FitAll({c, s}, u) {
      assert FitAll(shapes, u);
    }
    if r.Some? {
      forall t | t in shapes + {s} ensures Fits(t, r.value) {
        if t in shapes {
          FitsIsTransitive(t, c, r.value);
        }
      }
    }
  }

  lemma MismatchRemains(shapes: set<Shape>, more: set<Shape>)
    requires IsJoin(shapes, None) && shapes <= more
    ensures IsJoin(more, None)
  {
    forall u ensures !FitAll(more, u) {
      assert !FitAll(shapes, u);
    }
  }

  /** Shapes of the operands that are arrays. */
  function ArrayShapes(operands: seq<Option<Shape>>): set<Shape> {
    set o | o in operands && o.Some? :: o.value
  }

  /** Common size of the operands, scalars (None) left aside; None if they do not match. */
  method JoinOperands(operands: seq<Option<Shape>>) returns (r: Option<Shape>)
    ensures IsJoin(ArrayShapes(operands), r)
  {
    var common: Shape := [];
    for i := 0 to |operands|
      invariant IsJoin(ArrayShapes(operands[..i]), Some(common))
    {
      var was := ArrayShapes(operands[..i]);
      assert operands[..i + 1] == operands[..i] + [operands[i]];
      if operands[i].Some? {
        var joined := CommonArraySize(common, operands[i].value);
        JoinWithNext(was, common, operands[i].value, joined);
        assert ArrayShapes(operands[..i + 1]) == was + {operands[i].value};
        if joined == None {
          MismatchRemains(ArrayShapes(operands[..i + 1]), ArrayShapes(operands));
          return None;
        }
        common := joined.value;
      } else {
        assert ArrayShapes(operands[..i + 1]) == was;
      }
    }
    assert operands[..|operands|] == operands;
    return Some(common);
  }

  /** Neither the order of the operands nor their repetition changes the result or the failure. */
  lemma OrderIsIrrelevant(xs: seq<Option<Shape>>, ys: seq<Option<Shape>>, r: Option<Shape>, t: Option<Shape>)
    requires multiset(xs) == multiset(ys) || (forall o :: o in xs <==> o in ys)
    requires IsJoin(ArrayShapes(xs), r) && IsJoin(ArrayShapes(ys), t)
    ensures r == t
  {
    forall o ensures o in xs <==> o in ys {
      assert o in multiset(xs) <==> o in xs;
      assert o in multiset(ys) <==> o in ys;
    }
    assert ArrayShapes(xs) == ArrayShapes(ys);
    JoinIsUnique(ArrayShapes(xs), r, t);
  }

  /** No dimension has two different sizes other than 1. */
  ghost predicate Agree(shapes: set<Shape>) {
    forall s, t, d :: s in shapes && t in shapes && 0 <= d < |s| && d < |t| ==> s[d] == t[d] || s[d] == 1 || t[d] == 1
  }

  ghost predicate HasSize(shapes: set<Shape>, d: nat, v: int) {
    exists s :: s in shapes && d < |s| && s[d] == v
  }

  /** Operands match if and only if they agree; the common size has as many dimensions as the largest
      operand, and no size that no operand has. */
  lemma JoinExistsExactly(shapes: set<Shape>, r: Option<Shape>)
    requires IsJoin(shapes, r)
    ensures r.Some? <==> Agree(shapes)
    ensures r.Some? ==> forall d :: 0 <= d < |r.value| ==> r.value[d] == 1 || HasSize(shapes, d, r.value[d])
    ensures r.Some? ==> |r.value| == 0 || exists s :: s in shapes && |s| == |r.value|
  {
    if r.Some? {
      CommonSizeIsSome(shapes, r.value);
    } else {
      assert !FitAll(shapes, Bound(shapes));
    }
  }

  /** Each size of the join comes from an operand. */
  lemma CommonSizeIsSome(shapes: set<Shape>, c: Shape)
    requires IsJoin(shapes, Some(c))
    ensures Agree(shapes)
    ensures forall d :: 0 <= d < |c| ==> c[d] == 1 || HasSize(shapes, d, c[d])
    ensures |c| == 0 || exists s :: s in shapes && |s| == |c|
  {
    if |c| > 0 {
      var u := c[..|c| - 1];
      assert !Fits(c, u);
      var s :| s in shapes && !Fits(s, u);
      assert Fits(s, c);
    }
    forall d | 0 <= d < |c| && c[d] != 1
      ensures HasSize(shapes, d, c[d])
    {
      var u := c[d := 1];
      assert !Fits(c, u);
      var s :| s in shapes && !Fits(s, u);
      assert Fits(s, c);
    }
  }

  /** A shape that all agreeing shapes fit. */
  ghost function Bound(shapes: set<Shape>): (u: Shape)
    ensures Agree(shapes) ==> FitAll(shapes, u)
  {
    seq(Rank(shapes), d requires d >= 0 => SizeAt(shapes, d))
  }

  ghost function Rank(shapes: set<Shape>): (n: nat)
    ensures forall s :: s in shapes ==> |s| <= n
  {
    if shapes == {} then 0 else
      var s :| s in shapes;
      var n := Rank(shapes - {s});
      if |s| > n then |s| else n
  }

  ghost function SizeAt(shapes: set<Shape>, d: nat): (v: int)
    ensures Agree(shapes) ==> forall s :: s in shapes && d < |s| ==> s[d] == 1 || s[d] == v
  {
    if s :| s in shapes && d < |s| && s[d] != 1 then s[d] else 1
  }

  /** The arguments that read an operand at an index of the result (array_reducer::broadcast). */
  method Broadcast(vars: seq<int>, size: Shape) returns (args: seq<int>)
    requires |size| <= |vars|
    ensures |args| == |size|
    ensures forall d :: 0 <= d < |size| ==> args[d] == if size[d] == 1 then 0 else vars[d]
    ensures forall c :: Fits(size, c) && InBounds(c, vars) ==> InBounds(size, args)
  {
    args := [];
    for d := 0 to |size|
      invariant |args| == d
      invariant forall e :: 0 <= e < d ==> args[e] == if size[e] == 1 then 0 else vars[e]
    {
      args := args + [if size[d] == 1 then 0 else vars[d]];
    }
  }

  /** Whatever the operands, reading each at an index inside their common size stays inside it. */
  lemma JoinedIndexIsInside(operands: seq<Option<Shape>>, r: Option<Shape>, i: nat, index: seq<int>, args: seq<int>)
    requires IsJoin(ArrayShapes(operands), r) && r.Some? && InBounds(r.value, index)
    requires i < |operands| && operands[i].Some? && |args| == |operands[i].value|
    requires forall d :: 0 <= d < |args| && d < |index| ==> args[d] == if operands[i].value[d] == 1 then 0 else index[d]
    ensures InBounds(operands[i].value, args)
  {
    assert operands[i].value in ArrayShapes(operands);
  }
}
