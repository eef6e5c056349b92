/** Lowering `++` and enumerations preserves the meaning of programs (frontend/array_reduction.cpp). */
module JoinMeaning {
  import opened Options
  import opened ArrayPrograms
  import opened Joins

  /** b is defined wherever a is, with the same value. */
  ghost predicate Sub(a: Option<int>, b: Option<int>) {
    a.Some? ==> b == a
  }

  ghost predicate RefinesElement(w: World, p: Program, q: Program, depth: nat, id: Id, index: seq<int>) {
    Sub(Element(w, p, depth, id, index), Element(w, q, depth, id, index))
  }

  /** q gives every element that p gives, to the same depth. */
  ghost predicate Refines(w: World, p: Program, q: Program, depth: nat) {
    forall id, index :: RefinesElement(w, p, q, depth, id, index)
  }

  ghost predicate Extends(env: map<VarId, int>, more: map<VarId, int>) {
    forall v :: v in env ==> v in more && more[v] == env[v]
  }

  // ---- The same expression in both programs -------------------------------------------------

  lemma {:induction false} EvalRefines(w: World, p: Program, q: Program, depth: nat, current: Id, e: Expr,
                                       env: map<VarId, int>, more: map<VarId, int>, rest: seq<int>)
    requires Refines(w, p, q, depth) && Extends(env, more)
    ensures Sub(Eval(w, p, depth, current, e, env, rest), Eval(w, q, depth, current, e, more, rest))
    decreases e, 1 + if e.Case? then |e.cases| else 0
  {
    match e
    case Const(_) =>
    case Bool(_) =>
    case Var(_) =>
    case Prim(_, operands) =>
      AllRefine(w, p, q, depth, current, operands, env, more, rest);
    case Case(_) =>
      CasesRefine(w, p, q, depth, current, e, 0, env, more, rest);
    case App(target, args) =>
      AllRefine(w, p, q, depth, current, args, env, more, []);
      var values := EvalAll(w, p, depth, current, args, env, []);
      if values.Some? {
        assert RefinesElement(w, p, q, depth, Target(target, current), values.value + rest);
      }
  }

  lemma {:induction false} CasesRefine(w: World, p: Program, q: Program, depth: nat, current: Id, e: Expr, k: nat,
                                       env: map<VarId, int>, more: map<VarId, int>, rest: seq<int>)
    requires Refines(w, p, q, depth) && Extends(env, more) && e.Case?
    ensures Sub(EvalCases(w, p, depth, current, e, k, env, rest), EvalCases(w, q, depth, current, e, k, more, rest))
    decreases e, |e.cases| - k
  {
    if k < |e.cases| {
      EvalRefines(w, p, q, depth, current, e.cases[k].guard, env, more, []);
      EvalRefines(w, p, q, depth, current, e.cases[k].value, env, more, rest);
      CasesRefine(w, p, q, depth, current, e, k + 1, env, more, rest);
    }
  }

  lemma {:induction false} AllRefine(w: World, p: Program, q: Program, depth: nat, current: Id, es: seq<Expr>,
                                     env: map<VarId, int>, more: map<VarId, int>, rest: seq<int>)
    requires Refines(w, p, q, depth) && Extends(env, more)
    ensures var a, b := EvalAll(w, p, depth, current, es, env, rest), EvalAll(w, q, depth, current, es, more, rest);
      a.Some? ==> b == a
    decreases es, 0
  {
    var a := EvalAll(w, p, depth, current, es, env, rest);
    EvalAllPointwise(w, p, depth, current, es, env, rest);
    if a.Some? {
      forall i | 0 <= i < |es| ensures Eval(w, q, depth, current, es[i], more, rest) == Some(a.value[i]) {
        EvalRefines(w, p, q, depth, current, es[i], env, more, rest);
      }
      EvalAllIs(w, q, depth, current, es, more, rest, a.value);
    }
  }

  lemma EvalAllIs(w: World, p: Program, depth: nat, current: Id, es: seq<Expr>, env: map<VarId, int>, rest: seq<int>,
                  values: seq<int>)
    requires |es| == |values|
    requires forall i :: 0 <= i < |es| ==> Eval(w, p, depth, current, es[i], env, rest) == Some(values[i])
    ensures EvalAll(w, p, depth, current, es, env, rest) == Some(values)
  {
    EvalAllPointwise(w, p, depth, current, es, env, rest);
    var r := EvalAll(w, p, depth, current, es, env, rest);
    assert r.value == values;
  }

  // ---- An operand's body, inlined -----------------------------------------------------------

  /** Where an operand is inlined: the result r, the operand's own name, its first row, the result's
      first variable, and what its variables are replaced by. */
  datatype Site = Site(r: Id, own: Id, join: Join, v: VarId, offset: int, rank: nat, vars: map<VarId, Expr>)

  function InlinedAt(s: Site, e: Expr): Expr {
    Inlined(e, s.vars, s.join, s.v, s.offset)
  }

  /** The result's index that a self reference of the operand turns into. */
  function SelfIndex(join: Join, offset: int, a: seq<int>): seq<int> {
    match join
    case Enumerate => [offset] + a
    case Concatenate => if a == [] then a else [a[0] + offset] + a[1..]
  }

  ghost predicate SelfElement(w: World, p: Program, q: Program, depth: nat, s: Site, a: seq<int>) {
    Sub(Element(w, p, depth, s.own, a), Element(w, q, depth, s.r, SelfIndex(s.join, s.offset, a)))
  }

  ghost predicate SelfRefines(w: World, p: Program, q: Program, depth: nat, s: Site) {
    forall a: seq<int> :: |a| == s.rank ==> SelfElement(w, p, q, depth, s, a)
  }

  /** Replaced variables have the values of the originals. */
  ghost predicate VarsAgree(w: World, q: Program, depth: nat, s: Site, env: map<VarId, int>, at: map<VarId, int>) {
    && (forall v :: v in env ==> v in s.vars && Eval(w, q, depth, s.r, s.vars[v], at, []) == Some(env[v]))
    && (s.join == Enumerate ==> s.v in at && at[s.v] == s.offset)
  }

  ghost predicate SiteHolds(w: World, p: Program, q: Program, depth: nat, s: Site, env: map<VarId, int>, at: map<VarId, int>) {
    Arithmetic(w) && s.rank > 0 && Refines(w, p, q, depth) && VarsAgree(w, q, depth, s, env, at)
  }

  lemma {:induction false} InlinedRefines(w: World, p: Program, q: Program, depth: nat, s: Site, e: Expr,
                                          env: map<VarId, int>, at: map<VarId, int>)
    requires SiteHolds(w, p, q, depth, s, env, at) && SelfRank(e, s.rank)
    requires HasSelf(e) ==> SelfRefines(w, p, q, depth, s)
    ensures Sub(Eval(w, p, depth, s.own, e, env, []), Eval(w, q, depth, s.r, InlinedAt(s, e), at, []))
    decreases e, 1 + if e.Case? then |e.cases| else 0
  {
    match e
    case Const(_) =>
    case Bool(_) =>
    case Var(_) =>
    case Prim(op, operands) =>
      AllInlinedRefine(w, p, q, depth, s, operands, env, at);
      assert InlinedAt(s, e) == Prim(op, AllInlined(s, operands));
    case Case(_) =>
      InlinedCasesRefine(w, p, q, depth, s, e, 0, env, at);
    case App(target, args) =>
      AllInlinedRefine(w, p, q, depth, s, args, env, at);
      InlinedAppRefines(w, p, q, depth, s, target, args, env, at);
  }

  function AllInlined(s: Site, es: seq<Expr>): (r: seq<Expr>)
    ensures |r| == |es| && forall i :: 0 <= i < |es| ==> r[i] == InlinedAt(s, es[i])
  {
    seq(|es|, i requires 0 <= i < |es| => InlinedAt(s, es[i]))
  }

  lemma {:induction false} AllInlinedRefine(w: World, p: Program, q: Program, depth: nat, s: Site, es: seq<Expr>,
                                            env: map<VarId, int>, at: map<VarId, int>)
    requires SiteHolds(w, p, q, depth, s, env, at)
    requires forall i :: 0 <= i < |es| ==> SelfRank(es[i], s.rank)
    requires (exists i :: 0 <= i < |es| && HasSelf(es[i])) ==> SelfRefines(w, p, q, depth, s)
    ensures var a := EvalAll(w, p, depth, s.own, es, env, []);
      a.Some? ==> EvalAll(w, q, depth, s.r, AllInlined(s, es), at, []) == a
    decreases es, 0
  {
    var a := EvalAll(w, p, depth, s.own, es, env, []);
    EvalAllPointwise(w, p, depth, s.own, es, env, []);
    if a.Some? {
      forall i | 0 <= i < |es| ensures Eval(w, q, depth, s.r, AllInlined(s, es)[i], at, []) == Some(a.value[i]) {
        InlinedRefines(w, p, q, depth, s, es[i], env, at);
      }
      EvalAllIs(w, q, depth, s.r, AllInlined(s, es), at, [], a.value);
    }
  }

  lemma {:induction false} InlinedCasesRefine(w: World, p: Program, q: Program, depth: nat, s: Site, e: Expr, k: nat,
                                              env: map<VarId, int>, at: map<VarId, int>)
    requires SiteHolds(w, p, q, depth, s, env, at) && e.Case? && SelfRank(e, s.rank)
    requires HasSelf(e) ==> SelfRefines(w, p, q, depth, s)
    ensures Sub(EvalCases(w, p, depth, s.own, e, k, env, []), EvalCases(w, q, depth, s.r, InlinedAt(s, e), k, at, []))
    decreases e, |e.cases| - k
  {
    if k < |e.cases| {
      assert InlinedAt(s, e).cases[k] == Branch(InlinedAt(s, e.cases[k].guard), InlinedAt(s, e.cases[k].value));
      InlinedRefines(w, p, q, depth, s, e.cases[k].guard, env, at);
      InlinedRefines(w, p, q, depth, s, e.cases[k].value, env, at);
      InlinedCasesRefine(w, p, q, depth, s, e, k + 1, env, at);
    }
  }

  lemma InlinedAppRefines(w: World, p: Program, q: Program, depth: nat, s: Site, target: Object, args: seq<Expr>,
                          env: map<VarId, int>, at: map<VarId, int>)
    requires SiteHolds(w, p, q, depth, s, env, at) && SelfRank(App(target, args), s.rank)
    requires target == SelfRef ==> SelfRefines(w, p, q, depth, s)
    requires var a := EvalAll(w, p, depth, s.own, args, env, []);
      a.Some? ==> EvalAll(w, q, depth, s.r, AllInlined(s, args), at, []) == a
    ensures Sub(Eval(w, p, depth, s.own, App(target, args), env, []), Eval(w, q, depth, s.r, InlinedAt(s, App(target, args)), at, []))
  {
    var a := EvalAll(w, p, depth, s.own, args, env, []);
    assert InlinedAt(s, App(target, args)) ==
      App(target, if target == SelfRef then SelfArgs(s.join, s.v, s.offset, AllInlined(s, args)) else AllInlined(s, args));
    if a.Some? {
      AppValue(w, p, depth, s.own, target, args, env, a.value);
      if target == SelfRef {
        SelfArgsValue(w, q, depth, s, AllInlined(s, args), at, a.value);
        assert SelfElement(w, p, q, depth, s, a.value);
        AppValue(w, q, depth, s.r, target, SelfArgs(s.join, s.v, s.offset, AllInlined(s, args)), at, SelfIndex(s.join, s.offset, a.value));
      } else {
        assert RefinesElement(w, p, q, depth, target.id, a.value);
        AppValue(w, q, depth, s.r, target, AllInlined(s, args), at, a.value);
      }
    }
  }

  lemma AppValue(w: World, p: Program, depth: nat, current: Id, target: Object, args: seq<Expr>, env: map<VarId, int>,
                 values: seq<int>)
    requires EvalAll(w, p, depth, current, args, env, []) == Some(values)
    ensures Eval(w, p, depth, current, App(target, args), env, []) == Element(w, p, depth, Target(target, current), values)
  {
    assert values + [] == values;
  }

  lemma SelfArgsValue(w: World, q: Program, depth: nat, s: Site, args: seq<Expr>, at: map<VarId, int>, a: seq<int>)
    requires Arithmetic(w) && s.rank > 0 && |args| == s.rank
    requires s.join == Enumerate ==> s.v in at && at[s.v] == s.offset
    requires EvalAll(w, q, depth, s.r, args, at, []) == Some(a)
    ensures EvalAll(w, q, depth, s.r, SelfArgs(s.join, s.v, s.offset, args), at, []) == Some(SelfIndex(s.join, s.offset, a))
  {
    EvalAllPointwise(w, q, depth, s.r, args, at, []);
    var moved, index := SelfArgs(s.join, s.v, s.offset, args), SelfIndex(s.join, s.offset, a);
    if s.join.Concatenate? {
      EvalAllIs(w, q, depth, s.r, [args[0], Const(s.offset)], at, [], [a[0], s.offset]);
      assert w.prim(ADD, [a[0], s.offset]) == a[0] + s.offset;
    }
    forall i | 0 <= i < |moved| ensures Eval(w, q, depth, s.r, moved[i], at, []) == Some(index[i]) {
    }
    EvalAllIs(w, q, depth, s.r, moved, at, [], index);
  }

  // ---- Guards and arguments -----------------------------------------------------------------

  /** The rows that a guard admits. */
  ghost predicate Admits(offset: int, extent: int, i: int) {
    i >= offset && (extent < 0 || i < offset + extent)
  }

  lemma GuardValue(w: World, q: Program, depth: nat, r: Id, v: VarId, offset: int, extent: int, at: map<VarId, int>)
    requires Arithmetic(w) && v in at && extent >= -1
    ensures var g := Eval(w, q, depth, r, Guard(v, offset, extent), at, []);
      g.Some? && (g.value != 0 <==> Admits(offset, extent, at[v]))
  {
    var i := at[v];
    if extent == 1 {
      EvalAllIs(w, q, depth, r, [Var(v), Const(offset)], at, [], [i, offset]);
    } else {
      EvalAllIs(w, q, depth, r, [Var(v), Const(offset)], at, [], [i, offset]);
      if extent != -1 {
        var low, high := Prim(AT_LEAST, [Var(v), Const(offset)]), Prim(AT_MOST, [Var(v), Const(offset + extent - 1)]);
        EvalAllIs(w, q, depth, r, [Var(v), Const(offset + extent - 1)], at, [], [i, offset + extent - 1]);
        EvalAllIs(w, q, depth, r, [low, high], at, [],
          [w.prim(AT_LEAST, [i, offset]), w.prim(AT_MOST, [i, offset + extent - 1])]);
      }
    }
  }

  /** Arguments evaluate to the operand's index. */
  lemma ArgValue(w: World, q: Program, depth: nat, r: Id, join: Join, vs: seq<VarId>, size: seq<int>, offset: int,
                 x: seq<int>, d: nat)
    requires Arithmetic(w) && Distinct(vs) && |vs| == |x| && d < |size| && |size| + Shift(join) <= |vs| && offset >= 0
    ensures Eval(w, q, depth, r, Args(join, vs, size, offset)[d], Bind(vs, x), [])
         == Some(PartIndex(join, size, x[0] - offset, x)[d])
  {
    var at := Bind(vs, x);
    BoundVariable(vs, x, 0);
    if join == Concatenate && d == 0 {
      if offset > 0 {
        EvalAllIs(w, q, depth, r, [Var(vs[0]), Const(offset)], at, [], [x[0], offset]);
      }
    } else {
      BoundVariable(vs, x, d + Shift(join));
    }
  }

  lemma {:induction false} BoundExpr(vars: seq<VarId>, args: seq<Expr>, i: nat)
    requires i < |vars| <= |args| && Distinct(vars)
    ensures vars[i] in BindExprs(vars, args) && BindExprs(vars, args)[vars[i]] == args[i]
  {
    var n := |vars| - 1;
    if i < n {
      BoundExpr(vars[..n], args, i);
    }
  }

  /** The site of operand j, with rows counted from its start. */
  function SiteOf(p: Program, r: Id, join: Join, vs: seq<VarId>, own: Id, size: seq<int>, offset: int): Site
    requires vs != [] && own in p && p[own].Array? && |p[own].vars| == |size| && |size| + Shift(join) <= |vs|
  {
    Site(r, own, join, vs[0], offset, |size|, BindExprs(p[own].vars, Args(join, vs, size, offset)))
  }

  lemma SiteVarsAgree(w: World, p: Program, q: Program, depth: nat, r: Id, join: Join, vs: seq<VarId>, own: Id,
                      size: seq<int>, offset: int, x: seq<int>)
    requires Arithmetic(w) && Distinct(vs) && 0 < |vs| == |x| && offset >= 0
    requires own in p && p[own].Array? && |p[own].vars| == |size| && |size| + Shift(join) <= |vs| && Distinct(p[own].vars)
    ensures var s, env := SiteOf(p, r, join, vs, own, size, offset), Bind(p[own].vars, PartIndex(join, size, x[0] - offset, x));
      forall v :: v in p[own].vars ==>
        v in env && v in s.vars && Eval(w, q, depth, r, s.vars[v], Bind(vs, x), []) == Some(env[v])
  {
    var at := PartIndex(join, size, x[0] - offset, x);
    forall v | v in p[own].vars
      ensures v in Bind(p[own].vars, at) && v in BindExprs(p[own].vars, Args(join, vs, size, offset))
      ensures Eval(w, q, depth, r, BindExprs(p[own].vars, Args(join, vs, size, offset))[v], Bind(vs, x), [])
           == Some(Bind(p[own].vars, at)[v])
    {
      var d :| 0 <= d < |p[own].vars| && p[own].vars[d] == v;
      BoundVariable(p[own].vars, at, d);
      BoundExpr(p[own].vars, Args(join, vs, size, offset), d);
      ArgValue(w, q, depth, r, join, vs, size, offset, x, d);
    }
  }

  /** Constraints always have a value, inlined or not. */
  lemma {:induction false} AffineTotal(w: World, q: Program, depth: nat, r: Id, e: Expr, vars: seq<VarId>, at: map<VarId, int>)
    requires AffineGuard(e, vars) && forall v :: v in vars ==> v in at
    ensures Eval(w, q, depth, r, e, at, []).Some?
  {
    match e
    case Const(_) =>
    case Bool(_) =>
    case Var(_) =>
    case Prim(_, operands) =>
      forall i | 0 <= i < |operands| ensures Eval(w, q, depth, r, operands[i], at, []).Some? {
        AffineTotal(w, q, depth, r, operands[i], vars, at);
      }
      EvalAllPointwise(w, q, depth, r, operands, at, []);
  }

  lemma {:induction false} InlinedAffineTotal(w: World, q: Program, depth: nat, s: Site, e: Expr, vars: seq<VarId>,
                                              at: map<VarId, int>)
    requires AffineGuard(e, vars)
    requires forall v :: v in vars ==> v in s.vars && Eval(w, q, depth, s.r, s.vars[v], at, []).Some?
    ensures Eval(w, q, depth, s.r, InlinedAt(s, e), at, []).Some?
  {
    match e
    case Const(_) =>
    case Bool(_) =>
    case Var(_) =>
    case Prim(op, operands) =>
      forall i | 0 <= i < |operands| ensures Eval(w, q, depth, s.r, AllInlined(s, operands)[i], at, []).Some? {
        InlinedAffineTotal(w, q, depth, s, operands[i], vars, at);
      }
      EvalAllPointwise(w, q, depth, s.r, AllInlined(s, operands), at, []);
      assert InlinedAt(s, e) == Prim(op, AllInlined(s, operands));
  }

  lemma BothValue(w: World, q: Program, depth: nat, r: Id, a: Expr, b: Expr, at: map<VarId, int>)
    requires Arithmetic(w)
    requires Eval(w, q, depth, r, a, at, []).Some? && Eval(w, q, depth, r, b, at, []).Some?
    ensures var g := Eval(w, q, depth, r, Both(a, b), at, []);
      && g.Some?
      && (g.value != 0 <==> Eval(w, q, depth, r, a, at, []).value != 0 && Eval(w, q, depth, r, b, at, []).value != 0)
  {
    var x, y := Eval(w, q, depth, r, a, at, []).value, Eval(w, q, depth, r, b, at, []).value;
    EvalAllIs(w, q, depth, r, [a, b], at, [], [x, y]);
  }

  // ---- Finding the operand's cases ----------------------------------------------------------

  ghost predicate False(w: World, q: Program, depth: nat, r: Id, b: Branch, at: map<VarId, int>) {
    Eval(w, q, depth, r, b.guard, at, []) == Some(0)
  }

  /** If the guard is false and nested guards have values, all flattened guards are false. */
  lemma FlattenedFalse(w: World, q: Program, depth: nat, r: Id, b: Branch, at: map<VarId, int>)
    requires Arithmetic(w) && False(w, q, depth, r, b, at)
    requires b.value.Case? ==> forall k :: 0 <= k < |b.value.cases| ==> Eval(w, q, depth, r, b.value.cases[k].guard, at, []).Some?
    ensures forall k :: 0 <= k < |Flattened(b)| ==> False(w, q, depth, r, Flattened(b)[k], at)
  {
    if b.value.Case? {
      forall k | 0 <= k < |b.value.cases| ensures False(w, q, depth, r, Flattened(b)[k], at) {
        BothValue(w, q, depth, r, b.guard, b.value.cases[k].guard, at);
      }
    }
  }

  lemma {:induction false} SkipFalse(w: World, q: Program, depth: nat, r: Id, e: Expr, k: nat, start: nat, at: map<VarId, int>)
    requires e.Case? && k <= start <= |e.cases|
    requires forall i :: k <= i < start ==> False(w, q, depth, r, e.cases[i], at)
    ensures EvalCases(w, q, depth, r, e, k, at, []) == EvalCases(w, q, depth, r, e, start, at, [])
    decreases start - k
  {
    if k < start {
      assert False(w, q, depth, r, e.cases[k], at);
      SkipFalse(w, q, depth, r, e, k + 1, start, at);
    }
  }

  /** A true guard in front of nested cases whose guards have values: the flattened cases give exactly what
      the nested ones give, if no case after them holds. */
  lemma {:induction false} NestedCases(w: World, q: Program, depth: nat, r: Id, e: Expr, start: nat, b: Branch, k: nat,
                                       at: map<VarId, int>)
    requires Arithmetic(w) && e.Case? && b.value.Case? && k <= |b.value.cases|
    requires start + |b.value.cases| <= |e.cases| && e.cases[start..start + |b.value.cases|] == Flattened(b)
    requires Eval(w, q, depth, r, b.guard, at, []).Some? && Eval(w, q, depth, r, b.guard, at, []).value != 0
    requires forall i :: 0 <= i < |b.value.cases| ==> Eval(w, q, depth, r, b.value.cases[i].guard, at, []).Some?
    requires EvalCases(w, q, depth, r, e, start + |b.value.cases|, at, []) == None
    ensures EvalCases(w, q, depth, r, e, start + k, at, []) == EvalCases(w, q, depth, r, b.value, k, at, [])
    decreases |b.value.cases| - k
  {
    if k < |b.value.cases| {
      assert e.cases[start + k] == Flattened(b)[k];
      BothValue(w, q, depth, r, b.guard, b.value.cases[k].guard, at);
      NestedCases(w, q, depth, r, e, start, b, k + 1, at);
    }
  }

  /** The cases of the operand whose guard is true, all others being false, are the whole. */
  lemma ChosenGroup(w: World, q: Program, depth: nat, r: Id, e: Expr, start: nat, b: Branch, at: map<VarId, int>)
    requires Arithmetic(w) && e.Case?
    requires start + |Flattened(b)| <= |e.cases| && e.cases[start..start + |Flattened(b)|] == Flattened(b)
    requires forall i :: 0 <= i < |e.cases| && !(start <= i < start + |Flattened(b)|) ==> False(w, q, depth, r, e.cases[i], at)
    requires b.value.Case? ==> forall i :: 0 <= i < |b.value.cases| ==> Eval(w, q, depth, r, b.value.cases[i].guard, at, []).Some?
    requires Eval(w, q, depth, r, b.guard, at, []).Some? && Eval(w, q, depth, r, b.guard, at, []).value != 0
    ensures Eval(w, q, depth, r, e, at, []) == Eval(w, q, depth, r, b.value, at, [])
  {
    SkipFalse(w, q, depth, r, e, 0, start, at);
    if b.value.Case? {
      RestIsFalse(w, q, depth, r, e, start + |b.value.cases|, at);
      NestedCases(w, q, depth, r, e, start, b, 0, at);
    } else {
      assert e.cases[start] == Flattened(b)[0];
    }
  }

  lemma {:induction false} RestIsFalse(w: World, q: Program, depth: nat, r: Id, e: Expr, k: nat, at: map<VarId, int>)
    requires e.Case? && k <= |e.cases|
    requires forall i :: k <= i < |e.cases| ==> False(w, q, depth, r, e.cases[i], at)
    ensures EvalCases(w, q, depth, r, e, k, at, []) == None
    decreases |e.cases| - k
  {
    if k < |e.cases| {
      RestIsFalse(w, q, depth, r, e, k + 1, at);
    }
  }

  lemma {:induction false} ConcatPrefix(groups: seq<seq<Branch>>, n: nat)
    requires n <= |groups|
    ensures Concat(groups[..n]) <= Concat(groups)
    decreases |groups|
  {
    if n < |groups| {
      var shorter := groups[..|groups| - 1];
      ConcatPrefix(shorter, n);
      assert shorter[..n] == groups[..n];
    } else {
      assert groups[..n] == groups;
    }
  }

  /** Where group j is in the concatenation. */
  lemma GroupPosition(groups: seq<seq<Branch>>, j: nat)
    requires j < |groups|
    ensures var all, before, group := Concat(groups), Concat(groups[..j]), groups[j];
      && |before| + |group| <= |all| && all[|before|..|before| + |group|] == group
      && forall i :: 0 <= i < |before| ==> all[i] == before[i]
  {
    ConcatPrefix(groups, j);
    ConcatPrefix(groups, j + 1);
    assert groups[..j + 1][..j] == groups[..j];
  }

  /** Cases outside group j are false if the other groups' are. */
  lemma {:induction false} OthersFalse(w: World, q: Program, depth: nat, r: Id, groups: seq<seq<Branch>>, j: nat, m: nat,
                                       at: map<VarId, int>)
    requires j < |groups| && m <= |groups|
    requires forall n, i :: 0 <= n < m && n != j && 0 <= i < |groups[n]| ==> False(w, q, depth, r, groups[n][i], at)
    ensures m <= j ==> forall i :: 0 <= i < |Concat(groups[..m])| ==> False(w, q, depth, r, Concat(groups[..m])[i], at)
    ensures m > j ==> forall i :: |Concat(groups[..j])| + |groups[j]| <= i < |Concat(groups[..m])| ==>
      False(w, q, depth, r, Concat(groups[..m])[i], at)
  {
    if m > 0 {
      OthersFalse(w, q, depth, r, groups, j, m - 1, at);
      assert groups[..m][..m - 1] == groups[..m - 1];
      assert Concat(groups[..m]) == Concat(groups[..m - 1]) + groups[m - 1];
    }
  }

  lemma {:induction false} BoundExprValues(vars: seq<VarId>, args: seq<Expr>, v: VarId)
    requires |vars| <= |args| && v in BindExprs(vars, args)
    ensures BindExprs(vars, args)[v] in args
  {
    var n := |vars| - 1;
    if v != vars[n] {
      BoundExprValues(vars[..n], args, v);
    }
  }

  /** Nested cases of an applied operand come from cases in its body, whose guards have values. */
  lemma PartGuardsTotal(w: World, p: Program, q: Program, depth: nat, r: Id, vs: seq<VarId>, j: nat, x: seq<int>)
    requires Arithmetic(w) && WellJoined(p, r, vs) && j < |p[r].parts| && |x| == |vs|
    requires PartsFit(p[r].join, vs, p[r].parts)
    ensures var b := PartBranch(p, p[r].join, vs, p[r].parts, j);
      b.value.Case? ==> forall k :: 0 <= k < |b.value.cases| ==>
        Eval(w, q, depth, r, b.value.cases[k].guard, Bind(vs, x), []).Some?
  {
    var join, parts, part := p[r].join, p[r].parts, p[r].parts[j];
    var offset, b := Offset(join, parts, j), PartBranch(p, join, vs, parts, j);
    assert FitsPart(p, join, p[r].size, part);
    OffsetNonNegative(join, parts, j);
    match part
    case Single(e) =>
      if e.Case? {
        forall k | 0 <= k < |e.cases| ensures Eval(w, q, depth, r, e.cases[k].guard, Bind(vs, x), []).Some? {
          AffineTotal(w, q, depth, r, e.cases[k].guard, [], Bind(vs, x));
        }
      }
    case Named(_, _) =>
    case Literal(own, size) =>
      LiteralGuardsTotal(w, p, q, depth, r, join, vs, p[r].size, own, size, offset, x);
  }

  lemma LiteralGuardsTotal(w: World, p: Program, q: Program, depth: nat, r: Id, join: Join, vs: seq<VarId>, total: seq<int>,
                           own: Id, size: seq<int>, offset: int, x: seq<int>)
    requires Arithmetic(w) && FitsPart(p, join, total, Literal(own, size)) && Distinct(vs) && 0 < |vs| == |x| == |total| && offset >= 0
    ensures var value := Applied(p, join, vs, Literal(own, size), offset);
      value.Case? ==> forall k :: 0 <= k < |value.cases| ==>
        Eval(w, q, depth, r, value.cases[k].guard, Bind(vs, x), []).Some?
  {
    var s, body, value := SiteOf(p, r, join, vs, own, size, offset), p[own].body, Applied(p, join, vs, Literal(own, size), offset);
    SiteVarsAgree(w, p, q, depth, r, join, vs, own, size, offset, x);
    if body.Var? && body.v in s.vars {
      BoundExprValues(p[own].vars, Args(join, vs, size, offset), body.v);
      assert !value.Case?;
    }
    if body.Case? {
      forall k | 0 <= k < |body.cases| ensures Eval(w, q, depth, r, value.cases[k].guard, Bind(vs, x), []).Some? {
        InlinedAffineTotal(w, q, depth, s, body.cases[k].guard, p[own].vars, Bind(vs, x));
      }
    }
  }

  /** The guard of an operand is true exactly at its rows. */
  lemma PartGuard(w: World, p: Program, q: Program, depth: nat, r: Id, vs: seq<VarId>, j: nat, x: seq<int>)
    requires Arithmetic(w) && WellJoined(p, r, vs) && j < |p[r].parts| && |x| == |vs|
    requires PartsFit(p[r].join, vs, p[r].parts)
    ensures var b := PartBranch(p, p[r].join, vs, p[r].parts, j);
      var g := Eval(w, q, depth, r, b.guard, Bind(vs, x), []);
      g.Some? && (g.value != 0 <==> Admits(Offset(p[r].join, p[r].parts, j), Extent(p[r].join, p[r].parts[j]), x[0]))
  {
    BoundVariable(vs, x, 0);
    GuardValue(w, q, depth, r, vs[0], Offset(p[r].join, p[r].parts, j), Extent(p[r].join, p[r].parts[j]), Bind(vs, x));
  }

  lemma OtherGroupFalse(w: World, p: Program, q: Program, depth: nat, r: Id, vs: seq<VarId>, n: nat, j: nat, row: int,
                        x: seq<int>)
    requires Arithmetic(w) && WellJoined(p, r, vs) && n != j && n < |p[r].parts| && |x| == |vs|
    requires PartsFit(p[r].join, vs, p[r].parts) && IsRowOf(p[r].join, p[r].parts, j, row, x[0])
    ensures var group := Flattened(PartBranch(p, p[r].join, vs, p[r].parts, n));
      forall i :: 0 <= i < |group| ==> False(w, q, depth, r, group[i], Bind(vs, x))
  {
    if n < j {
      OffsetsGrow(p[r].join, p[r].parts, n, j);
    } else {
      OffsetsGrow(p[r].join, p[r].parts, j, n);
    }
    PartGuard(w, p, q, depth, r, vs, n, x);
    PartGuardsTotal(w, p, q, depth, r, vs, n, x);
    FlattenedFalse(w, q, depth, r, PartBranch(p, p[r].join, vs, p[r].parts, n), Bind(vs, x));
  }

  // ---- The main result ----------------------------------------------------------------------

  /** The program in which the joined array r is lowered. */
  ghost predicate IsLoweredProgram(p: Program, q: Program, r: Id, vs: seq<VarId>) {
    && WellJoined(p, r, vs) && PartsFit(p[r].join, vs, p[r].parts)
    && q == p[r := Array(vs, p[r].size, Case(Lowered(p, p[r].join, vs, p[r].parts)))]
  }

  lemma SelfIndexInBounds(join: Join, size: seq<int>, s: seq<int>, offset: int, a: seq<int>)
    requires FitsSize(join, size, s) && |s| + Shift(join) == |size| && InBounds(s, a)
    requires forall d :: 0 < d < |size| ==> size[d] >= 1 || size[d] == -1
    requires var x := SelfIndex(join, offset, a); 0 <= x[0] && (size[0] >= 0 ==> x[0] < size[0])
    ensures InBounds(size, SelfIndex(join, offset, a))
  {
    var x := SelfIndex(join, offset, a);
    forall d | 0 < d < |size| ensures 0 <= x[d] && (size[d] >= 0 ==> x[d] < size[d]) {
      assert x[d] == a[d - Shift(join)];
    }
  }

  lemma SelfIndexRow(join: Join, s: seq<int>, offset: int, a: seq<int>)
    requires InBounds(s, a) && s != []
    ensures var x := SelfIndex(join, offset, a); PartIndex(join, s, x[0] - offset, x) == a
  {
    var x := SelfIndex(join, offset, a);
    var index := PartIndex(join, s, x[0] - offset, x);
    forall d | 0 <= d < |s| ensures index[d] == a[d] {
      assert d > 0 || join == Enumerate ==> x[d + Shift(join)] == a[d];
    }
  }

  /** An element of an operand written in place is an element of the result. */
  lemma OperandIsPart(w: World, p: Program, depth: nat, r: Id, vs: seq<VarId>, j: nat, a: seq<int>)
    requires WellJoined(p, r, vs) && j < |p[r].parts| && p[r].parts[j].Literal?
    requires HasSelf(p[p[r].parts[j].id].body) && InBounds(p[r].parts[j].size, a)
    ensures Element(w, p, depth, r, SelfIndex(p[r].join, Offset(p[r].join, p[r].parts, j), a))
         == Element(w, p, depth, p[r].parts[j].id, a)
  {
    var join, parts, own := p[r].join, p[r].parts, p[r].parts[j].id;
    var offset := Offset(join, parts, j);
    var x := SelfIndex(join, offset, a);
    assert FitsPart(p, join, p[r].size, parts[j]);
    OffsetNonNegative(join, parts, j);
    var row := x[0] - offset;
    assert IsRowOf(join, parts, j, row, x[0]);
    LocatedRow(join, parts, j, row, x[0]);
    RowsTile(join, parts, p[r].size[0], x[0]);
    SelfIndexInBounds(join, p[r].size, parts[j].size, offset, a);
    SelfIndexRow(join, parts[j].size, offset, a);
    RowElement(w, p, depth, r, x, j, row);
    LiteralElement(w, p, depth, r, join, own, parts[j].size, row, x, a);
  }

  lemma RowElement(w: World, p: Program, depth: nat, r: Id, x: seq<int>, j: nat, row: int)
    requires r in p && p[r].Joined? && InBounds(p[r].size, x) && x != [] && j < |p[r].parts|
    requires Locate(p[r].join, p[r].parts, 0, x[0]) == Some((j, row))
    ensures Element(w, p, depth, r, x)
         == if depth == 0 then None else PartElement(w, p, depth - 1, r, p[r].join, p[r].parts[j], row, x)
  {
  }

  lemma LiteralElement(w: World, p: Program, depth: nat, r: Id, join: Join, own: Id, size: seq<int>, row: int, x: seq<int>, a: seq<int>)
    requires own in p && p[own].Array? && p[own].size == size && |p[own].vars| == |size| && InBounds(size, a)
    requires PartIndex(join, size, row, x) == a
    ensures Element(w, p, depth, own, a)
         == if depth == 0 then None else PartElement(w, p, depth - 1, r, join, Literal(own, size), row, x)
  {
    assert a[|p[own].vars|..] == [];
  }

  /** Self references of operand j are references to the result. */
  lemma SelfFollows(w: World, p: Program, q: Program, depth: nat, r: Id, vs: seq<VarId>, j: nat)
    requires WellJoined(p, r, vs) && Refines(w, p, q, depth) && j < |p[r].parts| && p[r].parts[j].Literal?
    requires FitsPart(p, p[r].join, p[r].size, p[r].parts[j]) && HasSelf(p[p[r].parts[j].id].body)
    ensures SelfRefines(w, p, q, depth,
      SiteOf(p, r, p[r].join, vs, p[r].parts[j].id, p[r].parts[j].size, Offset(p[r].join, p[r].parts, j)))
  {
    var offset := Offset(p[r].join, p[r].parts, j);
    var s := SiteOf(p, r, p[r].join, vs, p[r].parts[j].id, p[r].parts[j].size, offset);
    forall a: seq<int> | |a| == s.rank ensures SelfElement(w, p, q, depth, s, a) {
      if Element(w, p, depth, s.own, a).Some? {
        OperandIsPart(w, p, depth, r, vs, j, a);
        assert RefinesElement(w, p, q, depth, r, SelfIndex(s.join, offset, a));
      }
    }
  }

  /** An operand applied to its arguments has the operand's elements. */
  lemma PartRefines(w: World, p: Program, q: Program, depth: nat, r: Id, vs: seq<VarId>, join: Join, size: seq<int>,
                    part: Operand, offset: nat, x: seq<int>)
    requires Arithmetic(w) && Refines(w, p, q, depth) && FitsPart(p, join, size, part)
    requires 0 < |vs| == |x| == |size| && Distinct(vs) && (join == Enumerate ==> x[0] == offset)
    requires part.Literal? && HasSelf(p[part.id].body) ==>
      SelfRefines(w, p, q, depth, SiteOf(p, r, join, vs, part.id, part.size, offset))
    ensures Sub(PartElement(w, p, depth, r, join, part, x[0] - offset, x),
                Eval(w, q, depth, r, Applied(p, join, vs, part, offset), Bind(vs, x), []))
  {
    var at := Bind(vs, x);
    match part
    case Single(e) =>
      EvalRefines(w, p, q, depth, r, e, map[], at, []);
    case Named(id, s) =>
      var index := PartIndex(join, s, x[0] - offset, x);
      forall d | 0 <= d < |s| ensures Eval(w, q, depth, r, Args(join, vs, s, offset)[d], at, []) == Some(index[d]) {
        ArgValue(w, q, depth, r, join, vs, s, offset, x, d);
      }
      EvalAllIs(w, q, depth, r, Args(join, vs, s, offset), at, [], index);
      AppValue(w, q, depth, r, Ref(id), Args(join, vs, s, offset), at, index);
      assert RefinesElement(w, p, q, depth, id, index);
    case Literal(own, s) =>
      var site, index := SiteOf(p, r, join, vs, own, s, offset), PartIndex(join, s, x[0] - offset, x);
      SiteVarsAgree(w, p, q, depth, r, join, vs, own, s, offset, x);
      BoundNames(p[own].vars, index);
      BoundVariable(vs, x, 0);
      InlinedRefines(w, p, q, depth, site, p[own].body, Bind(p[own].vars, index), at);
  }

  /** The lowered cases are, at each row, those of the operand that has it. */
  lemma OperandIsSelected(w: World, p: Program, q: Program, depth: nat, r: Id, vs: seq<VarId>, j: nat, row: int, x: seq<int>)
    requires Arithmetic(w) && WellJoined(p, r, vs) && PartsFit(p[r].join, vs, p[r].parts) && |x| == |vs|
    requires IsRowOf(p[r].join, p[r].parts, j, row, x[0])
    ensures var join, parts := p[r].join, p[r].parts;
      Eval(w, q, depth, r, Case(Lowered(p, join, vs, parts)), Bind(vs, x), [])
        == Eval(w, q, depth, r, Applied(p, join, vs, parts[j], Offset(join, parts, j)), Bind(vs, x), [])
  {
    var join, parts := p[r].join, p[r].parts;
    var groups, at := Groups(p, join, vs, parts), Bind(vs, x);
    PartGuard(w, p, q, depth, r, vs, j, x);
    PartGuardsTotal(w, p, q, depth, r, vs, j, x);
    forall n: nat | n < |groups| && n != j ensures forall i :: 0 <= i < |groups[n]| ==> False(w, q, depth, r, groups[n][i], at) {
      OtherGroupFalse(w, p, q, depth, r, vs, n, j, row, x);
    }
    OthersFalse(w, q, depth, r, groups, j, j, at);
    OthersFalse(w, q, depth, r, groups, j, |groups|, at);
    assert groups[..|groups|] == groups;
    GroupPosition(groups, j);
    ChosenGroup(w, q, depth, r, Case(Concat(groups)), |Concat(groups[..j])|, PartBranch(p, join, vs, parts, j), at);
  }

  lemma LocatedElement(w: World, p: Program, depth: nat, r: Id, vs: seq<VarId>, x: seq<int>) returns (j: nat, row: int)
    requires WellJoined(p, r, vs) && Element(w, p, depth + 1, r, x).Some?
    ensures |x| == |vs| && InBounds(p[r].size, x) && j < |p[r].parts| && IsRowOf(p[r].join, p[r].parts, j, row, x[0])
    ensures Element(w, p, depth + 1, r, x) == PartElement(w, p, depth, r, p[r].join, p[r].parts[j], row, x)
  {
    LocateIsExact(p[r].join, p[r].parts, 0, x[0]);
    j, row := Locate(p[r].join, p[r].parts, 0, x[0]).value.0, Locate(p[r].join, p[r].parts, 0, x[0]).value.1;
  }

  lemma LoweredElement(w: World, p: Program, q: Program, depth: nat, r: Id, vs: seq<VarId>, x: seq<int>)
    requires IsLoweredProgram(p, q, r, vs) && InBounds(p[r].size, x) && |x| == |vs|
    ensures Element(w, q, depth + 1, r, x) == Eval(w, q, depth, r, Case(Lowered(p, p[r].join, vs, p[r].parts)), Bind(vs, x), [])
  {
    assert x[|vs|..] == [];
  }

  ghost predicate IsRow(p: Program, r: Id, vs: seq<VarId>, j: nat, row: int, x: seq<int>) {
    && WellJoined(p, r, vs) && PartsFit(p[r].join, vs, p[r].parts) && |x| == |vs|
    && j < |p[r].parts| && IsRowOf(p[r].join, p[r].parts, j, row, x[0])
  }

  /** Operand j, applied, in the body of the lowered array; and its element in the program. */
  ghost function AppliedElement(w: World, p: Program, q: Program, depth: nat, r: Id, vs: seq<VarId>, j: nat, row: int, x: seq<int>):
    Option<int>
    requires IsRow(p, r, vs, j, row, x)
  {
    Eval(w, q, depth, r, Applied(p, p[r].join, vs, p[r].parts[j], Offset(p[r].join, p[r].parts, j)), Bind(vs, x), [])
  }

  ghost function OperandElement(w: World, p: Program, depth: nat, r: Id, vs: seq<VarId>, j: nat, row: int, x: seq<int>): Option<int>
    requires IsRow(p, r, vs, j, row, x)
  {
    PartElement(w, p, depth, r, p[r].join, p[r].parts[j], row, x)
  }

  /** An element of the lowered array is that of the operand that has the row, applied. */
  lemma LoweredPart(w: World, p: Program, q: Program, depth: nat, r: Id, vs: seq<VarId>, j: nat, row: int, x: seq<int>)
    requires Arithmetic(w) && IsLoweredProgram(p, q, r, vs) && InBounds(p[r].size, x) && IsRow(p, r, vs, j, row, x)
    ensures Element(w, q, depth + 1, r, x) == AppliedElement(w, p, q, depth, r, vs, j, row, x)
  {
    OperandIsSelected(w, p, q, depth, r, vs, j, row, x);
    LoweredElement(w, p, q, depth, r, vs, x);
  }

  lemma PartFacts(p: Program, r: Id, vs: seq<VarId>, j: nat, row: int, i: int)
    requires WellJoined(p, r, vs) && IsRowOf(p[r].join, p[r].parts, j, row, i)
    ensures FitsPart(p, p[r].join, p[r].size, p[r].parts[j]) && Offset(p[r].join, p[r].parts, j) >= 0
    ensures row == i - Offset(p[r].join, p[r].parts, j) && (p[r].join == Enumerate ==> row == 0)
    ensures 0 < |vs| == |p[r].size| && Distinct(vs)
  {
    OffsetNonNegative(p[r].join, p[r].parts, j);
  }

  lemma SelfCovered(w: World, p: Program, q: Program, depth: nat, r: Id, vs: seq<VarId>, j: nat)
    requires WellJoined(p, r, vs) && Refines(w, p, q, depth) && j < |p[r].parts|
    requires FitsPart(p, p[r].join, p[r].size, p[r].parts[j])
    ensures p[r].parts[j].Literal? && HasSelf(p[p[r].parts[j].id].body) ==> SelfRefines(w, p, q, depth,
      SiteOf(p, r, p[r].join, vs, p[r].parts[j].id, p[r].parts[j].size, Offset(p[r].join, p[r].parts, j)))
  {
    if p[r].parts[j].Literal? && HasSelf(p[p[r].parts[j].id].body) {
      SelfFollows(w, p, q, depth, r, vs, j);
    }
  }

  lemma RowRefines(w: World, p: Program, q: Program, depth: nat, r: Id, vs: seq<VarId>, j: nat, row: int, x: seq<int>)
    requires Arithmetic(w) && Refines(w, p, q, depth) && IsRow(p, r, vs, j, row, x)
    ensures Sub(OperandElement(w, p, depth, r, vs, j, row, x), AppliedElement(w, p, q, depth, r, vs, j, row, x))
  {
    PartFacts(p, r, vs, j, row, x[0]);
    SelfCovered(w, p, q, depth, r, vs, j);
    var join, part, offset := p[r].join, p[r].parts[j], Offset(p[r].join, p[r].parts, j);
    PartRefines(w, p, q, depth, r, vs, join, p[r].size, part, offset, x);
  }

  lemma ResultRefines(w: World, p: Program, q: Program, depth: nat, r: Id, vs: seq<VarId>, x: seq<int>)
    requires Arithmetic(w) && IsLoweredProgram(p, q, r, vs) && Refines(w, p, q, depth)
    ensures RefinesElement(w, p, q, depth + 1, r, x)
  {
    if Element(w, p, depth + 1, r, x).Some? {
      var j, row := LocatedElement(w, p, depth, r, vs, x);
      RowRefines(w, p, q, depth, r, vs, j, row, x);
      LoweredPart(w, p, q, depth, r, vs, j, row, x);
    }
  }

  lemma OtherRefines(w: World, p: Program, q: Program, depth: nat, r: Id, vs: seq<VarId>, id: Id, x: seq<int>)
    requires IsLoweredProgram(p, q, r, vs) && Refines(w, p, q, depth) && id != r
    ensures RefinesElement(w, p, q, depth + 1, id, x)
  {
    if id in p && InBounds(SizeOf(p[id]), x) {
      match p[id]
      case Array(vars, _, body) =>
        if |vars| <= |x| {
          EvalRefines(w, p, q, depth, id, body, Bind(vars, x), Bind(vars, x), x[|vars|..]);
        }
      case External(_) =>
      case Other(_, body) => EvalRefines(w, p, q, depth, id, body, map[], map[], x);
      case Scalar(body) => EvalRefines(w, p, q, depth, id, body, map[], map[], []);
      case Joined(join, _, parts) =>
        if x != [] && Locate(join, parts, 0, x[0]).Some? {
          var (j, row) := Locate(join, parts, 0, x[0]).value;
          SamePartRefines(w, p, q, depth, r, vs, id, join, parts[j], row, x);
        }
    }
  }

  lemma SamePartRefines(w: World, p: Program, q: Program, depth: nat, r: Id, vs: seq<VarId>, id: Id, join: Join,
                        part: Operand, row: int, x: seq<int>)
    requires IsLoweredProgram(p, q, r, vs) && Refines(w, p, q, depth)
    ensures Sub(PartElement(w, p, depth, id, join, part, row, x), PartElement(w, q, depth, id, join, part, row, x))
  {
    match part
    case Single(e) => EvalRefines(w, p, q, depth, id, e, map[], map[], []);
    case Named(other, size) => assert RefinesElement(w, p, q, depth, other, PartIndex(join, size, row, x));
    case Literal(own, size) =>
      if own in p && p[own].Array? && |p[own].vars| == |size| {
        var env := Bind(p[own].vars, PartIndex(join, size, row, x));
        EvalRefines(w, p, q, depth, own, p[own].body, env, env, []);
      }
  }

  lemma ElementRefines(w: World, p: Program, q: Program, depth: nat, r: Id, vs: seq<VarId>, id: Id, x: seq<int>)
    requires Arithmetic(w) && IsLoweredProgram(p, q, r, vs) && Refines(w, p, q, depth)
    ensures RefinesElement(w, p, q, depth + 1, id, x)
  {
    if id == r {
      ResultRefines(w, p, q, depth, r, vs, x);
    } else {
      OtherRefines(w, p, q, depth, r, vs, id, x);
    }
  }

  lemma NothingRefines(w: World, p: Program, q: Program)
    ensures Refines(w, p, q, 0)
  {
  }

  /** Lowering a joined array preserves every element of every array of the program, to every depth
      of references, including those that refer to the joined array or, inside an operand, to the
      operand itself. */
  lemma {:induction false} LoweringPreservesMeaning(w: World, p: Program, q: Program, r: Id, vs: seq<VarId>, depth: nat)
    requires Arithmetic(w) && IsLoweredProgram(p, q, r, vs)
    ensures Refines(w, p, q, depth)
  {
    if depth == 0 {
      NothingRefines(w, p, q);
    } else {
      LoweringPreservesMeaning(w, p, q, r, vs, depth - 1);
      forall id, x ensures RefinesElement(w, p, q, depth, id, x) {
        ElementRefines(w, p, q, depth - 1, r, vs, id, x);
      }
    }
  }
}
