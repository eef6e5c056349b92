/** Lowering `++` and enumerations adds no elements either, where self references stay inside their own
    operand (frontend/array_reduction.cpp).  A self reference outside it has no value before lowering; shifted,
    it may land in a neighbouring operand.
 */
module JoinExactness {
  import opened Options
  import opened ArrayPrograms
  import opened Joins
  import opened JoinMeaning

  /** Uses no variables but these. */
  predicate UsesOnly(e: Expr, vars: seq<VarId>) {
    match e
    case Const(_) => true
    case Bool(_) => true
    case Var(v) => v in vars
    case Prim(_, operands) => forall i :: 0 <= i < |operands| ==> UsesOnly(operands[i], vars)
    case Case(cases) => forall i :: 0 <= i < |cases| ==> UsesOnly(cases[i].guard, vars) && UsesOnly(cases[i].value, vars)
    case App(_, args) => forall i :: 0 <= i < |args| ==> UsesOnly(args[i], vars)
  }

  /** Evaluating e, every self reference that is reached is to an index inside the array itself. */
  ghost predicate SelfInside(w: World, p: Program, depth: nat, own: Id, size: seq<int>, e: Expr, env: map<VarId, int>)
    decreases e, 1 + if e.Case? then |e.cases| else 0
  {
    match e
    case Const(_) => true
    case Bool(_) => true
    case Var(_) => true
    case Prim(_, operands) => forall i :: 0 <= i < |operands| ==> SelfInside(w, p, depth, own, size, operands[i], env)
    case Case(_) => SelfInsideFrom(w, p, depth, own, size, e, 0, env)
    case App(target, args) =>
      && (forall i :: 0 <= i < |args| ==> SelfInside(w, p, depth, own, size, args[i], env))
      && (target == SelfRef ==>
            var a := EvalAll(w, p, depth, own, args, env, []);
            a.Some? ==> InBounds(size, a.value))
  }

  /** The same from case k on: the guards up to the first that holds, and its value. */
  ghost predicate SelfInsideFrom(w: World, p: Program, depth: nat, own: Id, size: seq<int>, e: Expr, k: nat, env: map<VarId, int>)
    requires e.Case?
    decreases e, |e.cases| - k
  {
    k < |e.cases| ==>
      && SelfInside(w, p, depth, own, size, e.cases[k].guard, env)
      && var g := Eval(w, p, depth, own, e.cases[k].guard, env, []);
         g.Some? ==>
           if g.value != 0 then SelfInside(w, p, depth, own, size, e.cases[k].value, env)
           else SelfInsideFrom(w, p, depth, own, size, e, k + 1, env)
  }

  // ---- An inlined body has no value that the operand has not ---------------------------------

  ghost predicate SelfReflected(w: World, p: Program, q: Program, depth: nat, s: Site, size: seq<int>, a: seq<int>) {
    Sub(Element(w, q, depth, s.r, SelfIndex(s.join, s.offset, a)), Element(w, p, depth, s.own, a))
  }

  ghost predicate SelfReflects(w: World, p: Program, q: Program, depth: nat, s: Site, size: seq<int>) {
    forall a: seq<int> :: InBounds(size, a) ==> SelfReflected(w, p, q, depth, s, size, a)
  }

  /** p has every element that q has, and the operand's variables are replaced by their values. */
  ghost predicate Inverse(w: World, p: Program, q: Program, depth: nat, s: Site, env: map<VarId, int>, at: map<VarId, int>) {
    Arithmetic(w) && s.rank > 0 && Refines(w, q, p, depth) && VarsAgree(w, q, depth, s, env, at)
  }

  ghost predicate Reflectable(w: World, p: Program, q: Program, depth: nat, s: Site, size: seq<int>, e: Expr, vars: seq<VarId>,
                              env: map<VarId, int>)
  {
    && SelfRank(e, s.rank) && UsesOnly(e, vars) && (forall v :: v in vars ==> v in env)
    && (HasSelf(e) ==> SelfReflects(w, p, q, depth, s, size))
  }

  lemma {:induction false} InlinedReflects(w: World, p: Program, q: Program, depth: nat, s: Site, size: seq<int>, e: Expr,
                                           vars: seq<VarId>, env: map<VarId, int>, at: map<VarId, int>)
    requires Inverse(w, p, q, depth, s, env, at) && Reflectable(w, p, q, depth, s, size, e, vars, env)
    requires SelfInside(w, p, depth, s.own, size, e, env)
    ensures Sub(Eval(w, q, depth, s.r, InlinedAt(s, e), at, []), Eval(w, p, depth, s.own, e, env, []))
    decreases e, 1 + if e.Case? then |e.cases| else 0
  {
    match e
    case Const(_) =>
    case Bool(_) =>
    case Var(_) =>
    case Prim(op, operands) =>
      AllReflect(w, p, q, depth, s, size, operands, vars, env, at);
      assert InlinedAt(s, e) == Prim(op, AllInlined(s, operands));
    case Case(_) =>
      CasesReflect(w, p, q, depth, s, size, e, 0, vars, env, at);
    case App(target, args) =>
      AllReflect(w, p, q, depth, s, size, args, vars, env, at);
      AppReflects(w, p, q, depth, s, size, target, args, env, at);
  }

  lemma {:induction false} AllReflect(w: World, p: Program, q: Program, depth: nat, s: Site, size: seq<int>, es: seq<Expr>,
                                      vars: seq<VarId>, env: map<VarId, int>, at: map<VarId, int>)
    requires Inverse(w, p, q, depth, s, env, at)
    requires forall i :: 0 <= i < |es| ==>
      Reflectable(w, p, q, depth, s, size, es[i], vars, env) && SelfInside(w, p, depth, s.own, size, es[i], env)
    ensures var a := EvalAll(w, q, depth, s.r, AllInlined(s, es), at, []);
      a.Some? ==> EvalAll(w, p, depth, s.own, es, env, []) == a
    decreases es, 0
  {
    var a := EvalAll(w, q, depth, s.r, AllInlined(s, es), at, []);
    EvalAllPointwise(w, q, depth, s.r, AllInlined(s, es), at, []);
    if a.Some? {
      forall i | 0 <= i < |es| ensures Eval(w, p, depth, s.own, es[i], env, []) == Some(a.value[i]) {
        InlinedReflects(w, p, q, depth, s, size, es[i], vars, env, at);
      }
      EvalAllIs(w, p, depth, s.own, es, env, [], a.value);
    }
  }

  lemma {:induction false} CasesReflect(w: World, p: Program, q: Program, depth: nat, s: Site, size: seq<int>, e: Expr, k: nat,
                                        vars: seq<VarId>, env: map<VarId, int>, at: map<VarId, int>)
    requires Inverse(w, p, q, depth, s, env, at) && e.Case? && Reflectable(w, p, q, depth, s, size, e, vars, env)
    requires SelfInsideFrom(w, p, depth, s.own, size, e, k, env)
    ensures Sub(EvalCases(w, q, depth, s.r, InlinedAt(s, e), k, at, []), EvalCases(w, p, depth, s.own, e, k, env, []))
    decreases e, |e.cases| - k
  {
    if k < |e.cases| {
      assert InlinedAt(s, e).cases[k] == Branch(InlinedAt(s, e.cases[k].guard), InlinedAt(s, e.cases[k].value));
      InlinedReflects(w, p, q, depth, s, size, e.cases[k].guard, vars, env, at);
      var g := Eval(w, q, depth, s.r, InlinedAt(s, e).cases[k].guard, at, []);
      if g.Some? {
        if g.value != 0 {
          InlinedReflects(w, p, q, depth, s, size, e.cases[k].value, vars, env, at);
        } else {
          CasesReflect(w, p, q, depth, s, size, e, k + 1, vars, env, at);
        }
      }
    }
  }

  lemma AppReflects(w: World, p: Program, q: Program, depth: nat, s: Site, size: seq<int>, target: Object, args: seq<Expr>,
                    env: map<VarId, int>, at: map<VarId, int>)
    requires Inverse(w, p, q, depth, s, env, at) && SelfRank(App(target, args), s.rank)
    requires target == SelfRef ==> SelfReflects(w, p, q, depth, s, size)
    requires SelfInside(w, p, depth, s.own, size, App(target, args), env)
    requires var a := EvalAll(w, q, depth, s.r, AllInlined(s, args), at, []);
      a.Some? ==> EvalAll(w, p, depth, s.own, args, env, []) == a
    ensures Sub(Eval(w, q, depth, s.r, InlinedAt(s, App(target, args)), at, []), Eval(w, p, depth, s.own, App(target, args), env, []))
  {
    var moved := AllInlined(s, args);
    var a := EvalAll(w, q, depth, s.r, moved, at, []);
    assert InlinedAt(s, App(target, args)) == App(target, if target == SelfRef then SelfArgs(s.join, s.v, s.offset, moved) else moved);
    if a.Some? {
      AppValue(w, p, depth, s.own, target, args, env, a.value);
      if target == SelfRef {
        SelfArgsValue(w, q, depth, s, moved, at, a.value);
        assert SelfReflected(w, p, q, depth, s, size, a.value);
        AppValue(w, q, depth, s.r, target, SelfArgs(s.join, s.v, s.offset, moved), at, SelfIndex(s.join, s.offset, a.value));
      } else {
        assert RefinesElement(w, q, p, depth, target.id, a.value);
        AppValue(w, q, depth, s.r, target, moved, at, a.value);
      }
    } else if target == SelfRef {
      ShiftedArgsNeedValues(w, q, depth, s, moved, at);
    }
  }

  /** Shifted arguments have values only if the arguments have. */
  lemma ShiftedArgsNeedValues(w: World, q: Program, depth: nat, s: Site, args: seq<Expr>, at: map<VarId, int>)
    requires EvalAll(w, q, depth, s.r, args, at, []) == None
    ensures EvalAll(w, q, depth, s.r, SelfArgs(s.join, s.v, s.offset, args), at, []) == None
  {
    var moved := SelfArgs(s.join, s.v, s.offset, args);
    EvalAllPointwise(w, q, depth, s.r, args, at, []);
    EvalAllPointwise(w, q, depth, s.r, moved, at, []);
    var i :| 0 <= i < |args| && Eval(w, q, depth, s.r, args[i], at, []) == None;
    if s.join.Enumerate? {
      assert moved[i + 1] == args[i];
    } else if i > 0 {
      assert moved[i] == args[i];
    } else {
      var sum := [args[0], Const(s.offset)];
      EvalAllPointwise(w, q, depth, s.r, sum, at, []);
      assert Eval(w, q, depth, s.r, sum[0], at, []) == None;
      assert moved[0] == Prim(ADD, sum);
    }
  }

  // ---- Operands -----------------------------------------------------------------------------

  ghost predicate SameOn(vars: seq<VarId>, env: map<VarId, int>, env': map<VarId, int>) {
    forall v :: v in vars ==> (v in env <==> v in env') && (v in env ==> env[v] == env'[v])
  }

  lemma {:induction false} OnlyUsed(w: World, p: Program, depth: nat, current: Id, e: Expr, vars: seq<VarId>,
                                    env: map<VarId, int>, env': map<VarId, int>, rest: seq<int>)
    requires UsesOnly(e, vars) && SameOn(vars, env, env')
    ensures Eval(w, p, depth, current, e, env, rest) == Eval(w, p, depth, current, e, env', rest)
    decreases e, 1 + if e.Case? then |e.cases| else 0
  {
    match e
    case Const(_) =>
    case Bool(_) =>
    case Var(_) =>
    case Prim(_, operands) => AllOnlyUsed(w, p, depth, current, operands, vars, env, env', rest);
    case Case(_) => CasesOnlyUsed(w, p, depth, current, e, 0, vars, env, env', rest);
    case App(_, args) => AllOnlyUsed(w, p, depth, current, args, vars, env, env', []);
  }

  lemma {:induction false} AllOnlyUsed(w: World, p: Program, depth: nat, current: Id, es: seq<Expr>, vars: seq<VarId>,
                                       env: map<VarId, int>, env': map<VarId, int>, rest: seq<int>)
    requires (forall i :: 0 <= i < |es| ==> UsesOnly(es[i], vars)) && SameOn(vars, env, env')
    ensures EvalAll(w, p, depth, current, es, env, rest) == EvalAll(w, p, depth, current, es, env', rest)
    decreases es, 0
  {
    if es != [] {
      AllOnlyUsed(w, p, depth, current, es[..|es| - 1], vars, env, env', rest);
      OnlyUsed(w, p, depth, current, es[|es| - 1], vars, env, env', rest);
    }
  }

  lemma {:induction false} CasesOnlyUsed(w: World, p: Program, depth: nat, current: Id, e: Expr, k: nat, vars: seq<VarId>,
                                         env: map<VarId, int>, env': map<VarId, int>, rest: seq<int>)
    requires e.Case? && UsesOnly(e, vars) && SameOn(vars, env, env')
    ensures EvalCases(w, p, depth, current, e, k, env, rest) == EvalCases(w, p, depth, current, e, k, env', rest)
    decreases e, |e.cases| - k
  {
    if k < |e.cases| {
      OnlyUsed(w, p, depth, current, e.cases[k].guard, vars, env, env', []);
      OnlyUsed(w, p, depth, current, e.cases[k].value, vars, env, env', rest);
      CasesOnlyUsed(w, p, depth, current, e, k + 1, vars, env, env', rest);
    }
  }

  lemma PartIndexInside(join: Join, size: seq<int>, s: seq<int>, row: int, x: seq<int>)
    requires FitsSize(join, size, s) && InBounds(size, x)
    requires join == Concatenate ==> row >= 0 && (s[0] < 0 || row < s[0])
    ensures InBounds(s, PartIndex(join, s, row, x))
  {
  }

  /** Operands use no variables but their own, so none of the result's. */
  ghost predicate OwnVariables(p: Program, part: Operand) {
    match part
    case Single(e) => UsesOnly(e, [])
    case Named(_, _) => true
    case Literal(own, _) => own in p && p[own].Array? && UsesOnly(p[own].body, p[own].vars)
  }

  /** Whatever row of the operand is computed, its self references stay inside it. */
  ghost predicate StaysInside(w: World, p: Program, part: Operand) {
    part.Literal? && part.id in p && p[part.id].Array? && |p[part.id].vars| == |part.size| ==>
      forall depth, a {:trigger SelfInside(w, p, depth, part.id, part.size, p[part.id].body, Bind(p[part.id].vars, a))} ::
        InBounds(part.size, a) ==> SelfInside(w, p, depth, part.id, part.size, p[part.id].body, Bind(p[part.id].vars, a))
  }

  /** An operand, applied, has no element that the operand has not. */
  lemma PartReflects(w: World, p: Program, q: Program, depth: nat, r: Id, vs: seq<VarId>, join: Join, size: seq<int>,
                     part: Operand, offset: nat, x: seq<int>)
    requires Arithmetic(w) && Refines(w, q, p, depth) && FitsPart(p, join, size, part)
    requires OwnVariables(p, part) && StaysInside(w, p, part)
    requires 0 < |vs| == |x| == |size| && Distinct(vs) && (join == Enumerate ==> x[0] == offset) && InBounds(size, x)
    requires join == Concatenate && !part.Single? ==> x[0] >= offset && (part.size[0] < 0 || x[0] - offset < part.size[0])
    requires part.Literal? && HasSelf(p[part.id].body) ==>
      SelfReflects(w, p, q, depth, SiteOf(p, r, join, vs, part.id, part.size, offset), part.size)
    ensures Sub(Eval(w, q, depth, r, Applied(p, join, vs, part, offset), Bind(vs, x), []),
                PartElement(w, p, depth, r, join, part, x[0] - offset, x))
  {
    var at := Bind(vs, x);
    match part
    case Single(e) =>
      OnlyUsed(w, q, depth, r, e, [], at, map[], []);
      EvalRefines(w, q, p, depth, r, e, map[], map[], []);
    case Named(id, s) =>
      var index := PartIndex(join, s, x[0] - offset, x);
      forall d | 0 <= d < |s| ensures Eval(w, q, depth, r, Args(join, vs, s, offset)[d], at, []) == Some(index[d]) {
        ArgValue(w, q, depth, r, join, vs, s, offset, x, d);
      }
      EvalAllIs(w, q, depth, r, Args(join, vs, s, offset), at, [], index);
      AppValue(w, q, depth, r, Ref(id), Args(join, vs, s, offset), at, index);
      assert RefinesElement(w, q, p, depth, id, index);
    case Literal(own, s) =>
      LiteralReflects(w, p, q, depth, r, vs, join, size, own, s, offset, x);
  }

  lemma LiteralReflects(w: World, p: Program, q: Program, depth: nat, r: Id, vs: seq<VarId>, join: Join, size: seq<int>,
                        own: Id, s: seq<int>, offset: nat, x: seq<int>)
    requires Arithmetic(w) && Refines(w, q, p, depth) && FitsPart(p, join, size, Literal(own, s))
    requires OwnVariables(p, Literal(own, s)) && StaysInside(w, p, Literal(own, s))
    requires 0 < |vs| == |x| == |size| && Distinct(vs) && (join == Enumerate ==> x[0] == offset) && InBounds(size, x)
    requires join == Concatenate ==> x[0] >= offset && (s[0] < 0 || x[0] - offset < s[0])
    requires HasSelf(p[own].body) ==> SelfReflects(w, p, q, depth, SiteOf(p, r, join, vs, own, s, offset), s)
    ensures Sub(Eval(w, q, depth, r, Applied(p, join, vs, Literal(own, s), offset), Bind(vs, x), []),
                PartElement(w, p, depth, r, join, Literal(own, s), x[0] - offset, x))
  {
    var at := Bind(vs, x);
    var site, index := SiteOf(p, r, join, vs, own, s, offset), PartIndex(join, s, x[0] - offset, x);
    PartIndexInside(join, size, s, x[0] - offset, x);
    SiteVarsAgree(w, p, q, depth, r, join, vs, own, s, offset, x);
    BoundNames(p[own].vars, index);
    BoundVariable(vs, x, 0);
    var env := Bind(p[own].vars, index);
    assert SelfInside(w, p, depth, own, s, p[own].body, env);
    InlinedReflects(w, p, q, depth, site, s, p[own].body, p[own].vars, env, at);
  }

  // ---- The main result ----------------------------------------------------------------------

  lemma SelfIsReflected(w: World, p: Program, q: Program, depth: nat, r: Id, vs: seq<VarId>, j: nat)
    requires WellJoined(p, r, vs) && Refines(w, q, p, depth) && j < |p[r].parts| && p[r].parts[j].Literal?
    requires FitsPart(p, p[r].join, p[r].size, p[r].parts[j]) && HasSelf(p[p[r].parts[j].id].body)
    ensures SelfReflects(w, p, q, depth,
      SiteOf(p, r, p[r].join, vs, p[r].parts[j].id, p[r].parts[j].size, Offset(p[r].join, p[r].parts, j)), p[r].parts[j].size)
  {
    var part, offset := p[r].parts[j], Offset(p[r].join, p[r].parts, j);
    var s := SiteOf(p, r, p[r].join, vs, part.id, part.size, offset);
    forall a: seq<int> | InBounds(part.size, a) ensures SelfReflected(w, p, q, depth, s, part.size, a) {
      OperandIsPart(w, p, depth, r, vs, j, a);
      assert RefinesElement(w, q, p, depth, r, SelfIndex(s.join, offset, a));
    }
  }

  lemma RowReflects(w: World, p: Program, q: Program, depth: nat, r: Id, vs: seq<VarId>, j: nat, row: int, x: seq<int>)
    requires Arithmetic(w) && Refines(w, q, p, depth) && IsRow(p, r, vs, j, row, x) && InBounds(p[r].size, x)
    requires OwnVariables(p, p[r].parts[j]) && StaysInside(w, p, p[r].parts[j])
    ensures Sub(AppliedElement(w, p, q, depth, r, vs, j, row, x), OperandElement(w, p, depth, r, vs, j, row, x))
  {
    PartFacts(p, r, vs, j, row, x[0]);
    var join, part, offset := p[r].join, p[r].parts[j], Offset(p[r].join, p[r].parts, j);
    if part.Literal? && HasSelf(p[part.id].body) {
      SelfIsReflected(w, p, q, depth, r, vs, j);
    }
    PartReflects(w, p, q, depth, r, vs, join, p[r].size, part, offset, x);
  }

  lemma RowOf(p: Program, r: Id, vs: seq<VarId>, x: seq<int>) returns (j: nat, row: int)
    requires WellJoined(p, r, vs) && PartsFit(p[r].join, vs, p[r].parts) && InBounds(p[r].size, x)
    ensures IsRow(p, r, vs, j, row, x) && Locate(p[r].join, p[r].parts, 0, x[0]) == Some((j, row))
  {
    RowsTile(p[r].join, p[r].parts, p[r].size[0], x[0]);
    var k, i :| IsRowOf(p[r].join, p[r].parts, k, i, x[0]);
    LocatedRow(p[r].join, p[r].parts, k, i, x[0]);
    j, row := k, i;
  }

  /** Operands as the language makes them, with self references that stay inside. */
  ghost predicate Contained(w: World, p: Program, r: Id)
    requires r in p && p[r].Joined?
  {
    forall j :: 0 <= j < |p[r].parts| ==> OwnVariables(p, p[r].parts[j]) && StaysInside(w, p, p[r].parts[j])
  }

  /** An operand written in place is not itself a join. */
  ghost predicate InPlace(p: Program) {
    forall id, j :: id in p && p[id].Joined? && 0 <= j < |p[id].parts| && p[id].parts[j].Literal? && p[id].parts[j].id in p ==>
      !p[p[id].parts[j].id].Joined?
  }

  lemma ResultReflects(w: World, p: Program, q: Program, depth: nat, r: Id, vs: seq<VarId>, x: seq<int>)
    requires Arithmetic(w) && IsLoweredProgram(p, q, r, vs) && Contained(w, p, r) && Refines(w, q, p, depth)
    ensures RefinesElement(w, q, p, depth + 1, r, x)
  {
    if InBounds(p[r].size, x) {
      var j, row := RowOf(p, r, vs, x);
      LoweredPart(w, p, q, depth, r, vs, j, row, x);
      RowReflects(w, p, q, depth, r, vs, j, row, x);
    }
  }

  lemma OtherReflects(w: World, p: Program, q: Program, depth: nat, r: Id, vs: seq<VarId>, id: Id, x: seq<int>)
    requires IsLoweredProgram(p, q, r, vs) && InPlace(p) && Refines(w, q, p, depth) && id != r
    ensures RefinesElement(w, q, p, depth + 1, id, x)
  {
    if id in p && InBounds(SizeOf(p[id]), x) {
      match p[id]
      case Array(vars, _, body) =>
        if |vars| <= |x| {
          EvalRefines(w, q, p, depth, id, body, Bind(vars, x), Bind(vars, x), x[|vars|..]);
        }
      case External(_) =>
      case Other(_, body) => EvalRefines(w, q, p, depth, id, body, map[], map[], x);
      case Scalar(body) => EvalRefines(w, q, p, depth, id, body, map[], map[], []);
      case Joined(join, _, parts) =>
        if x != [] && Locate(join, parts, 0, x[0]).Some? {
          var (j, row) := Locate(join, parts, 0, x[0]).value;
          OtherPartReflects(w, p, q, depth, r, vs, id, join, parts[j], row, x);
        }
    }
  }

  lemma OtherPartReflects(w: World, p: Program, q: Program, depth: nat, r: Id, vs: seq<VarId>, id: Id, join: Join,
                          part: Operand, row: int, x: seq<int>)
    requires IsLoweredProgram(p, q, r, vs) && Refines(w, q, p, depth)
    requires part.Literal? ==> part.id != r
    ensures Sub(PartElement(w, q, depth, id, join, part, row, x), PartElement(w, p, depth, id, join, part, row, x))
  {
    match part
    case Single(e) => EvalRefines(w, q, p, depth, id, e, map[], map[], []);
    case Named(other, size) => assert RefinesElement(w, q, p, depth, other, PartIndex(join, size, row, x));
    case Literal(own, size) =>
      if own in p && p[own].Array? && |p[own].vars| == |size| {
        var env := Bind(p[own].vars, PartIndex(join, size, row, x));
        EvalRefines(w, q, p, depth, own, p[own].body, env, env, []);
      }
  }

  lemma ElementReflects(w: World, p: Program, q: Program, r: Id, vs: seq<VarId>, depth: nat, id: Id, x: seq<int>)
    requires Arithmetic(w) && IsLoweredProgram(p, q, r, vs) && Contained(w, p, r) && InPlace(p) && Refines(w, q, p, depth)
    ensures RefinesElement(w, q, p, depth + 1, id, x)
  {
    if id == r {
      ResultReflects(w, p, q, depth, r, vs, x);
    } else {
      OtherReflects(w, p, q, depth, r, vs, id, x);
    }
  }

  lemma {:induction false} LoweringAddsNothing(w: World, p: Program, q: Program, r: Id, vs: seq<VarId>, depth: nat)
    requires Arithmetic(w) && IsLoweredProgram(p, q, r, vs) && Contained(w, p, r) && InPlace(p)
    ensures Refines(w, q, p, depth)
  {
    if depth == 0 {
      NothingRefines(w, q, p);
    } else {
      LoweringAddsNothing(w, p, q, r, vs, depth - 1);
      forall id, x ensures RefinesElement(w, q, p, depth, id, x) {
        ElementReflects(w, p, q, r, vs, depth - 1, id, x);
      }
    }
  }

  /** With self references that stay inside their operands, lowering changes no element of any array. */
  lemma LoweringIsExact(w: World, p: Program, q: Program, r: Id, vs: seq<VarId>, depth: nat, id: Id, x: seq<int>)
    requires Arithmetic(w) && IsLoweredProgram(p, q, r, vs) && Contained(w, p, r) && InPlace(p)
    ensures Element(w, q, depth, id, x) == Element(w, p, depth, id, x)
  {
    LoweringPreservesMeaning(w, p, q, r, vs, depth);
    LoweringAddsNothing(w, p, q, r, vs, depth);
    assert RefinesElement(w, p, q, depth, id, x) && RefinesElement(w, q, p, depth, id, x);
  }

  // ---- A self reference outside its operand --------------------------------------------------

  /** Array 0 is [1: i -> this[1]] ++ 7; its first operand, array 1, has no element at 1. */
  function Outside(): Program {
    map[0 := Joined(Concatenate, [2], [Literal(1, [1]), Single(Const(7))]), 1 := Array([1], [1], App(SelfRef, [Const(1)]))]
  }

  function OutsideCases(): seq<Branch> {
    [Branch(Prim(EQUAL, [Var(0), Const(0)]), App(SelfRef, [Prim(ADD, [Const(1), Const(0)])])),
     Branch(Prim(EQUAL, [Var(0), Const(1)]), Const(7))]
  }

  function OutsideLowered(): Program {
    Outside()[0 := Array([0], [2], Case(OutsideCases()))]
  }

  lemma OutsideInlined(vars: map<VarId, Expr>)
    ensures Inlined(Outside()[1].body, vars, Concatenate, 0, 0) == OutsideCases()[0].value
  {
    assert Inlined(Const(1), vars, Concatenate, 0, 0) == Const(1);
    assert SelfArgs(Concatenate, 0, 0, [Const(1)]) == [Prim(ADD, [Const(1), Const(0)])];
  }

  lemma OutsideGroups()
    requires PartsFit(Concatenate, [0], Outside()[0].parts)
    ensures Groups(Outside(), Concatenate, [0], Outside()[0].parts) == [[OutsideCases()[0]], [OutsideCases()[1]]]
  {
    var p, parts, vs := Outside(), Outside()[0].parts, [0];
    assert Offset(Concatenate, parts, 1) == 1;
    assert BindExprs(p[1].vars, Args(Concatenate, vs, [1], 0)) == map[1 := Var(0)];
    OutsideInlined(map[1 := Var(0)]);
    assert PartBranch(p, Concatenate, vs, parts, 0) == OutsideCases()[0];
    assert PartBranch(p, Concatenate, vs, parts, 1) == OutsideCases()[1];
  }

  lemma ConcatOfTwo(a: Branch, b: Branch)
    ensures Concat([[a], [b]]) == [a, b]
  {
    assert [[a], [b]][..1] == [[a]] && [[a]][..0] == [];
    assert Concat([[a]]) == [] + [a];
  }

  lemma OutsideIsLowered()
    ensures WellJoined(Outside(), 0, [0]) && IsLoweredProgram(Outside(), OutsideLowered(), 0, [0])
  {
    assert Offset(Concatenate, Outside()[0].parts, 1) == 1;
    OutsideGroups();
    ConcatOfTwo(OutsideCases()[0], OutsideCases()[1]);
  }

  lemma OutsideHasNone(w: World, depth: nat)
    requires depth >= 2
    ensures Element(w, Outside(), depth, 0, [0]) == None
  {
    var p := Outside();
    assert Locate(Concatenate, p[0].parts, 0, 0) == Some((0, 0));
    var env := Bind(p[1].vars, PartIndex(Concatenate, [1], 0, [0]));
    EvalAllIs(w, p, depth - 1, 1, [Const(1)], env, [], [1]);
    assert Eval(w, p, depth - 1, 1, p[1].body, env, []) == None;
  }

  lemma ReferenceIsNeighbour(w: World, q: Program, depth: nat, at: map<VarId, int>)
    requires Arithmetic(w)
    ensures Eval(w, q, depth, 0, OutsideCases()[0].value, at, []) == Element(w, q, depth, 0, [1])
  {
    EvalAllIs(w, q, depth, 0, [Const(1), Const(0)], at, [], [1, 0]);
    EvalAllIs(w, q, depth, 0, [Prim(ADD, [Const(1), Const(0)])], at, [], [1]);
    assert [1] + [] == [1];
  }

  lemma OutsideHasSeven(w: World, depth: nat)
    requires Arithmetic(w) && depth >= 2
    ensures Element(w, OutsideLowered(), depth, 0, [0]) == Some(7)
  {
    var q, e, at := OutsideLowered(), Case(OutsideCases()), Bind([0], [0]);
    BoundVariable([0], [0], 0);
    GuardValue(w, q, depth - 1, 0, 0, 0, 1, at);
    ReferenceIsNeighbour(w, q, depth - 1, at);
    NeighbourIsSeven(w, depth - 1);
    assert EvalCases(w, q, depth - 1, 0, e, 0, at, []) == Some(7);
    assert [0][1..] == [];
  }

  lemma NeighbourIsSeven(w: World, depth: nat)
    requires Arithmetic(w) && depth >= 1
    ensures Element(w, OutsideLowered(), depth, 0, [1]) == Some(7)
  {
    var q, e, at := OutsideLowered(), Case(OutsideCases()), Bind([0], [1]);
    BoundVariable([0], [1], 0);
    GuardValue(w, q, depth - 1, 0, 0, 0, 1, at);
    GuardValue(w, q, depth - 1, 0, 0, 1, 1, at);
    assert [1][1..] == [];
    assert EvalCases(w, q, depth - 1, 0, e, 1, at, []) == Some(7);
    assert EvalCases(w, q, depth - 1, 0, e, 0, at, []) == Some(7);
  }

  /** Shifted into the result, the reference lands in the second operand: the element gains a value. */
  lemma SelfOutsideGainsValue(w: World, depth: nat)
    requires Arithmetic(w) && depth >= 2
    ensures WellJoined(Outside(), 0, [0]) && IsLoweredProgram(Outside(), OutsideLowered(), 0, [0])
    ensures Element(w, Outside(), depth, 0, [0]) == None && Element(w, OutsideLowered(), depth, 0, [0]) == Some(7)
  {
    OutsideIsLowered();
    OutsideHasNone(w, depth);
    OutsideHasSeven(w, depth);
  }
}
