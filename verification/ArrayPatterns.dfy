/** Array definitions by patterns: frontend/array_reduction.cpp turns them into guarded cases,
    frontend/type_check.cpp checks that they define a box, and frontend/ph_model_gen.cpp checks the
    cases again when it makes statements.
 */
module ArrayPatterns {
  import opened Options
  import opened IslModel

  /** A guard over index vectors.  Atoms are comparisons of affine expressions. */
  datatype Guard =
    | Truth(value: bool)
    | Equal(dim: nat, at: int)
    | Atom(id: nat)
    | And(a: Guard, b: Guard)
    | Or(a: Guard, b: Guard)
    | Not(a: Guard)

  /** Which atoms hold where. */
  type Atoms = (nat, Vec) -> bool

  predicate Holds(g: Guard, atoms: Atoms, x: Vec) {
    match g
    case Truth(value) => value
    case Equal(dim, at) => dim < |x| && x[dim] == at
    case Atom(id) => atoms(id, x)
    case And(a, b) => Holds(a, atoms, x) && Holds(b, atoms, x)
    case Or(a, b) => Holds(a, atoms, x) || Holds(b, atoms, x)
    case Not(a) => !Holds(a, atoms, x)
  }

  // ---- Guards with constants folded ---------------------------------------------------------

  function Intersect(a: Guard, b: Guard): (r: Guard)
    ensures forall atoms: Atoms, x :: Holds(r, atoms, x) <==> Holds(a, atoms, x) && Holds(b, atoms, x)
  {
    if a == Truth(false) || b == Truth(false) then Truth(false)
    else if a == Truth(true) then b
    else if b == Truth(true) then a
    else And(a, b)
  }

  function Negate(a: Guard): (r: Guard)
    ensures forall atoms: Atoms, x :: Holds(r, atoms, x) <==> !Holds(a, atoms, x)
  {
    if a == Truth(true) then Truth(false)
    else if a == Truth(false) then Truth(true)
    else Not(a)
  }

  // ---- Patterns and their meaning -----------------------------------------------------------

  /** An expression is known by a number here. */
  datatype Case = Case(guard: Guard, expr: nat)

  /** Some(v) is an index fixed to v.  A pattern without domains defines nothing. */
  datatype Pattern = Pattern(indexes: seq<Option<int>>, cases: seq<Case>)

  /** One alternative of a definition: a pattern together with one of its guarded expressions. */
  datatype Alternative = Alternative(indexes: seq<Option<int>>, guard: Guard, expr: nat)

  function AlternativesOf(pattern: Pattern): (alts: seq<Alternative>)
    ensures |alts| == |pattern.cases|
  {
    seq(|pattern.cases|, k requires 0 <= k < |pattern.cases| =>
      Alternative(pattern.indexes, pattern.cases[k].guard, pattern.cases[k].expr))
  }

  /** All alternatives, in the order of the program text. */
  function Alternatives(patterns: seq<Pattern>): seq<Alternative> {
    if patterns == [] then []
    else Alternatives(patterns[..|patterns| - 1]) + AlternativesOf(patterns[|patterns| - 1])
  }

  /** The index matches the fixed coordinates; `base` context coordinates come first. */
  ghost predicate MatchesIndexes(base: nat, indexes: seq<Option<int>>, x: Vec) {
    forall i :: 0 <= i < |indexes| && indexes[i].Some? ==> base + i < |x| && x[base + i] == indexes[i].value
  }

  ghost predicate Matches(base: nat, atoms: Atoms, alt: Alternative, x: Vec) {
    MatchesIndexes(base, alt.indexes, x) && Holds(alt.guard, atoms, x)
  }

  /** Alternative k is the first that matches. */
  ghost predicate IsFirst(base: nat, atoms: Atoms, alts: seq<Alternative>, k: int, x: Vec) {
    && 0 <= k < |alts|
    && Matches(base, atoms, alts[k], x)
    && forall j :: 0 <= j < k ==> !Matches(base, atoms, alts[j], x)
  }

  // ---- Patterns to cases --------------------------------------------------------------------

  method PatternConstraint(base: nat, indexes: seq<Option<int>>) returns (cp: Guard)
    ensures forall atoms: Atoms, x :: Holds(cp, atoms, x) <==> MatchesIndexes(base, indexes, x)
  {
    cp := Truth(true);
    for i := 0 to |indexes|
      invariant forall atoms: Atoms, x :: Holds(cp, atoms, x) <==> MatchesIndexes(base, indexes[..i], x)
    {
      if indexes[i].Some? {
        cp := Intersect(cp, Equal(base + i, indexes[i].value));
      }
      forall atoms: Atoms, x ensures Holds(cp, atoms, x) <==> MatchesIndexes(base, indexes[..i + 1], x) {
        OneMoreIndex(base, indexes, i, x);
      }
    }
    assert indexes[..|indexes|] == indexes;
  }

  lemma OneMoreIndex(base: nat, indexes: seq<Option<int>>, i: nat, x: Vec)
    requires i < |indexes|
    ensures MatchesIndexes(base, indexes[..i + 1], x) <==>
      && MatchesIndexes(base, indexes[..i], x)
      && (indexes[i].Some? ==> base + i < |x| && x[base + i] == indexes[i].value)
  {
    assert indexes[..i + 1] == indexes[..i] + [indexes[i]];
    assert forall k :: 0 <= k < i ==> indexes[..i + 1][k] == indexes[..i][k];
  }

  /** Cases built so far stand for the first alternatives; cg is where none of them matches. */
  ghost predicate Partitions(base: nat, alts: seq<Alternative>, cases: seq<Case>) {
    && |cases| == |alts|
    && forall k, atoms: Atoms, x :: 0 <= k < |cases| ==>
         (Holds(cases[k].guard, atoms, x) <==> IsFirst(base, atoms, alts, k, x))
  }

  ghost predicate Remainder(base: nat, alts: seq<Alternative>, cg: Guard) {
    forall atoms: Atoms, x :: Holds(cg, atoms, x) <==> forall k :: 0 <= k < |alts| ==> !Matches(base, atoms, alts[k], x)
  }

  lemma OneMoreCase(base: nat, alts: seq<Alternative>, cases: seq<Case>, cg: Guard, alt: Alternative, ce: Guard)
    requires Partitions(base, alts, cases) && Remainder(base, alts, cg)
    requires forall atoms: Atoms, x :: Holds(ce, atoms, x) <==> Matches(base, atoms, alt, x)
    ensures Partitions(base, alts + [alt], cases + [Case(Intersect(cg, ce), alt.expr)])
    ensures Remainder(base, alts + [alt], Intersect(cg, Negate(ce)))
  {
    var more := alts + [alt];
    forall k, atoms: Atoms, x | 0 <= k < |more|
      ensures Holds((cases + [Case(Intersect(cg, ce), alt.expr)])[k].guard, atoms, x) <==> IsFirst(base, atoms, more, k, x)
    {
      if k < |alts| {
        assert IsFirst(base, atoms, more, k, x) <==> IsFirst(base, atoms, alts, k, x) by {
          assert forall j :: 0 <= j <= k ==> more[j] == alts[j];
        }
      } else {
        assert forall j :: 0 <= j < |alts| ==> more[j] == alts[j];
      }
    }
    forall atoms: Atoms, x
      ensures Holds(Intersect(cg, Negate(ce)), atoms, x) <==> forall k :: 0 <= k < |more| ==> !Matches(base, atoms, more[k], x)
    {
      assert forall j :: 0 <= j < |alts| ==> more[j] == alts[j];
      assert more[|alts|] == alt;
    }
  }

  method ReducePattern(base: nat, pattern: Pattern, ghost alts: seq<Alternative>, cases: seq<Case>, cg: Guard)
    returns (extended: seq<Case>, rest: Guard)
    requires Partitions(base, alts, cases) && Remainder(base, alts, cg)
    requires forall k :: 0 <= k < |cases| ==> cases[k].expr == alts[k].expr
    ensures Partitions(base, alts + AlternativesOf(pattern), extended)
    ensures Remainder(base, alts + AlternativesOf(pattern), rest)
    ensures forall k :: 0 <= k < |extended| ==> extended[k].expr == (alts + AlternativesOf(pattern))[k].expr
  {
    var cp := PatternConstraint(base, pattern.indexes);
    extended, rest := cases, cg;
    ghost var own := AlternativesOf(pattern);
    assert alts + own[..0] == alts;
    for c := 0 to |pattern.cases|
      invariant Partitions(base, alts + own[..c], extended) && Remainder(base, alts + own[..c], rest)
      invariant forall k :: 0 <= k < |extended| ==> extended[k].expr == (alts + own[..c])[k].expr
    {
      var ce := Intersect(cp, pattern.cases[c].guard);
      OneMoreCase(base, alts + own[..c], extended, rest, own[c], ce);
      assert (alts + own[..c]) + [own[c]] == alts + own[..c + 1];
      extended := extended + [Case(Intersect(rest, ce), pattern.cases[c].expr)];
      rest := Intersect(rest, Negate(ce));
    }
    assert own[..|own|] == own;
  }

  /** The body of a reduced array: a single unconditional expression, or cases. */
  datatype Body = Plain(expr: nat) | Cases(cases: seq<Case>)

  /** What the body denotes: case k's expression exactly where alternative k is the first match. */
  ghost predicate Compiles(base: nat, alts: seq<Alternative>, body: Body) {
    match body
    case Plain(expr) => |alts| == 1 && expr == alts[0].expr && forall atoms: Atoms, x :: Matches(base, atoms, alts[0], x)
    case Cases(cases) =>
      Partitions(base, alts, cases) && forall k :: 0 <= k < |cases| ==> cases[k].expr == alts[k].expr
  }

  /** array_reducer::reduce for array_patterns */
  method ReducePatterns(base: nat, patterns: seq<Pattern>) returns (body: Body)
    ensures Compiles(base, Alternatives(patterns), body)
  {
    var cases: seq<Case>, cg := [], Truth(true);
    for p := 0 to |patterns|
      invariant Partitions(base, Alternatives(patterns[..p]), cases) && Remainder(base, Alternatives(patterns[..p]), cg)
      invariant forall k :: 0 <= k < |cases| ==> cases[k].expr == Alternatives(patterns[..p])[k].expr
    {
      assert patterns[..p + 1][..p] == patterns[..p];
      cases, cg := ReducePattern(base, patterns[p], Alternatives(patterns[..p]), cases, cg);
    }
    assert patterns[..|patterns|] == patterns;
    if |cases| == 1 && cases[0].guard == Truth(true) {
      ghost var alts := Alternatives(patterns);
      forall atoms: Atoms, x ensures Matches(base, atoms, alts[0], x) {
        assert IsFirst(base, atoms, alts, 0, x);
      }
      return Plain(cases[0].expr);
    }
    return Cases(cases);
  }

  /** The cases are disjoint, and together they cover what the patterns match. */
  lemma CasesPartition(base: nat, alts: seq<Alternative>, cases: seq<Case>, atoms: Atoms, x: Vec)
    requires Partitions(base, alts, cases)
    ensures forall j, k :: 0 <= j < k < |cases| ==> !(Holds(cases[j].guard, atoms, x) && Holds(cases[k].guard, atoms, x))
    ensures (exists k :: 0 <= k < |cases| && Holds(cases[k].guard, atoms, x))
       <==> (exists k :: 0 <= k < |alts| && Matches(base, atoms, alts[k], x))
  {
    forall j, k | 0 <= j < k < |cases|
      ensures !(Holds(cases[j].guard, atoms, x) && Holds(cases[k].guard, atoms, x))
    {
      assert IsFirst(base, atoms, alts, k, x) ==> !Matches(base, atoms, alts[j], x);
      assert IsFirst(base, atoms, alts, j, x) ==> Matches(base, atoms, alts[j], x);
    }
    if k :| 0 <= k < |alts| && Matches(base, atoms, alts[k], x) {
      var f := FirstMatch(base, atoms, alts, k, x);
      assert Holds(cases[f].guard, atoms, x);
    }
    if k :| 0 <= k < |cases| && Holds(cases[k].guard, atoms, x) {
      assert IsFirst(base, atoms, alts, k, x);
    }
  }

  /** The expression of the first case that holds. */
  function Chosen(cases: seq<Case>, atoms: Atoms, x: Vec): Option<nat> {
    if cases == [] then None
    else if Holds(cases[0].guard, atoms, x) then Some(cases[0].expr)
    else Chosen(cases[1..], atoms, x)
  }

  function Denoted(body: Body, atoms: Atoms, x: Vec): Option<nat> {
    match body
    case Plain(expr) => Some(expr)
    case Cases(cases) => Chosen(cases, atoms, x)
  }

  lemma {:induction false} OnlyChosen(cases: seq<Case>, atoms: Atoms, x: Vec, k: nat)
    requires k < |cases| && Holds(cases[k].guard, atoms, x)
    requires forall j :: 0 <= j < k ==> !Holds(cases[j].guard, atoms, x)
    ensures Chosen(cases, atoms, x) == Some(cases[k].expr)
  {
    if k > 0 {
      OnlyChosen(cases[1..], atoms, x, k - 1);
    }
  }

  lemma {:induction false} NoneChosen(cases: seq<Case>, atoms: Atoms, x: Vec)
    requires forall j :: 0 <= j < |cases| ==> !Holds(cases[j].guard, atoms, x)
    ensures Chosen(cases, atoms, x) == None
  {
    if cases != [] {
      NoneChosen(cases[1..], atoms, x);
    }
  }

  /** The expression of the first alternative that matches. */
  ghost predicate IsFirstExpr(base: nat, atoms: Atoms, alts: seq<Alternative>, x: Vec, r: Option<nat>) {
    match r
    case Some(expr) => exists k :: IsFirst(base, atoms, alts, k, x) && alts[k].expr == expr
    case None => forall k :: 0 <= k < |alts| ==> !Matches(base, atoms, alts[k], x)
  }

  /** At every index the reduced body gives the expression of the first matching alternative, and nothing
      where none matches. */
  lemma BodyIsFirstMatch(base: nat, alts: seq<Alternative>, body: Body, atoms: Atoms, x: Vec)
    requires Compiles(base, alts, body)
    ensures IsFirstExpr(base, atoms, alts, x, Denoted(body, atoms, x))
  {
    match body
    case Plain(expr) =>
      assert IsFirst(base, atoms, alts, 0, x);
    case Cases(cases) =>
      CasesPartition(base, alts, cases, atoms, x);
      if k :| 0 <= k < |cases| && Holds(cases[k].guard, atoms, x) {
        OnlyChosen(cases, atoms, x, k);
        assert IsFirst(base, atoms, alts, k, x);
      } else {
        NoneChosen(cases, atoms, x);
      }
  }

  lemma FirstMatch(base: nat, atoms: Atoms, alts: seq<Alternative>, k: nat, x: Vec) returns (f: nat)
    requires k < |alts| && Matches(base, atoms, alts[k], x)
    ensures f <= k && IsFirst(base, atoms, alts, f, x)
  {
    f := 0;
    while !Matches(base, atoms, alts[f], x)
      invariant f <= k && forall j :: 0 <= j < f ==> !Matches(base, atoms, alts[j], x)
      decreases k - f
    {
      f := f + 1;
    }
  }
}
