/** frontend/array_reduction.cpp: `++` and enumerations become arrays defined by cases. */
module Joins {
  import opened Options
  import opened ArrayPrograms

  const ADD: nat := 0
  const SUBTRACT: nat := 1
  const EQUAL: nat := 2
  const AT_LEAST: nat := 3
  const AT_MOST: nat := 4
  const AND: nat := 5

  /** The primitives that lowering uses mean what they should. */
  ghost predicate Arithmetic(w: World) {
    forall a, b ::
      && w.prim(ADD, [a, b]) == a + b
      && w.prim(SUBTRACT, [a, b]) == a - b
      && (w.prim(EQUAL, [a, b]) != 0 <==> a == b)
      && (w.prim(AT_LEAST, [a, b]) != 0 <==> a >= b)
      && (w.prim(AT_MOST, [a, b]) != 0 <==> a <= b)
      && (w.prim(AND, [a, b]) != 0 <==> a != 0 && b != 0)
  }

  // ---- The guards tile the first dimension --------------------------------------------------

  /** Rows before operand j. */
  function Offset(join: Join, parts: seq<Operand>, j: nat): int
    requires j <= |parts|
  {
    if j == 0 then 0 else Offset(join, parts, j - 1) + Extent(join, parts[j - 1])
  }

  /** Only the last operand may be unbounded. */
  ghost predicate BoundedBeforeLast(join: Join, parts: seq<Operand>) {
    forall j :: 0 <= j < |parts| ==> Extent(join, parts[j]) >= 0 || j == |parts| - 1
  }

  /** Row i of the result is row `row` of operand j. */
  ghost predicate IsRowOf(join: Join, parts: seq<Operand>, j: int, row: int, i: int) {
    && 0 <= j < |parts|
    && i == Offset(join, parts, j) + row && row >= 0
    && (Extent(join, parts[j]) < 0 || row < Extent(join, parts[j]))
  }

  lemma {:induction false} OffsetsGrow(join: Join, parts: seq<Operand>, j: nat, k: nat)
    requires BoundedBeforeLast(join, parts) && j < k < |parts|
    ensures Offset(join, parts, j) + Extent(join, parts[j]) <= Offset(join, parts, k)
    ensures Extent(join, parts[j]) >= 0
  {
    if j + 1 < k {
      OffsetsGrow(join, parts, j, k - 1);
    }
  }

  /** No row belongs to two operands. */
  lemma RowIsUnique(join: Join, parts: seq<Operand>, j: int, row: int, j': int, row': int, i: int)
    requires BoundedBeforeLast(join, parts)
    requires IsRowOf(join, parts, j, row, i) && IsRowOf(join, parts, j', row', i)
    ensures j == j' && row == row'
  {
    if j < j' {
      OffsetsGrow(join, parts, j, j');
    } else if j' < j {
      OffsetsGrow(join, parts, j', j);
    }
  }

  /** Locate finds the operand of every row that has one. */
  lemma {:induction false} LocateIsExact(join: Join, parts: seq<Operand>, k: nat, i: int)
    requires BoundedBeforeLast(join, parts) && k <= |parts| && i >= Offset(join, parts, k)
    ensures var r := Locate(join, parts, k, i - Offset(join, parts, k));
      match r
      case Some((j, row)) => IsRowOf(join, parts, j, row, i)
      case None => forall j, row :: k <= j ==> !IsRowOf(join, parts, j, row, i)
    decreases |parts| - k
  {
    if k < |parts| {
      var c := Extent(join, parts[k]);
      if !(c < 0 || i - Offset(join, parts, k) < c) {
        LocateIsExact(join, parts, k + 1, i);
      }
    }
  }

  lemma {:induction false} OffsetNonNegative(join: Join, parts: seq<Operand>, j: nat)
    requires BoundedBeforeLast(join, parts) && j < |parts|
    ensures Offset(join, parts, j) >= 0
  {
    if j > 0 {
      OffsetNonNegative(join, parts, j - 1);
    }
  }

  lemma LocatedRow(join: Join, parts: seq<Operand>, j: int, row: int, i: int)
    requires BoundedBeforeLast(join, parts) && IsRowOf(join, parts, j, row, i)
    ensures Locate(join, parts, 0, i) == Some((j, row))
  {
    OffsetNonNegative(join, parts, j);
    LocateIsExact(join, parts, 0, i);
    var r := Locate(join, parts, 0, i);
    if r.Some? {
      RowIsUnique(join, parts, j, row, r.value.0, r.value.1, i);
    }
  }

  /** The result's first dimension: every row in it belongs to exactly one operand, and no other row
      belongs to any. */
  lemma RowsTile(join: Join, parts: seq<Operand>, total: int, i: int)
    requires BoundedBeforeLast(join, parts) && parts != []
    requires total == if Extent(join, parts[|parts| - 1]) < 0 then -1 else Offset(join, parts, |parts|)
    ensures (exists j, row :: IsRowOf(join, parts, j, row, i)) <==> 0 <= i && (total < 0 || i < total)
  {
    var n := |parts| - 1;
    assert Offset(join, parts, |parts|) == Offset(join, parts, n) + Extent(join, parts[n]);
    if j, row :| IsRowOf(join, parts, j, row, i) {
      OffsetNonNegative(join, parts, j);
      if j < n {
        OffsetsGrow(join, parts, j, n);
      }
      if total >= 0 {
        OffsetNonNegative(join, parts, n);
      }
    }
    if 0 <= i && (total < 0 || i < total) {
      LocateIsExact(join, parts, 0, i);
      if forall k, row :: !IsRowOf(join, parts, k, row, i) {
        NotAfterLast(join, parts, n, i);
        OffsetNonNegative(join, parts, n);
      }
    }
  }

  /** A row at or after operand j's start, when no operand from 0 on has it, comes after operand j. */
  lemma {:induction false} NotAfterLast(join: Join, parts: seq<Operand>, j: nat, i: int)
    requires BoundedBeforeLast(join, parts) && j < |parts| && i >= 0
    requires forall k, row :: !IsRowOf(join, parts, k, row, i)
    ensures i >= Offset(join, parts, j) && 0 <= Extent(join, parts[j]) <= i - Offset(join, parts, j)
  {
    if j > 0 {
      NotAfterLast(join, parts, j - 1, i);
    }
    assert !IsRowOf(join, parts, j, i - Offset(join, parts, j), i);
  }

  // ---- What `++` and enumeration mean -------------------------------------------------------

  /** Rows of the first j operands of `++`: a scalar is one row. */
  function RowsBefore(parts: seq<Operand>, j: nat): int
    requires j <= |parts|
  {
    if j == 0 then 0
    else RowsBefore(parts, j - 1) + if parts[j - 1].Single? || parts[j - 1].size == [] then 1 else parts[j - 1].size[0]
  }

  lemma {:induction false} RowsAreOffsets(parts: seq<Operand>, j: nat)
    requires j <= |parts|
    ensures Offset(Concatenate, parts, j) == RowsBefore(parts, j)
  {
    if j > 0 {
      RowsAreOffsets(parts, j - 1);
    }
  }

  lemma {:induction false} EnumeratedRows(parts: seq<Operand>, j: nat)
    requires j <= |parts|
    ensures Offset(Enumerate, parts, j) == j
  {
    if j > 0 {
      EnumeratedRows(parts, j - 1);
    }
  }

  /** A row of `++` is the row of the named operand that it falls in, counted from the operand's first one; where
      the operand has size 1 in another dimension, its element 0 is meant. */
  lemma ConcatenationMeans(w: World, p: Program, depth: nat, id: Id, j: nat, index: seq<int>, at: seq<int>)
    requires id in p && p[id].Joined? && p[id].join == Concatenate && InBounds(p[id].size, index)
    requires j < |p[id].parts| && BoundedBeforeLast(Concatenate, p[id].parts) && p[id].parts[j].Named?
    requires var s := p[id].parts[j].size;
      && 0 < |s| == |at| <= |index| && (s[0] < 0 || at[0] < s[0])
      && index[0] == RowsBefore(p[id].parts, j) + at[0] && at[0] >= 0
      && forall d :: 0 < d < |s| ==> at[d] == if s[d] == 1 then 0 else index[d]
    ensures depth > 0 ==> Element(w, p, depth, id, index) == Element(w, p, depth - 1, p[id].parts[j].id, at)
  {
    var parts := p[id].parts;
    RowsAreOffsets(parts, j);
    LocatedRow(Concatenate, parts, j, at[0], index[0]);
    assert PartIndex(Concatenate, parts[j].size, at[0], index) == at;
  }

  /** Row j of an enumeration is operand j. */
  lemma EnumerationMeans(w: World, p: Program, depth: nat, id: Id, index: seq<int>, at: seq<int>)
    requires id in p && p[id].Joined? && p[id].join == Enumerate && InBounds(p[id].size, index) && index != []
    requires index[0] < |p[id].parts| && p[id].parts[index[0]].Named?
    requires var s := p[id].parts[index[0]].size;
      |s| == |at| < |index| && forall d :: 0 <= d < |s| ==> at[d] == if s[d] == 1 then 0 else index[d + 1]
    ensures depth > 0 ==> Element(w, p, depth, id, index) == Element(w, p, depth - 1, p[id].parts[index[0]].id, at)
  {
    var parts, j := p[id].parts, index[0];
    EnumeratedRows(parts, j);
    LocatedRow(Enumerate, parts, j, 0, j);
    assert PartIndex(Enumerate, parts[j].size, 0, index) == at;
  }

  // ---- The lowered array --------------------------------------------------------------------

  function Guard(v: VarId, offset: int, extent: int): Expr {
    if extent == 1 then Prim(EQUAL, [Var(v), Const(offset)])
    else if extent == -1 then Prim(AT_LEAST, [Var(v), Const(offset)])
    else Prim(AND, [Prim(AT_LEAST, [Var(v), Const(offset)]), Prim(AT_MOST, [Var(v), Const(offset + extent - 1)])])
  }

  /** An enumeration adds a dimension in front of its operands'. */
  function Shift(join: Join): nat {
    match join
    case Concatenate => 0
    case Enumerate => 1
  }

  /** The index at which an operand of the given size is read. */
  function Args(join: Join, vs: seq<VarId>, size: seq<int>, offset: int): (args: seq<Expr>)
    requires |size| + Shift(join) <= |vs|
    ensures |args| == |size|
  {
    seq(|size|, d requires 0 <= d < |size| =>
      if join == Concatenate && d == 0 then
        if offset > 0 then Prim(SUBTRACT, [Var(vs[0]), Const(offset)]) else Var(vs[0])
      else if size[d] == 1 then Const(0)
      else Var(vs[d + Shift(join)]))
  }

  /** A self reference of an operand, as a reference into the result. */
  function SelfArgs(join: Join, v: VarId, offset: int, args: seq<Expr>): seq<Expr> {
    match join
    case Enumerate => [Var(v)] + args
    case Concatenate => if args == [] then args else [Prim(ADD, [args[0], Const(offset)])] + args[1..]
  }

  /** An operand's body with its variables replaced by arguments and its self references shifted. */
  function Inlined(e: Expr, vars: map<VarId, Expr>, join: Join, v: VarId, offset: int): Expr {
    match e
    case Const(_) => e
    case Bool(_) => e
    case Var(x) => if x in vars then vars[x] else e
    case Prim(op, operands) =>
      Prim(op, seq(|operands|, i requires 0 <= i < |operands| => Inlined(operands[i], vars, join, v, offset)))
    case Case(cases) =>
      Case(seq(|cases|, i requires 0 <= i < |cases| =>
        Branch(Inlined(cases[i].guard, vars, join, v, offset), Inlined(cases[i].value, vars, join, v, offset))))
    case App(target, args) =>
      var moved := seq(|args|, i requires 0 <= i < |args| => Inlined(args[i], vars, join, v, offset));
      App(target, if target == SelfRef then SelfArgs(join, v, offset, moved) else moved)
  }

  function BindExprs(vars: seq<VarId>, args: seq<Expr>): map<VarId, Expr>
    requires |vars| <= |args|
  {
    if vars == [] then map[]
    else BindExprs(vars[..|vars| - 1], args)[vars[|vars| - 1] := args[|vars| - 1]]
  }

  /** What the type checker guarantees of an operand: its dimensions agree with the result's or have
      size 1, and an array written in place applies itself to all its indexes. */
  ghost predicate FitsPart(p: Program, join: Join, size: seq<int>, part: Operand) {
    match part
    case Single(e) => AffineCases(e, [])
    case Named(_, s) => FitsSize(join, size, s)
    case Literal(own, s) =>
      && FitsSize(join, size, s)
      && own in p && p[own].Array? && p[own].size == s && |p[own].vars| == |s| && Distinct(p[own].vars)
      && SelfRank(p[own].body, |s|)
      && (HasSelf(p[own].body) ==> |s| + Shift(join) == |size|)
      && AffineCases(p[own].body, p[own].vars)
  }

  /** If the expression is cases, their guards are constraints on the variables. */
  ghost predicate AffineCases(e: Expr, vars: seq<VarId>) {
    e.Case? ==> forall k :: 0 <= k < |e.cases| ==> AffineGuard(e.cases[k].guard, vars)
  }

  ghost predicate FitsSize(join: Join, size: seq<int>, s: seq<int>) {
    && 0 < |s| && |s| + Shift(join) <= |size|
    && forall d :: 0 <= d < |s| && !(join == Concatenate && d == 0) ==> s[d] == 1 || s[d] == size[d + Shift(join)]
  }

  predicate HasSelf(e: Expr) {
    match e
    case Const(_) => false
    case Bool(_) => false
    case Var(_) => false
    case Prim(_, operands) => exists i :: 0 <= i < |operands| && HasSelf(operands[i])
    case Case(cases) => exists i :: 0 <= i < |cases| && (HasSelf(cases[i].guard) || HasSelf(cases[i].value))
    case App(target, args) => target == SelfRef || exists i :: 0 <= i < |args| && HasSelf(args[i])
  }

  /** Every self reference is applied to exactly n arguments. */
  predicate SelfRank(e: Expr, n: nat) {
    match e
    case Const(_) => true
    case Bool(_) => true
    case Var(_) => true
    case Prim(_, operands) => forall i :: 0 <= i < |operands| ==> SelfRank(operands[i], n)
    case Case(cases) => forall i :: 0 <= i < |cases| ==> SelfRank(cases[i].guard, n) && SelfRank(cases[i].value, n)
    case App(target, args) =>
      (target == SelfRef ==> |args| == n) && forall i :: 0 <= i < |args| ==> SelfRank(args[i], n)
  }

  /** A constraint on the variables: no array accesses, no other names. */
  predicate AffineGuard(e: Expr, vars: seq<VarId>) {
    match e
    case Const(_) => true
    case Bool(_) => true
    case Var(v) => v in vars
    case Prim(_, operands) => forall i :: 0 <= i < |operands| ==> AffineGuard(operands[i], vars)
    case Case(_) => false
    case App(_, _) => false
  }

  ghost predicate WellJoined(p: Program, r: Id, vs: seq<VarId>) {
    && r in p && p[r].Joined?
    && var join, size, parts := p[r].join, p[r].size, p[r].parts;
    && |vs| == |size| && 0 < |size| && Distinct(vs) && parts != []
    && BoundedBeforeLast(join, parts)
    && (forall j :: 0 <= j < |parts| ==> Extent(join, parts[j]) >= -1)
    && (forall d :: 0 < d < |size| ==> size[d] >= 1 || size[d] == -1)
    && size[0] == (if Extent(join, parts[|parts| - 1]) < 0 then -1 else Offset(join, parts, |parts|))
    && forall j :: 0 <= j < |parts| ==> FitsPart(p, join, size, parts[j]) && (parts[j].Literal? ==> parts[j].id != r)
  }

  /** An operand applied to its arguments. */
  function Applied(p: Program, join: Join, vs: seq<VarId>, part: Operand, offset: int): Expr
    requires vs != [] && (!part.Single? ==> |part.size| + Shift(join) <= |vs|)
  {
    match part
    case Single(e) => e
    case Named(id, s) => App(Ref(id), Args(join, vs, s, offset))
    case Literal(own, s) =>
      if own in p && p[own].Array? && |p[own].vars| == |s|
      then Inlined(p[own].body, BindExprs(p[own].vars, Args(join, vs, s, offset)), join, vs[0], offset)
      else Const(0)
  }

  /** intersect, on guards */
  function Both(a: Expr, b: Expr): Expr {
    if a == Bool(false) || b == Bool(false) then Bool(false)
    else if a == Bool(true) then b
    else if b == Bool(true) then a
    else Prim(AND, [a, b])
  }

  /** A case whose expression is itself cases becomes several cases. */
  function Flattened(b: Branch): (r: seq<Branch>) {
    if b.value.Case? then
      seq(|b.value.cases|, k requires 0 <= k < |b.value.cases| =>
        Branch(Both(b.guard, b.value.cases[k].guard), b.value.cases[k].value))
    else [b]
  }

  function PartBranch(p: Program, join: Join, vs: seq<VarId>, parts: seq<Operand>, j: nat): Branch
    requires j < |parts| && vs != []
    requires !parts[j].Single? ==> |parts[j].size| + Shift(join) <= |vs|
  {
    Branch(Guard(vs[0], Offset(join, parts, j), Extent(join, parts[j])),
           Applied(p, join, vs, parts[j], Offset(join, parts, j)))
  }

  ghost predicate PartsFit(join: Join, vs: seq<VarId>, parts: seq<Operand>) {
    && vs != []
    && forall j :: 0 <= j < |parts| && !parts[j].Single? ==> |parts[j].size| + Shift(join) <= |vs|
  }

  function Concat(groups: seq<seq<Branch>>): seq<Branch> {
    if groups == [] then [] else Concat(groups[..|groups| - 1]) + groups[|groups| - 1]
  }

  /** The cases of each operand. */
  ghost function Groups(p: Program, join: Join, vs: seq<VarId>, parts: seq<Operand>): (groups: seq<seq<Branch>>)
    requires PartsFit(join, vs, parts)
    ensures |groups| == |parts|
  {
    seq(|parts|, j requires 0 <= j < |parts| => Flattened(PartBranch(p, join, vs, parts, j)))
  }

  /** All cases of the result. */
  ghost function Lowered(p: Program, join: Join, vs: seq<VarId>, parts: seq<Operand>): seq<Branch>
    requires PartsFit(join, vs, parts)
  {
    Concat(Groups(p, join, vs, parts))
  }

  /** The loop over operands: a guard and an applied operand each. */
  method BuildCases(p: Program, join: Join, vs: seq<VarId>, parts: seq<Operand>) returns (domains: seq<Branch>, nested: bool)
    requires PartsFit(join, vs, parts)
    ensures |domains| == |parts| && forall k :: 0 <= k < |parts| ==> domains[k] == PartBranch(p, join, vs, parts, k)
    ensures !nested ==> forall k :: 0 <= k < |parts| ==> !domains[k].value.Case?
  {
    var currentIndex := 0;
    domains, nested := [], false;
    for j := 0 to |parts|
      invariant |domains| == j && currentIndex == Offset(join, parts, j)
      invariant forall k :: 0 <= k < j ==> domains[k] == PartBranch(p, join, vs, parts, k)
      invariant !nested ==> forall k :: 0 <= k < j ==> !domains[k].value.Case?
    {
      var extent := Extent(join, parts[j]);
      var bounds := Guard(vs[0], currentIndex, extent);
      var operand := Applied(p, join, vs, parts[j], currentIndex);
      if operand.Case? {
        nested := true;
      }
      domains := domains + [Branch(bounds, operand)];
      currentIndex := currentIndex + extent;
    }
  }

  /** reduce(case_expr): nested cases are merged into their place. */
  method MergeCases(domains: seq<Branch>) returns (merged: seq<Branch>)
    ensures merged == Concat(seq(|domains|, j requires 0 <= j < |domains| => Flattened(domains[j])))
    ensures (forall j :: 0 <= j < |domains| ==> !domains[j].value.Case?) ==> merged == domains
  {
    ghost var groups := seq(|domains|, j requires 0 <= j < |domains| => Flattened(domains[j]));
    merged := [];
    for j := 0 to |domains|
      invariant merged == Concat(groups[..j])
      invariant (forall k :: 0 <= k < j ==> !domains[k].value.Case?) ==> merged == domains[..j]
    {
      assert groups[..j + 1][..j] == groups[..j];
      merged := merged + Flattened(domains[j]);
    }
    assert domains[..|domains|] == domains && groups[..|groups|] == groups;
  }

  /** reduce(operation) */
  method ReduceJoin(p: Program, r: Id, vs: seq<VarId>) returns (def: Def)
    requires WellJoined(p, r, vs)
    ensures PartsFit(p[r].join, vs, p[r].parts)
    ensures def == Array(vs, p[r].size, Case(Lowered(p, p[r].join, vs, p[r].parts)))
  {
    JoinedPartsFit(p, r, vs);
    var domains, nested := BuildCases(p, p[r].join, vs, p[r].parts);
    var cases := MergeCases(domains);
    assert seq(|domains|, j requires 0 <= j < |domains| => Flattened(domains[j])) == Groups(p, p[r].join, vs, p[r].parts);
    if !nested {
      cases := domains;
    }
    def := Array(vs, p[r].size, Case(cases));
  }

  lemma JoinedPartsFit(p: Program, r: Id, vs: seq<VarId>)
    requires WellJoined(p, r, vs)
    ensures PartsFit(p[r].join, vs, p[r].parts)
  {
    forall j | 0 <= j < |p[r].parts| && !p[r].parts[j].Single? ensures |p[r].parts[j].size| + Shift(p[r].join) <= |vs| {
      assert FitsPart(p, p[r].join, p[r].size, p[r].parts[j]);
    }
  }
}
