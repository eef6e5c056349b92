/** The two checks of an array defined by patterns: frontend/type_check.cpp before reduction, and
    frontend/ph_model_gen.cpp after it.
 */
module ArrayChecks {
  import opened Options
  import opened IslModel
  import opened ArrayPatterns

  datatype Range = Finite(size: int) | Infinite

  /** What process_array concludes: the array's size (-1 if unbounded), or the error it throws. */
  datatype Checked = Sized(size: seq<int>) | EmptyDomain | PartUndefined

  /** to_affine_set */
  function AffineSet(atoms: Atoms, g: Guard): (s: Region)
    ensures forall x :: s(x) <==> Holds(g, atoms, x)
  {
    match g
    case Truth(value) => (x: Vec) => value
    case Equal(dim, at) => (x: Vec) => dim < |x| && x[dim] == at
    case Atom(id) => (x: Vec) => atoms(id, x)
    case And(a, b) => var s, t := AffineSet(atoms, a), AffineSet(atoms, b); (x: Vec) => s(x) && t(x)
    case Or(a, b) => var s, t := AffineSet(atoms, a), AffineSet(atoms, b); (x: Vec) => s(x) || t(x)
    case Not(a) => var s := AffineSet(atoms, a); (x: Vec) => !s(x)
  }

  /** Explicit bounds of the variables, which come after `base` context coordinates. */
  predicate WithinRanges(base: nat, ranges: seq<Option<Range>>, x: Vec) {
    forall i :: 0 <= i < |ranges| ==> base + i < |x| && WithinRange(ranges[i], x[base + i])
  }

  predicate WithinRange(range: Option<Range>, index: int) {
    index >= 0 && (range.Some? && range.value.Finite? ==> index < range.value.size)
  }

  predicate InBox(base: nat, size: seq<int>, x: Vec) {
    forall i :: 0 <= i < |size| ==> base + i < |x| && Below(size[i], x[base + i])
  }

  predicate Below(size: int, index: int) {
    index >= 0 && (size >= 0 ==> index < size)
  }

  ghost predicate IsDefined(base: nat, atoms: Atoms, alts: seq<Alternative>, x: Vec) {
    exists k :: 0 <= k < |alts| && Matches(base, atoms, alts[k], x)
  }

  /** Where the patterns define the array, within its context and explicit bounds. */
  ghost predicate InDomain(base: nat, atoms: Atoms, context: Region, ranges: seq<Option<Range>>,
                           alts: seq<Alternative>, x: Vec)
  {
    context(x) && WithinRanges(base, ranges, x) && IsDefined(base, atoms, alts, x)
  }

  /** The size of one dimension: its explicit range, or else one more than the greatest index. */
  ghost predicate IsSize(n: nat, def: Region, dim: nat, range: Option<Range>, size: int)
    requires dim < n
  {
    match range
    case Some(Finite(s)) => size == s
    case Some(Infinite) => size == -1
    case None =>
      if exists m :: IsMaximum(n, def, dim, m) then IsMaximum(n, def, dim, size - 1) else size == -1
  }

  // ---- The type checker ---------------------------------------------------------------------

  method PatternDomain(base: nat, domain: Region, indexes: seq<Option<int>>) returns (d: Region)
    ensures forall x :: d(x) <==> domain(x) && MatchesIndexes(base, indexes, x)
  {
    d := domain;
    for i := 0 to |indexes|
      invariant forall x :: d(x) <==> domain(x) && MatchesIndexes(base, indexes[..i], x)
    {
      forall x { OneMoreIndex(base, indexes, i, x); }
      if indexes[i].Some? {
        var e, dim, v := d, base + i, indexes[i].value;
        d := x => e(x) && dim < |x| && x[dim] == v;
      }
    }
    assert indexes[..|indexes|] == indexes;
  }

  /** The domain of each alternative is what no earlier alternative defined; `def` is their union. */
  ghost predicate DomainsSoFar(base: nat, atoms: Atoms, domain: Region, alts: seq<Alternative>, domains: seq<Region>, def: Region) {
    && |domains| == |alts|
    && (forall k, x {:trigger domains[k](x)} :: 0 <= k < |alts| ==> (domains[k](x) <==> domain(x) && IsFirst(base, atoms, alts, k, x)))
    && (forall x :: def(x) <==> domain(x) && IsDefined(base, atoms, alts, x))
  }

  lemma OneMoreDomain(base: nat, atoms: Atoms, domain: Region, alts: seq<Alternative>, domains: seq<Region>, def: Region,
                      alt: Alternative, d: Region, def': Region)
    requires DomainsSoFar(base, atoms, domain, alts, domains, def)
    requires forall x :: d(x) <==> domain(x) && Matches(base, atoms, alt, x) && !def(x)
    requires forall x :: def'(x) <==> def(x) || d(x)
    ensures DomainsSoFar(base, atoms, domain, alts + [alt], domains + [d], def')
  {
    var more := alts + [alt];
    assert forall j :: 0 <= j < |alts| ==> more[j] == alts[j];
    forall k, x | 0 <= k < |more|
      ensures (domains + [d])[k](x) <==> domain(x) && IsFirst(base, atoms, more, k, x)
    {
      if k < |alts| {
        assert domains[k](x) <==> domain(x) && IsFirst(base, atoms, alts, k, x);
      }
    }
    forall x ensures def'(x) <==> domain(x) && IsDefined(base, atoms, more, x) {
      assert more[|alts|] == alt;
      if domain(x) && IsDefined(base, atoms, alts, x) {
        var k :| 0 <= k < |alts| && Matches(base, atoms, alts[k], x);
        assert Matches(base, atoms, more[k], x);
      }
      if domain(x) && Matches(base, atoms, alt, x) {
        assert Matches(base, atoms, more[|alts|], x);
      }
    }
  }

  method CheckPattern(base: nat, atoms: Atoms, domain: Region, pattern: Pattern, ghost alts: seq<Alternative>,
                      domains: seq<Region>, def: Region)
    returns (domains': seq<Region>, def': Region)
    requires DomainsSoFar(base, atoms, domain, alts, domains, def)
    ensures DomainsSoFar(base, atoms, domain, alts + AlternativesOf(pattern), domains', def')
  {
    domains', def' := domains, def;
    var patternDomain := PatternDomain(base, domain, pattern.indexes);
    ghost var own := AlternativesOf(pattern);
    assert alts + own[..0] == alts;
    for c := 0 to |pattern.cases|
      invariant DomainsSoFar(base, atoms, domain, alts + own[..c], domains', def')
    {
      var guard, before := AffineSet(atoms, pattern.cases[c].guard), def';
      var exprDomain: Region := x => patternDomain(x) && guard(x) && !before(x);
      var union: Region := x => before(x) || exprDomain(x);
      OneMoreDomain(base, atoms, domain, alts + own[..c], domains', before, own[c], exprDomain, union);
      assert (alts + own[..c]) + [own[c]] == alts + own[..c + 1];
      domains', def' := domains' + [exprDomain], union;
    }
    assert own[..|own|] == own;
  }

  method DefinitionDomain(base: nat, atoms: Atoms, domain: Region, patterns: seq<Pattern>)
    returns (domains: seq<Region>, def: Region)
    ensures DomainsSoFar(base, atoms, domain, Alternatives(patterns), domains, def)
  {
    domains, def := [], _ => false;
    for p := 0 to |patterns|
      invariant DomainsSoFar(base, atoms, domain, Alternatives(patterns[..p]), domains, def)
    {
      assert patterns[..p + 1][..p] == patterns[..p];
      domains, def := CheckPattern(base, atoms, domain, patterns[p], Alternatives(patterns[..p]), domains, def);
    }
    assert patterns[..|patterns|] == patterns;
  }

  /** Explicit ranges, and the inferred ones of variables without. */
  method ArraySize(isl: Isl, base: nat, ranges: seq<Option<Range>>, def: Region) returns (size: seq<int>)
    requires Sound(isl, base + |ranges|)
    ensures |size| == |ranges|
    ensures forall i :: 0 <= i < |ranges| ==> IsSize(base + |ranges|, def, base + i, ranges[i], size[i])
  {
    size := [];
    for i := 0 to |ranges|
      invariant |size| == i
      invariant forall k :: 0 <= k < i ==> IsSize(base + |ranges|, def, base + k, ranges[k], size[k])
    {
      match ranges[i] {
        case Some(Finite(s)) => size := size + [s];
        case Some(Infinite) => size := size + [-1];
        case None =>
          var max := isl.maximum(base + |ranges|, def, base + i);
          size := size + [if max.Some? then max.value + 1 else -1];
      }
    }
  }

  ghost predicate SameSet(n: nat, a: Region, b: Region) {
    forall x: Vec :: |x| == n ==> (a(x) <==> b(x))
  }

  method Equal(isl: Isl, n: nat, a: Region, b: Region) returns (equal: bool)
    requires Sound(isl, n)
    ensures equal <==> SameSet(n, a, b)
  {
    var difference: Region := x => a(x) != b(x);
    equal := isl.isEmpty(n, difference);
    assert equal <==> forall x: Vec | |x| == n :: !difference(x);
  }

  ghost predicate AreSizes(base: nat, ranges: seq<Option<Range>>, def: Region, size: seq<int>) {
    && |size| == |ranges|
    && forall i :: 0 <= i < |ranges| ==> IsSize(base + |ranges|, def, base + i, ranges[i], size[i])
  }

  /** The definition fills the box of the given size, wherever the context allows any index. */
  ghost predicate FillsBox(base: nat, context: Region, size: seq<int>, def: Region) {
    forall x: Vec :: |x| == base + |size| ==> (context(x) && InBox(base, size, x) <==> def(x))
  }

  lemma SizesAreUnique(base: nat, ranges: seq<Option<Range>>, def: Region, size: seq<int>, other: seq<int>)
    requires AreSizes(base, ranges, def, size) && AreSizes(base, ranges, def, other)
    ensures size == other
  {
    forall i | 0 <= i < |ranges| ensures other[i] == size[i] {
      assert IsSize(base + |ranges|, def, base + i, ranges[i], size[i]);
      assert IsSize(base + |ranges|, def, base + i, ranges[i], other[i]);
    }
  }

  /** The conclusion from the domain of the definition. */
  ghost predicate Concludes(base: nat, context: Region, ranges: seq<Option<Range>>, def: Region, checked: Checked) {
    match checked
    case EmptyDomain => forall x: Vec | |x| == base + |ranges| :: !def(x)
    case Sized(size) =>
      && (exists x: Vec :: |x| == base + |ranges| && def(x))
      && AreSizes(base, ranges, def, size) && FillsBox(base, context, size, def)
    case PartUndefined =>
      && (exists x: Vec :: |x| == base + |ranges| && def(x))
      && forall size :: AreSizes(base, ranges, def, size) ==> !FillsBox(base, context, size, def)
  }

  /** process_array: domains of the expressions, sizes, and the check that the definition is a box. */
  method ProcessArray(isl: Isl, atoms: Atoms, base: nat, context: Region, ranges: seq<Option<Range>>, patterns: seq<Pattern>)
    returns (checked: Checked, domains: seq<Region>, ghost def: Region)
    requires Sound(isl, base + |ranges|)
    ensures forall x :: def(x) <==> InDomain(base, atoms, context, ranges, Alternatives(patterns), x)
    ensures |domains| == |Alternatives(patterns)|
    ensures forall k, x {:trigger domains[k](x)} :: 0 <= k < |domains| ==>
      (domains[k](x) <==> context(x) && WithinRanges(base, ranges, x) && IsFirst(base, atoms, Alternatives(patterns), k, x))
    ensures Concludes(base, context, ranges, def, checked)
  {
    var domain: Region := x => context(x) && WithinRanges(base, ranges, x);
    var union;
    domains, union := DefinitionDomain(base, atoms, domain, patterns);
    def := union;
    if isl.isEmpty(base + |ranges|, union) {
      return EmptyDomain, domains, def;
    }
    ghost var x: Vec :| |x| == base + |ranges| && union(x);
    var size := ArraySize(isl, base, ranges, union);
    var rect: Region := x => context(x) && InBox(base, size, x);
    var equal := Equal(isl, base + |ranges|, rect, union);
    if !equal {
      forall other | AreSizes(base, ranges, union, other) ensures !FillsBox(base, context, other, union) {
        SizesAreUnique(base, ranges, union, size, other);
      }
      return PartUndefined, domains, def;
    }
    return Sized(size), domains, def;
  }

  // ---- The conclusion from the patterns alone -----------------------------------------------

  predicate InRange(range: Range, index: int) {
    0 <= index && (range.Infinite? || index < range.size)
  }

  /** x is inside the explicit ranges. */
  ghost predicate Inside(base: nat, ranges: seq<Range>, x: Vec) {
    && |x| == base + |ranges|
    && forall i :: 0 <= i < |ranges| ==> InRange(ranges[i], x[base + i])
  }

  ghost predicate Explicit(ranges: seq<Option<Range>>, given: seq<Range>) {
    |given| == |ranges| && forall i :: 0 <= i < |ranges| ==> ranges[i] == Some(given[i])
  }

  lemma InsideIsDomain(base: nat, atoms: Atoms, context: Region, ranges: seq<Option<Range>>, given: seq<Range>,
                       alts: seq<Alternative>, x: Vec)
    requires Explicit(ranges, given) && |x| == base + |ranges|
    ensures InDomain(base, atoms, context, ranges, alts, x) <==>
      context(x) && Inside(base, given, x) && exists k :: 0 <= k < |alts| && Matches(base, atoms, alts[k], x)
  {
    forall i | 0 <= i < |ranges| ensures WithinRange(ranges[i], x[base + i]) <==> InRange(given[i], x[base + i]) {
      assert ranges[i] == Some(given[i]);
    }
    assert WithinRanges(base, ranges, x) <==> Inside(base, given, x);
  }

  function SizeOfRange(range: Range): int {
    if range.Infinite? then -1 else range.size
  }

  lemma ExplicitSizes(base: nat, ranges: seq<Option<Range>>, given: seq<Range>, def: Region, size: seq<int>)
    requires Explicit(ranges, given)
    ensures AreSizes(base, ranges, def, size) <==>
      |size| == |given| && forall i :: 0 <= i < |given| ==> size[i] == SizeOfRange(given[i])
  {
    forall i | 0 <= i < |ranges| && |size| == |ranges|
      ensures IsSize(base + |ranges|, def, base + i, ranges[i], size[i]) <==> size[i] == SizeOfRange(given[i])
    {
      assert ranges[i] == Some(given[i]);
    }
  }

  lemma InsideIsBox(base: nat, given: seq<Range>, size: seq<int>, y: Vec, x: Vec)
    requires |size| == |given| && forall i :: 0 <= i < |given| ==> size[i] == SizeOfRange(given[i])
    requires Inside(base, given, y) && |x| == base + |given|
    ensures InBox(base, size, x) <==> Inside(base, given, x)
  {
    forall i | 0 <= i < |given| ensures Below(size[i], x[base + i]) <==> InRange(given[i], x[base + i]) {
      assert size[i] == SizeOfRange(given[i]) && InRange(given[i], y[base + i]);
    }
  }

  /** With all ranges given, the array has the size that they say exactly if some index inside them is matched
      and no index inside them is left unmatched (in the context). */
  lemma ExplicitRangesDecide(base: nat, atoms: Atoms, context: Region, ranges: seq<Option<Range>>, given: seq<Range>,
                             alts: seq<Alternative>, def: Region, checked: Checked)
    requires forall x :: def(x) <==> InDomain(base, atoms, context, ranges, alts, x)
    requires Concludes(base, context, ranges, def, checked) && Explicit(ranges, given)
    ensures checked.Sized? <==>
      && (exists x: Vec, k :: context(x) && Inside(base, given, x) && 0 <= k < |alts| && Matches(base, atoms, alts[k], x))
      && forall x: Vec :: context(x) && Inside(base, given, x) ==> exists k :: 0 <= k < |alts| && Matches(base, atoms, alts[k], x)
    ensures checked.Sized? ==>
      |checked.size| == |given| && forall i :: 0 <= i < |given| ==> checked.size[i] == SizeOfRange(given[i])
  {
    var size := seq(|given|, i requires 0 <= i < |given| => SizeOfRange(given[i]));
    ExplicitSizes(base, ranges, given, def, size);
    if checked.Sized? {
      ExplicitSizes(base, ranges, given, def, checked.size);
      assert checked.size == size;
    }
    forall x: Vec | |x| == base + |ranges|
      ensures def(x) <==> context(x) && Inside(base, given, x) && exists k :: 0 <= k < |alts| && Matches(base, atoms, alts[k], x)
    {
      InsideIsDomain(base, atoms, context, ranges, given, alts, x);
    }
    if y: Vec :| |y| == base + |ranges| && def(y) {
      forall x: Vec | |x| == base + |ranges| ensures InBox(base, size, x) <==> Inside(base, given, x) {
        InsideIsBox(base, given, size, y, x);
      }
      assert FillsBox(base, context, size, def) <==> forall x: Vec :: context(x) && Inside(base, given, x) ==> def(x);
    }
  }

  /** Where no range is given, a finite size is one more than an index that is matched. */
  lemma InferredSizeIsTight(base: nat, atoms: Atoms, context: Region, ranges: seq<Option<Range>>, alts: seq<Alternative>,
                            def: Region, size: seq<int>, i: nat)
    requires forall x :: def(x) <==> InDomain(base, atoms, context, ranges, alts, x)
    requires AreSizes(base, ranges, def, size) && i < |ranges| && ranges[i] == None && size[i] != -1
    ensures exists x: Vec, k ::
      |x| == base + |ranges| && context(x) && x[base + i] == size[i] - 1 && 0 <= k < |alts| && Matches(base, atoms, alts[k], x)
  {
    assert IsSize(base + |ranges|, def, base + i, ranges[i], size[i]);
  }

  // ---- Making statements --------------------------------------------------------------------

  datatype Statements = Made(domains: seq<Region>) | NotDisjoint | NotCovered

  ghost predicate StatementDomain(size: seq<int>, atoms: Atoms, cases: seq<Case>, k: int, x: Vec) {
    0 <= k < |cases| && InBox(0, size, x) && Holds(cases[k].guard, atoms, x)
  }

  ghost predicate Overlapping(size: seq<int>, atoms: Atoms, cases: seq<Case>, j: int, k: int, x: Vec) {
    |x| == |size| && StatementDomain(size, atoms, cases, j, x) && StatementDomain(size, atoms, cases, k, x)
  }

  ghost predicate DisjointUpTo(size: seq<int>, atoms: Atoms, cases: seq<Case>, n: int) {
    forall j, k, x :: 0 <= j < k < n ==> !Overlapping(size, atoms, cases, j, k, x)
  }

  ghost predicate CoverBox(size: seq<int>, atoms: Atoms, cases: seq<Case>) {
    forall x: Vec :: |x| == |size| && InBox(0, size, x) ==> exists k :: StatementDomain(size, atoms, cases, k, x)
  }

  ghost predicate StatementsSoFar(size: seq<int>, atoms: Atoms, cases: seq<Case>, domains: seq<Region>, combined: Region) {
    && |domains| <= |cases|
    && (forall k, x {:trigger domains[k](x)} :: 0 <= k < |domains| ==>
          (domains[k](x) <==> StatementDomain(size, atoms, cases, k, x)))
    && (forall x :: combined(x) <==> exists k :: k < |domains| && StatementDomain(size, atoms, cases, k, x))
  }

  method AddStatement(isl: Isl, atoms: Atoms, size: seq<int>, cases: seq<Case>, domains: seq<Region>, combined: Region)
    returns (ok: bool, domains': seq<Region>, combined': Region)
    requires Sound(isl, |size|) && |domains| < |cases|
    requires StatementsSoFar(size, atoms, cases, domains, combined)
    ensures ok ==> StatementsSoFar(size, atoms, cases, domains', combined') && |domains'| == |domains| + 1
    ensures ok <==> forall k, x :: 0 <= k < |domains| ==> !Overlapping(size, atoms, cases, k, |domains|, x)
  {
    var c := |domains|;
    var guard := AffineSet(atoms, cases[c].guard);
    var write: Region := x => InBox(0, size, x) && guard(x);
    var common: Region := x => write(x) && combined(x);
    ok, domains', combined' := true, domains + [write], x => combined(x) || write(x);
    assert forall x :: write(x) <==> StatementDomain(size, atoms, cases, c, x);
    if !isl.isEmpty(|size|, common) {
      var x: Vec :| |x| == |size| && common(x);
      ghost var k :| k < c && StatementDomain(size, atoms, cases, k, x);
      assert Overlapping(size, atoms, cases, k, c, x);
      ok := false;
      return;
    }
    forall k, x | 0 <= k < c ensures !Overlapping(size, atoms, cases, k, c, x) {
      assert |x| == |size| ==> !common(x);
    }
  }

  /** make_statements, for an array whose body is cases */
  method MakeStatements(isl: Isl, atoms: Atoms, size: seq<int>, cases: seq<Case>) returns (r: Statements)
    requires Sound(isl, |size|)
    ensures r.Made? <==> DisjointUpTo(size, atoms, cases, |cases|) && CoverBox(size, atoms, cases)
    ensures r == NotDisjoint <==> !DisjointUpTo(size, atoms, cases, |cases|)
    ensures r.Made? ==> |r.domains| == |cases|
    ensures r.Made? ==> forall k, x {:trigger r.domains[k](x)} :: 0 <= k < |cases| ==>
      (r.domains[k](x) <==> StatementDomain(size, atoms, cases, k, x))
  {
    var combined: Region := _ => false;
    var domains: seq<Region> := [];
    for c := 0 to |cases|
      invariant |domains| == c && DisjointUpTo(size, atoms, cases, c)
      invariant StatementsSoFar(size, atoms, cases, domains, combined)
    {
      var ok;
      ok, domains, combined := AddStatement(isl, atoms, size, cases, domains, combined);
      if !ok {
        return NotDisjoint;
      }
    }
    var arrayDomain: Region := x => InBox(0, size, x);
    var covered := Equal(isl, |size|, combined, arrayDomain);
    r := if covered then Made(domains) else NotCovered;
  }

  /** An un-nested array that passes the type checker's test passes both later tests. */
  lemma CheckedArrayMakesStatements(atoms: Atoms, context: Region, ranges: seq<Option<Range>>, alts: seq<Alternative>,
                                    def: Region, size: seq<int>, cases: seq<Case>)
    requires forall x :: context(x)
    requires forall x :: def(x) <==> InDomain(0, atoms, context, ranges, alts, x)
    requires FillsBox(0, context, size, def) && Partitions(0, alts, cases)
    ensures DisjointUpTo(size, atoms, cases, |cases|) && CoverBox(size, atoms, cases)
  {
    forall j, k, x | 0 <= j < k < |cases| ensures !Overlapping(size, atoms, cases, j, k, x) {
      CasesPartition(0, alts, cases, atoms, x);
    }
    forall x: Vec | |x| == |size| && InBox(0, size, x) ensures exists k :: StatementDomain(size, atoms, cases, k, x) {
      CasesPartition(0, alts, cases, atoms, x);
      assert def(x);
      var k :| 0 <= k < |cases| && Holds(cases[k].guard, atoms, x);
      assert StatementDomain(size, atoms, cases, k, x);
    }
  }

  /** Within the bounds, the domain that the checker gave an expression is the domain of the case
      that reduction made of it. */
  lemma DomainsAgree(base: nat, atoms: Atoms, domain: Region, alts: seq<Alternative>, domains: seq<Region>, def: Region,
                     cases: seq<Case>, k: nat, x: Vec)
    requires DomainsSoFar(base, atoms, domain, alts, domains, def) && Partitions(base, alts, cases)
    requires k < |alts| && domain(x)
    ensures domains[k](x) <==> Holds(cases[k].guard, atoms, x)
  {
    assert domains[k](x) <==> domain(x) && IsFirst(base, atoms, alts, k, x);
  }

  /** Type check, reduce, make statements: for an un-nested array only the first step can fail. */
  method CompileArray(isl: Isl, atoms: Atoms, ranges: seq<Option<Range>>, patterns: seq<Pattern>)
    returns (checked: Checked, body: Body, statements: Option<Statements>)
    requires Sound(isl, |ranges|)
    ensures Compiles(0, Alternatives(patterns), body)
    ensures statements.Some? <==> checked.Sized? && body.Cases?
    ensures statements.Some? ==> statements.value.Made?
  {
    var context: Region := _ => true;
    var domains;
    ghost var def;
    checked, domains, def := ProcessArray(isl, atoms, 0, context, ranges, patterns);
    body := ReducePatterns(0, patterns);
    statements := None;
    if checked.Sized? && body.Cases? {
      CheckedArrayMakesStatements(atoms, context, ranges, Alternatives(patterns), def, checked.size, body.cases);
      var made := MakeStatements(isl, atoms, checked.size, body.cases);
      statements := Some(made);
    }
  }
}
