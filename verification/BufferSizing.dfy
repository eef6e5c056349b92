/** polyhedral/storage_alloc.cpp: from conflicting pairs of array elements to one modulo size per
    dimension of the array's buffer.
 */
module BufferSizing {
  import opened Options
  import opened IslModel

  // ---- What the sizes are, said without the loops -------------------------------------------

  ghost predicate NonNegative(v: Vec) {
    forall d :: 0 <= d < |v| ==> v[d] >= 0
  }

  ghost predicate Zero(v: Vec) {
    forall d :: 0 <= d < |v| ==> v[d] == 0
  }

  function Flip(v: Vec, d: nat): Vec
    requires d < |v|
  {
    v[d := -v[d]]
  }

  function Negated(v: Vec): (w: Vec)
    ensures |w| == |v| && forall d :: 0 <= d < |v| ==> w[d] == -v[d]
  {
    seq(|v|, d requires 0 <= d < |v| => -v[d])
  }

  ghost predicate FlippedFrom(deltas: Region, v: Vec, d: nat) {
    d < |v| && v[d] >= 0 && deltas(Flip(v, d))
  }

  /** The "absolute values" of the distances: the non-negative ones, and the image of every one
      under flipping a single non-positive coordinate. */
  ghost predicate Absolute(n: nat, deltas: Region, v: Vec) {
    && |v| == n
    && ((deltas(v) && NonNegative(v)) || exists d :: FlippedFrom(deltas, v, d))
  }

  ghost predicate Exclusive(n: nat, deltas: Region, dim: nat, v: Vec) {
    Absolute(n, deltas, v) && forall d :: 0 <= d < n && d != dim ==> v[d] == 0
  }

  ghost predicate IsExclusiveMax(n: nat, deltas: Region, dim: nat, m: int)
    requires dim < n
  {
    && (exists v :: Exclusive(n, deltas, dim, v) && v[dim] == m)
    && (forall v :: Exclusive(n, deltas, dim, v) ==> v[dim] <= m)
  }

  /** Sizes after the first stage: 1 in classic mode, else one more than the greatest distance
      that no other dimension can satisfy. */
  ghost predicate FirstSizes(n: nat, deltas: Region, classic: bool, first: seq<int>) {
    && |first| == n
    && forall d {:trigger first[d]} :: 0 <= d < n ==>
         if classic then first[d] == 1 else IsExclusiveMax(n, deltas, d, first[d] - 1)
  }

  /** Distances that the first stage leaves unsatisfied and that are zero before `dim`. */
  ghost predicate Level(n: nat, deltas: Region, classic: bool, first: seq<int>, dim: nat, v: Vec)
    requires |first| == n
  {
    && Absolute(n, deltas, v)
    && (classic || forall d :: 0 <= d < n ==> v[d] == 0 || v[d] >= first[d])
    && (forall d :: 0 <= d < dim && d < n ==> v[d] == 0)
  }

  ghost predicate IsLevelMax(n: nat, deltas: Region, classic: bool, first: seq<int>, dim: nat, m: int)
    requires |first| == n && dim < n
  {
    && (exists v :: Level(n, deltas, classic, first, dim, v) && v[dim] == m)
    && (forall v :: Level(n, deltas, classic, first, dim, v) ==> v[dim] <= m)
  }

  ghost predicate SizeAt(n: nat, deltas: Region, classic: bool, first: seq<int>, d: nat, size: int)
    requires |first| == n && d < n
  {
    if exists v :: Level(n, deltas, classic, first, d, v) then
      exists m :: IsLevelMax(n, deltas, classic, first, d, m) && size == if m + 1 > first[d] then m + 1 else first[d]
    else
      size == first[d]
  }

  ghost predicate Sizes(n: nat, deltas: Region, classic: bool, first: seq<int>, size: seq<int>) {
    && FirstSizes(n, deltas, classic, first)
    && |size| == n
    && forall d {:trigger size[d]} :: 0 <= d < n ==> SizeAt(n, deltas, classic, first, d, size[d])
  }

  ghost predicate Ones(n: nat, size: seq<int>) {
    |size| == n && forall d :: 0 <= d < n ==> size[d] == 1
  }

  ghost predicate NoConflicts(n: nat, conflicts: Relation) {
    forall x: Vec, y: Vec | |x| == n && |y| == n :: !conflicts(x, y)
  }

  /** The sizes that belong to a conflict relation; `deltas` are its distances. */
  ghost predicate SizesFor(n: nat, conflicts: Relation, deltas: Region, classic: bool, size: seq<int>) {
    if NoConflicts(n, conflicts) then Ones(n, size)
    else exists first :: Sizes(n, deltas, classic, first, size)
  }

  // ---- The algorithm ------------------------------------------------------------------------

  method AbsoluteValues(n: nat, s: Region) returns (abs: Region)
    ensures forall v: Vec :: |v| == n ==> (abs(v) <==> Absolute(n, s, v))
  {
    var positive := s;
    for dim := 0 to n
      invariant forall v: Vec :: |v| == n ==> (positive(v) <==> s(v) && forall d :: 0 <= d < dim ==> v[d] >= 0)
    {
      var p := positive;
      positive := v => p(v) && dim < |v| && v[dim] >= 0;
    }
    abs := positive;
    for dim := 0 to n
      invariant forall v: Vec :: |v| == n ==>
        (abs(v) <==> positive(v) || exists d: nat :: d < dim && FlippedFrom(s, v, d))
    {
      var a := abs;
      abs := v => a(v) || (dim < |v| && v[dim] >= 0 && s(Flip(v, dim)));
      forall v: Vec | |v| == n
        ensures abs(v) <==> positive(v) || exists d: nat :: d < dim + 1 && FlippedFrom(s, v, d)
      {
        assert abs(v) <==> a(v) || FlippedFrom(s, v, dim);
      }
    }
  }

  method ExclusiveMaximum(isl: Isl, n: nat, ghost s: Region, deltas: Region, dim: nat) returns (max: Option<int>)
    requires Sound(isl, n) && dim < n
    requires forall v: Vec :: |v| == n ==> (deltas(v) <==> Absolute(n, s, v))
    ensures match max
            case Some(m) => IsExclusiveMax(n, s, dim, m)
            case None => !exists m :: IsExclusiveMax(n, s, dim, m)
  {
    var exclusive := deltas;
    for dim2 := 0 to n
      invariant forall v: Vec :: |v| == n ==>
        (exclusive(v) <==> deltas(v) && forall d :: 0 <= d < dim2 && d != dim ==> v[d] == 0)
    {
      if dim2 != dim {
        var e := exclusive;
        exclusive := v => e(v) && dim2 < |v| && v[dim2] == 0;
      }
    }
    assert forall v: Vec :: |v| == n && exclusive(v) <==> Exclusive(n, s, dim, v);
    max := isl.maximum(n, exclusive, dim);
    forall m ensures IsMaximum(n, exclusive, dim, m) <==> IsExclusiveMax(n, s, dim, m) {
    }
  }

  lemma FirstSizesUnique(n: nat, deltas: Region, classic: bool, a: seq<int>, b: seq<int>)
    requires FirstSizes(n, deltas, classic, a) && FirstSizes(n, deltas, classic, b)
    ensures a == b
  {
    forall d | 0 <= d < n ensures a[d] == b[d] {
      if !classic {
        assert IsExclusiveMax(n, deltas, d, a[d] - 1) && IsExclusiveMax(n, deltas, d, b[d] - 1);
      }
    }
  }

  /** A set of distances has one list of sizes. */
  lemma SizesUnique(n: nat, deltas: Region, classic: bool, f: seq<int>, a: seq<int>, g: seq<int>, b: seq<int>)
    requires Sizes(n, deltas, classic, f, a) && Sizes(n, deltas, classic, g, b)
    ensures f == g && a == b
  {
    FirstSizesUnique(n, deltas, classic, f, g);
    forall d | 0 <= d < n ensures a[d] == b[d] {
      assert SizeAt(n, deltas, classic, f, d, a[d]) && SizeAt(n, deltas, classic, f, d, b[d]);
    }
  }

  lemma SizesNeedExclusiveMax(n: nat, deltas: Region, dim: nat)
    requires dim < n
    ensures forall first, size :: Sizes(n, deltas, false, first, size) ==>
      exists m :: IsExclusiveMax(n, deltas, dim, m)
  {
    forall first, size | Sizes(n, deltas, false, first, size)
      ensures exists m :: IsExclusiveMax(n, deltas, dim, m)
    {
      assert IsExclusiveMax(n, deltas, dim, first[dim] - 1);
    }
  }

  lemma SizesNeedLevelMax(n: nat, deltas: Region, classic: bool, first: seq<int>, dim: nat, v: Vec)
    requires dim < n && FirstSizes(n, deltas, classic, first) && Level(n, deltas, classic, first, dim, v)
    ensures forall f, size :: Sizes(n, deltas, classic, f, size) ==>
      exists m :: IsLevelMax(n, deltas, classic, first, dim, m)
  {
    forall f, size | Sizes(n, deltas, classic, f, size)
      ensures exists m :: IsLevelMax(n, deltas, classic, first, dim, m)
    {
      FirstSizesUnique(n, deltas, classic, f, first);
      assert SizeAt(n, deltas, classic, first, dim, size[dim]);
    }
  }

  lemma LevelMaximum(n: nat, deltas: Region, classic: bool, first: seq<int>, dim: nat, level: Region, m: int)
    requires |first| == n && dim < n
    requires forall v: Vec :: |v| == n ==> (level(v) <==> Level(n, deltas, classic, first, dim, v))
    ensures IsMaximum(n, level, dim, m) <==> IsLevelMax(n, deltas, classic, first, dim, m)
  {
    assert forall v: Vec :: |v| == n && level(v) <==> Level(n, deltas, classic, first, dim, v);
  }

  lemma EmptyLevelsKeepSizes(n: nat, deltas: Region, classic: bool, first: seq<int>, dim: nat)
    requires |first| == n
    requires forall v: Vec :: |v| == n ==> !Level(n, deltas, classic, first, dim, v)
    ensures forall d {:trigger first[d]} :: dim <= d < n ==> SizeAt(n, deltas, classic, first, d, first[d])
  {
    forall d, v | dim <= d < n ensures !Level(n, deltas, classic, first, d, v) {
      assert Level(n, deltas, classic, first, d, v) ==> Level(n, deltas, classic, first, dim, v);
    }
  }

  ghost predicate IsLevel(n: nat, s: Region, classic: bool, first: seq<int>, dim: nat, deltas: Region)
    requires |first| == n
  {
    forall v: Vec :: |v| == n ==> (deltas(v) <==> Level(n, s, classic, first, dim, v))
  }

  /** What one pass of the last loop finds. */
  datatype Pass = NothingLeft | Unbounded | Extent(size: int)

  /** One pass of the last loop: the size of dimension `dim`, given the distances left over. */
  method NextSize(isl: Isl, classic: bool, n: nat, ghost s: Region, ghost first: seq<int>,
                  deltas: Region, dim: nat, current: int)
    returns (pass: Pass)
    requires Sound(isl, n) && FirstSizes(n, s, classic, first)
    requires dim < n && current == first[dim]
    requires IsLevel(n, s, classic, first, dim, deltas)
    ensures match pass
            case NothingLeft => forall d {:trigger first[d]} :: dim <= d < n ==> SizeAt(n, s, classic, first, d, first[d])
            case Unbounded => !exists f, sizes :: Sizes(n, s, classic, f, sizes)
            case Extent(size) => SizeAt(n, s, classic, first, dim, size)
  {
    if isl.isEmpty(n, deltas) {
      EmptyLevelsKeepSizes(n, s, classic, first, dim);
      return NothingLeft;
    }
    ghost var v :| |v| == n && deltas(v);
    SizesNeedLevelMax(n, s, classic, first, dim, v);
    var max := isl.maximum(n, deltas, dim);
    forall m ensures IsMaximum(n, deltas, dim, m) <==> IsLevelMax(n, s, classic, first, dim, m) {
      LevelMaximum(n, s, classic, first, dim, deltas, m);
    }
    if max.None? {
      return Unbounded;
    }
    return Extent(if max.value + 1 > current then max.value + 1 else current);
  }

  method RestrictToZero(n: nat, ghost s: Region, classic: bool, ghost first: seq<int>, dim: nat, ds: Region)
    returns (deltas: Region)
    requires |first| == n && dim < n && IsLevel(n, s, classic, first, dim, ds)
    ensures IsLevel(n, s, classic, first, dim + 1, deltas)
  {
    deltas := v => ds(v) && dim < |v| && v[dim] == 0;
  }

  /** The sizes before `dim` are final and the others as the first stage left them. */
  ghost predicate SizedUpTo(n: nat, s: Region, classic: bool, first: seq<int>, sizes: seq<int>, dim: nat)
    requires |first| == n
  {
    && |sizes| == n
    && (forall d {:trigger sizes[d]} :: 0 <= d < dim && d < n ==> SizeAt(n, s, classic, first, d, sizes[d]))
    && (forall d {:trigger sizes[d]} :: dim <= d < n ==> sizes[d] == first[d])
  }

  lemma SizedStep(n: nat, s: Region, classic: bool, first: seq<int>, sizes: seq<int>, dim: nat, size: int)
    requires |first| == n && SizedUpTo(n, s, classic, first, sizes, dim)
    requires dim < n && SizeAt(n, s, classic, first, dim, size)
    ensures SizedUpTo(n, s, classic, first, sizes[dim := size], dim + 1)
  {
  }

  /** The last loop: the classic successive modulo technique on the distances left over. */
  method ExpandBySuccessiveModulo(isl: Isl, classic: bool, n: nat, ghost s: Region, ghost first: seq<int>,
                                  remaining: Region, bufferSize: array<int>)
    returns (ok: bool)
    requires Sound(isl, n)
    requires bufferSize.Length == n && bufferSize[..] == first && FirstSizes(n, s, classic, first)
    requires IsLevel(n, s, classic, first, 0, remaining)
    modifies bufferSize
    ensures ok ==> Sizes(n, s, classic, first, bufferSize[..])
    ensures !ok ==> !exists f, size :: Sizes(n, s, classic, f, size)
  {
    var deltas := remaining;
    for dim := 0 to n
      invariant SizedUpTo(n, s, classic, first, bufferSize[..], dim)
      invariant IsLevel(n, s, classic, first, dim, deltas)
    {
      var pass := NextSize(isl, classic, n, s, first, deltas, dim, bufferSize[dim]);
      match pass {
        case NothingLeft =>
          return true;
        case Unbounded =>
          return false;
        case Extent(size) =>
          SizedStep(n, s, classic, first, bufferSize[..], dim, size);
          ghost var sizes := bufferSize[..];
          bufferSize[dim] := size;
          assert bufferSize[..] == sizes[dim := size];
          deltas := RestrictToZero(n, s, classic, first, dim, deltas);
      }
    }
    return true;
  }

  /** First stage: each size one more than the greatest distance only that dimension can satisfy. */
  method ComputeExclusiveSizes(isl: Isl, n: nat, ghost s: Region, deltas: Region, bufferSize: array<int>)
    returns (ok: bool)
    requires bufferSize.Length == n && Sound(isl, n)
    requires forall v: Vec :: |v| == n ==> (deltas(v) <==> Absolute(n, s, v))
    modifies bufferSize
    ensures ok ==> FirstSizes(n, s, false, bufferSize[..])
    ensures !ok ==> !exists first, size :: Sizes(n, s, false, first, size)
  {
    for dim := 0 to n
      invariant forall d :: 0 <= d < dim ==> IsExclusiveMax(n, s, d, bufferSize[d] - 1)
    {
      SizesNeedExclusiveMax(n, s, dim);
      var max := ExclusiveMaximum(isl, n, s, deltas, dim);
      if max.None? {
        return false;
      }
      bufferSize[dim] := max.value + 1;
    }
    return true;
  }

  /** Second stage: keep the distances that are zero or too large in every dimension. */
  method DropSatisfied(n: nat, all: Region, bufferSize: array<int>) returns (deltas: Region)
    requires bufferSize.Length == n
    ensures forall v: Vec :: |v| == n ==>
      (deltas(v) <==> all(v) && forall d :: 0 <= d < n ==> v[d] == 0 || v[d] >= bufferSize[d])
  {
    deltas := all;
    for dim := 0 to n
      invariant forall v: Vec :: |v| == n ==>
        (deltas(v) <==> all(v) && forall d :: 0 <= d < dim ==> v[d] == 0 || v[d] >= bufferSize[d])
    {
      var ds, size := deltas, bufferSize[dim];
      deltas := v => ds(v) && dim < |v| && (v[dim] >= size || v[dim] == 0);
    }
  }

  method SizesFromDistances(isl: Isl, classic: bool, n: nat, s: Region, bufferSize: array<int>) returns (ok: bool)
    requires bufferSize.Length == n && Sound(isl, n) && Ones(n, bufferSize[..])
    modifies bufferSize
    ensures ok ==> exists first :: Sizes(n, s, classic, first, bufferSize[..])
    ensures !ok ==> !exists first, size :: Sizes(n, s, classic, first, size)
  {
    var deltas := AbsoluteValues(n, s);
    if !classic {
      ok := ComputeExclusiveSizes(isl, n, s, deltas, bufferSize);
      if !ok {
        return;
      }
      deltas := DropSatisfied(n, deltas, bufferSize);
    }
    ok := ExpandBySuccessiveModulo(isl, classic, n, s, bufferSize[..], deltas, bufferSize);
  }

  /** ok is false where the source throws "Infinite storage conflict distance." */
  method ComputeBufferSizeFromConflicts(isl: Isl, classic: bool, n: nat, conflicts: Relation, bufferSize: array<int>)
    returns (ok: bool)
    requires bufferSize.Length == n && Sound(isl, n)
    modifies bufferSize
    ensures ok ==> SizesFor(n, conflicts, isl.deltas(conflicts), classic, bufferSize[..])
    ensures ok ==> forall d {:trigger bufferSize[d]} :: 0 <= d < n ==>
      IsLeastSize(n, isl.deltas(conflicts), classic, d, bufferSize[d])
    ensures !ok ==> !exists size :: SizesFor(n, conflicts, isl.deltas(conflicts), classic, size)
    ensures ok <==> NoConflicts(n, conflicts) || forall d: nat :: d < n ==> CanBeSized(n, isl.deltas(conflicts), classic, d)
  {
    for d := 0 to n
      invariant forall k :: 0 <= k < d ==> bufferSize[k] == 1
    {
      bufferSize[d] := 1;
    }
    if isl.noPairs(n, conflicts) {
      SizesForAreLeast(n, conflicts, isl.deltas(conflicts), classic, bufferSize[..]);
      return true;
    }
    ok := SizesFromDistances(isl, classic, n, isl.deltas(conflicts), bufferSize);
    SizesExistExactly(n, isl.deltas(conflicts), classic);
    if ok {
      SizesForAreLeast(n, conflicts, isl.deltas(conflicts), classic, bufferSize[..]);
    }
  }

  // ---- What the sizes guarantee -------------------------------------------------------------

  function Abs(x: int): nat {
    if x < 0 then -x else x
  }

  ghost predicate SeparatedAt(size: seq<int>, v: Vec, d: nat)
    requires |size| == |v|
  {
    d < |v| && 0 < Abs(v[d]) < size[d]
  }

  /** Some dimension tells the two elements at distance v apart. */
  ghost predicate Separated(size: seq<int>, v: Vec)
    requires |size| == |v|
  {
    exists d :: SeparatedAt(size, v, d)
  }

  ghost predicate AtMostOneNegative(v: Vec) {
    forall p, q :: 0 <= p < q < |v| ==> v[p] >= 0 || v[q] >= 0
  }

  ghost predicate NegationClosed(n: nat, deltas: Region) {
    forall v: Vec :: |v| == n && deltas(v) ==> deltas(Negated(v))
  }

  lemma FirstNonZero(v: Vec) returns (p: nat)
    requires !Zero(v)
    ensures p < |v| && v[p] != 0 && forall d :: 0 <= d < p ==> v[d] == 0
  {
    p := 0;
    while v[p] == 0
      invariant p < |v| && forall d :: 0 <= d < p ==> v[d] == 0
      decreases |v| - p
    {
      assert exists d :: p < d < |v| && v[d] != 0;
      p := p + 1;
    }
  }

  /** A leftover distance whose first non-zero coordinate is p is exceeded by the size there. */
  lemma LevelBoundsSize(n: nat, deltas: Region, classic: bool, first: seq<int>, size: seq<int>, p: nat, v: Vec)
    requires Sizes(n, deltas, classic, first, size) && p < n
    requires Level(n, deltas, classic, first, p, v)
    ensures v[p] < size[p]
  {
    assert SizeAt(n, deltas, classic, first, p, size[p]);
  }

  lemma ClassicSeparates(n: nat, deltas: Region, first: seq<int>, size: seq<int>, v: Vec)
    requires Sizes(n, deltas, true, first, size)
    requires |v| == n && deltas(v) && !Zero(v)
    ensures Separated(size, v)
  {
    var p := FirstNonZero(v);
    var w := v;
    if v[p] < 0 {
      w := Flip(v, p);
      assert Flip(w, p) == v && FlippedFrom(deltas, w, p);
    } else if !NonNegative(v) {
      var q :| 0 <= q < n && v[q] < 0;
      w := Flip(v, q);
      assert Flip(w, q) == v && FlippedFrom(deltas, w, q);
    }
    LevelBoundsSize(n, deltas, true, first, size, p, w);
    assert SeparatedAt(size, v, p);
  }

  /** With at most one negative coordinate a single flip reaches the true absolute value. */
  lemma AbsoluteValueReached(n: nat, deltas: Region, v: Vec) returns (w: Vec)
    requires |v| == n && deltas(v) && AtMostOneNegative(v)
    ensures Absolute(n, deltas, w) && forall d :: 0 <= d < n ==> w[d] == Abs(v[d])
  {
    w := v;
    if !NonNegative(v) {
      var q :| 0 <= q < n && v[q] < 0;
      w := Flip(v, q);
      assert Flip(w, q) == v && FlippedFrom(deltas, w, q);
    }
  }

  lemma DefaultSeparates(n: nat, deltas: Region, first: seq<int>, size: seq<int>, v: Vec)
    requires Sizes(n, deltas, false, first, size)
    requires |v| == n && deltas(v) && !Zero(v) && AtMostOneNegative(v)
    ensures Separated(size, v)
  {
    var w := AbsoluteValueReached(n, deltas, v);
    if d: nat :| d < n && 0 < w[d] < first[d] {
      assert SizeAt(n, deltas, false, first, d, size[d]);
      assert SeparatedAt(size, v, d);
    } else {
      var p := FirstNonZero(v);
      LevelBoundsSize(n, deltas, false, first, size, p, w);
      assert SeparatedAt(size, v, p);
    }
  }

  /** With distances closed under negation, as few as four dimensions are needed to break the sign
      condition: in three the pigeonhole leaves v or its negation with one negative coordinate. */
  lemma ThreeDimensionsAreEnough(v: Vec)
    requires |v| <= 3
    ensures AtMostOneNegative(v) || AtMostOneNegative(Negated(v))
  {
    if !AtMostOneNegative(v) {
      var p, q :| 0 <= p < q < |v| && v[p] < 0 && v[q] < 0;
      var w := Negated(v);
      assert w[p] > 0 && w[q] > 0;
    }
  }

  lemma SeparatedNegated(size: seq<int>, v: Vec)
    requires |size| == |v| && Separated(size, Negated(v))
    ensures Separated(size, v)
  {
    var d :| SeparatedAt(size, Negated(v), d);
    assert SeparatedAt(size, v, d);
  }

  /** The sizes of every computation that sees distance v tell v apart. */
  ghost predicate AlwaysSeparated(n: nat, v: Vec)
    requires |v| == n
  {
    forall deltas: Region, first, size :: deltas(v) && Sizes(n, deltas, false, first, size) ==> Separated(size, v)
  }

  ghost predicate AlwaysSeparatedInClosed(n: nat, v: Vec)
    requires |v| == n
  {
    forall deltas: Region, first, size ::
      deltas(v) && NegationClosed(n, deltas) && Sizes(n, deltas, false, first, size) ==> Separated(size, v)
  }

  ghost predicate NonZeroBeside(w: Vec, k: int) {
    exists j :: 0 <= j < |w| && j != k && w[j] != 0
  }

  /** Flipping one coordinate of a vector with two negative ones leaves it with a negative one and
      with two that are not zero. */
  lemma FlipKeepsTwo(v: Vec, w: Vec, d: nat)
    requires d < |w| == |v| && Flip(w, d) == v && !AtMostOneNegative(v)
    ensures !NonNegative(w)
    ensures forall k :: NonZeroBeside(w, k)
  {
    var p, q :| 0 <= p < q < |v| && v[p] < 0 && v[q] < 0;
    assert w == Flip(v, d);
    assert w[p] < 0 || w[q] < 0;
    forall k ensures NonZeroBeside(w, k) {
      assert w[if k == p then q else p] != 0;
    }
  }

  ghost predicate OnlyUnsafe(n: nat, deltas: Region) {
    && (forall w: Vec :: |w| == n && deltas(w) ==> Zero(w) || !AtMostOneNegative(w))
    && (exists w: Vec :: |w| == n && deltas(w) && Zero(w))
  }

  /** When every non-zero distance has two negative coordinates the default mode sees none of them
      and leaves every size at 1. */
  lemma UnsafeDistancesAreInvisible(n: nat, deltas: Region, ones: seq<int>)
    requires OnlyUnsafe(n, deltas) && Ones(n, ones)
    ensures Sizes(n, deltas, false, ones, ones)
  {
    var zero: Vec :| |zero| == n && deltas(zero) && Zero(zero);
    assert Absolute(n, deltas, zero);
    forall w | Absolute(n, deltas, w)
      ensures Zero(w) || (!NonNegative(w) && forall k :: NonZeroBeside(w, k))
    {
      if d :| FlippedFrom(deltas, w, d) {
        if Zero(Flip(w, d)) {
          forall k | 0 <= k < n ensures w[k] == 0 { assert Flip(w, d)[k] == 0; }
        } else {
          FlipKeepsTwo(Flip(w, d), w, d);
        }
      }
    }
    forall d: nat | d < n ensures IsExclusiveMax(n, deltas, d, ones[d] - 1) {
      assert Exclusive(n, deltas, d, zero) && zero[d] == 0;
      forall w | Exclusive(n, deltas, d, w) ensures w[d] <= 0 {
        assert !NonZeroBeside(w, d);
      }
    }
    forall d: nat | d < n ensures SizeAt(n, deltas, false, ones, d, ones[d]) {
      assert Level(n, deltas, false, ones, d, zero);
      forall w | Level(n, deltas, false, ones, d, w) ensures w[d] <= 0 { }
      assert IsLevelMax(n, deltas, false, ones, d, 0);
    }
  }

  lemma OnesSeparateNothing(size: seq<int>, v: Vec)
    requires |size| == |v| && Ones(|v|, size)
    ensures !Separated(size, v)
  {
  }

  /** Default mode: exactly the distances with at most one negative coordinate are safe whatever
      else is live. */
  lemma DefaultModeExact(n: nat, v: Vec)
    requires |v| == n && !Zero(v)
    ensures AlwaysSeparated(n, v) <==> AtMostOneNegative(v)
  {
    if AtMostOneNegative(v) {
      forall deltas: Region, first, size | deltas(v) && Sizes(n, deltas, false, first, size)
        ensures Separated(size, v)
      {
        DefaultSeparates(n, deltas, first, size, v);
      }
    } else {
      var zero, ones := seq(n, _ => 0), seq(n, _ => 1);
      var deltas: Region := w => w == v || w == zero;
      assert deltas(v) && deltas(zero) && Zero(zero);
      UnsafeDistancesAreInvisible(n, deltas, ones);
      OnesSeparateNothing(ones, v);
    }
  }

  lemma DefaultSeparatesInClosed(n: nat, deltas: Region, first: seq<int>, size: seq<int>, v: Vec)
    requires Sizes(n, deltas, false, first, size)
    requires |v| == n && deltas(v) && !Zero(v) && NegationClosed(n, deltas)
    requires AtMostOneNegative(v) || AtMostOneNegative(Negated(v))
    ensures Separated(size, v)
  {
    if AtMostOneNegative(v) {
      DefaultSeparates(n, deltas, first, size, v);
    } else {
      var p := FirstNonZero(v);
      assert Negated(v)[p] != 0;
      DefaultSeparates(n, deltas, first, size, Negated(v));
      SeparatedNegated(size, v);
    }
  }

  lemma ClosedWitness(n: nat, v: Vec) returns (deltas: Region, ones: seq<int>)
    requires |v| == n
    requires !AtMostOneNegative(v) && !AtMostOneNegative(Negated(v))
    ensures deltas(v) && NegationClosed(n, deltas) && Sizes(n, deltas, false, ones, ones)
    ensures |ones| == n && !Separated(ones, v)
  {
    var m, zero := Negated(v), seq(n, _ => 0);
    ones := seq(n, _ => 1);
    deltas := w => w == v || w == m || w == zero;
    assert Negated(m) == v && Negated(zero) == zero;
    assert deltas(zero) && Zero(zero);
    UnsafeDistancesAreInvisible(n, deltas, ones);
    OnesSeparateNothing(ones, v);
  }

  /** The same when distances come in both directions. */
  lemma DefaultModeExactWhenClosed(n: nat, v: Vec)
    requires |v| == n && !Zero(v)
    ensures AlwaysSeparatedInClosed(n, v) <==> AtMostOneNegative(v) || AtMostOneNegative(Negated(v))
  {
    if AtMostOneNegative(v) || AtMostOneNegative(Negated(v)) {
      forall deltas: Region, first, size | deltas(v) && NegationClosed(n, deltas) && Sizes(n, deltas, false, first, size)
        ensures Separated(size, v)
      {
        DefaultSeparatesInClosed(n, deltas, first, size, v);
      }
    } else {
      var deltas, ones := ClosedWitness(n, v);
    }
  }

  /** A negative exclusive distance was kept by flipping one of its zero coordinates, so flipping
      the other one gives a positive exclusive distance. */
  lemma ExclusiveMirror(n: nat, deltas: Region, dim: nat, v: Vec) returns (w: Vec)
    requires dim < n && Exclusive(n, deltas, dim, v)
    ensures Exclusive(n, deltas, dim, w) && w[dim] == Abs(v[dim])
  {
    w := v;
    if v[dim] < 0 {
      var e: nat :| FlippedFrom(deltas, v, e);
      w := Flip(v, dim);
      assert Flip(v, e) == v && Flip(w, dim) == v;
      assert FlippedFrom(deltas, w, dim);
    }
  }

  lemma ExclusiveMaxNonNegative(n: nat, deltas: Region, dim: nat, m: int)
    requires dim < n && IsExclusiveMax(n, deltas, dim, m)
    ensures m >= 0
  {
    var v :| Exclusive(n, deltas, dim, v) && v[dim] == m;
    var w := ExclusiveMirror(n, deltas, dim, v);
  }

  /** Every computed size is at least 1. */
  lemma SizesPositive(n: nat, deltas: Region, classic: bool, first: seq<int>, size: seq<int>, d: nat)
    requires Sizes(n, deltas, classic, first, size) && d < n
    ensures size[d] >= first[d] >= 1
  {
    assert SizeAt(n, deltas, classic, first, d, size[d]);
    if !classic {
      ExclusiveMaxNonNegative(n, deltas, d, first[d] - 1);
    }
  }

  // ---- Each size from the distances alone ---------------------------------------------------

  ghost predicate ZeroBefore(w: Vec, d: nat) {
    forall e :: 0 <= e < d && e < |w| ==> w[e] == 0
  }

  ghost predicate ZeroBeside(w: Vec, d: nat) {
    forall e :: 0 <= e < |w| && e != d ==> w[e] == 0
  }

  /** A distance that no dimension but d can satisfy. */
  ghost predicate OnlyAt(n: nat, deltas: Region, d: nat, w: Vec) {
    |w| == n && deltas(w) && ZeroBeside(w, d)
  }

  /** No dimension that is large enough for the distances only it can satisfy is large enough for w. */
  ghost predicate LeftOver(n: nat, deltas: Region, w: Vec)
    requires |w| == n
  {
    && AtMostOneNegative(w)
    && forall e, u: Vec :: 0 <= e < n && w[e] != 0 && OnlyAt(n, deltas, e, u) ==> Abs(u[e]) < Abs(w[e])
  }

  /** The distances that dimension d has to satisfy: in classic mode those that are zero before it; in default
      mode those that no other dimension can satisfy, and of the ones left over those that are zero before it. */
  ghost predicate Demands(n: nat, deltas: Region, classic: bool, d: nat, w: Vec) {
    && |w| == n && deltas(w)
    && if classic then ZeroBefore(w, d) else ZeroBeside(w, d) || (ZeroBefore(w, d) && LeftOver(n, deltas, w))
  }

  /** One more than the greatest extent of these distances, or 1. */
  ghost predicate IsLeastSize(n: nat, deltas: Region, classic: bool, d: nat, size: int)
    requires d < n
  {
    && size >= 1
    && (forall w :: Demands(n, deltas, classic, d, w) ==> Abs(w[d]) < size)
    && (size == 1 || exists w :: Demands(n, deltas, classic, d, w) && Abs(w[d]) == size - 1)
  }

  /** The vector that was kept as it is or flipped in one coordinate. */
  lemma FlippedBack(n: nat, deltas: Region, v: Vec) returns (w: Vec)
    requires Absolute(n, deltas, v)
    ensures |w| == n && deltas(w) && forall d :: 0 <= d < n ==> Abs(w[d]) == Abs(v[d])
    ensures NonNegative(v) ==> AtMostOneNegative(w)
  {
    if deltas(v) && NonNegative(v) {
      w := v;
    } else {
      var d: nat :| FlippedFrom(deltas, v, d);
      w := Flip(v, d);
    }
  }

  lemma FirstIsAttained(n: nat, deltas: Region, first: seq<int>, d: nat) returns (u: Vec)
    requires FirstSizes(n, deltas, false, first) && d < n
    ensures OnlyAt(n, deltas, d, u) && Abs(u[d]) == first[d] - 1
  {
    ExclusiveMaxNonNegative(n, deltas, d, first[d] - 1);
    var v :| Exclusive(n, deltas, d, v) && v[d] == first[d] - 1;
    u := FlippedBack(n, deltas, v);
  }

  lemma FirstIsEnough(n: nat, deltas: Region, first: seq<int>, d: nat, u: Vec)
    requires FirstSizes(n, deltas, false, first) && d < n && OnlyAt(n, deltas, d, u)
    ensures Abs(u[d]) < first[d]
  {
    var w := AbsoluteValueReached(n, deltas, u);
    assert Exclusive(n, deltas, d, w) && IsExclusiveMax(n, deltas, d, first[d] - 1);
  }

  /** A distance left over is, as absolute values, at the level of each dimension before which it is zero. */
  lemma LeftOverIsLevel(n: nat, deltas: Region, first: seq<int>, d: nat, w: Vec) returns (v: Vec)
    requires FirstSizes(n, deltas, false, first) && d < n
    requires |w| == n && deltas(w) && ZeroBefore(w, d) && LeftOver(n, deltas, w)
    ensures Level(n, deltas, false, first, d, v) && v[d] == Abs(w[d])
  {
    v := AbsoluteValueReached(n, deltas, w);
    forall e: nat | e < n ensures v[e] == 0 || v[e] >= first[e] {
      var u := FirstIsAttained(n, deltas, first, e);
    }
  }

  lemma LevelIsLeftOver(n: nat, deltas: Region, first: seq<int>, d: nat, v: Vec) returns (w: Vec)
    requires FirstSizes(n, deltas, false, first) && d < n && Level(n, deltas, false, first, d, v)
    requires forall e :: 0 <= e < n ==> first[e] >= 1
    ensures |w| == n && deltas(w) && ZeroBefore(w, d) && LeftOver(n, deltas, w) && Abs(w[d]) == v[d]
  {
    w := FlippedBack(n, deltas, v);
    forall e: nat, u: Vec | e < n && w[e] != 0 && OnlyAt(n, deltas, e, u) ensures Abs(u[e]) < Abs(w[e]) {
      FirstIsEnough(n, deltas, first, e, u);
    }
  }

  /** In classic mode flipping the first coordinate that is not zero is enough. */
  lemma ClassicLevel(n: nat, deltas: Region, first: seq<int>, d: nat, w: Vec) returns (v: Vec)
    requires FirstSizes(n, deltas, true, first) && d < n && |w| == n && deltas(w) && ZeroBefore(w, d)
    ensures Level(n, deltas, true, first, d, v) && v[d] == Abs(w[d])
  {
    v := w;
    if w[d] < 0 {
      v := Flip(w, d);
      assert Flip(v, d) == w && FlippedFrom(deltas, v, d);
    } else if !NonNegative(w) {
      var q :| 0 <= q < n && w[q] < 0;
      v := Flip(w, q);
      assert Flip(v, q) == w && FlippedFrom(deltas, v, q);
    }
  }

  lemma SizesAreEnough(n: nat, deltas: Region, classic: bool, first: seq<int>, size: seq<int>, d: nat, w: Vec)
    requires Sizes(n, deltas, classic, first, size) && d < n && Demands(n, deltas, classic, d, w)
    ensures Abs(w[d]) < size[d]
  {
    SizesPositive(n, deltas, classic, first, size, d);
    if classic {
      var v := ClassicLevel(n, deltas, first, d, w);
      LevelBoundsSize(n, deltas, classic, first, size, d, v);
    } else if ZeroBeside(w, d) {
      FirstIsEnough(n, deltas, first, d, w);
    } else {
      var v := LeftOverIsLevel(n, deltas, first, d, w);
      LevelBoundsSize(n, deltas, classic, first, size, d, v);
    }
  }

  lemma SizesAreAttained(n: nat, deltas: Region, classic: bool, first: seq<int>, size: seq<int>, d: nat) returns (w: Vec)
    requires Sizes(n, deltas, classic, first, size) && d < n && size[d] != 1
    ensures Demands(n, deltas, classic, d, w) && Abs(w[d]) == size[d] - 1
  {
    forall e: nat | e < n ensures size[e] >= first[e] >= 1 {
      SizesPositive(n, deltas, classic, first, size, e);
    }
    assert SizeAt(n, deltas, classic, first, d, size[d]);
    if size[d] == first[d] {
      w := FirstIsAttained(n, deltas, first, d);
    } else {
      var v :| Level(n, deltas, classic, first, d, v) && v[d] == size[d] - 1;
      if classic {
        w := FlippedBack(n, deltas, v);
      } else {
        w := LevelIsLeftOver(n, deltas, first, d, v);
      }
    }
  }

  /** The sizes are exactly as large as the distances need. */
  lemma SizesAreLeast(n: nat, deltas: Region, classic: bool, first: seq<int>, size: seq<int>, d: nat)
    requires Sizes(n, deltas, classic, first, size) && d < n
    ensures IsLeastSize(n, deltas, classic, d, size[d])
  {
    SizesPositive(n, deltas, classic, first, size, d);
    forall w | Demands(n, deltas, classic, d, w) ensures Abs(w[d]) < size[d] {
      SizesAreEnough(n, deltas, classic, first, size, d, w);
    }
    if size[d] != 1 {
      var w := SizesAreAttained(n, deltas, classic, first, size, d);
    }
  }

  /** A greatest extent exists; in default mode also some distance that no other dimension can satisfy. */
  ghost predicate CanBeSized(n: nat, deltas: Region, classic: bool, d: nat)
    requires d < n
  {
    && (classic || exists u :: OnlyAt(n, deltas, d, u))
    && exists size :: IsLeastSize(n, deltas, classic, d, size)
  }

  lemma GreatestExists(n: nat, s: Region, d: nat, v: Vec, bound: int) returns (m: int)
    requires d < n == |v| && s(v) && forall w: Vec :: |w| == n && s(w) ==> w[d] <= bound
    ensures IsMaximum(n, s, d, m)
    decreases bound - v[d]
  {
    if w: Vec :| |w| == n && s(w) && w[d] > v[d] {
      m := GreatestExists(n, s, d, w, bound);
    } else {
      m := v[d];
    }
  }

  lemma ExclusiveMaxExists(n: nat, deltas: Region, d: nat) returns (m: int)
    requires d < n && CanBeSized(n, deltas, false, d)
    ensures IsExclusiveMax(n, deltas, d, m)
  {
    var s: Region := v => Exclusive(n, deltas, d, v);
    var size :| IsLeastSize(n, deltas, false, d, size);
    forall v: Vec | |v| == n && s(v) ensures v[d] <= size {
      var w := FlippedBack(n, deltas, v);
      assert Demands(n, deltas, false, d, w);
    }
    var u :| OnlyAt(n, deltas, d, u);
    var v := AbsoluteValueReached(n, deltas, u);
    m := GreatestExists(n, s, d, v, size);
    assert forall v: Vec :: |v| == n && s(v) <==> Exclusive(n, deltas, d, v);
  }

  lemma FirstSizesExist(n: nat, deltas: Region, classic: bool) returns (first: seq<int>)
    requires forall d: nat :: d < n ==> CanBeSized(n, deltas, classic, d)
    ensures FirstSizes(n, deltas, classic, first)
  {
    first := [];
    while |first| < n
      invariant |first| <= n
      invariant forall d {:trigger first[d]} :: 0 <= d < |first| ==>
        if classic then first[d] == 1 else IsExclusiveMax(n, deltas, d, first[d] - 1)
    {
      var m := 0;
      if !classic {
        m := ExclusiveMaxExists(n, deltas, |first|);
      }
      first := first + [m + 1];
    }
  }

  lemma LevelIsBounded(n: nat, deltas: Region, classic: bool, first: seq<int>, d: nat, v: Vec, size: int)
    requires FirstSizes(n, deltas, classic, first) && d < n && Level(n, deltas, classic, first, d, v)
    requires IsLeastSize(n, deltas, classic, d, size)
    ensures v[d] < size
  {
    if classic {
      var w := FlippedBack(n, deltas, v);
      assert Demands(n, deltas, classic, d, w);
    } else {
      forall e: nat | e < n ensures first[e] >= 1 {
        ExclusiveMaxNonNegative(n, deltas, e, first[e] - 1);
      }
      var w := LevelIsLeftOver(n, deltas, first, d, v);
      assert Demands(n, deltas, classic, d, w);
    }
  }

  lemma SizeExists(n: nat, deltas: Region, classic: bool, first: seq<int>, d: nat) returns (size: int)
    requires FirstSizes(n, deltas, classic, first) && d < n && CanBeSized(n, deltas, classic, d)
    ensures SizeAt(n, deltas, classic, first, d, size)
  {
    size := first[d];
    if v :| Level(n, deltas, classic, first, d, v) {
      var s: Region := v => Level(n, deltas, classic, first, d, v);
      var bound :| IsLeastSize(n, deltas, classic, d, bound);
      forall v: Vec | |v| == n && s(v) ensures v[d] <= bound {
        LevelIsBounded(n, deltas, classic, first, d, v, bound);
      }
      var m := GreatestExists(n, s, d, v, bound);
      LevelMaximum(n, deltas, classic, first, d, s, m);
      size := if m + 1 > size then m + 1 else size;
    }
  }

  lemma SizesExist(n: nat, deltas: Region, classic: bool) returns (first: seq<int>, size: seq<int>)
    requires forall d: nat :: d < n ==> CanBeSized(n, deltas, classic, d)
    ensures Sizes(n, deltas, classic, first, size)
  {
    first := FirstSizesExist(n, deltas, classic);
    size := [];
    while |size| < n
      invariant |size| <= n
      invariant forall d {:trigger size[d]} :: 0 <= d < |size| ==> SizeAt(n, deltas, classic, first, d, size[d])
    {
      var next := SizeExists(n, deltas, classic, first, |size|);
      size := size + [next];
    }
  }

  /** Sizes exist exactly if each dimension can be given one. */
  lemma SizesExistExactly(n: nat, deltas: Region, classic: bool)
    ensures (exists first, size :: Sizes(n, deltas, classic, first, size)) <==>
      forall d: nat :: d < n ==> CanBeSized(n, deltas, classic, d)
  {
    if first, size :| Sizes(n, deltas, classic, first, size) {
      forall d: nat | d < n ensures CanBeSized(n, deltas, classic, d) {
        SizesAreLeast(n, deltas, classic, first, size, d);
        if !classic {
          var u := FirstIsAttained(n, deltas, first, d);
        }
      }
    }
    if forall d: nat :: d < n ==> CanBeSized(n, deltas, classic, d) {
      var first, size := SizesExist(n, deltas, classic);
    }
  }

  /** The sizes of a conflict relation are the least for its distances, and fail to exist exactly if some
      dimension cannot be given one. */
  lemma SizesForAreLeast(n: nat, conflicts: Relation, deltas: Region, classic: bool, size: seq<int>)
    requires forall v: Vec :: |v| == n ==> (deltas(v) <==> IsDelta(n, conflicts, v))
    requires SizesFor(n, conflicts, deltas, classic, size)
    ensures |size| == n && forall d {:trigger size[d]} :: 0 <= d < n ==> IsLeastSize(n, deltas, classic, d, size[d])
  {
    if NoConflicts(n, conflicts) {
      forall d: nat, w | d < n ensures !Demands(n, deltas, classic, d, w) {
      }
    } else {
      var first :| Sizes(n, deltas, classic, first, size);
      forall d: nat | d < n ensures IsLeastSize(n, deltas, classic, d, size[d]) {
        SizesAreLeast(n, deltas, classic, first, size, d);
      }
    }
  }

  ghost predicate Exceeds(n: nat, deltas: Region, classic: bool, d: nat, bound: int) {
    exists w :: Demands(n, deltas, classic, d, w) && d < n && Abs(w[d]) > bound
  }

  /** The distances that dimension d has to satisfy reach beyond every bound. */
  ghost predicate NoBound(n: nat, deltas: Region, classic: bool, d: nat) {
    forall bound :: Exceeds(n, deltas, classic, d, bound)
  }

  lemma LeastSizeExists(n: nat, deltas: Region, classic: bool, d: nat, size: int, bound: int) returns (least: int)
    requires d < n && (size == 1 || exists w :: Demands(n, deltas, classic, d, w) && Abs(w[d]) == size - 1)
    requires forall w :: Demands(n, deltas, classic, d, w) ==> Abs(w[d]) <= bound
    ensures IsLeastSize(n, deltas, classic, d, least)
    decreases bound - size + 2
  {
    if w :| Demands(n, deltas, classic, d, w) && Abs(w[d]) >= size {
      least := LeastSizeExists(n, deltas, classic, d, Abs(w[d]) + 1, bound);
    } else {
      least := size;
    }
  }

  /** With distance 0 among them, sizes fail to exist only for unbounded distances. */
  lemma UnsizedIsUnbounded(n: nat, deltas: Region, classic: bool, d: nat, zero: Vec)
    requires d < n == |zero| && deltas(zero) && Zero(zero)
    ensures CanBeSized(n, deltas, classic, d) <==> !NoBound(n, deltas, classic, d)
  {
    assert OnlyAt(n, deltas, d, zero);
    if bound :| !Exceeds(n, deltas, classic, d, bound) {
      var least := LeastSizeExists(n, deltas, classic, d, 1, bound);
    }
    if size :| IsLeastSize(n, deltas, classic, d, size) {
      assert !Exceeds(n, deltas, classic, d, size);
    }
  }

  // ---- From distances to cells --------------------------------------------------------------

  function Fold(x: Vec, size: seq<int>): (c: Vec)
    requires |x| == |size| && forall d :: 0 <= d < |size| ==> size[d] >= 1
    ensures |c| == |x| && forall d :: 0 <= d < |x| ==> c[d] == x[d] % size[d]
  {
    seq(|x|, d requires 0 <= d < |x| => x[d] % size[d])
  }

  lemma EqualResiduesAreFar(a: int, b: int, m: int)
    requires m > 0 && a % m == b % m
    ensures a == b || Abs(a - b) >= m
  {
    var q := a / m - b / m;
    assert a - b == m * q;
    if q > 0 {
      assert m * q >= m;
    } else if q < 0 {
      assert m * q <= -m;
    }
  }

  /** Sizes at least as large as the computed ones (rounding up) still give separated elements
      different cells. */
  lemma SeparatedCellsDiffer(x: Vec, y: Vec, size: seq<int>, rounded: seq<int>)
    requires |x| == |y| == |size| == |rounded|
    requires Separated(size, Minus(y, x))
    requires forall d :: 0 <= d < |size| ==> rounded[d] >= size[d] && rounded[d] >= 1
    ensures Fold(x, rounded) != Fold(y, rounded)
  {
    var d: nat :| SeparatedAt(size, Minus(y, x), d);
    if x[d] % rounded[d] == y[d] % rounded[d] {
      EqualResiduesAreFar(y[d], x[d], rounded[d]);
    }
    assert Fold(x, rounded)[d] != Fold(y, rounded)[d];
  }

  /** The distance from x to y occurs in the relation. */
  ghost predicate HasDistance(n: nat, conflicts: Relation, classic: bool, x: Vec, y: Vec)
    requires |x| == |y| == n
  {
    IsDelta(n, conflicts, Minus(y, x)) && (classic || AtMostOneNegative(Minus(y, x)))
  }

  /** The guarantee of the allocator: elements at a conflicting distance, in either direction, get
      different cells; in default mode that direction needs at most one negative coordinate. */
  lemma ConflictsGetDifferentCells(isl: Isl, n: nat, conflicts: Relation, classic: bool, size: seq<int>,
                                   rounded: seq<int>, x: Vec, y: Vec)
    requires Sound(isl, n) && SizesFor(n, conflicts, isl.deltas(conflicts), classic, size)
    requires |x| == |y| == n && x != y && |size| == n
    requires HasDistance(n, conflicts, classic, x, y) || HasDistance(n, conflicts, classic, y, x)
    requires |rounded| == n && forall d :: 0 <= d < n ==> rounded[d] >= size[d] && rounded[d] >= 1
    ensures Fold(x, rounded) != Fold(y, rounded)
  {
    var a, b := if HasDistance(n, conflicts, classic, x, y) then x else y, if HasDistance(n, conflicts, classic, x, y) then y else x;
    var v := Minus(b, a);
    var k :| 0 <= k < n && x[k] != y[k];
    assert v[k] != 0;
    var first :| Sizes(n, isl.deltas(conflicts), classic, first, size);
    if classic {
      ClassicSeparates(n, isl.deltas(conflicts), first, size, v);
    } else {
      DefaultSeparates(n, isl.deltas(conflicts), first, size, v);
    }
    SeparatedCellsDiffer(a, b, size, rounded);
  }
}
