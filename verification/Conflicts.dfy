/** polyhedral/storage_alloc.cpp: which pairs of elements of one array are live together. */
module Conflicts {
  import opened IslModel
  import opened BufferSizing

  /** x has a write before some read of y. */
  ghost predicate Precedes(writers: seq<Relation>, readers: seq<Relation>, order: seq<Relation>, x: Vec, y: Vec) {
    exists w: Vec, r: Vec :: InUnion(writers, x, w) && InUnion(readers, y, r) && InUnion(order, w, r)
  }

  /** A write of each comes before a read of the other. */
  ghost predicate LiveTogether(writers: seq<Relation>, readers: seq<Relation>, order: seq<Relation>, x: Vec, y: Vec) {
    Precedes(writers, readers, order, x, y) && Precedes(writers, readers, order, y, x)
  }

  /** What the half loop collects: piece p against the inverse of an equal or earlier piece q. */
  ghost predicate Half(pieces: seq<Relation>, x: Vec, y: Vec) {
    exists p, q :: 0 <= q <= p < |pieces| && pieces[p](x, y) && pieces[q](y, x)
  }

  lemma HalfIsEnough(pieces: seq<Relation>, x: Vec, y: Vec)
    ensures Half(pieces, x, y) || Half(pieces, y, x) <==> InUnion(pieces, x, y) && InUnion(pieces, y, x)
  {
    if InUnion(pieces, x, y) && InUnion(pieces, y, x) {
      var p :| 0 <= p < |pieces| && pieces[p](x, y);
      var q :| 0 <= q < |pieces| && pieces[q](y, x);
      assert q <= p ==> Half(pieces, x, y);
      assert p <= q ==> Half(pieces, y, x);
    }
  }

  // ---- The pieces of the precedence relation, in the order found -----------------------------

  function NonEmpty(isl: Isl, n: nat, piece: Relation): seq<Relation> {
    if isl.noPairs(n, piece) then [] else [piece]
  }

  function PiecesOfWriter(isl: Isl, n: nat, writer: Relation, readers: seq<Relation>, order: Relation, r: nat): seq<Relation>
    requires r <= |readers|
  {
    if r == 0 then []
    else PiecesOfWriter(isl, n, writer, readers, order, r - 1) + NonEmpty(isl, n, isl.relate(writer, readers[r - 1], order))
  }

  function PiecesOfOrder(isl: Isl, n: nat, writers: seq<Relation>, readers: seq<Relation>, order: Relation, w: nat): seq<Relation>
    requires w <= |writers|
  {
    if w == 0 then []
    else PiecesOfOrder(isl, n, writers, readers, order, w - 1)
         + PiecesOfWriter(isl, n, writers[w - 1], readers, order, |readers|)
  }

  function Pieces(isl: Isl, n: nat, writers: seq<Relation>, readers: seq<Relation>, order: seq<Relation>, o: nat): seq<Relation>
    requires o <= |order|
  {
    if o == 0 then []
    else Pieces(isl, n, writers, readers, order, o - 1) + PiecesOfOrder(isl, n, writers, readers, order[o - 1], |writers|)
  }

  /** The precedence relation, as the list of the non-empty pieces found. */
  method CollectPrecedence(isl: Isl, n: nat, writers: seq<Relation>, readers: seq<Relation>, order: seq<Relation>)
    returns (precedence: seq<Relation>)
    ensures precedence == Pieces(isl, n, writers, readers, order, |order|)
  {
    precedence := [];
    for o := 0 to |order|
      invariant precedence == Pieces(isl, n, writers, readers, order, o)
    {
      var found := CollectForOrder(isl, n, writers, readers, order[o]);
      precedence := precedence + found;
    }
  }

  method CollectForOrder(isl: Isl, n: nat, writers: seq<Relation>, readers: seq<Relation>, order: Relation)
    returns (found: seq<Relation>)
    ensures found == PiecesOfOrder(isl, n, writers, readers, order, |writers|)
  {
    found := [];
    for w := 0 to |writers|
      invariant found == PiecesOfOrder(isl, n, writers, readers, order, w)
    {
      var more := CollectForWriter(isl, n, writers[w], readers, order);
      found := found + more;
    }
  }

  method CollectForWriter(isl: Isl, n: nat, writer: Relation, readers: seq<Relation>, order: Relation)
    returns (found: seq<Relation>)
    ensures found == PiecesOfWriter(isl, n, writer, readers, order, |readers|)
  {
    found := [];
    for r := 0 to |readers|
      invariant found == PiecesOfWriter(isl, n, writer, readers, order, r)
    {
      var piece := isl.relate(writer, readers[r], order);
      if !isl.noPairs(n, piece) {
        found := found + [piece];
      }
    }
  }

  lemma InBoth(p: seq<Relation>, q: seq<Relation>, x: Vec, y: Vec)
    ensures InUnion(p + q, x, y) <==> InUnion(p, x, y) || InUnion(q, x, y)
  {
    var all := p + q;
    if InUnion(p, x, y) {
      var k :| 0 <= k < |p| && p[k](x, y);
      assert all[k](x, y);
    }
    if InUnion(q, x, y) {
      var k :| 0 <= k < |q| && q[k](x, y);
      assert all[|p| + k](x, y);
    }
    if InUnion(all, x, y) {
      var k :| 0 <= k < |all| && all[k](x, y);
      assert if k < |p| then p[k](x, y) else q[k - |p|](x, y);
    }
  }

  lemma OnePieceMore(isl: Isl, n: nat, pieces: seq<Relation>, piece: Relation, x: Vec, y: Vec)
    requires Sound(isl, n) && |x| == |y| == n
    ensures InUnion(pieces + NonEmpty(isl, n, piece), x, y) <==> InUnion(pieces, x, y) || piece(x, y)
  {
    InBoth(pieces, NonEmpty(isl, n, piece), x, y);
    assert [piece][0] == piece;
  }

  /** x is written by the writer before y is read by one of the first r readers. */
  ghost predicate BeforeReaders(writer: Relation, readers: seq<Relation>, order: Relation, r: nat, x: Vec, y: Vec)
    requires r <= |readers|
  {
    r > 0 && (BeforeReaders(writer, readers, order, r - 1, x, y) || Related(writer, readers[r - 1], order, x, y))
  }

  lemma {:induction false} SomeReader(writer: Relation, readers: seq<Relation>, order: Relation, r: nat, x: Vec, y: Vec)
    requires r <= |readers|
    ensures BeforeReaders(writer, readers, order, r, x, y) <==> exists k :: 0 <= k < r && Related(writer, readers[k], order, x, y)
  {
    if r > 0 {
      SomeReader(writer, readers, order, r - 1, x, y);
    }
  }

  lemma {:induction false} InPiecesOfWriter(isl: Isl, n: nat, writer: Relation, readers: seq<Relation>, order: Relation, r: nat,
                                            x: Vec, y: Vec)
    requires Sound(isl, n) && SoundOnSchedules(isl, n) && |x| == |y| == n && r <= |readers|
    ensures InUnion(PiecesOfWriter(isl, n, writer, readers, order, r), x, y) <==> BeforeReaders(writer, readers, order, r, x, y)
  {
    if r > 0 {
      InPiecesOfWriter(isl, n, writer, readers, order, r - 1, x, y);
      OnePieceMore(isl, n, PiecesOfWriter(isl, n, writer, readers, order, r - 1), isl.relate(writer, readers[r - 1], order), x, y);
    }
  }

  ghost predicate ByWriters(writers: seq<Relation>, readers: seq<Relation>, order: Relation, w: nat, x: Vec, y: Vec)
    requires w <= |writers|
  {
    && w > 0
    && (ByWriters(writers, readers, order, w - 1, x, y) || BeforeReaders(writers[w - 1], readers, order, |readers|, x, y))
  }

  lemma {:induction false} SomeWriter(writers: seq<Relation>, readers: seq<Relation>, order: Relation, w: nat, x: Vec, y: Vec)
    requires w <= |writers|
    ensures ByWriters(writers, readers, order, w, x, y) <==>
      exists j :: 0 <= j < w && BeforeReaders(writers[j], readers, order, |readers|, x, y)
  {
    if w > 0 {
      SomeWriter(writers, readers, order, w - 1, x, y);
    }
  }

  lemma {:induction false} InPiecesOfOrder(isl: Isl, n: nat, writers: seq<Relation>, readers: seq<Relation>, order: Relation, w: nat,
                                           x: Vec, y: Vec)
    requires Sound(isl, n) && SoundOnSchedules(isl, n) && |x| == |y| == n && w <= |writers|
    ensures InUnion(PiecesOfOrder(isl, n, writers, readers, order, w), x, y) <==> ByWriters(writers, readers, order, w, x, y)
  {
    if w > 0 {
      var p := PiecesOfOrder(isl, n, writers, readers, order, w - 1);
      var q := PiecesOfWriter(isl, n, writers[w - 1], readers, order, |readers|);
      assert PiecesOfOrder(isl, n, writers, readers, order, w) == p + q;
      InPiecesOfOrder(isl, n, writers, readers, order, w - 1, x, y);
      InPiecesOfWriter(isl, n, writers[w - 1], readers, order, |readers|, x, y);
      InBoth(p, q, x, y);
    }
  }

  ghost predicate ByOrders(writers: seq<Relation>, readers: seq<Relation>, order: seq<Relation>, o: nat, x: Vec, y: Vec)
    requires o <= |order|
  {
    && o > 0
    && (ByOrders(writers, readers, order, o - 1, x, y) || ByWriters(writers, readers, order[o - 1], |writers|, x, y))
  }

  lemma {:induction false} SomeOrder(writers: seq<Relation>, readers: seq<Relation>, order: seq<Relation>, o: nat, x: Vec, y: Vec)
    requires o <= |order|
    ensures ByOrders(writers, readers, order, o, x, y) <==>
      exists i :: 0 <= i < o && ByWriters(writers, readers, order[i], |writers|, x, y)
  {
    if o > 0 {
      SomeOrder(writers, readers, order, o - 1, x, y);
    }
  }

  lemma {:induction false} InPieces(isl: Isl, n: nat, writers: seq<Relation>, readers: seq<Relation>, order: seq<Relation>, o: nat,
                                    x: Vec, y: Vec)
    requires Sound(isl, n) && SoundOnSchedules(isl, n) && |x| == |y| == n && o <= |order|
    ensures InUnion(Pieces(isl, n, writers, readers, order, o), x, y) <==> ByOrders(writers, readers, order, o, x, y)
  {
    if o > 0 {
      var p := Pieces(isl, n, writers, readers, order, o - 1);
      var q := PiecesOfOrder(isl, n, writers, readers, order[o - 1], |writers|);
      assert Pieces(isl, n, writers, readers, order, o) == p + q;
      InPieces(isl, n, writers, readers, order, o - 1, x, y);
      InPiecesOfOrder(isl, n, writers, readers, order[o - 1], |writers|, x, y);
      InBoth(p, q, x, y);
    }
  }

  lemma ByOrdersIsPrecedence(writers: seq<Relation>, readers: seq<Relation>, order: seq<Relation>, x: Vec, y: Vec)
    ensures ByOrders(writers, readers, order, |order|, x, y) <==> Precedes(writers, readers, order, x, y)
  {
    SomeOrder(writers, readers, order, |order|, x, y);
    if Precedes(writers, readers, order, x, y) {
      var w: Vec, r: Vec :| InUnion(writers, x, w) && InUnion(readers, y, r) && InUnion(order, w, r);
      var j :| 0 <= j < |writers| && writers[j](x, w);
      var k :| 0 <= k < |readers| && readers[k](y, r);
      var i :| 0 <= i < |order| && order[i](w, r);
      assert Related(writers[j], readers[k], order[i], x, y);
      SomeReader(writers[j], readers, order[i], |readers|, x, y);
      SomeWriter(writers, readers, order[i], |writers|, x, y);
    }
    if i :| 0 <= i < |order| && ByWriters(writers, readers, order[i], |writers|, x, y) {
      SomeWriter(writers, readers, order[i], |writers|, x, y);
      var j :| 0 <= j < |writers| && BeforeReaders(writers[j], readers, order[i], |readers|, x, y);
      SomeReader(writers[j], readers, order[i], |readers|, x, y);
      var k :| 0 <= k < |readers| && Related(writers[j], readers[k], order[i], x, y);
      var w: Vec, r: Vec :| writers[j](x, w) && readers[k](y, r) && order[i](w, r);
      assert InUnion(writers, x, w) && InUnion(readers, y, r) && InUnion(order, w, r);
    }
  }

  /** The pieces are together the relation: the write of x is before a read of y. */
  lemma PrecedesByPieces(isl: Isl, n: nat, writers: seq<Relation>, readers: seq<Relation>, order: seq<Relation>, x: Vec, y: Vec)
    requires Sound(isl, n) && SoundOnSchedules(isl, n) && |x| == |y| == n
    ensures InUnion(Pieces(isl, n, writers, readers, order, |order|), x, y) <==> Precedes(writers, readers, order, x, y)
  {
    InPieces(isl, n, writers, readers, order, |order|, x, y);
    ByOrdersIsPrecedence(writers, readers, order, x, y);
  }

  method ComputeConflicts(isl: Isl, n: nat, writers: seq<Relation>, readers: seq<Relation>, order: seq<Relation>)
    returns (conflicts: Relation)
    requires Sound(isl, n) && SoundOnSchedules(isl, n)
    ensures forall x: Vec, y: Vec :: |x| == n && |y| == n ==>
      (conflicts(x, y) <==> Half(isl.coalesce(Pieces(isl, n, writers, readers, order, |order|)), x, y))
    ensures forall x: Vec, y: Vec :: |x| == n && |y| == n ==>
      (conflicts(x, y) || conflicts(y, x) <==> LiveTogether(writers, readers, order, x, y))
  {
    var precedence := CollectPrecedence(isl, n, writers, readers, order);
    precedence := isl.coalesce(precedence);
    conflicts := (x, y) => false;
    for i := 0 to |precedence|
      invariant forall x: Vec, y: Vec :: |x| == n && |y| == n ==> (conflicts(x, y) <==> Half(precedence[..i], x, y))
    {
      conflicts := MatchAgainst(isl, n, precedence, i, conflicts);
    }
    assert precedence[..|precedence|] == precedence;
    forall x: Vec, y: Vec | |x| == n && |y| == n
      ensures conflicts(x, y) || conflicts(y, x) <==> LiveTogether(writers, readers, order, x, y)
    {
      HalfIsEnough(precedence, x, y);
      PrecedesByPieces(isl, n, writers, readers, order, x, y);
      PrecedesByPieces(isl, n, writers, readers, order, y, x);
    }
  }

  method UniteIfNonEmpty(isl: Isl, n: nat, c: Relation, a: Relation, b: Relation) returns (united: Relation)
    requires Sound(isl, n)
    ensures forall x: Vec, y: Vec :: |x| == n && |y| == n ==> (united(x, y) <==> c(x, y) || (a(x, y) && b(y, x)))
  {
    var conflict: Relation := (x, y) => a(x, y) && b(y, x);
    united := c;
    if !isl.noPairs(n, conflict) {
      united := (x, y) => c(x, y) || conflict(x, y);
    }
  }

  /** The inner loop: j runs up to and including i. */
  method MatchAgainst(isl: Isl, n: nat, precedence: seq<Relation>, i: nat, before: Relation) returns (conflicts: Relation)
    requires Sound(isl, n) && i < |precedence|
    requires forall x: Vec, y: Vec :: |x| == n && |y| == n ==> (before(x, y) <==> Half(precedence[..i], x, y))
    ensures forall x: Vec, y: Vec :: |x| == n && |y| == n ==> (conflicts(x, y) <==> Half(precedence[..i + 1], x, y))
  {
    var a := precedence[i];
    conflicts := before;
    for j := 0 to i + 1
      invariant forall x: Vec, y: Vec :: |x| == n && |y| == n ==>
        (conflicts(x, y) <==> before(x, y) || (a(x, y) && exists q :: 0 <= q < j && precedence[q](y, x)))
    {
      conflicts := UniteIfNonEmpty(isl, n, conflicts, a, precedence[j]);
    }
    forall x: Vec, y: Vec | |x| == n && |y| == n
      ensures conflicts(x, y) <==> Half(precedence[..i + 1], x, y)
    {
      HalfExtended(precedence, i, x, y);
    }
  }

  lemma HalfExtended(precedence: seq<Relation>, i: nat, x: Vec, y: Vec)
    requires i < |precedence|
    ensures Half(precedence[..i + 1], x, y) <==>
      Half(precedence[..i], x, y) || (precedence[i](x, y) && exists q :: 0 <= q < i + 1 && precedence[q](y, x))
  {
    var longer, shorter := precedence[..i + 1], precedence[..i];
    if p, q :| 0 <= q <= p < |longer| && longer[p](x, y) && longer[q](y, x) {
      if p < i {
        assert shorter[p](x, y) && shorter[q](y, x);
      } else {
        assert precedence[q](y, x);
      }
    }
    if p, q :| 0 <= q <= p < |shorter| && shorter[p](x, y) && shorter[q](y, x) {
      assert longer[p](x, y) && longer[q](y, x);
    }
    if precedence[i](x, y) {
      if q :| 0 <= q < i + 1 && precedence[q](y, x) {
        assert longer[i](x, y) && longer[q](y, x);
      }
    }
  }

  // ---- All conflicts of an array, and its buffer sizes --------------------------------------

  /** Two elements accessed by the same kind of access at one schedule point. */
  ghost predicate SameTime(accesses: seq<Relation>, x: Vec, y: Vec) {
    exists t: Vec :: InUnion(accesses, x, t) && InUnion(accesses, y, t)
  }

  ghost predicate Conflict(writers: seq<Relation>, readers: seq<Relation>, order: seq<Relation>, parallel: Relation,
                           x: Vec, y: Vec)
  {
    || LiveTogether(writers, readers, order, x, y)
    || SameTime(writers, x, y)
    || SameTime(readers, x, y)
    || parallel(x, y)
    || parallel(y, x)
  }

  /** The pairs as collected, each in the direction in which the half loop finds it. */
  ghost predicate Collected(isl: Isl, n: nat, writers: seq<Relation>, readers: seq<Relation>, order: seq<Relation>,
                            parallel: Relation, x: Vec, y: Vec)
  {
    || Half(isl.coalesce(Pieces(isl, n, writers, readers, order, |order|)), x, y)
    || SameTime(writers, x, y)
    || SameTime(readers, x, y)
    || parallel(x, y)
  }

  datatype Outcome = Allocated | NoWriters | InfiniteDistance

  function Union(pieces: seq<Relation>): (u: Relation)
    ensures forall x: Vec, y: Vec :: u(x, y) <==> InUnion(pieces, x, y)
  {
    (x: Vec, y: Vec) => exists p :: 0 <= p < |pieces| && pieces[p](x, y)
  }

  lemma RelatedAtEqualTime(pieces: seq<Relation>, accesses: Relation, equalTime: Relation, x: Vec, y: Vec)
    requires forall x: Vec, t: Vec :: accesses(x, t) <==> InUnion(pieces, x, t)
    requires forall s: Vec, t: Vec :: equalTime(s, t) <==> s == t
    ensures Related(accesses, accesses, equalTime, x, y) <==> SameTime(pieces, x, y)
  {
    if t: Vec :| InUnion(pieces, x, t) && InUnion(pieces, y, t) {
      assert accesses(x, t) && accesses(y, t) && equalTime(t, t);
    }
  }

  /** Read-read or write-write conflicts: the pairs accessed at the same schedule point. */
  method EqualTimeConflicts(isl: Isl, n: nat, pieces: seq<Relation>) returns (conflicts: Relation)
    requires SoundOnSchedules(isl, n)
    ensures forall x: Vec, y: Vec :: conflicts(x, y) <==> SameTime(pieces, x, y)
  {
    var accesses := Union(pieces);
    var equalTime: Relation := (s, t) => s == t;
    conflicts := isl.relate(accesses, accesses, equalTime);
    forall x: Vec, y: Vec ensures conflicts(x, y) <==> SameTime(pieces, x, y) {
      RelatedAtEqualTime(pieces, accesses, equalTime, x, y);
    }
  }

  ghost predicate CollectedFor(isl: Isl, n: nat, writers: seq<Relation>, readers: seq<Relation>, order: seq<Relation>,
                               parallel: Relation, conflicts: Relation)
  {
    forall x: Vec, y: Vec :: |x| == n && |y| == n ==>
      (conflicts(x, y) <==> Collected(isl, n, writers, readers, order, parallel, x, y))
  }

  ghost predicate ConflictsFor(n: nat, writers: seq<Relation>, readers: seq<Relation>, order: seq<Relation>,
                               parallel: Relation, conflicts: Relation)
  {
    forall x: Vec, y: Vec :: |x| == n && |y| == n ==>
      (conflicts(x, y) || conflicts(y, x) <==> Conflict(writers, readers, order, parallel, x, y))
  }

  method AllConflicts(isl: Isl, n: nat, writers: seq<Relation>, readers: seq<Relation>, order: seq<Relation>, parallel: Relation)
    returns (all: Relation)
    requires Sound(isl, n) && SoundOnSchedules(isl, n)
    ensures CollectedFor(isl, n, writers, readers, order, parallel, all)
    ensures ConflictsFor(n, writers, readers, order, parallel, all)
  {
    var live := ComputeConflicts(isl, n, writers, readers, order);
    var ww := EqualTimeConflicts(isl, n, writers);
    var rr := EqualTimeConflicts(isl, n, readers);
    all := (x, y) => live(x, y) || ww(x, y) || rr(x, y) || parallel(x, y);
  }

  /** The mode sees the distance from x to y. */
  ghost predicate Seen(classic: bool, x: Vec, y: Vec)
    requires |x| == |y|
  {
    classic || AtMostOneNegative(Minus(y, x))
  }

  /** Sizes that are at least 1 and give the two elements different cells. */
  ghost predicate KeepsApart(n: nat, size: seq<int>, x: Vec, y: Vec)
    requires |x| == |y| == n
  {
    |size| == n && (forall d :: 0 <= d < n ==> size[d] >= 1) && Fold(x, size) != Fold(y, size)
  }

  lemma AllocatedIsPositive(isl: Isl, classic: bool, n: nat, conflicts: Relation, size: seq<int>)
    requires Sound(isl, n) && SizesFor(n, conflicts, isl.deltas(conflicts), classic, size)
    ensures |size| == n && forall d :: 0 <= d < n ==> size[d] >= 1
  {
    SizesForAreLeast(n, conflicts, isl.deltas(conflicts), classic, size);
  }

  lemma PairIsApart(isl: Isl, classic: bool, n: nat, conflicts: Relation, size: seq<int>, x: Vec, y: Vec)
    requires Sound(isl, n) && SizesFor(n, conflicts, isl.deltas(conflicts), classic, size)
    requires |x| == |y| == n && x != y && conflicts(x, y) && Seen(classic, x, y)
    ensures KeepsApart(n, size, x, y)
  {
    AllocatedIsPositive(isl, classic, n, conflicts, size);
    assert IsDelta(n, conflicts, Minus(y, x));
    ConflictsGetDifferentCells(isl, n, conflicts, classic, size, size, x, y);
  }

  /** Whatever elements one instance accesses, at t, have different cells. */
  ghost predicate InstancesApart(classic: bool, n: nat, accesses: seq<Relation>, size: seq<int>) {
    forall x: Vec, y: Vec, t: Vec :: InUnion(accesses, x, t) && InUnion(accesses, y, t) ==>
      |x| == |y| == n && x != y && Seen(classic, x, y) ==> KeepsApart(n, size, x, y)
  }

  lemma WritersApart(isl: Isl, classic: bool, n: nat, writers: seq<Relation>, readers: seq<Relation>, order: seq<Relation>,
                     parallel: Relation, conflicts: Relation, size: seq<int>)
    requires Sound(isl, n)
    requires CollectedFor(isl, n, writers, readers, order, parallel, conflicts)
    requires SizesFor(n, conflicts, isl.deltas(conflicts), classic, size)
    ensures InstancesApart(classic, n, writers, size)
  {
    forall x: Vec, y: Vec, t: Vec | InUnion(writers, x, t) && InUnion(writers, y, t)
      ensures |x| == |y| == n && x != y && Seen(classic, x, y) ==> KeepsApart(n, size, x, y)
    {
      if |x| == |y| == n && x != y && Seen(classic, x, y) {
        assert SameTime(writers, x, y) && conflicts(x, y);
        PairIsApart(isl, classic, n, conflicts, size, x, y);
      }
    }
  }

  lemma ReadersApart(isl: Isl, classic: bool, n: nat, writers: seq<Relation>, readers: seq<Relation>, order: seq<Relation>,
                     parallel: Relation, conflicts: Relation, size: seq<int>)
    requires Sound(isl, n)
    requires CollectedFor(isl, n, writers, readers, order, parallel, conflicts)
    requires SizesFor(n, conflicts, isl.deltas(conflicts), classic, size)
    ensures InstancesApart(classic, n, readers, size)
  {
    forall x: Vec, y: Vec, t: Vec | InUnion(readers, x, t) && InUnion(readers, y, t)
      ensures |x| == |y| == n && x != y && Seen(classic, x, y) ==> KeepsApart(n, size, x, y)
    {
      if |x| == |y| == n && x != y && Seen(classic, x, y) {
        assert SameTime(readers, x, y) && conflicts(x, y);
        PairIsApart(isl, classic, n, conflicts, size, x, y);
      }
    }
  }

  /** So have elements that different iterations of a parallel loop access, and elements each of which is
      written before the other is read. */
  lemma AllocatedApart(isl: Isl, classic: bool, n: nat, writers: seq<Relation>, readers: seq<Relation>, order: seq<Relation>,
                       parallel: Relation, conflicts: Relation, size: seq<int>, x: Vec, y: Vec)
    requires Sound(isl, n) && SoundOnSchedules(isl, n) && |x| == |y| == n && x != y
    requires CollectedFor(isl, n, writers, readers, order, parallel, conflicts)
    requires SizesFor(n, conflicts, isl.deltas(conflicts), classic, size)
    ensures Seen(classic, x, y) && parallel(x, y) ==> KeepsApart(n, size, x, y)
    ensures Seen(classic, x, y) && Seen(classic, y, x)
      && (exists wx: Vec, ry: Vec :: InUnion(writers, x, wx) && InUnion(readers, y, ry) && InUnion(order, wx, ry))
      && (exists wy: Vec, rx: Vec :: InUnion(writers, y, wy) && InUnion(readers, x, rx) && InUnion(order, wy, rx))
      ==> KeepsApart(n, size, x, y)
  {
    var pieces := isl.coalesce(Pieces(isl, n, writers, readers, order, |order|));
    if Seen(classic, x, y) && conflicts(x, y) {
      PairIsApart(isl, classic, n, conflicts, size, x, y);
    }
    if Seen(classic, y, x) && conflicts(y, x) {
      PairIsApart(isl, classic, n, conflicts, size, y, x);
    }
    if LiveTogether(writers, readers, order, x, y) {
      LiveIsCollected(isl, n, writers, readers, order, x, y);
    }
  }

  lemma LiveIsCollected(isl: Isl, n: nat, writers: seq<Relation>, readers: seq<Relation>, order: seq<Relation>, x: Vec, y: Vec)
    requires Sound(isl, n) && SoundOnSchedules(isl, n) && |x| == |y| == n
    ensures var pieces := isl.coalesce(Pieces(isl, n, writers, readers, order, |order|));
      (Half(pieces, x, y) || Half(pieces, y, x)) <==> LiveTogether(writers, readers, order, x, y)
  {
    var pieces := isl.coalesce(Pieces(isl, n, writers, readers, order, |order|));
    HalfIsEnough(pieces, x, y);
    PrecedesByPieces(isl, n, writers, readers, order, x, y);
    PrecedesByPieces(isl, n, writers, readers, order, y, x);
  }

  lemma LargestDistance(isl: Isl, classic: bool, n: nat, conflicts: Relation, size: seq<int>, d: nat) returns (x: Vec, y: Vec)
    requires Sound(isl, n) && |size| == n && d < n && size[d] != 1
    requires SizesFor(n, conflicts, isl.deltas(conflicts), classic, size)
    ensures |x| == |y| == n && conflicts(x, y) && Abs(y[d] - x[d]) == size[d] - 1 > 0
    ensures if classic then ZeroBefore(Minus(y, x), d) else ZeroBeside(Minus(y, x), d) || ZeroBefore(Minus(y, x), d)
  {
    var deltas := isl.deltas(conflicts);
    SizesForAreLeast(n, conflicts, deltas, classic, size);
    assert IsLeastSize(n, deltas, classic, d, size[d]);
    var w: Vec :| Demands(n, deltas, classic, d, w) && Abs(w[d]) == size[d] - 1;
    assert IsDelta(n, conflicts, w);
    x, y :| |x| == n && |y| == n && conflicts(x, y) && w == Minus(y, x);
  }

  /** And the sizes are not larger: a size other than 1 is the distance of two such elements, and one. */
  lemma AllocatedIsNeeded(isl: Isl, classic: bool, n: nat, writers: seq<Relation>, readers: seq<Relation>, order: seq<Relation>,
                          parallel: Relation, conflicts: Relation, size: seq<int>, d: nat)
    returns (x: Vec, y: Vec)
    requires Sound(isl, n) && SoundOnSchedules(isl, n) && |size| == n && d < n && size[d] != 1
    requires CollectedFor(isl, n, writers, readers, order, parallel, conflicts)
    requires SizesFor(n, conflicts, isl.deltas(conflicts), classic, size)
    ensures |x| == |y| == n && Abs(y[d] - x[d]) == size[d] - 1 > 0
    ensures if classic then ZeroBefore(Minus(y, x), d) else ZeroBeside(Minus(y, x), d) || ZeroBefore(Minus(y, x), d)
    ensures
      || (exists t: Vec :: InUnion(writers, x, t) && InUnion(writers, y, t))
      || (exists t: Vec :: InUnion(readers, x, t) && InUnion(readers, y, t))
      || parallel(x, y)
      || ((exists wx: Vec, ry: Vec :: InUnion(writers, x, wx) && InUnion(readers, y, ry) && InUnion(order, wx, ry))
          && exists wy: Vec, rx: Vec :: InUnion(writers, y, wy) && InUnion(readers, x, rx) && InUnion(order, wy, rx))
  {
    x, y := LargestDistance(isl, classic, n, conflicts, size, d);
    LiveIsCollected(isl, n, writers, readers, order, x, y);
  }

  /** An element that is written is at distance 0 from itself, so the allocator fails only for distances that a
      dimension has to satisfy and that have no bound. */
  lemma OnlyUnboundedFails(isl: Isl, classic: bool, n: nat, conflicts: Relation, x: Vec)
    requires Sound(isl, n) && |x| == n && conflicts(x, x)
    ensures (forall d: nat :: d < n ==> CanBeSized(n, isl.deltas(conflicts), classic, d)) <==>
      forall d: nat :: d < n ==> !NoBound(n, isl.deltas(conflicts), classic, d)
  {
    var zero := Minus(x, x);
    assert IsDelta(n, conflicts, zero);
    forall d: nat | d < n ensures CanBeSized(n, isl.deltas(conflicts), classic, d) <==> !NoBound(n, isl.deltas(conflicts), classic, d) {
      UnsizedIsUnbounded(n, isl.deltas(conflicts), classic, d, zero);
    }
  }

  /** Sizes for the pairs collected, if their distances have bounds where they must. */
  method SizeCollected(isl: Isl, classic: bool, n: nat, ghost writers: seq<Relation>, ghost readers: seq<Relation>,
                       ghost order: seq<Relation>, ghost parallel: Relation, conflicts: Relation, ghost x: Vec, bufferSize: array<int>)
    returns (ok: bool)
    requires Sound(isl, n) && bufferSize.Length == n == |x| && SameTime(writers, x, x)
    requires CollectedFor(isl, n, writers, readers, order, parallel, conflicts)
    modifies bufferSize
    ensures ok ==> SizesFor(n, conflicts, isl.deltas(conflicts), classic, bufferSize[..])
    ensures ok ==> InstancesApart(classic, n, writers, bufferSize[..]) && InstancesApart(classic, n, readers, bufferSize[..])
    ensures !ok ==> !exists size :: SizesFor(n, conflicts, isl.deltas(conflicts), classic, size)
    ensures ok <==> forall d: nat :: d < n ==> !NoBound(n, isl.deltas(conflicts), classic, d)
  {
    ok := ComputeBufferSizeFromConflicts(isl, classic, n, conflicts, bufferSize);
    assert conflicts(x, x);
    OnlyUnboundedFails(isl, classic, n, conflicts, x);
    if ok {
      WritersApart(isl, classic, n, writers, readers, order, parallel, conflicts, bufferSize[..]);
      ReadersApart(isl, classic, n, writers, readers, order, parallel, conflicts, bufferSize[..]);
    }
  }

  method IsWritten(isl: Isl, n: nat, writers: seq<Relation>) returns (written: bool, ghost x: Vec)
    requires SoundOnSchedules(isl, n)
    ensures !written <==> forall x: Vec, t: Vec | |x| == n :: !InUnion(writers, x, t)
    ensures written ==> |x| == n && SameTime(writers, x, x)
  {
    written := !isl.noTimes(n, Union(writers));
    x := [];
    if written {
      ghost var t: Vec;
      x, t :| |x| == n && Union(writers)(x, t);
    }
  }

  /** compute_buffer_size: `parallel` holds the accesses that parallel loops make concurrent. */
  method ComputeBufferSize(isl: Isl, classic: bool, n: nat, writers: seq<Relation>, readers: seq<Relation>,
                           order: seq<Relation>, parallel: Relation, bufferSize: array<int>)
    returns (outcome: Outcome, ghost conflicts: Relation)
    requires Sound(isl, n) && SoundOnSchedules(isl, n) && bufferSize.Length == n
    modifies bufferSize
    ensures outcome == NoWriters <==> forall x: Vec, t: Vec | |x| == n :: !InUnion(writers, x, t)
    ensures outcome != NoWriters ==> ConflictsFor(n, writers, readers, order, parallel, conflicts)
    ensures outcome != NoWriters ==> CollectedFor(isl, n, writers, readers, order, parallel, conflicts)
    ensures outcome == Allocated ==> SizesFor(n, conflicts, isl.deltas(conflicts), classic, bufferSize[..])
    ensures outcome == Allocated ==> InstancesApart(classic, n, writers, bufferSize[..])
    ensures outcome == Allocated ==> InstancesApart(classic, n, readers, bufferSize[..])
    ensures outcome == InfiniteDistance ==> !exists size :: SizesFor(n, conflicts, isl.deltas(conflicts), classic, size)
    ensures outcome == InfiniteDistance <==>
      outcome != NoWriters && exists d: nat :: d < n && NoBound(n, isl.deltas(conflicts), classic, d)
    ensures outcome == NoWriters ==> bufferSize[..] == old(bufferSize[..])
  {
    var written, x := IsWritten(isl, n, writers);
    if !written {
      conflicts := (x, y) => false;
      return NoWriters, conflicts;
    }
    var all := AllConflicts(isl, n, writers, readers, order, parallel);
    conflicts := all;
    var ok := SizeCollected(isl, classic, n, writers, readers, order, parallel, all, x, bufferSize);
    outcome := if ok then Allocated else InfiniteDistance;
  }

  // ---- The half loop leaves one direction out -----------------------------------------------

  function Exactly(a: Vec, b: Vec): Relation {
    (x: Vec, y: Vec) => x == a && y == b
  }

  /** An array of which two elements are used: y and then x are written, then y and x are read. */
  function TwoWriters(x: Vec, y: Vec): seq<Relation> {
    [Exactly(y, [0]), Exactly(x, [1])]
  }

  function TwoReaders(x: Vec, y: Vec): seq<Relation> {
    [Exactly(y, [2]), Exactly(x, [3])]
  }

  function Earlier(): Relation {
    (s: Vec, t: Vec) => |s| == 1 && |t| == 1 && s[0] < t[0]
  }

  function NoneParallel(): Relation {
    (x: Vec, y: Vec) => false
  }

  lemma PieceOfTwo(isl: Isl, n: nat, a: Vec, b: Vec, w: Vec, r: Vec)
    requires Sound(isl, n) && SoundOnSchedules(isl, n) && |a| == |b| == n
    requires |w| == |r| == 1 && w[0] < r[0]
    ensures var piece := isl.relate(Exactly(a, w), Exactly(b, r), Earlier());
      NonEmpty(isl, n, piece) == [piece] && forall u: Vec, v: Vec :: piece(u, v) <==> u == a && v == b
  {
    var piece := isl.relate(Exactly(a, w), Exactly(b, r), Earlier());
    assert Exactly(a, w)(a, w) && Exactly(b, r)(b, r) && Earlier()(w, r);
    assert piece(a, b);
  }

  ghost predicate IsPair(piece: Relation, a: Vec, b: Vec) {
    forall u: Vec, v: Vec :: piece(u, v) <==> u == a && v == b
  }

  lemma PiecesOfTwo(isl: Isl, n: nat, x: Vec, y: Vec) returns (pieces: seq<Relation>)
    requires Sound(isl, n) && SoundOnSchedules(isl, n) && |x| == |y| == n
    ensures pieces == Pieces(isl, n, TwoWriters(x, y), TwoReaders(x, y), [Earlier()], 1) && |pieces| == 4
    ensures IsPair(pieces[0], y, y) && IsPair(pieces[1], y, x) && IsPair(pieces[2], x, y) && IsPair(pieces[3], x, x)
  {
    var writers, readers, o := TwoWriters(x, y), TwoReaders(x, y), Earlier();
    var p := PiecesOfOneWriter(isl, n, y, [0], x, y);
    var q := PiecesOfOneWriter(isl, n, x, [1], x, y);
    assert PiecesOfOrder(isl, n, writers, readers, o, 2) == p + q by {
      assert PiecesOfOrder(isl, n, writers, readers, o, 1) == p;
    }
    pieces := p + q;
    assert Pieces(isl, n, writers, readers, [o], 1) == [] + pieces;
  }

  lemma PiecesOfOneWriter(isl: Isl, n: nat, a: Vec, w: Vec, x: Vec, y: Vec) returns (pieces: seq<Relation>)
    requires Sound(isl, n) && SoundOnSchedules(isl, n) && |a| == |x| == |y| == n && |w| == 1 && w[0] < 2
    ensures pieces == PiecesOfWriter(isl, n, Exactly(a, w), TwoReaders(x, y), Earlier(), 2) && |pieces| == 2
    ensures IsPair(pieces[0], a, y) && IsPair(pieces[1], a, x)
  {
    var writer, readers, o := Exactly(a, w), TwoReaders(x, y), Earlier();
    PieceOfTwo(isl, n, a, y, w, [2]);
    PieceOfTwo(isl, n, a, x, w, [3]);
    pieces := [isl.relate(writer, readers[0], o), isl.relate(writer, readers[1], o)];
    assert PiecesOfWriter(isl, n, writer, readers, o, 1) == [pieces[0]];
  }

  lemma HalfOfFour(pieces: seq<Relation>, x: Vec, y: Vec)
    requires x != y && |pieces| == 4
    requires IsPair(pieces[0], y, y) && IsPair(pieces[1], y, x) && IsPair(pieces[2], x, y) && IsPair(pieces[3], x, x)
    ensures forall u: Vec, v: Vec :: Half(pieces, u, v) <==> (u == v && u in {x, y}) || (u == x && v == y)
  {
    assert pieces[0](y, y) && pieces[3](x, x) && pieces[2](x, y) && pieces[1](y, x);
    assert Half(pieces, y, y) && Half(pieces, x, x) && Half(pieces, x, y);
  }

  // ---- When two live elements share a cell ----------------------------------------------------

  /** What the half loop works on for the two elements. */
  ghost function Coalesced(isl: Isl, n: nat, x: Vec, y: Vec): seq<Relation> {
    isl.coalesce(Pieces(isl, n, TwoWriters(x, y), TwoReaders(x, y), [Earlier()], 1))
  }

  ghost predicate Collects(isl: Isl, n: nat, x: Vec, y: Vec, conflicts: Relation) {
    forall a: Vec, b: Vec :: |a| == n && |b| == n ==>
      (conflicts(a, b) <==> Collected(isl, n, TwoWriters(x, y), TwoReaders(x, y), [Earlier()], NoneParallel(), a, b))
  }

  /** Coalescing leaves the four pieces apart. */
  ghost predicate Apart(isl: Isl, n: nat, x: Vec, y: Vec) {
    Coalesced(isl, n, x, y) == Pieces(isl, n, TwoWriters(x, y), TwoReaders(x, y), [Earlier()], 1)
  }

  /** A direction that was collected is one that the default mode can see. */
  ghost predicate SeenInPieces(pieces: seq<Relation>, x: Vec, y: Vec)
    requires |x| == |y|
  {
    || (Half(pieces, x, y) && AtMostOneNegative(Minus(y, x)))
    || (Half(pieces, y, x) && AtMostOneNegative(Minus(x, y)))
  }

  lemma TwoPrecede(x: Vec, y: Vec, a: Vec, b: Vec)
    ensures Precedes(TwoWriters(x, y), TwoReaders(x, y), [Earlier()], a, b) <==> a in {x, y} && b in {x, y}
  {
    var writers, readers, order := TwoWriters(x, y), TwoReaders(x, y), [Earlier()];
    if a in {x, y} && b in {x, y} {
      var w: Vec, r: Vec := if a == y then [0] else [1], if b == y then [2] else [3];
      assert writers[if a == y then 0 else 1](a, w) && readers[if b == y then 0 else 1](b, r) && order[0](w, r);
      assert InUnion(writers, a, w) && InUnion(readers, b, r) && InUnion(order, w, r);
    }
  }

  lemma TwoCoalesced(isl: Isl, n: nat, x: Vec, y: Vec, a: Vec, b: Vec)
    requires Sound(isl, n) && SoundOnSchedules(isl, n) && |a| == |b| == n
    ensures InUnion(Coalesced(isl, n, x, y), a, b) <==> a in {x, y} && b in {x, y}
  {
    var pieces := Pieces(isl, n, TwoWriters(x, y), TwoReaders(x, y), [Earlier()], 1);
    assert InUnion(isl.coalesce(pieces), a, b) <==> InUnion(pieces, a, b);
    PrecedesByPieces(isl, n, TwoWriters(x, y), TwoReaders(x, y), [Earlier()], a, b);
    TwoPrecede(x, y, a, b);
  }

  ghost predicate TwoPairs(n: nat, pieces: seq<Relation>, x: Vec, y: Vec) {
    forall a: Vec, b: Vec :: |a| == n && |b| == n ==> (InUnion(pieces, a, b) <==> a in {x, y} && b in {x, y})
  }

  ghost predicate TwoRelated(pieces: seq<Relation>, x: Vec, y: Vec, a: Vec, b: Vec) {
    (a == b && a in {x, y}) || (a == x && b == y && Half(pieces, x, y)) || (a == y && b == x && Half(pieces, y, x))
  }

  lemma HalfOfTwo(n: nat, pieces: seq<Relation>, x: Vec, y: Vec, a: Vec, b: Vec)
    requires TwoPairs(n, pieces, x, y) && |x| == |y| == |a| == |b| == n
    ensures Half(pieces, a, b) <==> TwoRelated(pieces, x, y, a, b)
  {
    HalfIsEnough(pieces, a, b);
  }

  /** Both elements are live together, so one direction or the other is collected. */
  lemma TwoAreCollected(isl: Isl, n: nat, x: Vec, y: Vec, conflicts: Relation)
    requires Sound(isl, n) && SoundOnSchedules(isl, n) && |x| == |y| == n && Collects(isl, n, x, y, conflicts)
    ensures Half(Coalesced(isl, n, x, y), x, y) || Half(Coalesced(isl, n, x, y), y, x)
    ensures forall a: Vec, b: Vec :: |a| == n && |b| == n ==>
      (conflicts(a, b) <==> TwoRelated(Coalesced(isl, n, x, y), x, y, a, b))
  {
    var pieces := Coalesced(isl, n, x, y);
    forall a: Vec, b: Vec | |a| == n && |b| == n ensures InUnion(pieces, a, b) <==> a in {x, y} && b in {x, y} {
      TwoCoalesced(isl, n, x, y, a, b);
    }
    HalfIsEnough(pieces, x, y);
    OnlyOwnTimes(x, y);
    forall a: Vec, b: Vec | |a| == n && |b| == n ensures conflicts(a, b) <==> TwoRelated(pieces, x, y, a, b) {
      HalfOfTwo(n, pieces, x, y, a, b);
    }
  }

  lemma TwoAreLive(x: Vec, y: Vec)
    ensures LiveTogether(TwoWriters(x, y), TwoReaders(x, y), [Earlier()], x, y) && InUnion(TwoWriters(x, y), x, [1])
  {
    TwoPrecede(x, y, x, y);
    TwoPrecede(x, y, y, x);
    assert TwoWriters(x, y)[1](x, [1]);
  }

  lemma OnlyOwnTimes(x: Vec, y: Vec)
    ensures forall a: Vec, b: Vec :: SameTime(TwoWriters(x, y), a, b) || SameTime(TwoReaders(x, y), a, b) ==>
      a == b && a in {x, y}
  {
  }

  /** With no collected distance that the default mode can see, all sizes are 1. */
  lemma UnseenPairShares(isl: Isl, n: nat, pieces: seq<Relation>, x: Vec, y: Vec, conflicts: Relation, size: seq<int>)
    requires Sound(isl, n) && |x| == |y| == n && !SeenInPieces(pieces, x, y)
    requires forall a: Vec, b: Vec :: |a| == n && |b| == n ==> (conflicts(a, b) <==> TwoRelated(pieces, x, y, a, b))
    ensures SizesFor(n, conflicts, isl.deltas(conflicts), false, size) <==> Ones(n, size)
    ensures Ones(n, size) ==> Fold(x, size) == Fold(y, size)
  {
    var deltas, ones := isl.deltas(conflicts), seq(n, _ => 1);
    forall v: Vec | |v| == n && deltas(v) ensures Zero(v) || !AtMostOneNegative(v) {
      assert IsDelta(n, conflicts, v);
    }
    var zero := Minus(x, x);
    assert conflicts(x, x) && Zero(zero) && IsDelta(n, conflicts, zero);
    UnsafeDistancesAreInvisible(n, deltas, ones);
    if first :| Sizes(n, deltas, false, first, size) {
      SizesUnique(n, deltas, false, first, size, ones, ones);
    }
    if Ones(n, size) {
      assert size == ones;
    }
  }

  lemma SeenPairIsSeparate(isl: Isl, n: nat, pieces: seq<Relation>, x: Vec, y: Vec, conflicts: Relation, size: seq<int>)
    requires Sound(isl, n) && |x| == |y| == n && x != y && SeenInPieces(pieces, x, y)
    requires forall a: Vec, b: Vec :: |a| == n && |b| == n ==> (conflicts(a, b) <==> TwoRelated(pieces, x, y, a, b))
    requires SizesFor(n, conflicts, isl.deltas(conflicts), false, size)
    requires |size| == n && forall d :: 0 <= d < n ==> size[d] >= 1
    ensures Fold(x, size) != Fold(y, size)
  {
    assert conflicts(x, y) ==> IsDelta(n, conflicts, Minus(y, x));
    assert conflicts(y, x) ==> IsDelta(n, conflicts, Minus(x, y));
    ConflictsGetDifferentCells(isl, n, conflicts, false, size, size, x, y);
  }

  /** Whatever coalescing does: the default mode gives the two elements different cells if and only if a
      direction that the half loop collects has at most one negative coordinate. */
  lemma OneDirectionIsExact(isl: Isl, n: nat, x: Vec, y: Vec, conflicts: Relation, size: seq<int>)
    requires Sound(isl, n) && SoundOnSchedules(isl, n) && |x| == |y| == n && x != y
    requires Collects(isl, n, x, y, conflicts) && SizesFor(n, conflicts, isl.deltas(conflicts), false, size)
    ensures LiveTogether(TwoWriters(x, y), TwoReaders(x, y), [Earlier()], x, y)
    ensures |size| == n && forall d :: 0 <= d < n ==> size[d] >= 1
    ensures Fold(x, size) != Fold(y, size) <==> SeenInPieces(Coalesced(isl, n, x, y), x, y)
  {
    var pieces := Coalesced(isl, n, x, y);
    TwoAreLive(x, y);
    TwoAreCollected(isl, n, x, y, conflicts);
    assert conflicts(x, x) && !NoConflicts(n, conflicts);
    var first :| Sizes(n, isl.deltas(conflicts), false, first, size);
    forall d: nat | d < n ensures size[d] >= 1 {
      SizesPositive(n, isl.deltas(conflicts), false, first, size, d);
    }
    if SeenInPieces(pieces, x, y) {
      SeenPairIsSeparate(isl, n, pieces, x, y, conflicts, size);
    } else {
      UnseenPairShares(isl, n, pieces, x, y, conflicts, size);
    }
  }

  lemma OnePieceHasBoth(pieces: seq<Relation>, x: Vec, y: Vec)
    requires |pieces| == 1 && (Half(pieces, x, y) || Half(pieces, y, x)) && |x| == |y| <= 3
    ensures Half(pieces, x, y) && Half(pieces, y, x) && SeenInPieces(pieces, x, y)
  {
    assert pieces[0](x, y) && pieces[0](y, x);
    ThreeDimensionsAreEnough(Minus(y, x));
    assert Negated(Minus(y, x)) == Minus(x, y);
  }

  /** Merged into one piece, both directions are collected, which is enough in up to three dimensions. */
  lemma MergedPiecesAreSafe(isl: Isl, n: nat, x: Vec, y: Vec, conflicts: Relation, size: seq<int>)
    requires Sound(isl, n) && SoundOnSchedules(isl, n) && |x| == |y| == n <= 3 && x != y
    requires Collects(isl, n, x, y, conflicts) && SizesFor(n, conflicts, isl.deltas(conflicts), false, size)
    requires |Coalesced(isl, n, x, y)| == 1
    ensures conflicts(x, y) && conflicts(y, x)
    ensures |size| == n && (forall d :: 0 <= d < n ==> size[d] >= 1) && Fold(x, size) != Fold(y, size)
  {
    var pieces := Coalesced(isl, n, x, y);
    TwoAreCollected(isl, n, x, y, conflicts);
    OnePieceHasBoth(pieces, x, y);
    OneDirectionIsExact(isl, n, x, y, conflicts, size);
  }

  lemma ApartIsHalf(isl: Isl, n: nat, x: Vec, y: Vec)
    requires Sound(isl, n) && SoundOnSchedules(isl, n) && |x| == |y| == n && x != y && Apart(isl, n, x, y)
    ensures Half(Coalesced(isl, n, x, y), x, y) && !Half(Coalesced(isl, n, x, y), y, x)
  {
    var pieces := PiecesOfTwo(isl, n, x, y);
    HalfOfFour(pieces, x, y);
  }

  /** Left apart, the pieces relate x to y only.  If that distance has two negative coordinates, the default
      mode gives both elements the same cell. */
  lemma OneDirectionIsUnsafe(isl: Isl, n: nat, x: Vec, y: Vec, conflicts: Relation, size: seq<int>)
    requires Sound(isl, n) && SoundOnSchedules(isl, n) && |x| == |y| == n && Apart(isl, n, x, y)
    requires !AtMostOneNegative(Minus(y, x))
    requires Collects(isl, n, x, y, conflicts) && SizesFor(n, conflicts, isl.deltas(conflicts), false, size)
    ensures LiveTogether(TwoWriters(x, y), TwoReaders(x, y), [Earlier()], x, y)
    ensures conflicts(x, y) && !conflicts(y, x)
    ensures Ones(n, size) && Fold(x, size) == Fold(y, size)
  {
    TwoAreLive(x, y);
    ApartIsHalf(isl, n, x, y);
    TwoAreCollected(isl, n, x, y, conflicts);
    UnseenPairShares(isl, n, Coalesced(isl, n, x, y), x, y, conflicts, size);
  }

  lemma OnesFitApart(isl: Isl, n: nat, x: Vec, y: Vec, conflicts: Relation)
    requires Sound(isl, n) && SoundOnSchedules(isl, n) && |x| == |y| == n && Apart(isl, n, x, y)
    requires !AtMostOneNegative(Minus(y, x)) && Collects(isl, n, x, y, conflicts)
    ensures SizesFor(n, conflicts, isl.deltas(conflicts), false, seq(n, _ => 1))
  {
    ApartIsHalf(isl, n, x, y);
    TwoAreCollected(isl, n, x, y, conflicts);
    UnseenPairShares(isl, n, Coalesced(isl, n, x, y), x, y, conflicts, seq(n, _ => 1));
  }

  /** The same of the allocator itself. */
  method TwoElementsShareACell(isl: Isl, n: nat, x: Vec, y: Vec, bufferSize: array<int>) returns (outcome: Outcome)
    requires Sound(isl, n) && SoundOnSchedules(isl, n) && |x| == |y| == n && bufferSize.Length == n
    requires Apart(isl, n, x, y) && !AtMostOneNegative(Minus(y, x))
    modifies bufferSize
    ensures LiveTogether(TwoWriters(x, y), TwoReaders(x, y), [Earlier()], x, y)
    ensures outcome == Allocated && Ones(n, bufferSize[..]) && Fold(x, bufferSize[..]) == Fold(y, bufferSize[..])
  {
    ghost var conflicts;
    outcome, conflicts := ComputeBufferSize(isl, false, n, TwoWriters(x, y), TwoReaders(x, y), [Earlier()], NoneParallel(), bufferSize);
    TwoAreLive(x, y);
    OnesFitApart(isl, n, x, y, conflicts);
    OneDirectionIsUnsafe(isl, n, x, y, conflicts, bufferSize[..]);
  }

  /** Answers of a library that merges every union into one piece. */
  ghost function Merging(): Isl {
    Exact().(coalesce := (pieces: seq<Relation>) => [Union(pieces)])
  }

  lemma MergingAnswers(n: nat)
    ensures Sound(Merging(), n)
  {
    ExactIsSound(n);
    assert Merging().isEmpty == Exact().isEmpty && Merging().noPairs == Exact().noPairs;
    assert Merging().deltas == Exact().deltas && Merging().maximum == Exact().maximum;
  }

  lemma MergingKeepsUnion(pieces: seq<Relation>, a: Vec, b: Vec)
    ensures InUnion(Merging().coalesce(pieces), a, b) <==> InUnion(pieces, a, b)
  {
    assert [Union(pieces)][0] == Union(pieces);
  }

  lemma MergingAnswersOnSchedules(n: nat)
    ensures SoundOnSchedules(Merging(), n)
  {
    ExactIsSound(n);
    assert Merging().noTimes == Exact().noTimes && Merging().relate == Exact().relate;
    forall pieces: seq<Relation>, a: Vec, b: Vec
      ensures InUnion(Merging().coalesce(pieces), a, b) <==> InUnion(pieces, a, b)
    {
      MergingKeepsUnion(pieces, a, b);
    }
  }

  /** The library may do either: the pieces may stay apart, or become one. */
  lemma CoalescingDecides(n: nat, x: Vec, y: Vec)
    ensures Sound(Exact(), n) && SoundOnSchedules(Exact(), n) && Apart(Exact(), n, x, y)
    ensures Sound(Merging(), n) && SoundOnSchedules(Merging(), n) && |Coalesced(Merging(), n, x, y)| == 1
  {
    ExactIsSound(n);
    MergingAnswers(n);
    MergingAnswersOnSchedules(n);
  }
}
