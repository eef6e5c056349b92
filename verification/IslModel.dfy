/** Integer sets and relations as the polyhedral passes use them.

    A set of integer vectors is its membership test, so infinite sets (streams) need no special
    treatment.  The queries that the passes send to the integer set library are the fields of
    `Isl`; `Sound` says what the library promises about their answers.
 */
module IslModel {

  import opened Options

  type Vec = seq<int>

  /** isl::set */
  type Region = Vec -> bool

  /** isl::map between two tuples */
  type Relation = (Vec, Vec) -> bool

  /** A set is asked about as one of n-vectors, where n comes first in the query; noTimes takes a schedule
      of n-vectors.  relate(a, b, o) pairs the x and y that a and b send to points in relation o;
      coalesce rewrites a union of basic maps, given as its list of pieces. */
  datatype Isl = Isl(
    isEmpty: (nat, Region) -> bool,
    noPairs: (nat, Relation) -> bool,
    noTimes: (nat, Relation) -> bool,
    deltas: Relation -> Region,
    maximum: (nat, Region, nat) -> Option<int>,
    relate: (Relation, Relation, Relation) -> Relation,
    coalesce: seq<Relation> -> seq<Relation>,
    isSubset: (Relation, Relation) -> bool)

  /** m is the greatest value of coordinate `dim` over the n-vectors of s, and it is attained. */
  ghost predicate IsMaximum(n: nat, s: Region, dim: nat, m: int)
    requires dim < n
  {
    && (exists v: Vec :: |v| == n && s(v) && v[dim] == m)
    && (forall v: Vec :: |v| == n && s(v) ==> v[dim] <= m)
  }

  function Minus(a: Vec, b: Vec): (d: Vec)
    requires |a| == |b|
    ensures |d| == |a| && forall k :: 0 <= k < |a| ==> d[k] == a[k] - b[k]
  {
    seq(|a|, k requires 0 <= k < |a| => a[k] - b[k])
  }

  /** The first coordinate, which counts rows, moved on. */
  function Shifted(x: Vec, rows: int): (y: Vec)
    ensures |y| == |x|
  {
    if x == [] then [] else x[0 := x[0] + rows]
  }

  lemma ShiftedTwice(x: Vec, a: int, b: int)
    ensures Shifted(Shifted(x, a), b) == Shifted(x, a + b)
  {
  }

  ghost predicate IsDelta(n: nat, c: Relation, v: Vec)
  {
    exists x: Vec, y: Vec :: |x| == n && |y| == n && c(x, y) && v == Minus(y, x)
  }

  /** An answer of `maximum` that is not an integer (empty or unbounded set) is None. */
  ghost predicate Sound(isl: Isl, n: nat)
  {
    && (forall s: Region :: isl.isEmpty(n, s) <==> forall v: Vec | |v| == n :: !s(v))
    && (forall c: Relation :: isl.noPairs(n, c) <==> forall x: Vec, y: Vec | |x| == n && |y| == n :: !c(x, y))
    && (forall c: Relation, v: Vec :: |v| == n ==> (isl.deltas(c)(v) <==> IsDelta(n, c, v)))
    && (forall s: Region, d: nat :: d < n ==>
          match isl.maximum(n, s, d)
          case Some(m) => IsMaximum(n, s, d, m)
          case None => !exists m :: IsMaximum(n, s, d, m))
  }

  ghost predicate Related(a: Relation, b: Relation, o: Relation, x: Vec, y: Vec) {
    exists s: Vec, t: Vec :: a(x, s) && b(y, t) && o(s, t)
  }

  /** The union of a list of pieces. */
  ghost predicate InUnion(pieces: seq<Relation>, x: Vec, y: Vec) {
    exists p :: 0 <= p < |pieces| && pieces[p](x, y)
  }

  /** noTimes asks whether a schedule (elements to schedule points) is empty. */
  ghost predicate SoundOnSchedules(isl: Isl, n: nat) {
    && (forall a: Relation :: isl.noTimes(n, a) <==> forall x: Vec, t: Vec | |x| == n :: !a(x, t))
    && (forall a: Relation, b: Relation, o: Relation, x: Vec, y: Vec ::
          isl.relate(a, b, o)(x, y) <==> Related(a, b, o, x, y))
    && (forall pieces: seq<Relation>, x: Vec, y: Vec {:trigger InUnion(isl.coalesce(pieces), x, y)} ::
          InUnion(isl.coalesce(pieces), x, y) <==> InUnion(pieces, x, y))
  }

  /** Relations between statement instances and between schedule points, whatever their length. */
  ghost predicate SoundOnTimes(isl: Isl) {
    && (forall a: Relation, b: Relation :: isl.isSubset(a, b) <==> forall s: Vec, t: Vec :: a(s, t) ==> b(s, t))
    && (forall a: Relation, b: Relation, o: Relation, x: Vec, y: Vec ::
          isl.relate(a, b, o)(x, y) <==> Related(a, b, o, x, y))
  }

  /** The answers themselves.  They keep all promises at once, for sets of every rank. */
  ghost function Exact(): Isl {
    Isl(
      (n: nat, s: Region) => forall v: Vec | |v| == n :: !s(v),
      (n: nat, c: Relation) => forall x: Vec, y: Vec | |x| == n && |y| == n :: !c(x, y),
      (n: nat, a: Relation) => forall x: Vec, t: Vec | |x| == n :: !a(x, t),
      (c: Relation) => (v: Vec) => IsDelta(|v|, c, v),
      (n: nat, s: Region, d: nat) => MaximumOf(n, s, d),
      (a: Relation, b: Relation, o: Relation) => (x: Vec, y: Vec) => Related(a, b, o, x, y),
      (pieces: seq<Relation>) => pieces,
      (a: Relation, b: Relation) => forall s: Vec, t: Vec :: a(s, t) ==> b(s, t))
  }

  ghost function MaximumOf(n: nat, s: Region, d: nat): Option<int> {
    if m :| d < n && IsMaximum(n, s, d, m) then Some(m) else None
  }

  lemma ExactIsSound(n: nat)
    ensures Sound(Exact(), n) && SoundOnSchedules(Exact(), n) && SoundOnTimes(Exact())
  {
  }
}
