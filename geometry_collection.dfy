/**
 * A geometry collection: a sequence of child geometries and the operations
 * that aggregate over them. The child geometries are of an abstract type G
 * whose own operations (isEmpty, getCoordinates, equalsExact, ...) are the
 * function fields of a GeometryOps value.
 */
module GeometryCollections {
  import opened Coords
  import opened Wrappers

  /** Dimension.FALSE: the dimension of the empty geometry. */
  const FALSE: int := -1

  /** The operations of the child geometries, which live outside this model. */
  datatype GeometryOps<!G> = GeometryOps(
    isEmpty: G -> bool,
    coordinate: G -> Option<Coord>,
    coordinates: G -> seq<Coord>,
    numPoints: G -> int,
    dimension: G -> int,
    equalsExact: (G, G, real) -> bool,
    compare: (G, G) -> int,
    copy: G -> G,
    reverse: G -> G)

  datatype GeometryCollection<G> = GeometryCollection(geometries: seq<G>)

  datatype CollectionError = IllegalArgument

  /**
   * The constructor: a null array gives the empty collection, and a null
   * element is an IllegalArgumentException.
   */
  function Create<G>(geometries: Option<seq<Option<G>>>): (r: Result<GeometryCollection<G>, CollectionError>)
    ensures geometries.None? ==> r == Success(GeometryCollection([]))
    ensures geometries.Some? ==>
      (r.Failure? <==> exists i :: 0 <= i < |geometries.value| && geometries.value[i].None?)
    ensures r.Success? && geometries.Some? ==>
      |r.value.geometries| == |geometries.value| &&
      forall i :: 0 <= i < |geometries.value| ==> geometries.value[i] == Some(r.value.geometries[i])
  {
    if geometries.None? then Success(GeometryCollection([]))
    else
      var a := geometries.value;
      if exists i :: 0 <= i < |a| && a[i].None? then Failure(IllegalArgument)
      else Success(GeometryCollection(seq(|a|, i requires 0 <= i < |a| => a[i].value)))
  }

  /** The point counts of the children, summed. */
  function SumPoints<G>(ops: GeometryOps<G>, gs: seq<G>): int
  {
    if gs == [] then 0 else SumPoints(ops, gs[..|gs| - 1]) + ops.numPoints(gs[|gs| - 1])
  }

  /** The coordinates of the children, one child after the other. */
  function AllCoordinates<G>(ops: GeometryOps<G>, gs: seq<G>): seq<Coord>
  {
    if gs == [] then [] else AllCoordinates(ops, gs[..|gs| - 1]) + ops.coordinates(gs[|gs| - 1])
  }

  /** Children whose coordinate arrays are as long as their point counts say. */
  predicate Consistent<G>(ops: GeometryOps<G>, gs: seq<G>)
  {
    forall i :: 0 <= i < |gs| ==> |ops.coordinates(gs[i])| == ops.numPoints(gs[i])
  }

  /** With consistent children, the collected coordinates number getNumPoints. */
  lemma {:induction false} CoordinatesCount<G>(ops: GeometryOps<G>, gs: seq<G>)
    requires Consistent(ops, gs)
    ensures |AllCoordinates(ops, gs)| == SumPoints(ops, gs)
  {
    if gs != [] {
      var init := gs[..|gs| - 1];
      assert forall i :: 0 <= i < |init| ==> init[i] == gs[i];
      CoordinatesCount(ops, init);
    }
  }

  /** The coordinates of a prefix of the children are no more than those of all of them. */
  lemma {:induction false} CoordinatesPrefix<G>(ops: GeometryOps<G>, gs: seq<G>, e: nat)
    requires e <= |gs|
    ensures |AllCoordinates(ops, gs[..e])| <= |AllCoordinates(ops, gs)|
    decreases |gs|
  {
    if e < |gs| {
      var init := gs[..|gs| - 1];
      assert init[..e] == gs[..e];
      CoordinatesPrefix(ops, init, e);
    } else {
      assert gs[..e] == gs;
    }
  }

  /** The largest child dimension, starting from Dimension.FALSE. */
  function MaxDimension<G>(ops: GeometryOps<G>, gs: seq<G>): int
  {
    if gs == [] then FALSE
    else
      var d := MaxDimension(ops, gs[..|gs| - 1]);
      var e := ops.dimension(gs[|gs| - 1]);
      if d >= e then d else e
  }

  /** The maximum dimension bounds every child's and is Dimension.FALSE or some child's. */
  lemma {:induction false} MaxDimensionIsMax<G>(ops: GeometryOps<G>, gs: seq<G>)
    ensures MaxDimension(ops, gs) >= FALSE
    ensures forall i :: 0 <= i < |gs| ==> ops.dimension(gs[i]) <= MaxDimension(ops, gs)
    ensures MaxDimension(ops, gs) == FALSE || exists i :: 0 <= i < |gs| && ops.dimension(gs[i]) == MaxDimension(ops, gs)
  {
    if gs != [] {
      var init := gs[..|gs| - 1];
      assert forall i :: 0 <= i < |init| ==> init[i] == gs[i];
      MaxDimensionIsMax(ops, init);
    }
  }

  /** isEmpty: every child is empty (vacuously so for no children). */
  method IsEmpty<G>(ops: GeometryOps<G>, c: GeometryCollection<G>) returns (b: bool)
    ensures b <==> forall i :: 0 <= i < |c.geometries| ==> ops.isEmpty(c.geometries[i])
  {
    for i := 0 to |c.geometries|
      invariant forall k :: 0 <= k < i ==> ops.isEmpty(c.geometries[k])
    {
      if !ops.isEmpty(c.geometries[i]) {
        return false;
      }
    }
    return true;
  }

  /** getCoordinate: null for an empty collection, else the coordinate of the first child. */
  method GetCoordinate<G>(ops: GeometryOps<G>, c: GeometryCollection<G>) returns (r: Option<Coord>)
    ensures (forall i :: 0 <= i < |c.geometries| ==> ops.isEmpty(c.geometries[i])) ==> r.None?
    ensures !(forall i :: 0 <= i < |c.geometries| ==> ops.isEmpty(c.geometries[i])) ==>
      |c.geometries| > 0 && r == ops.coordinate(c.geometries[0])
  {
    var empty := IsEmpty(ops, c);
    if empty {
      return None;
    }
    return ops.coordinate(c.geometries[0]);
  }

  /** getNumPoints: the children's point counts summed. */
  method GetNumPoints<G>(ops: GeometryOps<G>, c: GeometryCollection<G>) returns (numPoints: int)
    ensures numPoints == SumPoints(ops, c.geometries)
  {
    var gs := c.geometries;
    numPoints := 0;
    for i := 0 to |gs|
      invariant numPoints == SumPoints(ops, gs[..i])
    {
      assert gs[..i + 1][..i] == gs[..i];
      numPoints := numPoints + ops.numPoints(gs[i]);
    }
    assert gs[..|gs|] == gs;
  }

  /**
   * getCoordinates: an array of getNumPoints entries filled with the
   * children's coordinates in order, through the running index k.
   */
  method GetCoordinates<G>(ops: GeometryOps<G>, c: GeometryCollection<G>) returns (coordinates: seq<Coord>)
    requires Consistent(ops, c.geometries)
    ensures coordinates == AllCoordinates(ops, c.geometries)
    ensures |coordinates| == SumPoints(ops, c.geometries)
  {
    var gs := c.geometries;
    var n := GetNumPoints(ops, c);
    CoordinatesCount(ops, gs);
    var a := new Coord[n](_ => Coord(0.0, 0.0));
    var k := -1;
    for e := 0 to |gs|
      invariant k + 1 == |AllCoordinates(ops, gs[..e])| <= a.Length
      invariant AllCoordinates(ops, gs[..e]) == a[..k + 1]
    {
      assert gs[..e + 1][..e] == gs[..e];
      CoordinatesPrefix(ops, gs, e + 1);
      var childCoordinates := ops.coordinates(gs[e]);
      k := AppendAt(a, k, childCoordinates);
    }
    assert gs[..|gs|] == gs;
    coordinates := a[..];
  }

  /**
   * The inner loop of getCoordinates: write cs into a after the last-written
   * index k, advancing k once per coordinate.
   */
  method AppendAt(a: array<Coord>, k: int, cs: seq<Coord>) returns (k': int)
    requires -1 <= k && k + 1 + |cs| <= a.Length
    modifies a
    ensures k' == k + |cs|
    ensures a[..k' + 1] == old(a[..k + 1]) + cs
    ensures a[k' + 1..] == old(a[k' + 1..])
  {
    ghost var before := a[..k + 1];
    k' := k;
    for j := 0 to |cs|
      invariant k' + 1 == |before| + j
      invariant a[..k' + 1] == before + cs[..j]
      invariant a[k + 1 + |cs|..] == old(a[k + 1 + |cs|..])
    {
      k' := k' + 1;
      a[k'] := cs[j];
      assert a[..k' + 1] == a[..k'] + [a[k']];
      assert cs[..j + 1] == cs[..j] + [cs[j]];
    }
    assert cs[..|cs|] == cs;
  }

  /** getDimension: the largest child dimension, Dimension.FALSE when there are none. */
  method GetDimension<G>(ops: GeometryOps<G>, c: GeometryCollection<G>) returns (dimension: int)
    ensures dimension == MaxDimension(ops, c.geometries)
    ensures dimension >= FALSE && (|c.geometries| == 0 ==> dimension == FALSE)
    ensures forall i :: 0 <= i < |c.geometries| ==> ops.dimension(c.geometries[i]) <= dimension
    ensures dimension == FALSE || exists i :: 0 <= i < |c.geometries| && ops.dimension(c.geometries[i]) == dimension
  {
    var gs := c.geometries;
    dimension := FALSE;
    for i := 0 to |gs|
      invariant dimension == MaxDimension(ops, gs[..i])
    {
      assert gs[..i + 1][..i] == gs[..i];
      var d := ops.dimension(gs[i]);
      dimension := if dimension >= d then dimension else d;
    }
    assert gs[..|gs|] == gs;
    MaxDimensionIsMax(ops, gs);
  }

  /** Two child sequences of the same length that are equalsExact index by index. */
  predicate PairwiseEqual<G>(ops: GeometryOps<G>, gs: seq<G>, hs: seq<G>, tolerance: real)
  {
    |gs| == |hs| && forall i :: 0 <= i < |gs| ==> ops.equalsExact(gs[i], hs[i], tolerance)
  }

  /**
   * equalsExact: false for a geometry of another class (other == None) or a
   * different number of children, else true iff the children are equalsExact
   * index by index.
   */
  method EqualsExact<G>(ops: GeometryOps<G>, c: GeometryCollection<G>, other: Option<GeometryCollection<G>>, tolerance: real)
    returns (b: bool)
    ensures b <==> other.Some? && PairwiseEqual(ops, c.geometries, other.value.geometries, tolerance)
  {
    if other.None? {
      return false;
    }
    var gs, hs := c.geometries, other.value.geometries;
    if |gs| != |hs| {
      return false;
    }
    for i := 0 to |gs|
      invariant forall k :: 0 <= k < i ==> ops.equalsExact(gs[k], hs[k], tolerance)
    {
      if !ops.equalsExact(gs[i], hs[i], tolerance) {
        return false;
      }
    }
    return true;
  }

  /** Pairwise equality is symmetric when the children's equalsExact is. */
  lemma PairwiseEqualSymmetric<G>(ops: GeometryOps<G>, gs: seq<G>, hs: seq<G>, tolerance: real)
    requires forall g, h :: ops.equalsExact(g, h, tolerance) ==> ops.equalsExact(h, g, tolerance)
    requires PairwiseEqual(ops, gs, hs, tolerance)
    ensures PairwiseEqual(ops, hs, gs, tolerance)
  {
  }

  /**
   * compareToSameClass(o, comp): the first non-zero child comparison decides;
   * otherwise the longer sequence is the greater one.
   */
  function Lex<G>(ops: GeometryOps<G>, gs: seq<G>, hs: seq<G>): int
  {
    if gs == [] && hs == [] then 0
    else if gs == [] then -1
    else if hs == [] then 1
    else
      var comp := ops.compare(gs[0], hs[0]);
      if comp != 0 then comp else Lex(ops, gs[1..], hs[1..])
  }

  function Sign(n: int): int
  {
    if n < 0 then -1 else if n > 0 then 1 else 0
  }

  /** The lexicographic comparison is antisymmetric when the child comparison is. */
  lemma {:induction false} LexAntisymmetric<G>(ops: GeometryOps<G>, gs: seq<G>, hs: seq<G>)
    requires forall g, h :: Sign(ops.compare(g, h)) == -Sign(ops.compare(h, g))
    ensures Sign(Lex(ops, gs, hs)) == -Sign(Lex(ops, hs, gs))
  {
    if gs != [] && hs != [] {
      assert Sign(ops.compare(gs[0], hs[0])) == -Sign(ops.compare(hs[0], gs[0]));
      if ops.compare(gs[0], hs[0]) == 0 {
        LexAntisymmetric(ops, gs[1..], hs[1..]);
      }
    }
  }

  /** A collection compares equal to itself when every child compares equal to itself. */
  lemma {:induction false} LexReflexive<G>(ops: GeometryOps<G>, gs: seq<G>)
    requires forall i :: 0 <= i < |gs| ==> ops.compare(gs[i], gs[i]) == 0
    ensures Lex(ops, gs, gs) == 0
  {
    if gs != [] {
      assert forall i :: 0 <= i < |gs[1..]| ==> gs[1..][i] == gs[i + 1];
      LexReflexive(ops, gs[1..]);
    }
  }

  /**
   * When the first n children compare equal, a collection of exactly n
   * children is less than a longer one, and the comparison otherwise goes on
   * at index n.
   */
  lemma {:induction false} LexCommonPrefix<G>(ops: GeometryOps<G>, gs: seq<G>, hs: seq<G>, n: nat)
    requires n <= |gs| && n <= |hs|
    requires forall i :: 0 <= i < n ==> ops.compare(gs[i], hs[i]) == 0
    ensures Lex(ops, gs, hs) == Lex(ops, gs[n..], hs[n..])
    ensures n == |gs| < |hs| ==> Lex(ops, gs, hs) == -1
    ensures n == |hs| < |gs| ==> Lex(ops, gs, hs) == 1
    ensures n == |gs| == |hs| ==> Lex(ops, gs, hs) == 0
  {
    if n > 0 {
      assert ops.compare(gs[0], hs[0]) == 0;
      assert forall i :: 0 <= i < n - 1 ==> gs[1..][i] == gs[i + 1] && hs[1..][i] == hs[i + 1];
      LexCommonPrefix(ops, gs[1..], hs[1..], n - 1);
      assert gs[1..][n - 1..] == gs[n..] && hs[1..][n - 1..] == hs[n..];
    }
  }

  /** compareToSameClass(o, comp): the index loop over the common prefix, then the lengths. */
  method CompareToSameClass<G>(ops: GeometryOps<G>, c: GeometryCollection<G>, o: GeometryCollection<G>) returns (r: int)
    ensures r == Lex(ops, c.geometries, o.geometries)
  {
    var gs, hs := c.geometries, o.geometries;
    var n1, n2 := |gs|, |hs|;
    var i := 0;
    while i < n1 && i < n2
      invariant 0 <= i <= n1 && i <= n2
      invariant Lex(ops, gs, hs) == Lex(ops, gs[i..], hs[i..])
    {
      var holeComp := ops.compare(gs[i], hs[i]);
      assert gs[i..][1..] == gs[i + 1..] && hs[i..][1..] == hs[i + 1..];
      if holeComp != 0 {
        return holeComp;
      }
      i := i + 1;
    }
    if i < n1 {
      return 1;
    }
    if i < n2 {
      return -1;
    }
    return 0;
  }

  /** Each child mapped through f, in the same order. */
  function MapChildren<G>(f: G -> G, gs: seq<G>): (r: seq<G>)
    ensures |r| == |gs|
  {
    seq(|gs|, i requires 0 <= i < |gs| => f(gs[i]))
  }

  /** copyInternal: a new collection of the children's copies, filled index by index. */
  method CopyInternal<G>(ops: GeometryOps<G>, c: GeometryCollection<G>) returns (r: GeometryCollection<G>)
    ensures |r.geometries| == |c.geometries|
    ensures forall i :: 0 <= i < |c.geometries| ==> r.geometries[i] == ops.copy(c.geometries[i])
  {
    r := MapInto(ops.copy, c);
  }

  /** reverseInternal: a new collection of the children reversed, the children keeping their order. */
  method ReverseInternal<G>(ops: GeometryOps<G>, c: GeometryCollection<G>) returns (r: GeometryCollection<G>)
    ensures |r.geometries| == |c.geometries|
    ensures forall i :: 0 <= i < |c.geometries| ==> r.geometries[i] == ops.reverse(c.geometries[i])
  {
    r := MapInto(ops.reverse, c);
  }

  /** The array-filling loop shared by copyInternal and reverseInternal. */
  method MapInto<G>(f: G -> G, c: GeometryCollection<G>) returns (r: GeometryCollection<G>)
    ensures r.geometries == MapChildren(f, c.geometries)
  {
    var gs := c.geometries;
    if |gs| == 0 {
      return GeometryCollection([]);
    }
    var geometries := new G[|gs|](_ => gs[0]);
    for i := 0 to |gs|
      invariant forall k :: 0 <= k < i ==> geometries[k] == f(gs[k])
    {
      geometries[i] := f(gs[i]);
    }
    r := GeometryCollection(geometries[..]);
  }

  /** Reversing every child twice gives the collection back when a child's reverse undoes itself. */
  lemma ReverseTwice<G>(ops: GeometryOps<G>, gs: seq<G>)
    requires forall g :: ops.reverse(ops.reverse(g)) == g
    ensures MapChildren(ops.reverse, MapChildren(ops.reverse, gs)) == gs
  {
  }

  /** Mapping the children by a point-count preserving operation keeps getNumPoints. */
  lemma {:induction false} MapKeepsNumPoints<G>(ops: GeometryOps<G>, f: G -> G, gs: seq<G>)
    requires forall g :: ops.numPoints(f(g)) == ops.numPoints(g)
    ensures SumPoints(ops, MapChildren(f, gs)) == SumPoints(ops, gs)
  {
    if gs != [] {
      var init := gs[..|gs| - 1];
      MapKeepsNumPoints(ops, f, init);
      assert MapChildren(f, gs)[..|gs| - 1] == MapChildren(f, init);
    }
  }

  /** A copy is equalsExact to the original when every child copy is. */
  lemma CopyEqualsOriginal<G>(ops: GeometryOps<G>, gs: seq<G>, tolerance: real)
    requires forall g :: ops.equalsExact(ops.copy(g), g, tolerance)
    ensures PairwiseEqual(ops, MapChildren(ops.copy, gs), gs, tolerance)
  {
  }
}
