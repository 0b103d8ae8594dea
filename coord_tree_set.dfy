/**
 * A sorted set of coordinates (java.util.TreeSet<Coordinate> under the
 * coordinate order) represented by its in-order contents: a strictly
 * increasing sequence. Duplicates collapse because membership is by the
 * order, which on planar coordinates is exact equality.
 */
module CoordTreeSet {
  import opened Coords
  import opened Wrappers

  predicate Sorted(s: seq<Coord>)
  {
    forall i, j :: 0 <= i < j < |s| ==> Less(s[i], s[j])
  }

  /** The number of leading elements not above c; in a sorted set, the position of higher(c). */
  function FirstAbove(s: seq<Coord>, c: Coord): (j: nat)
    ensures j <= |s|
    ensures forall i :: 0 <= i < j ==> !Less(c, s[i])
    ensures j < |s| ==> Less(c, s[j])
  {
    if s == [] then 0
    else if Less(c, s[0]) then 0
    else 1 + FirstAbove(s[1..], c)
  }

  /** The number of leading elements below c; in a sorted set, one past the position of lower(c). */
  function FirstNotBelow(s: seq<Coord>, c: Coord): (j: nat)
    ensures j <= |s|
    ensures forall i :: 0 <= i < j ==> Less(s[i], c)
    ensures j < |s| ==> !Less(s[j], c)
  {
    if s == [] then 0
    else if !Less(s[0], c) then 0
    else 1 + FirstNotBelow(s[1..], c)
  }

  /** TreeSet.higher: the least element strictly greater than c, or null. */
  function Higher(s: seq<Coord>, c: Coord): (r: Option<Coord>)
    requires Sorted(s)
    ensures r.None? <==> forall e :: e in s ==> !Less(c, e)
    ensures r.Some? ==> r.value in s && Less(c, r.value)
    ensures r.Some? ==> forall e :: e in s && Less(c, e) ==> !Less(e, r.value)
  {
    var j := FirstAbove(s, c);
    if j < |s| then
      assert forall i :: j < i < |s| ==> Less(s[j], s[i]);
      Some(s[j])
    else None
  }

  /** TreeSet.lower: the greatest element strictly less than c, or null. */
  function Lower(s: seq<Coord>, c: Coord): (r: Option<Coord>)
    requires Sorted(s)
    ensures r.None? <==> forall e :: e in s ==> !Less(e, c)
    ensures r.Some? ==> r.value in s && Less(r.value, c)
    ensures r.Some? ==> forall e :: e in s && Less(e, c) ==> !Less(r.value, e)
  {
    var j := FirstNotBelow(s, c);
    if j > 0 then
      assert forall i :: 0 <= i < j - 1 ==> Less(s[i], s[j - 1]);
      assert forall i :: j <= i < |s| ==> !Less(s[i], c) by {
        forall i | j <= i < |s| ensures !Less(s[i], c) {
          if j < i { assert Less(s[j], s[i]); }
        }
      }
      Some(s[j - 1])
    else
      assert forall i :: 0 <= i < |s| ==> !Less(s[i], c) by {
        forall i | 0 <= i < |s| ensures !Less(s[i], c) {
          if 0 < i { assert Less(s[0], s[i]); }
        }
      }
      None
  }

  /** TreeSet.first: the least element of a non-empty set. */
  function First(s: seq<Coord>): (r: Coord)
    requires Sorted(s) && |s| > 0
    ensures r in s && forall e :: e in s ==> e == r || Less(r, e)
  {
    s[0]
  }

  /** In a sorted set, higher of the element at k is the element at k + 1. */
  lemma {:induction false} HigherAt(s: seq<Coord>, k: nat)
    requires Sorted(s) && k < |s|
    ensures Higher(s, s[k]) == if k + 1 < |s| then Some(s[k + 1]) else None
  {
    var j := FirstAbove(s, s[k]);
    assert !Less(s[k], s[k]);
    assert forall i :: 0 <= i < k ==> Less(s[i], s[k]) && !Less(s[k], s[i]);
    assert j > k;
    if k + 1 < |s| {
      assert Less(s[k], s[k + 1]);
    }
  }

  /** In a sorted set, lower of the element at k is the element at k - 1. */
  lemma {:induction false} LowerAt(s: seq<Coord>, k: nat)
    requires Sorted(s) && k < |s|
    ensures Lower(s, s[k]) == if k > 0 then Some(s[k - 1]) else None
  {
    var j := FirstNotBelow(s, s[k]);
    assert !Less(s[k], s[k]);
    assert j <= k;
    assert forall i :: 0 <= i < k ==> Less(s[i], s[k]);
  }

  /** Elements of a sorted set are distinct, so an element determines its position. */
  lemma SortedIndexUnique(s: seq<Coord>, i: nat, j: nat)
    requires Sorted(s) && i < |s| && j < |s| && s[i] == s[j]
    ensures i == j
  {
    assert !Less(s[i], s[j]);
  }

  /** In a sorted set, the order of two elements is the order of their positions. */
  lemma SortedIndexOrder(s: seq<Coord>, i: nat, j: nat)
    requires Sorted(s) && i < |s| && j < |s| && Less(s[i], s[j])
    ensures i < j
  {
    LessIsStrictTotalOrder(s[i], s[j], s[j]);
  }

  /** TreeSet.add: insert c at its place in the order unless it is already present. */
  function Insert(s: seq<Coord>, c: Coord): (r: seq<Coord>)
    requires Sorted(s)
    ensures Sorted(r)
    ensures forall e :: e in r <==> e in s || e == c
    ensures |r| == if c in s then |s| else |s| + 1
  {
    var j := FirstNotBelow(s, c);
    if j < |s| && s[j] == c then s
    else
      var r := s[..j] + [c] + s[j..];
      assert forall i :: 0 <= i < |r| ==> r[i] == if i < j then s[i] else if i == j then c else s[i - 1];
      assert forall i :: j <= i < |s| ==> Less(c, s[i]) by {
        forall i | j <= i < |s| ensures Less(c, s[i]) {
          if i == j { LessIsStrictTotalOrder(c, s[j], c); }
          else { LessIsStrictTotalOrder(c, s[j], s[i]); }
        }
      }
      assert forall i :: 0 <= i < |s| ==> s[i] != c;
      r
  }

  /** TreeSet.addAll: insert every coordinate of cs in turn. */
  function AddAll(s: seq<Coord>, cs: seq<Coord>): (r: seq<Coord>)
    requires Sorted(s)
    ensures Sorted(r)
    ensures forall e :: e in r <==> e in s || e in cs
    decreases |cs|
  {
    if cs == [] then s
    else
      var r := AddAll(Insert(s, cs[0]), cs[1..]);
      assert forall e :: e in cs <==> e == cs[0] || e in cs[1..];
      r
  }
}
