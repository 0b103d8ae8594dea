/**
 * The polygon hole joiner: turns a polygon with holes into one
 * self-touching ring by splicing each hole, in envelope order, into a
 * growing list of shell coordinates.
 *
 * The test whether a join segment properly crosses the original polygon
 * boundary is a spatial-index query; it is a parameter of the joiner
 * (`crosses`), fixed when the joiner is built from the input polygon.
 */
module PolygonHoleJoiner {
  import opened Coords
  import opened Wrappers
  import opened CoordTreeSet

  /** The coordinates of a ring, closing vertex included. */
  type Ring = seq<Coord>

  /** The runtime exceptions the joiner can raise on inputs it does not expect. */
  datatype JoinError =
    | NullPointer        // a TreeSet query returned null and the result was dereferenced
    | IndexOutOfBounds   // a hole without a leftmost vertex (List.get(0) on an empty list)
    | IllegalState       // "Vertex is not in shellcoords"

  // ---------------------------------------------------------------------------
  // Leftmost hole vertices

  /** The minimum x the ring's envelope reports. */
  function LeftX(ring: Ring): real
  {
    EnvelopeOf(ring).MinX()
  }

  /** Vertex i is a leftmost vertex: not the closing vertex, and within EPS of the minimum x. */
  predicate IsLeftVertex(ring: Ring, i: int)
  {
    0 <= i < |ring| - 1 && Abs(ring[i].x - LeftX(ring)) < EPS
  }

  /** findLeftVertices: the indices of the leftmost vertices, in increasing order. */
  method FindLeftVertices(ring: Ring) returns (left: seq<nat>)
    ensures forall k, l :: 0 <= k < l < |left| ==> left[k] < left[l]
    ensures forall i: nat :: i in left <==> IsLeftVertex(ring, i)
    ensures forall k :: 0 <= k < |left| ==> left[k] < |ring| - 1
  {
    var leftX := EnvelopeOf(ring).MinX();
    left := [];
    var i := 0;
    while i < |ring| - 1
      invariant 0 <= i && (i <= |ring| - 1 || i == 0)
      invariant forall k, l :: 0 <= k < l < |left| ==> left[k] < left[l]
      invariant forall k :: 0 <= k < |left| ==> left[k] < i
      invariant forall j: nat :: j in left <==> j < i && IsLeftVertex(ring, j)
    {
      if Abs(ring[i].x - leftX) < EPS {
        left := left + [i];
      }
      i := i + 1;
    }
  }

  /** A closed ring of at least two coordinates always has a leftmost vertex. */
  lemma {:induction false} ClosedRingHasLeftVertex(ring: Ring)
    requires |ring| >= 2 && ring[0] == ring[|ring| - 1]
    ensures exists i :: IsLeftVertex(ring, i)
  {
    var e := EnvelopeOf(ring);
    var i :| 0 <= i < |ring| && ring[i].x == e.minX;
    if i == |ring| - 1 {
      assert ring[0].x == e.minX;
      assert IsLeftVertex(ring, 0);
    } else {
      assert IsLeftVertex(ring, i);
    }
  }

  // ---------------------------------------------------------------------------
  // Choosing the shell-hole vertex pair

  /** The vertical distance between hole candidate i and shell candidate j. */
  function PairDist(holeCoords: Ring, left: seq<nat>, shellList: seq<Coord>, i: int, j: int): real
    requires 0 <= i < |left| && left[i] < |holeCoords| && 0 <= j < |shellList|
  {
    Abs(shellList[j].y - holeCoords[left[i]].y)
  }

  /**
   * The tie-break of joinHole: over all (leftmost hole vertex, shell candidate)
   * pairs, visited hole vertex first, the first pair with the least |dy|.
   * The ghost `sj` is the position of the chosen shell vertex in the list.
   */
  method ClosestPair(holeCoords: Ring, left: seq<nat>, shellList: seq<Coord>)
    returns (hi: nat, shellCoord: Coord, ghost sj: nat)
    requires |left| > 0 && |shellList| > 0
    requires forall i :: 0 <= i < |left| ==> left[i] < |holeCoords|
    ensures hi < |left| && shellCoord in shellList
    ensures forall i, j :: 0 <= i < |left| && 0 <= j < |shellList| ==>
      Abs(shellCoord.y - holeCoords[left[hi]].y) <= PairDist(holeCoords, left, shellList, i, j)
    ensures IsClosestPair(holeCoords, left, shellList, hi, sj) && shellCoord == shellList[sj]
  {
    // None stands for the initial Double.MAX_VALUE: no pair seen yet
    var shortest: Option<real> := None;
    hi, shellCoord, sj := 0, shellList[0], 0;
    var i := 0;
    while i < |left|
      invariant 0 <= i <= |left|
      invariant hi < |left| && sj < |shellList| && shellCoord == shellList[sj]
      invariant shortest.None? <==> i == 0
      invariant shortest.Some? ==> hi < i && shortest.value == PairDist(holeCoords, left, shellList, hi, sj)
      invariant forall i', j' :: 0 <= i' < i && 0 <= j' < |shellList| ==>
        PairDist(holeCoords, left, shellList, hi, sj) <= PairDist(holeCoords, left, shellList, i', j')
      invariant forall i', j' :: 0 <= i' < i && 0 <= j' < |shellList| && (i' < hi || (i' == hi && j' < sj)) ==>
        PairDist(holeCoords, left, shellList, hi, sj) < PairDist(holeCoords, left, shellList, i', j')
    {
      var j := 0;
      while j < |shellList|
        invariant 0 <= j <= |shellList|
        invariant hi < |left| && sj < |shellList| && shellCoord == shellList[sj]
        invariant shortest.None? <==> i == 0 && j == 0
        invariant shortest.Some? ==>
          (hi < i || (hi == i && sj < j)) && shortest.value == PairDist(holeCoords, left, shellList, hi, sj)
        invariant forall i', j' :: 0 <= i' < |left| && 0 <= j' < |shellList| && (i' < i || (i' == i && j' < j)) ==>
          PairDist(holeCoords, left, shellList, hi, sj) <= PairDist(holeCoords, left, shellList, i', j')
        invariant forall i', j' ::
          (0 <= i' < |left| && 0 <= j' < |shellList| && (i' < i || (i' == i && j' < j)) && (i' < hi || (i' == hi && j' < sj))) ==>
          PairDist(holeCoords, left, shellList, hi, sj) < PairDist(holeCoords, left, shellList, i', j')
      {
        var currLength := Abs(shellList[j].y - holeCoords[left[i]].y);
        if shortest.None? || currLength < shortest.value {
          shortest := Some(currLength);
          hi, shellCoord, sj := i, shellList[j], j;
        }
        j := j + 1;
      }
      i := i + 1;
    }
  }

  // ---------------------------------------------------------------------------
  // The cut map and the skip-counted occurrence lookup

  /** The recorded partners of a vertex, empty when it has none. */
  function Partners(cutMap: map<Coord, seq<Coord>>, c: Coord): seq<Coord>
  {
    if c in cutMap then cutMap[c] else []
  }

  /** The number of partners lying strictly below y. */
  function CountBelowY(partners: seq<Coord>, y: real): (n: nat)
    ensures n <= |partners|
  {
    if partners == [] then 0
    else CountBelowY(partners[..|partners| - 1], y) + (if partners[|partners| - 1].y < y then 1 else 0)
  }

  /**
   * The cut map after recording a cut from shellVertex to holeVertex:
   * holeVertex is appended to the shell vertex's partners, and holeVertex
   * gets the list [holeVertex] when it is not yet a key.
   */
  function RecordCut(cutMap: map<Coord, seq<Coord>>, shellVertex: Coord, holeVertex: Coord)
    : (r: map<Coord, seq<Coord>>)
    ensures shellVertex in r && holeVertex in r
    ensures r[shellVertex] == Partners(cutMap, shellVertex) + [holeVertex]
    ensures holeVertex != shellVertex ==> r[holeVertex] == if holeVertex in cutMap then cutMap[holeVertex] else [holeVertex]
    ensures forall c :: c in r ==> c in cutMap || c == shellVertex || c == holeVertex
    ensures forall c :: c in cutMap && c != shellVertex ==> c in r && r[c] == cutMap[c]
  {
    var m := cutMap[shellVertex := Partners(cutMap, shellVertex) + [holeVertex]];
    if holeVertex in m then m else m[holeVertex := [holeVertex]]
  }

  /** The cut map only grows: no key is lost and every partner list is extended. */
  lemma RecordCutGrows(cutMap: map<Coord, seq<Coord>>, shellVertex: Coord, holeVertex: Coord)
    ensures forall c :: c in cutMap ==>
      c in RecordCut(cutMap, shellVertex, holeVertex) && cutMap[c] <= RecordCut(cutMap, shellVertex, holeVertex)[c]
  {
  }

  /** The number of entries of s equal to c within EPS. */
  function NearCount(s: seq<Coord>, c: Coord): (n: nat)
    ensures n <= |s|
  {
    if s == [] then 0
    else NearCount(s[..|s| - 1], c) + (if NearEquals(s[|s| - 1], c, EPS) then 1 else 0)
  }

  /** Counting over a prefix never exceeds counting over the whole list. */
  lemma {:induction false} NearCountPrefix(s: seq<Coord>, c: Coord, i: nat)
    requires i <= |s|
    ensures NearCount(s[..i], c) <= NearCount(s, c)
    decreases |s|
  {
    if i < |s| {
      assert s[..|s| - 1][..i] == s[..i];
      NearCountPrefix(s[..|s| - 1], c, i);
    } else {
      assert s[..i] == s;
    }
  }

  /** Index i holds the (skip+1)-th entry of s equal to c within EPS. */
  predicate IsSkipMatch(s: seq<Coord>, c: Coord, skip: nat, i: int)
  {
    0 <= i < |s| && NearEquals(s[i], c, EPS) && NearCount(s[..i], c) == skip
  }

  /** At most one index holds the (skip+1)-th match. */
  lemma {:induction false} SkipMatchUnique(s: seq<Coord>, c: Coord, skip: nat, i: int, j: int)
    requires IsSkipMatch(s, c, skip, i) && IsSkipMatch(s, c, skip, j)
    ensures i == j
  {
    if i < j {
      assert s[..i + 1][..i] == s[..i];
      assert s[..j][..i + 1] == s[..i + 1];
      NearCountPrefix(s[..j], c, i + 1);
    } else if j < i {
      assert s[..j + 1][..j] == s[..j];
      assert s[..i][..j + 1] == s[..j + 1];
      NearCountPrefix(s[..i], c, j + 1);
    }
  }

  // ---------------------------------------------------------------------------
  // The section spliced into the shell

  /** The hole vertices from index h, walking forward cyclically over the nPts = |hole| - 1 distinct vertices. */
  function Rotation(hole: Ring, h: nat): (r: seq<Coord>)
    requires h < |hole| - 1
    ensures |r| == |hole| - 1
  {
    seq(|hole| - 1, k requires 0 <= k < |hole| - 1 => hole[(h + k) % (|hole| - 1)])
  }

  lemma ModWrap(a: int, n: int)
    requires 0 < n && 0 <= a < 2 * n
    ensures a % n == if a < n then a else a - n
  {
    if a >= n {
      assert a == 1 * n + (a - n);
    }
  }

  /** The rotation is the tail of the ring from h followed by its head: each distinct vertex exactly once. */
  lemma {:induction false} RotationIsPermutation(hole: Ring, h: nat)
    requires h < |hole| - 1
    ensures Rotation(hole, h) == hole[h..|hole| - 1] + hole[..h]
    ensures multiset(Rotation(hole, h)) == multiset(hole[..|hole| - 1])
  {
    var n := |hole| - 1;
    var r := Rotation(hole, h);
    var t := hole[h..n] + hole[..h];
    forall k | 0 <= k < n ensures r[k] == t[k] {
      ModWrap(h + k, n);
    }
    assert r == t;
    calc {
      multiset(hole[..n]);
      { assert hole[..n] == hole[..h] + hole[h..n]; }
      multiset(hole[..h]) + multiset(hole[h..n]);
      multiset(t);
    }
  }

  /**
   * The run inserted into the shell for a join from shellPt to hole vertex h:
   * the rotation, framed by a copy of the shell join point and a copy of the
   * hole join point unless the join is touching (the two points are equal).
   */
  function Section(shellPt: Coord, hole: Ring, h: nat): seq<Coord>
    requires h < |hole| - 1
  {
    if shellPt == hole[h] then Rotation(hole, h) else [shellPt] + Rotation(hole, h) + [hole[h]]
  }

  /**
   * The section-building loop of addHoleToShell: the shell join point unless
   * touching, the hole vertices from holeJoinIndex cyclically with
   * i = (i + 1) % nPts until the walk returns, then the hole join point unless touching.
   */
  method NewSection(shellJoinPt: Coord, holeCoords: Ring, holeJoinIndex: nat) returns (newSection: seq<Coord>)
    requires holeJoinIndex < |holeCoords| - 1
    ensures newSection == Section(shellJoinPt, holeCoords, holeJoinIndex)
  {
    var holeJoinPt := holeCoords[holeJoinIndex];
    var isJoinTouching := shellJoinPt == holeJoinPt;
    newSection := [];
    if !isJoinTouching {
      newSection := newSection + [shellJoinPt];
    }
    ghost var head := newSection;
    ghost var rot := Rotation(holeCoords, holeJoinIndex);
    var nPts := |holeCoords| - 1;
    var i := holeJoinIndex;
    ModWrap(holeJoinIndex, nPts);
    newSection := newSection + [holeCoords[i]];
    ModWrap(i + 1, nPts);
    i := (i + 1) % nPts;
    ghost var count := 1;
    while i != holeJoinIndex
      invariant 1 <= count <= nPts
      invariant i == if holeJoinIndex + count < nPts then holeJoinIndex + count else holeJoinIndex + count - nPts
      invariant newSection == head + rot[..count]
      decreases nPts - count
    {
      ModWrap(holeJoinIndex + count, nPts);
      assert rot[..count + 1] == rot[..count] + [holeCoords[i]];
      newSection := newSection + [holeCoords[i]];
      ModWrap(i + 1, nPts);
      i := (i + 1) % nPts;
      count := count + 1;
    }
    assert rot[..count] == rot;
    if !isJoinTouching {
      newSection := newSection + [holeJoinPt];
    }
  }

  /** The shape of a section: its length, its ends, and the vertices it holds. */
  lemma {:induction false} SectionShape(shellPt: Coord, hole: Ring, h: nat)
    requires h < |hole| - 1
    ensures shellPt == hole[h] ==> |Section(shellPt, hole, h)| == |hole| - 1
    ensures shellPt != hole[h] ==> |Section(shellPt, hole, h)| == |hole| + 1
    ensures Section(shellPt, hole, h)[0] == shellPt
    ensures Section(shellPt, hole, h)[|Section(shellPt, hole, h)| - 1] ==
      if shellPt == hole[h] then hole[if h == 0 then |hole| - 2 else h - 1] else hole[h]
    ensures forall c :: c in Section(shellPt, hole, h) <==> c == shellPt || c in hole[..|hole| - 1]
  {
    RotationIsPermutation(hole, h);
    var n := |hole| - 1;
    var r := Rotation(hole, h);
    assert r[0] == hole[h];
    assert forall c :: c in r <==> c in hole[..n] by {
      forall c ensures c in r <==> c in hole[..n] {
        assert c in r <==> c in multiset(r);
        assert c in hole[..n] <==> c in multiset(hole[..n]);
      }
    }
    assert hole[h] in hole[..n];
    if h == 0 {
      assert r[n - 1] == hole[n - 1];
    } else {
      assert r[n - 1] == hole[h - 1];
    }
  }

  /** The shell after splicing section in front of position j. */
  function Splice(shell: seq<Coord>, j: nat, section: seq<Coord>): seq<Coord>
    requires j <= |shell|
  {
    shell[..j] + section + shell[j..]
  }

  /** Where a join cut the working ring: the ring index j and the hole vertex h. */
  datatype Cut = Cut(j: nat, h: nat)

  /** `after` is `before` with hole spliced in at ring index cut.j from leftmost vertex cut.h. */
  ghost predicate Joined(before: seq<Coord>, hole: Ring, after: seq<Coord>, cut: Cut)
  {
    cut.j < |before| && IsLeftVertex(hole, cut.h) &&
    after == Splice(before, cut.j, Section(before[cut.j], hole, cut.h))
  }

  /** Each ring in history is the one before it with the corresponding hole of order joined at the corresponding cut. */
  ghost predicate JoinChain(history: seq<seq<Coord>>, order: seq<Ring>, cuts: seq<Cut>)
  {
    |history| == |cuts| + 1 && |cuts| <= |order| &&
    forall k :: 0 <= k < |cuts| ==> Joined(history[k], order[k], history[k + 1], cuts[k])
  }

  /** A chain of joins through the first |cuts| holes of order extends by one more join. */
  lemma JoinChainExtend(history: seq<seq<Coord>>, order: seq<Ring>, cuts: seq<Cut>, next: seq<Coord>, cut: Cut)
    requires JoinChain(history, order, cuts) && |cuts| < |order|
    requires Joined(history[|cuts|], order[|cuts|], next, cut)
    ensures JoinChain(history + [next], order, cuts + [cut])
  {
    var h', c' := history + [next], cuts + [cut];
    forall k | 0 <= k < |c'|
      ensures Joined(h'[k], order[k], h'[k + 1], c'[k])
    {
      if k < |cuts| {
        assert h'[k] == history[k] && h'[k + 1] == history[k + 1] && c'[k] == cuts[k];
      } else {
        assert h'[k] == history[|cuts|] && h'[k + 1] == next && c'[k] == cut;
      }
    }
  }

  /**
   * A join at position j from hole vertex h adds |hole| - 1 vertices when it
   * is touching (the shell vertex there equals the hole vertex) and
   * |hole| + 1 otherwise.
   */
  lemma JoinedLength(before: seq<Coord>, hole: Ring, j: nat, h: nat)
    requires j < |before| && h < |hole| - 1
    ensures |Splice(before, j, Section(before[j], hole, h))| ==
      if before[j] == hole[h] then |before| + |hole| - 1 else |before| + |hole| + 1
  {
    SectionShape(before[j], hole, h);
  }

  /** Splicing a section in adds exactly its vertices to the shell's. */
  lemma SpliceMembers(shell: seq<Coord>, j: nat, section: seq<Coord>)
    requires j <= |shell|
    ensures forall c :: c in Splice(shell, j, section) <==> c in shell || c in section
  {
    assert shell == shell[..j] + shell[j..];
    forall c ensures c in Splice(shell, j, section) <==> c in shell || c in section {
      assert c in Splice(shell, j, section) <==> c in shell[..j] || c in section || c in shell[j..];
      assert c in shell <==> c in shell[..j] || c in shell[j..];
    }
  }

  /** A join adds exactly the distinct hole vertices to the set of shell vertices. */
  lemma JoinedVertices(before: seq<Coord>, hole: Ring, after: seq<Coord>, cut: Cut)
    requires Joined(before, hole, after, cut)
    ensures forall c :: c in after <==> c in before || c in OpenRing(hole)
  {
    var j, h := cut.j, cut.h;
    SectionShape(before[j], hole, h);
    SpliceMembers(before, j, Section(before[j], hole, h));
    assert OpenRing(hole) == hole[..|hole| - 1];
    assert before[j] in before;
  }

  /** Splicing keeps the shell on both sides of the join position. */
  lemma SpliceKeepsShell(shell: seq<Coord>, j: nat, section: seq<Coord>)
    requires j <= |shell|
    ensures Splice(shell, j, section)[..j] == shell[..j]
    ensures Splice(shell, j, section)[j + |section|..] == shell[j..]
    ensures Splice(shell, j, section)[j..j + |section|] == section
  {
    var r := Splice(shell, j, section);
    assert r == (shell[..j] + section) + shell[j..];
  }

  /** The distinct vertices of a ring: all but the closing vertex. */
  function OpenRing(ring: Ring): seq<Coord>
  {
    if ring == [] then [] else ring[..|ring| - 1]
  }

  /** c is a distinct vertex of one of the holes. */
  ghost predicate InSomeHole(c: Coord, holes: seq<Ring>)
  {
    exists i :: 0 <= i < |holes| && c in OpenRing(holes[i])
  }

  lemma InSomeHoleSnoc(c: Coord, holes: seq<Ring>)
    requires |holes| > 0
    ensures InSomeHole(c, holes) <==>
      InSomeHole(c, holes[..|holes| - 1]) || c in OpenRing(holes[|holes| - 1])
  {
    var n := |holes| - 1;
    if InSomeHole(c, holes) {
      var i :| 0 <= i < |holes| && c in OpenRing(holes[i]);
      if i < n {
        assert holes[..n][i] == holes[i];
      }
    }
    if InSomeHole(c, holes[..n]) {
      var i :| 0 <= i < n && c in OpenRing(holes[..n][i]);
      assert holes[i] == holes[..n][i];
    }
  }

  /** One more join extends the vertex accounting by the joined hole's vertices. */
  lemma HistoryStep(prev: seq<Coord>, next: seq<Coord>, base: seq<Coord>, holes: seq<Ring>)
    requires |holes| > 0
    requires forall c :: c in prev <==> c in base || InSomeHole(c, holes[..|holes| - 1])
    requires forall c :: c in next <==> c in prev || c in OpenRing(holes[|holes| - 1])
    ensures forall c :: c in next <==> c in base || InSomeHole(c, holes)
  {
    forall c ensures c in next <==> c in base || InSomeHole(c, holes) {
      InSomeHoleSnoc(c, holes);
    }
  }

  /** One join adds exactly the distinct vertices of hole to the ring's vertices. */
  ghost predicate AddsVertices(before: seq<Coord>, hole: Ring, after: seq<Coord>)
  {
    forall c :: c in after <==> c in before || c in OpenRing(hole)
  }

  /** Over a whole run of joins, the final ring holds the shell's vertices and every hole's distinct vertices, and no others. */
  lemma HistoryVertices(order: seq<Ring>, history: seq<seq<Coord>>, cuts: seq<Cut>)
    requires JoinChain(history, order, cuts) && |cuts| == |order|
    ensures forall c :: c in history[|order|] <==> c in history[0] || InSomeHole(c, order)
  {
    forall k | 0 <= k < |order| ensures AddsVertices(history[k], order[k], history[k + 1]) {
      JoinedVertices(history[k], order[k], history[k + 1], cuts[k]);
    }
    VerticesByStep(order, history);
  }

  /** The vertex accounting of HistoryVertices, by induction over the steps. */
  lemma {:induction false} VerticesByStep(order: seq<Ring>, history: seq<seq<Coord>>)
    requires |history| == |order| + 1
    requires forall k :: 0 <= k < |order| ==> AddsVertices(history[k], order[k], history[k + 1])
    ensures forall c :: c in history[|order|] <==> c in history[0] || InSomeHole(c, order)
  {
    if |order| > 0 {
      var n := |order| - 1;
      var order', history' := order[..n], history[..n + 1];
      forall k | 0 <= k < n ensures AddsVertices(history'[k], order'[k], history'[k + 1]) {
        assert history'[k] == history[k] && history'[k + 1] == history[k + 1] && order'[k] == order[k];
      }
      VerticesByStep(order', history');
      assert history'[n] == history[n] && history'[0] == history[0];
      assert AddsVertices(history[n], order[n], history[n + 1]);
      HistoryStep(history[n], history[n + 1], history[0], order);
    }
  }

  // ---------------------------------------------------------------------------
  // Hole order

  /** The envelope comparator: a precedes-or-ties b. */
  predicate HoleLe(a: Ring, b: Ring)
  {
    CompareEnvelopes(EnvelopeOf(a), EnvelopeOf(b)) <= 0
  }

  ghost predicate SortedByEnvelope(hs: seq<Ring>)
  {
    forall i, j :: 0 <= i < j < |hs| ==> HoleLe(hs[i], hs[j])
  }

  /** Appending a hole that every hole precedes or ties keeps the order. */
  lemma SnocSortedByEnvelope(hs: seq<Ring>, hole: Ring)
    requires SortedByEnvelope(hs)
    requires forall i :: 0 <= i < |hs| ==> HoleLe(hs[i], hole)
    ensures SortedByEnvelope(hs + [hole])
  {
    var r := hs + [hole];
    forall i, j | 0 <= i < j < |r| ensures HoleLe(r[i], r[j]) {
      assert r[i] == hs[i];
    }
  }

  /** Every hole of a sorted run precedes or ties anything its last hole precedes or ties. */
  lemma PrecedesLast(hs: seq<Ring>, hole: Ring)
    requires SortedByEnvelope(hs) && |hs| > 0 && HoleLe(hs[|hs| - 1], hole)
    ensures forall i :: 0 <= i < |hs| ==> HoleLe(hs[i], hole)
  {
    forall i | 0 <= i < |hs| ensures HoleLe(hs[i], hole) {
      CompareEnvelopesIsTotalOrder(EnvelopeOf(hs[i]), EnvelopeOf(hs[|hs| - 1]), EnvelopeOf(hole));
    }
  }

  /** Insert a hole after every hole that precedes or ties it. */
  function InsertByEnvelope(sorted: seq<Ring>, hole: Ring): (r: seq<Ring>)
    requires SortedByEnvelope(sorted)
    ensures SortedByEnvelope(r)
    ensures multiset(r) == multiset(sorted) + multiset{hole}
  {
    if sorted == [] then [hole]
    else
      var last := sorted[|sorted| - 1];
      var init := sorted[..|sorted| - 1];
      assert sorted == init + [last];
      if HoleLe(last, hole) then
        PrecedesLast(sorted, hole);
        SnocSortedByEnvelope(sorted, hole);
        sorted + [hole]
      else
        var r0 := InsertByEnvelope(init, hole);
        assert HoleLe(last, last) by {
          CompareEnvelopesIsTotalOrder(EnvelopeOf(last), EnvelopeOf(last), EnvelopeOf(last));
        }
        assert HoleLe(hole, last) by {
          CompareEnvelopesIsTotalOrder(EnvelopeOf(hole), EnvelopeOf(last), EnvelopeOf(last));
        }
        assert forall i :: 0 <= i < |init| ==> HoleLe(init[i], last) by {
          forall i | 0 <= i < |init| ensures HoleLe(init[i], last) {
            assert init[i] == sorted[i];
          }
        }
        assert forall i :: 0 <= i < |r0| ==> HoleLe(r0[i], last) by {
          forall i | 0 <= i < |r0| ensures HoleLe(r0[i], last) {
            assert r0[i] in multiset(init) + multiset{hole};
            if r0[i] != hole {
              assert r0[i] in init;
            }
          }
        }
        SnocSortedByEnvelope(r0, last);
        r0 + [last]
  }

  /** sortHoles: the interior rings sorted by the envelope comparator. */
  method SortHoles(holes: seq<Ring>) returns (sorted: seq<Ring>)
    ensures SortedByEnvelope(sorted)
    ensures multiset(sorted) == multiset(holes)
  {
    sorted := [];
    for i := 0 to |holes|
      invariant SortedByEnvelope(sorted)
      invariant multiset(sorted) == multiset(holes[..i])
    {
      assert holes[..i + 1] == holes[..i] + [holes[i]];
      sorted := InsertByEnvelope(sorted, holes[i]);
    }
    assert holes[..|holes|] == holes;
  }

  /**
   * The run s[top], s[top-1], ..., s[lo+1] of a sorted set, all with x == X and
   * stopped below by an element with another x (or by the start of the set),
   * is strictly decreasing and holds every element of x == X not above s[top].
   */
  lemma DescendingRun(s: seq<Coord>, top: nat, lo: int, list: seq<Coord>, X: real)
    requires Sorted(s) && -1 <= lo < top < |s| && s[top].x == X
    requires |list| == top - lo && forall i :: 0 <= i < |list| ==> list[i] == s[top - i]
    requires forall i :: lo < i <= top ==> s[i].x == X
    requires lo >= 0 ==> s[lo].x != X
    ensures forall i :: 0 <= i < |list| ==> list[i] in s && list[i].x == X
    ensures forall i, j :: 0 <= i < j < |list| ==> Less(list[j], list[i])
    ensures forall e :: e in s && e.x == X && !Less(s[top], e) ==> e in list
  {
    forall i, j | 0 <= i < j < |list| ensures Less(list[j], list[i]) {
      assert list[j] == s[top - j] && list[i] == s[top - i];
    }
    forall e | e in s && e.x == X && !Less(s[top], e) ensures e in list {
      var i :| 0 <= i < |s| && s[i] == e;
      LessIsStrictTotalOrder(s[i], s[top], s[top]);
      if s[i] != s[top] {
        SortedIndexOrder(s, i, top);
      }
      if lo >= 0 {
        assert Less(s[lo], s[lo + 1]);
        assert Less(s[lo], s[i]);
        SortedIndexOrder(s, lo, i);
      }
      assert list[top - i] == e;
    }
  }

  /**
   * The first phase of findLeftShellVertices: higher(holeCoord), then higher
   * again while the x is the hole vertex's; None where the walk meets null.
   */
  method PastSameX(s: seq<Coord>, holeCoord: Coord) returns (above: Option<Coord>, ghost k: nat)
    requires Sorted(s)
    ensures above.None? <==> forall e :: e in s ==> e.x <= holeCoord.x
    ensures above.Some? ==> k < |s| && above.value == s[k] && s[k].x > holeCoord.x
    ensures above.Some? ==> forall i :: 0 <= i < k ==> s[i].x <= holeCoord.x
  {
    var higher := Higher(s, holeCoord);
    if higher.None? {
      return None, 0;
    }
    var closest := higher.value;
    k := FirstAbove(s, holeCoord);
    while closest.x == holeCoord.x
      invariant 0 <= k < |s| && closest == s[k]
      invariant s[k].x >= holeCoord.x
      invariant forall i :: 0 <= i < k ==> s[i].x <= holeCoord.x
      decreases |s| - k
    {
      HigherAt(s, k);
      var next := Higher(s, closest);
      if next.None? {
        return None, k;
      }
      closest := next.value;
      k := k + 1;
    }
    assert forall i :: k <= i < |s| ==> s[i].x > holeCoord.x by {
      forall i | k < i < |s| ensures s[i].x > holeCoord.x {
        assert Less(s[k], s[i]);
      }
    }
    return Some(closest), k;
  }

  /**
   * The second phase of findLeftShellVertices: step down from s[start] with
   * lower until the join from the hole vertex does not cross the boundary or
   * the least vertex is reached; None where lower meets null.
   */
  method DownToJoinable(s: seq<Coord>, holeCoord: Coord, crosses: (Coord, Coord) -> bool, above: Coord, ghost start: nat)
    returns (closest: Option<Coord>, ghost k: nat)
    requires Sorted(s) && start < |s| && s[start] == above
    ensures closest.None? <==> start == 0
    ensures closest.Some? ==> k < start && closest.value == s[k]
    ensures closest.Some? ==> !crosses(holeCoord, s[k]) || k == 0
    ensures closest.Some? ==> forall i :: k < i < start ==> crosses(holeCoord, s[i])
  {
    LowerAt(s, start);
    var lower := Lower(s, above);
    if lower.None? {
      return None, 0;
    }
    var c := lower.value;
    k := start - 1;
    assert s[0] == First(s);
    while crosses(holeCoord, c) && c != First(s)
      invariant 0 <= k < start && c == s[k]
      invariant forall i :: k < i < start ==> crosses(holeCoord, s[i])
      decreases k
    {
      LowerAt(s, k);
      c := Lower(s, c).value;
      k := k - 1;
    }
    if c == First(s) {
      SortedIndexUnique(s, k, 0);
    }
    return Some(c), k;
  }

  /**
   * The last phase of findLeftShellVertices: from s[top] down, every vertex
   * sharing its x, stopping at another x or at null.
   */
  method SameXRun(s: seq<Coord>, start: Coord, ghost top: nat) returns (list: seq<Coord>)
    requires Sorted(s) && top < |s| && s[top] == start
    ensures |list| > 0 && list[0] == s[top]
    ensures forall i :: 0 <= i < |list| ==> list[i] in s && list[i].x == s[top].x
    ensures forall i, j :: 0 <= i < j < |list| ==> Less(list[j], list[i])
    ensures forall e :: e in s && e.x == s[top].x && !Less(s[top], e) ==> e in list
  {
    var closest := start;
    var chosenX := closest.x;
    list := [];
    ghost var k := top;
    while chosenX == closest.x
      invariant 0 <= k <= top && closest == s[k] && chosenX == s[top].x
      invariant |list| == top - k && forall i :: 0 <= i < |list| ==> list[i] == s[top - i]
      invariant forall i :: k < i <= top ==> s[i].x == chosenX
      decreases k
    {
      list := list + [closest];
      LowerAt(s, k);
      var next := Lower(s, closest);
      if next.None? {
        DescendingRun(s, top, -1, list, chosenX);
        return list;
      }
      closest := next.value;
      k := k - 1;
    }
    DescendingRun(s, top, k, list, chosenX);
  }

  // ---------------------------------------------------------------------------
  // What one join chooses

  /** findLeftShellVertices fails on a null from higher or lower: no shell vertex lies right of holeCoord, or none left of it. */
  ghost predicate NoLeftShellList(s: seq<Coord>, holeCoord: Coord)
  {
    (forall e :: e in s ==> e.x <= holeCoord.x) || (forall e :: e in s ==> e.x > holeCoord.x)
  }

  /**
   * list is what findLeftShellVertices returns for holeCoord on the sorted
   * set s: its head is the greatest member with x at most holeCoord.x whose
   * join does not cross the boundary, or else the least member; a head with
   * another x comes alone, a head with holeCoord's x comes with every lower
   * member of that x, in descending order.
   */
  ghost predicate IsLeftShellList(s: seq<Coord>, crosses: (Coord, Coord) -> bool, holeCoord: Coord, list: seq<Coord>)
  {
    Sorted(s) && |list| > 0 && list[0] in s && list[0].x <= holeCoord.x &&
    (!crosses(holeCoord, list[0]) || list[0] == First(s)) &&
    (forall e :: e in s && Less(list[0], e) && e.x <= holeCoord.x ==> crosses(holeCoord, e)) &&
    (list[0].x != holeCoord.x ==> list == [list[0]]) &&
    (list[0].x == holeCoord.x ==>
      (forall i :: 0 <= i < |list| ==> list[i] in s && list[i].x == holeCoord.x) &&
      (forall i, j :: 0 <= i < j < |list| ==> Less(list[j], list[i])) &&
      (forall e :: e in s && e.x == holeCoord.x && !Less(list[0], e) ==> e in list))
  }

  /**
   * (hi, sj) is the pair of leftmost hole vertex left[hi] and shell
   * candidate shellList[sj] with the least |dy|, and the first such pair in
   * the order the nested loops of joinHole visit them.
   */
  ghost predicate IsClosestPair(holeCoords: Ring, left: seq<nat>, shellList: seq<Coord>, hi: int, sj: int)
  {
    (forall i :: 0 <= i < |left| ==> left[i] < |holeCoords|) &&
    0 <= hi < |left| && 0 <= sj < |shellList| &&
    (forall i, j :: 0 <= i < |left| && 0 <= j < |shellList| ==>
      PairDist(holeCoords, left, shellList, hi, sj) <= PairDist(holeCoords, left, shellList, i, j)) &&
    (forall i, j :: 0 <= i < |left| && 0 <= j < |shellList| && (i < hi || (i == hi && j < sj)) ==>
      PairDist(holeCoords, left, shellList, hi, sj) < PairDist(holeCoords, left, shellList, i, j))
  }

  /**
   * The pair joinHole joins for a hole with leftmost vertices left and shell
   * candidates shellList (found for the first leftmost vertex): the closest
   * pair when the first candidate is within EPS of the hole vertex's x,
   * otherwise the first leftmost vertex and the first candidate.
   */
  ghost predicate IsJoinChoice(hole: Ring, left: seq<nat>, s: seq<Coord>, crosses: (Coord, Coord) -> bool,
                               shellList: seq<Coord>, hi: int, sj: int)
  {
    |left| > 0 && (forall i :: 0 <= i < |left| ==> left[i] < |hole|) &&
    IsLeftShellList(s, crosses, hole[left[0]], shellList) &&
    if Abs(shellList[0].x - hole[left[0]].x) < EPS then IsClosestPair(hole, left, shellList, hi, sj)
    else hi == 0 && sj == 0
  }

  /** The closest pair is unique: the tie-break leaves no choice. */
  lemma ClosestPairUnique(holeCoords: Ring, left: seq<nat>, shellList: seq<Coord>, hi: int, sj: int, hi': int, sj': int)
    requires IsClosestPair(holeCoords, left, shellList, hi, sj)
    requires IsClosestPair(holeCoords, left, shellList, hi', sj')
    ensures hi == hi' && sj == sj'
  {
    var d := PairDist(holeCoords, left, shellList, hi, sj);
    var d' := PairDist(holeCoords, left, shellList, hi', sj');
    assert d <= d' && d' <= d;
    assert !(hi < hi' || (hi == hi' && sj < sj'));
    assert !(hi' < hi || (hi == hi' && sj' < sj));
  }

  /** Two strictly descending lists with the same members are equal. */
  lemma {:induction false} DescendingUnique(a: seq<Coord>, b: seq<Coord>)
    requires forall i, j :: 0 <= i < j < |a| ==> Less(a[j], a[i])
    requires forall i, j :: 0 <= i < j < |b| ==> Less(b[j], b[i])
    requires forall e :: e in a <==> e in b
    ensures a == b
    decreases |a|
  {
    assert |b| > 0 ==> b[0] in a;
    if a != [] {
      assert a[0] in b;
      var k :| 0 <= k < |b| && b[k] == a[0];
      assert b[0] in a;
      var m :| 0 <= m < |a| && a[m] == b[0];
      if k > 0 {
        assert Less(b[k], b[0]);
        if m > 0 {
          assert Less(a[m], a[0]);
          LessIsStrictTotalOrder(a[0], b[0], a[0]);
        }
        assert false;
      }
      forall e ensures e in a[1..] <==> e in b[1..] {
        if e in a[1..] {
          var i :| 1 <= i < |a| && a[i] == e;
          assert Less(a[i], a[0]);
          LessIsStrictTotalOrder(e, e, e);
          assert e in b && e != b[0];
        }
        if e in b[1..] {
          var i :| 1 <= i < |b| && b[i] == e;
          assert Less(b[i], b[0]);
          LessIsStrictTotalOrder(e, e, e);
          assert e in a && e != a[0];
        }
      }
      DescendingUnique(a[1..], b[1..]);
      assert a == [a[0]] + a[1..] && b == [b[0]] + b[1..];
    }
  }

  /** findLeftShellVertices leaves no choice: its result list is unique. */
  lemma LeftShellListUnique(s: seq<Coord>, crosses: (Coord, Coord) -> bool, holeCoord: Coord, l1: seq<Coord>, l2: seq<Coord>)
    requires IsLeftShellList(s, crosses, holeCoord, l1) && IsLeftShellList(s, crosses, holeCoord, l2)
    ensures l1 == l2
  {
    var h1, h2 := l1[0], l2[0];
    LessIsStrictTotalOrder(h1, h2, h1);
    LessIsStrictTotalOrder(h2, h1, h2);
    // a head above the other crosses, so it must be the least member
    assert !Less(h1, h2);
    assert !Less(h2, h1);
    assert h1 == h2;
    if h1.x == holeCoord.x {
      forall e ensures e in l1 <==> e in l2 {
        SameXMembers(s, holeCoord, l1, e);
        SameXMembers(s, holeCoord, l2, e);
      }
      DescendingUnique(l1, l2);
    }
  }

  /** A same-x candidate list holds exactly the members of that x not above its head. */
  lemma SameXMembers(s: seq<Coord>, holeCoord: Coord, list: seq<Coord>, e: Coord)
    requires |list| > 0 && list[0].x == holeCoord.x
    requires forall i :: 0 <= i < |list| ==> list[i] in s && list[i].x == holeCoord.x
    requires forall i, j :: 0 <= i < j < |list| ==> Less(list[j], list[i])
    requires forall e :: e in s && e.x == holeCoord.x && !Less(list[0], e) ==> e in list
    ensures e in list <==> e in s && e.x == holeCoord.x && !Less(list[0], e)
  {
    if e in list {
      var i :| 0 <= i < |list| && list[i] == e;
      if i > 0 {
        assert Less(list[i], list[0]);
        LessIsStrictTotalOrder(list[0], e, list[0]);
      } else {
        LessIsStrictTotalOrder(e, e, e);
      }
    }
  }

  /**
   * The error of a joinHole step that failed on a ring with the coordinates
   * of ring: IndexOutOfBounds exactly when the hole has no leftmost vertex,
   * and otherwise NullPointer exactly when findLeftShellVertices has no
   * list for the first leftmost vertex.
   */
  ghost predicate StepError(ring: seq<Coord>, hole: Ring, e: JoinError)
  {
    (e == IndexOutOfBounds <==> forall i :: !IsLeftVertex(hole, i)) &&
    (forall i :: IsLeftVertex(hole, i) && (forall i' :: 0 <= i' < i ==> !IsLeftVertex(hole, i')) ==>
      (e == NullPointer <==> NoLeftShellList(ring, hole[i])))
  }

  /** The head of the ascending list of leftmost vertices is the least leftmost vertex. */
  lemma FirstLeftVertex(hole: Ring, left: seq<nat>, i: int)
    requires forall k, l :: 0 <= k < l < |left| ==> left[k] < left[l]
    requires forall i: nat :: i in left <==> IsLeftVertex(hole, i)
    requires IsLeftVertex(hole, i) && forall i' :: 0 <= i' < i ==> !IsLeftVertex(hole, i')
    ensures |left| > 0 && left[0] == i
  {
    assert i in left;
    var m :| 0 <= m < |left| && left[m] == i;
    assert IsLeftVertex(hole, left[0]);
  }

  /** What JoinHole promises of a failed call, as the error of that step. */
  lemma FailedJoinStep(sorted: seq<Coord>, ring: seq<Coord>, hole: Ring, left: seq<nat>, e: JoinError)
    requires forall c :: c in sorted <==> c in ring
    requires forall k, l :: 0 <= k < l < |left| ==> left[k] < left[l]
    requires forall i: nat :: i in left <==> IsLeftVertex(hole, i)
    requires forall i :: 0 <= i < |left| ==> left[i] < |hole| - 1
    requires e == IndexOutOfBounds <==> |left| == 0
    requires |left| > 0 ==> (e == NullPointer <==> NoLeftShellList(sorted, hole[left[0]]))
    ensures StepError(ring, hole, e)
  {
    forall v | IsLeftVertex(hole, v) && (forall v' :: 0 <= v' < v ==> !IsLeftVertex(hole, v'))
    {
      FirstLeftVertex(hole, left, v);
    }
    if |left| > 0 {
      assert IsLeftVertex(hole, left[0]);
    } else {
      forall v ensures !IsLeftVertex(hole, v) {
        if v >= 0 { assert v !in left; }
      }
    }
  }

  // ---------------------------------------------------------------------------
  // The joiner

  class HoleJoiner {
    /** The input polygon: its exterior ring and its interior rings. */
    const shell: Ring
    const holes: seq<Ring>
    /** Whether a segment properly crosses the boundary of the original polygon. */
    const crosses: (Coord, Coord) -> bool

    /** The working ring. */
    var shellCoords: seq<Coord>
    /** The in-order contents of the TreeSet mirroring the working ring. */
    var shellCoordsSorted: seq<Coord>
    /** Start of a cut mapped to the other ends of the cuts made there. */
    var cutMap: map<Coord, seq<Coord>>

    /** While holes are joined, the sorted set holds exactly the working ring's coordinates. */
    ghost predicate Valid()
      reads this
    {
      Sorted(shellCoordsSorted) && forall c :: c in shellCoordsSorted <==> c in shellCoords
    }

    constructor (shell: Ring, holes: seq<Ring>, crosses: (Coord, Coord) -> bool)
      ensures this.shell == shell && this.holes == holes && this.crosses == crosses
      ensures shellCoords == [] && shellCoordsSorted == [] && cutMap == map[]
    {
      this.shell := shell;
      this.holes := holes;
      this.crosses := crosses;
      shellCoords := [];
      shellCoordsSorted := [];
      cutMap := map[];
    }

    /**
     * findLeftShellVertices: walk up from the hole vertex past every shell
     * vertex with its x, then down to the first vertex whose join does not
     * cross the boundary (or the least vertex); when that vertex shares the
     * hole vertex's x, return it with every lower vertex of that x.
     */
    method FindLeftShellVertices(holeCoord: Coord) returns (r: Result<seq<Coord>, JoinError>)
      requires Valid()
      ensures r.Failure? ==> r.error == NullPointer
      ensures r.Failure? <==> NoLeftShellList(shellCoordsSorted, holeCoord)
      ensures r.Success? ==> IsLeftShellList(shellCoordsSorted, crosses, holeCoord, r.value)
    {
      var s := shellCoordsSorted;
      var above, start := PastSameX(s, holeCoord);
      if above.None? {
        return Failure(NullPointer);
      }
      var closest, k := DownToJoinable(s, holeCoord, crosses, above.value, start);
      if closest.None? {
        return Failure(NullPointer);
      }
      if closest.value.x != holeCoord.x {
        return Success([closest.value]);
      }
      var list := SameXRun(s, closest.value, k);
      return Success(list);
    }

    /** getShellCoordIndexSkip: the index of the (numSkip+1)-th working-ring entry equal to coord within EPS. */
    method GetShellCoordIndexSkip(coord: Coord, numSkip: nat) returns (r: Result<nat, JoinError>)
      ensures r.Success? ==> IsSkipMatch(shellCoords, coord, numSkip, r.value)
      ensures r.Failure? <==> NearCount(shellCoords, coord) <= numSkip
      ensures r.Failure? ==> r.error == IllegalState
    {
      var skip := numSkip;
      var i := 0;
      while i < |shellCoords|
        invariant 0 <= i <= |shellCoords|
        invariant NearCount(shellCoords[..i], coord) + skip == numSkip
      {
        assert shellCoords[..i + 1][..i] == shellCoords[..i];
        if NearEquals(shellCoords[i], coord, EPS) {
          if skip == 0 {
            NearCountPrefix(shellCoords, coord, i + 1);
            return Success(i);
          }
          skip := skip - 1;
        }
        i := i + 1;
      }
      assert shellCoords[..i] == shellCoords;
      return Failure(IllegalState);
    }

    /**
     * getShellCoordIndex: skip as many occurrences of shellVertex as it has
     * recorded partners below holeVertex, and record the new cut.
     */
    method GetShellCoordIndex(shellVertex: Coord, holeVertex: Coord) returns (r: Result<nat, JoinError>)
      modifies this`cutMap
      ensures cutMap == RecordCut(old(cutMap), shellVertex, holeVertex)
      ensures var skip := CountBelowY(Partners(old(cutMap), shellVertex), holeVertex.y);
        (r.Success? ==> IsSkipMatch(shellCoords, shellVertex, skip, r.value)) &&
        (r.Failure? <==> NearCount(shellCoords, shellVertex) <= skip) &&
        (r.Failure? ==> r.error == IllegalState)
    {
      ghost var cut0 := cutMap;
      var numSkip := 0;
      var newValueList := [holeVertex];
      if shellVertex in cutMap {
        var partners := cutMap[shellVertex];
        for i := 0 to |partners|
          invariant numSkip == CountBelowY(partners[..i], holeVertex.y)
          invariant cutMap == cut0
        {
          assert partners[..i + 1][..i] == partners[..i];
          if partners[i].y < holeVertex.y {
            numSkip := numSkip + 1;
          }
        }
        assert partners[..|partners|] == partners;
        cutMap := cutMap[shellVertex := partners + [holeVertex]];
      } else {
        assert Partners(cut0, shellVertex) + [holeVertex] == newValueList;
        cutMap := cutMap[shellVertex := newValueList];
      }
      assert cutMap == cut0[shellVertex := Partners(cut0, shellVertex) + [holeVertex]];
      if holeVertex !in cutMap {
        cutMap := cutMap[holeVertex := newValueList];
      }
      assert cutMap == RecordCut(cut0, shellVertex, holeVertex);
      r := GetShellCoordIndexSkip(shellVertex, numSkip);
    }

    /** addHoleToShell: splice the section for this join in front of the shell join vertex. */
    method AddHoleToShell(shellJoinIndex: nat, holeCoords: Ring, holeJoinIndex: nat)
      requires Valid()
      requires shellJoinIndex < |shellCoords| && holeJoinIndex < |holeCoords| - 1
      modifies this`shellCoords, this`shellCoordsSorted
      ensures Valid()
      ensures shellCoords ==
        Splice(old(shellCoords), shellJoinIndex, Section(old(shellCoords)[shellJoinIndex], holeCoords, holeJoinIndex))
      ensures shellCoordsSorted ==
        AddAll(old(shellCoordsSorted), Section(old(shellCoords)[shellJoinIndex], holeCoords, holeJoinIndex))
    {
      var shellJoinPt := shellCoords[shellJoinIndex];
      var newSection := NewSection(shellJoinPt, holeCoords, holeJoinIndex);
      SpliceMembers(shellCoords, shellJoinIndex, newSection);
      shellCoords := shellCoords[..shellJoinIndex] + newSection + shellCoords[shellJoinIndex..];
      shellCoordsSorted := AddAll(shellCoordsSorted, newSection);
    }

    /**
     * joinHole: choose the join vertices for one hole and splice it into the
     * working ring. The ghost outputs are the leftmost hole vertices, the
     * shell candidates for the first of them, the chosen pair (left[hi],
     * shellList[sj]) and the working-ring index j the cut starts at.
     */
    method JoinHole(hole: Ring)
      returns (r: Result<(), JoinError>, ghost left: seq<nat>, ghost shellList: seq<Coord>,
               ghost hi: nat, ghost sj: nat, ghost j: nat)
      requires Valid()
      modifies this`shellCoords, this`shellCoordsSorted, this`cutMap
      ensures Valid()
      ensures forall c :: c in old(cutMap) ==> c in cutMap && old(cutMap)[c] <= cutMap[c]
      ensures forall k, l :: 0 <= k < l < |left| ==> left[k] < left[l]
      ensures forall i: nat :: i in left <==> IsLeftVertex(hole, i)
      ensures forall i :: 0 <= i < |left| ==> left[i] < |hole| - 1
      ensures r == Failure(IndexOutOfBounds) <==> |left| == 0
      ensures |left| > 0 ==> (r == Failure(NullPointer) <==> NoLeftShellList(old(shellCoordsSorted), hole[left[0]]))
      ensures r.Success? || r == Failure(IllegalState) ==>
        hi < |left| && sj < |shellList| && left[hi] < |hole| &&
        IsJoinChoice(hole, left, old(shellCoordsSorted), crosses, shellList, hi, sj) &&
        cutMap == RecordCut(old(cutMap), shellList[sj], hole[left[hi]]) &&
        (r.Failure? <==>
          NearCount(old(shellCoords), shellList[sj]) <= CountBelowY(Partners(old(cutMap), shellList[sj]), hole[left[hi]].y))
      ensures r.Success? ==>
        IsSkipMatch(old(shellCoords), shellList[sj], CountBelowY(Partners(old(cutMap), shellList[sj]), hole[left[hi]].y), j) &&
        IsLeftVertex(hole, left[hi]) &&
        shellCoords == Splice(old(shellCoords), j, Section(old(shellCoords)[j], hole, left[hi]))
      ensures r.Failure? ==> shellCoords == old(shellCoords) && shellCoordsSorted == old(shellCoordsSorted)
      ensures r == Failure(IndexOutOfBounds) || r == Failure(NullPointer) ==> cutMap == old(cutMap)
    {
      shellList, hi, sj, j := [], 0, 0, 0;
      var holeLeftVerticesIndex := FindLeftVertices(hole);
      left := holeLeftVerticesIndex;
      if |holeLeftVerticesIndex| == 0 {
        return Failure(IndexOutOfBounds), left, shellList, hi, sj, j;
      }
      var pair;
      pair, shellList, sj := ChooseJoinPair(hole, holeLeftVerticesIndex);
      if pair.Failure? {
        return Failure(pair.error), left, shellList, hi, sj, j;
      }
      var (shortestHoleVertexIndex, shellCoord) := pair.value;
      hi := shortestHoleVertexIndex;
      var holeJoinIndex := holeLeftVerticesIndex[shortestHoleVertexIndex];
      var shellVertexIndex := GetShellCoordIndex(shellCoord, hole[holeJoinIndex]);
      RecordCutGrows(old(cutMap), shellCoord, hole[holeJoinIndex]);
      if shellVertexIndex.Failure? {
        return Failure(shellVertexIndex.error), left, shellList, hi, sj, j;
      }
      j := shellVertexIndex.value;
      AddHoleToShell(shellVertexIndex.value, hole, holeJoinIndex);
      r := Success(());
    }

    /**
     * The pair choice of joinHole: the shell candidates for the first
     * leftmost hole vertex, then the closest (hole vertex, candidate) pair
     * when the first candidate lies within EPS of that vertex's x. The
     * result is the chosen position in left and the chosen shell vertex.
     */
    method ChooseJoinPair(hole: Ring, left: seq<nat>)
      returns (r: Result<(nat, Coord), JoinError>, ghost shellList: seq<Coord>, ghost sj: nat)
      requires Valid()
      requires |left| > 0 && forall i :: 0 <= i < |left| ==> left[i] < |hole|
      ensures r.Failure? ==> r.error == NullPointer
      ensures r.Failure? <==> NoLeftShellList(shellCoordsSorted, hole[left[0]])
      ensures r.Success? ==>
        r.value.0 < |left| && sj < |shellList| && r.value.1 == shellList[sj] &&
        IsJoinChoice(hole, left, shellCoordsSorted, crosses, shellList, r.value.0, sj)
    {
      shellList, sj := [], 0;
      var holeCoord := hole[left[0]];
      var shellCoordsList := FindLeftShellVertices(holeCoord);
      if shellCoordsList.Failure? {
        return Failure(shellCoordsList.error), shellList, sj;
      }
      shellList := shellCoordsList.value;
      var shellCoord := shellCoordsList.value[0];
      var shortestHoleVertexIndex := 0;
      if Abs(shellCoord.x - holeCoord.x) < EPS {
        shortestHoleVertexIndex, shellCoord, sj := ClosestPair(hole, left, shellCoordsList.value);
      }
      r := Success((shortestHoleVertexIndex, shellCoord));
    }

    /** joinHoles: build the sorted set and the cut map, then join the holes in envelope order. */
    method JoinHoles()
      returns (r: Result<(), JoinError>, ghost order: seq<Ring>, ghost history: seq<seq<Coord>>, ghost cuts: seq<Cut>)
      modifies this`shellCoords, this`shellCoordsSorted, this`cutMap
      ensures Valid()
      ensures multiset(order) == multiset(holes) && SortedByEnvelope(order)
      ensures r.Success? ==>
        JoinChain(history, order, cuts) && |cuts| == |order| &&
        history[0] == old(shellCoords) && history[|order|] == shellCoords
      ensures r.Failure? ==>
        JoinChain(history, order, cuts) && |cuts| < |order| &&
        history[0] == old(shellCoords) && history[|cuts|] == shellCoords &&
        StepError(shellCoords, order[|cuts|], r.error)
    {
      shellCoordsSorted := AddAll([], shellCoords);
      cutMap := map[];
      var orderedHoles := SortHoles(holes);
      order := orderedHoles;
      history, cuts := [shellCoords], [];
      for i := 0 to |orderedHoles|
        invariant Valid()
        invariant JoinChain(history, order, cuts) && |cuts| == i
        invariant history[0] == old(shellCoords) && history[i] == shellCoords
      {
        var res, left, shellList, hi, sj, j := JoinHole(orderedHoles[i]);
        if res.Failure? {
          FailedJoinStep(shellCoordsSorted, shellCoords, orderedHoles[i], left, res.error);
          return Failure(res.error), order, history, cuts;
        }
        JoinChainExtend(history, order, cuts, shellCoords, Cut(j, left[hi]));
        history, cuts := history + [shellCoords], cuts + [Cut(j, left[hi])];
      }
      r := Success(());
    }

    /**
     * compute: the working ring is the exterior ring, with the holes joined
     * in envelope order when there are any.
     */
    method Compute()
      returns (r: Result<seq<Coord>, JoinError>, ghost order: seq<Ring>, ghost history: seq<seq<Coord>>, ghost cuts: seq<Cut>)
      modifies this`shellCoords, this`shellCoordsSorted, this`cutMap
      ensures |holes| == 0 ==> r == Success(shell)
      ensures r.Success? ==>
        multiset(order) == multiset(holes) && SortedByEnvelope(order) &&
        JoinChain(history, order, cuts) && |cuts| == |order| &&
        history[0] == shell && history[|order|] == r.value
      ensures r.Failure? ==>
        |holes| > 0 && multiset(order) == multiset(holes) && SortedByEnvelope(order) &&
        JoinChain(history, order, cuts) && |cuts| < |order| &&
        history[0] == shell && history[|cuts|] == shellCoords &&
        StepError(shellCoords, order[|cuts|], r.error)
    {
      shellCoords := shell;
      order, history, cuts := [], [shell], [];
      if |holes| != 0 {
        var res;
        res, order, history, cuts := JoinHoles();
        if res.Failure? {
          return Failure(res.error), order, history, cuts;
        }
      }
      r := Success(shellCoords);
    }
  }
}
