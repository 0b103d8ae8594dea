/**
 * The index logic of the jtstest line handling functions: cutting each line
 * (its point sequence) into two-point segments, and into chains of at most
 * maxChainSize segments that overlap in their end points.
 */
module LineHandling {
  import opened Coords

  type Line = seq<Coord>

  function Min(a: int, b: int): int
  {
    if a <= b then a else b
  }

  /** The two-point segments of a line, in order: one per pair of consecutive points. */
  function Segments(line: Line): seq<Line>
  {
    if |line| < 2 then []
    else Segments(line[..|line| - 1]) + [[line[|line| - 2], line[|line| - 1]]]
  }

  /** A line of n points has n - 1 segments, and segment k joins points k and k + 1. */
  lemma {:induction false} SegmentsAt(line: Line)
    ensures |Segments(line)| == if |line| < 2 then 0 else |line| - 1
    ensures forall k :: 0 <= k < |Segments(line)| ==> Segments(line)[k] == [line[k], line[k + 1]]
  {
    if |line| >= 2 {
      var init := line[..|line| - 1];
      SegmentsAt(init);
      assert forall k :: 0 <= k < |init| ==> init[k] == line[k];
    }
  }

  /** Cutting a line at point b splits its segments into those before and those after b. */
  lemma SegmentsSplit(line: Line, b: nat)
    requires b < |line|
    ensures Segments(line) == Segments(line[..b + 1]) + Segments(line[b..])
  {
    var front, back := line[..b + 1], line[b..];
    var all, fs, bs := Segments(line), Segments(front), Segments(back);
    SegmentsAt(line);
    SegmentsAt(front);
    SegmentsAt(back);
    assert |all| == |fs| + |bs|;
    forall k | 0 <= k < |all|
      ensures all[k] == (fs + bs)[k]
    {
      if k < b {
        assert fs[k] == [front[k], front[k + 1]];
      } else {
        assert bs[k - b] == [back[k - b], back[k - b + 1]];
      }
    }
  }

  /** The segments of every line in turn. */
  function AllSegments(lines: seq<Line>): seq<Line>
  {
    if lines == [] then []
    else AllSegments(lines[..|lines| - 1]) + Segments(lines[|lines| - 1])
  }

  /** The number of points of the chain starting at index: maxChainSize + 1, cut short at the end of the line. */
  function ChainSize(line: Line, index: int, maxChainSize: int): int
  {
    Min(maxChainSize + 1, |line| - index)
  }

  /** extractChain: the points of the line from index on, maxChainSize + 1 of them or up to the end. */
  function Chain(line: Line, index: int, maxChainSize: int): (r: Line)
    requires 0 <= index <= |line| && maxChainSize >= 0
    ensures |r| == ChainSize(line, index, maxChainSize)
    ensures forall i :: 0 <= i < |r| ==> r[i] == line[index + i]
  {
    line[index..index + ChainSize(line, index, maxChainSize)]
  }

  /** The chains of a line starting at index, index + maxChainSize, ... while the start is before the last point. */
  function ChainsFrom(line: Line, index: nat, maxChainSize: int): seq<Line>
    requires maxChainSize >= 1
    decreases |line| - index
  {
    if index < |line| - 1 then [Chain(line, index, maxChainSize)] + ChainsFrom(line, index + maxChainSize, maxChainSize)
    else []
  }

  /** The chains of every line in turn. */
  function AllChains(lines: seq<Line>, maxChainSize: int): seq<Line>
    requires maxChainSize >= 1
  {
    if lines == [] then []
    else AllChains(lines[..|lines| - 1], maxChainSize) + ChainsFrom(lines[|lines| - 1], 0, maxChainSize)
  }

  /** The segments of every chain in turn. */
  function ChainSegments(chains: seq<Line>): seq<Line>
  {
    if chains == [] then [] else Segments(chains[0]) + ChainSegments(chains[1..])
  }

  /** Chain j of those from index starts at index + j * maxChainSize, which is before the last point. */
  lemma {:induction false} ChainsFromAt(line: Line, index: nat, maxChainSize: int, j: nat)
    requires maxChainSize >= 1 && j < |ChainsFrom(line, index, maxChainSize)|
    ensures index + j * maxChainSize < |line| - 1
    ensures ChainsFrom(line, index, maxChainSize)[j] == Chain(line, index + j * maxChainSize, maxChainSize)
    decreases j
  {
    if j > 0 {
      ChainsFromAt(line, index + maxChainSize, maxChainSize, j - 1);
      assert index + maxChainSize + (j - 1) * maxChainSize == index + j * maxChainSize;
    }
  }

  /** Every start index + j * maxChainSize before the last point begins a chain. */
  lemma {:induction false} ChainsFromCount(line: Line, index: nat, maxChainSize: int, j: nat)
    requires maxChainSize >= 1 && index + j * maxChainSize < |line| - 1
    ensures j < |ChainsFrom(line, index, maxChainSize)|
    decreases j
  {
    if j > 0 {
      assert index + maxChainSize + (j - 1) * maxChainSize == index + j * maxChainSize;
      ChainsFromCount(line, index + maxChainSize, maxChainSize, j - 1);
    }
  }

  /** The chains of a line start exactly at 0, m, 2m, ... below n - 1, with min(m + 1, n - start) points each. */
  lemma ChainStarts(line: Line, maxChainSize: int)
    requires maxChainSize >= 1
    ensures forall j: nat :: j < |ChainsFrom(line, 0, maxChainSize)| <==> j * maxChainSize < |line| - 1
    ensures forall j :: 0 <= j < |ChainsFrom(line, 0, maxChainSize)| ==>
      var c := ChainsFrom(line, 0, maxChainSize)[j];
      |c| == Min(maxChainSize + 1, |line| - j * maxChainSize) &&
      c == line[j * maxChainSize..j * maxChainSize + |c|]
  {
    forall j: nat
      ensures j < |ChainsFrom(line, 0, maxChainSize)| <==> j * maxChainSize < |line| - 1
    {
      if j < |ChainsFrom(line, 0, maxChainSize)| { ChainsFromAt(line, 0, maxChainSize, j); }
      if j * maxChainSize < |line| - 1 { ChainsFromCount(line, 0, maxChainSize, j); }
    }
    forall j | 0 <= j < |ChainsFrom(line, 0, maxChainSize)|
      ensures var c := ChainsFrom(line, 0, maxChainSize)[j];
        |c| == Min(maxChainSize + 1, |line| - j * maxChainSize) &&
        c == line[j * maxChainSize..j * maxChainSize + |c|]
    {
      ChainsFromAt(line, 0, maxChainSize, j);
    }
  }

  /** Consecutive chains overlap in one point: the last point of a chain is the first of the next. */
  lemma ChainsLink(line: Line, maxChainSize: int, j: nat)
    requires maxChainSize >= 1 && j + 1 < |ChainsFrom(line, 0, maxChainSize)|
    ensures var cs := ChainsFrom(line, 0, maxChainSize);
      |cs[j]| == maxChainSize + 1 && |cs[j + 1]| >= 2 && cs[j][|cs[j]| - 1] == cs[j + 1][0]
  {
    ChainsFromAt(line, 0, maxChainSize, j);
    ChainsFromAt(line, 0, maxChainSize, j + 1);
    assert (j + 1) * maxChainSize == j * maxChainSize + maxChainSize;
  }

  /** The chains from index cover the segments of the line from index on, each once and in order. */
  lemma {:induction false} ChainsFromCover(line: Line, index: nat, maxChainSize: int)
    requires maxChainSize >= 1 && index < |line| - 1
    ensures ChainSegments(ChainsFrom(line, index, maxChainSize)) == Segments(line[index..])
    decreases |line| - index
  {
    var c := Chain(line, index, maxChainSize);
    var next := index + maxChainSize;
    var cs := ChainsFrom(line, index, maxChainSize);
    assert cs[0] == c && cs[1..] == ChainsFrom(line, next, maxChainSize);
    if next < |line| - 1 {
      ChainsFromCover(line, next, maxChainSize);
      var rest := line[index..];
      SegmentsSplit(rest, maxChainSize);
      assert rest[..maxChainSize + 1] == c;
      assert rest[maxChainSize..] == line[next..];
    } else {
      assert c == line[index..];
    }
  }

  /** The chains of a line cover its segments exactly: every segment once, in order. */
  lemma ChainsCover(line: Line, maxChainSize: int)
    requires maxChainSize >= 1
    ensures ChainSegments(ChainsFrom(line, 0, maxChainSize)) == Segments(line)
  {
    assert line[0..] == line;
    if |line| > 1 {
      ChainsFromCover(line, 0, maxChainSize);
    }
  }

  /** extractSegments: every pair of consecutive points of every line, as a two-point line. */
  method ExtractSegments(lines: seq<Line>) returns (segments: seq<Line>)
    ensures segments == AllSegments(lines)
  {
    segments := [];
    for l := 0 to |lines|
      invariant segments == AllSegments(lines[..l])
    {
      var line := lines[l];
      assert lines[..l + 1][..l] == lines[..l];
      ghost var before := segments;
      var i := 1;
      while i < |line|
        invariant 1 <= i && (i <= |line| || |line| == 0)
        invariant segments == before + Segments(line[..Min(i, |line|)])
      {
        assert line[..i + 1][..i] == line[..i];
        segments := segments + [[line[i - 1], line[i]]];
        i := i + 1;
      }
      assert line[..Min(i, |line|)] == line;
    }
    assert lines[..|lines|] == lines;
  }

  /** extractChain: the chain of the line starting at index, copied point by point. */
  method ExtractChain(line: Line, index: int, maxChainSize: int) returns (pts: Line)
    requires 0 <= index <= |line| && maxChainSize >= 0
    ensures pts == Chain(line, index, maxChainSize)
  {
    var size := maxChainSize + 1;
    if index + size > |line| {
      size := |line| - index;
    }
    var a := new Coord[size];
    for i := 0 to size
      invariant forall k :: 0 <= k < i ==> a[k] == line[index + k]
    {
      a[i] := line[index + i];
    }
    pts := a[..];
  }

  /** extractChains: the chains of every line, starting every maxChainSize points. */
  method ExtractChains(lines: seq<Line>, maxChainSize: int) returns (chains: seq<Line>)
    requires maxChainSize >= 1
    ensures chains == AllChains(lines, maxChainSize)
  {
    chains := [];
    for l := 0 to |lines|
      invariant chains == AllChains(lines[..l], maxChainSize)
    {
      var line := lines[l];
      assert lines[..l + 1][..l] == lines[..l];
      ghost var before := chains;
      var i := 0;
      while i < |line| - 1
        invariant chains + ChainsFrom(line, i, maxChainSize) == before + ChainsFrom(line, 0, maxChainSize)
        decreases |line| - i
      {
        var chain := ExtractChain(line, i, maxChainSize);
        chains := chains + [chain];
        i := i + maxChainSize;
      }
    }
    assert lines[..|lines|] == lines;
  }
}
