/**
 Which lines of a charset a compiled decoder answers wrongly, in terms of the lines alone: what
 becomes a cluster can be told from neighbouring lines.
 */
module CharsetBlocks {
  import opened CharsetCode
  import opened CharsetMeaning
  import opened CharsetPolicy

  /** The line continues the one before it: the next code, and of the same kind. */
  predicate Follows(maps: seq<Map>, j: nat)
    requires 0 < j < |maps|
  {
    maps[j].from == maps[j - 1].from + 1 && KindOf(maps[j]) == KindOf(maps[j - 1])
  }

  /** The line is one of many successive ones that stay as they are. */
  predicate InRun(maps: seq<Map>, l: nat) {
    exists i: nat :: i <= l < i + MERGE_GAP && EqualRun(maps, i)
  }

  /** The line goes into the table of the one before it. */
  predicate Bound(maps: seq<Map>, j: nat)
    requires 0 < j < |maps|
  {
    Follows(maps, j)
    || (maps[j].from - maps[j - 1].from <= MERGE_GAP && !InRun(maps, j - 1) && !InRun(maps, j))
  }

  /** All lines between the two are bound to those before them. */
  predicate Together(maps: seq<Map>, a: nat, b: nat)
    requires a < |maps| && b < |maps|
  {
    forall j :: 0 < j < |maps| && (a < j <= b || b < j <= a) ==> Bound(maps, j)
  }

  /** A code without a line, between two lines that are together with line `i`. */
  predicate HoleBeside(maps: seq<Map>, i: nat)
    requires i < |maps|
  {
    exists j :: 0 < j < |maps| && maps[j].from != maps[j - 1].from + 1
                && Together(maps, i, j - 1) && Together(maps, i, j)
  }

  /** No line so far, or together with line `i`, needs more than 16 bits. */
  predicate NarrowUpTo(maps: seq<Map>, i: nat)
    requires i < |maps|
  {
    forall l :: 0 <= l < |maps| && (l <= i || Together(maps, i, l)) ==> maps[l].to <= 0xFFFF
  }

  /** The line is taken for a hole: it is converted to 0xD800, and its 16-bit table has holes. */
  predicate Lost(maps: seq<Map>, i: nat)
    requires i < |maps|
  {
    maps[i].to == ILLEGAL_16 && HoleBeside(maps, i) && NarrowUpTo(maps, i)
  }

  predicate NoneLost(maps: seq<Map>) {
    forall i :: 0 <= i < |maps| ==> !Lost(maps, i)
  }

  // ---- runs and ranges

  /** The range could not begin earlier. */
  predicate StartsFresh(maps: seq<Map>, r: Range)
    requires RangeWf(maps, r)
  {
    r.start == 0 || !Follows(maps, r.start)
  }

  /** A line is in a run exactly if its range is a large equal one. */
  lemma RunOfLine(maps: seq<Map>, r: Range, l: nat)
    requires RangeWf(maps, r) && IsMaximal(maps, r) && StartsFresh(maps, r) && r.start <= l < r.end
    ensures InRun(maps, l) <==> IsLargeEqual(r)
  {
    if InRun(maps, l) {
      var i: nat :| i <= l < i + MERGE_GAP && EqualRun(maps, i);
      if i < r.start {
        RunFollows(maps, i, r.start);
        assert false;
      }
      RunIsLarge(maps, r, i);
    }
    if IsLargeEqual(r) {
      var i: nat := if l < r.start + MERGE_GAP then r.start else l + 1 - MERGE_GAP;
      assert forall j :: r.start <= j < r.end ==> KindOf(maps[j]) == EqualCodes;
      assert EqualRun(maps, i);
    }
  }

  lemma RunFollows(maps: seq<Map>, i: nat, j: nat)
    requires EqualRun(maps, i) && i < j < i + MERGE_GAP
    ensures Follows(maps, j)
  {
    assert maps[j - 1].from == maps[i].from + (j - 1 - i);
  }

  lemma InsideRange(maps: seq<Map>, r: Range, j: nat)
    requires RangeWf(maps, r) && r.start < j < r.end
    ensures Follows(maps, j)
  {
    assert maps[j - 1].from == maps[r.start].from + (j - 1 - r.start);
  }

  lemma MaximalEnds(maps: seq<Map>, r: Range, j: nat)
    requires RangeWf(maps, r) && IsMaximal(maps, r) && j == r.end < |maps|
    ensures !Follows(maps, j)
  {
    assert KindOf(maps[j - 1]) == r.kind;
  }

  // ---- clusters and lines

  /** What the compiler ensures of the clusters of a decoder. */
  ghost predicate Grouped(maps: seq<Map>, clusters: seq<Cluster>) {
    && Legal(maps, true) && Tiles(maps, clusters, |maps|) && Separated(maps, clusters)
    && forall k :: 0 <= k < |clusters| ==>
         Shapely(maps, clusters[k]) && Settled(maps, clusters[k])
           && clusters[k].width == WidthUpTo(maps, End(clusters[k]))
  }

  lemma ClusterOfGroup(maps: seq<Map>, clusters: seq<Cluster>, k: nat)
    requires Grouped(maps, clusters) && k < |clusters|
    ensures Shapely(maps, clusters[k]) && Settled(maps, clusters[k]) && ClusterWf(maps, clusters[k])
    ensures Start(clusters[k]) < End(clusters[k]) <= |maps| && clusters[k].width == WidthUpTo(maps, End(clusters[k]))
  {
    ClusterBounds(maps, clusters[k]);
  }

  /** Two neighbouring clusters meet where a line is not bound. */
  lemma NotBoundAt(maps: seq<Map>, clusters: seq<Cluster>, k: nat)
    requires Grouped(maps, clusters) && 0 < k < |clusters|
    ensures 0 < Start(clusters[k]) < |maps| && !Follows(maps, Start(clusters[k]))
  {
    hide RangeWf, IsMaximal;
    ClusterOfGroup(maps, clusters, k - 1);
    ClusterOfGroup(maps, clusters, k);
    var c := clusters[k - 1];
    var last := c.ranges[|c.ranges| - 1];
    assert RangeWf(maps, last) && IsMaximal(maps, last);
    MaximalEnds(maps, last, Start(clusters[k]));
  }

  lemma RangeStartsFresh(maps: seq<Map>, clusters: seq<Cluster>, k: nat, m: nat)
    requires Grouped(maps, clusters) && k < |clusters| && m < |clusters[k].ranges|
    ensures var r := clusters[k].ranges[m]; RangeWf(maps, r) && IsMaximal(maps, r) && StartsFresh(maps, r)
  {
    hide RangeWf, IsMaximal, Follows;
    ClusterOfGroup(maps, clusters, k);
    var c := clusters[k];
    assert RangeWf(maps, c.ranges[m]) && IsMaximal(maps, c.ranges[m]);
    if m > 0 {
      assert RangeWf(maps, c.ranges[m - 1]) && IsMaximal(maps, c.ranges[m - 1]);
      RangePair(maps, c, m - 1);
      MaximalEnds(maps, c.ranges[m - 1], c.ranges[m].start);
    } else if k > 0 {
      NotBoundAt(maps, clusters, k);
    }
  }

  /** The lines on both sides of the start of a range. */
  lemma EdgeOfRange(maps: seq<Map>, r: Range, next: Range)
    requires RangeWf(maps, r) && IsMaximal(maps, r) && StartsFresh(maps, r)
    requires RangeWf(maps, next) && IsMaximal(maps, next) && StartsFresh(maps, next) && r.end == next.start
    ensures var j := next.start;
            Bound(maps, j) <==> SmallGap(maps, r, next) && !IsLargeEqual(r) && !IsLargeEqual(next)
  {
    hide InRun, Follows, IsMaximal, IsLargeEqual;
    RunOfLine(maps, r, r.end - 1);
    RunOfLine(maps, next, next.start);
  }

  lemma BoundInside(maps: seq<Map>, clusters: seq<Cluster>, k: nat, j: nat)
    requires Grouped(maps, clusters) && k < |clusters| && Start(clusters[k]) < j < End(clusters[k])
    ensures j < |maps| && Bound(maps, j)
  {
    hide Grouped, RangeWf, IsMaximal, StartsFresh, Settled, Follows, InRun, Bound, IsLargeEqual;
    ClusterOfGroup(maps, clusters, k);
    var c := clusters[k];
    var m := RangeOfLine(maps, c, j, |c.ranges| - 1);
    RangeStartsFresh(maps, clusters, k, m);
    if c.ranges[m].start < j {
      InsideRange(maps, c.ranges[m], j);
      FollowsIsBound(maps, j);
    } else {
      RangeStartsFresh(maps, clusters, k, m - 1);
      RangePair(maps, c, m - 1);
      assert SmallGap(maps, c.ranges[m - 1], c.ranges[m]);
      EdgeOfRange(maps, c.ranges[m - 1], c.ranges[m]);
    }
  }

  lemma FollowsIsBound(maps: seq<Map>, j: nat)
    requires 0 < j < |maps| && Follows(maps, j)
    ensures Bound(maps, j)
  {
  }

  lemma UnboundBetween(maps: seq<Map>, clusters: seq<Cluster>, k: nat)
    requires Grouped(maps, clusters) && 0 < k < |clusters|
    ensures 0 < Start(clusters[k]) < |maps| && !Bound(maps, Start(clusters[k]))
  {
    hide Follows, InRun, Bound, RangeWf, IsMaximal, StartsFresh, IsLargeEqual, Settled;
    NotBoundAt(maps, clusters, k);
    ClusterOfGroup(maps, clusters, k - 1);
    ClusterOfGroup(maps, clusters, k);
    var c, d := clusters[k - 1], clusters[k];
    assert Apart(maps, c, d) && End(c) == Start(d);
    RangeStartsFresh(maps, clusters, k - 1, |c.ranges| - 1);
    RangeStartsFresh(maps, clusters, k, 0);
    EdgeOfRange(maps, c.ranges[|c.ranges| - 1], d.ranges[0]);
    SpreadOfBytes(maps, c, d.ranges[0]);
  }

  /** The codes of a decoder are never too far apart for a table. */
  lemma SpreadOfBytes(maps: seq<Map>, c: Cluster, next: Range)
    requires Legal(maps, true) && ClusterWf(maps, c) && RangeWf(maps, next)
    ensures maps[next.end - 1].from - FirstCode(maps, c) <= 0x100
  {
    ClusterBounds(maps, c);
    assert maps[next.end - 1].from <= 0xFF;
  }

  /** Lines are together if and only if they are in one cluster. */
  lemma TogetherInside(maps: seq<Map>, clusters: seq<Cluster>, k: nat, i: nat, l: nat)
    requires Grouped(maps, clusters) && k < |clusters| && Start(clusters[k]) <= i < End(clusters[k])
    requires l < |maps|
    ensures i < |maps| && (Together(maps, i, l) <==> Start(clusters[k]) <= l < End(clusters[k]))
  {
    hide Bound, Settled, Shapely, ClusterWf, Separated;
    ClusterOfGroup(maps, clusters, k);
    var c := clusters[k];
    if l < Start(c) {
      StartsAtZero(maps, clusters);
      UnboundBetween(maps, clusters, k);
      assert !Together(maps, i, l);
    } else if l >= End(c) {
      NextStarts(maps, clusters, k);
      UnboundBetween(maps, clusters, k + 1);
      assert !Together(maps, i, l);
    } else {
      forall j | 0 < j < |maps| && (i < j <= l || l < j <= i)
        ensures Bound(maps, j)
      {
        BoundInside(maps, clusters, k, j);
      }
    }
  }

  lemma StartsAtZero(maps: seq<Map>, clusters: seq<Cluster>)
    requires Grouped(maps, clusters) && clusters != []
    ensures |clusters[0].ranges| > 0 && Start(clusters[0]) == 0
  {
  }

  lemma NextStarts(maps: seq<Map>, clusters: seq<Cluster>, k: nat)
    requires Grouped(maps, clusters) && k < |clusters| && |clusters[k].ranges| > 0 && End(clusters[k]) < |maps|
    ensures k + 1 < |clusters| && |clusters[k + 1].ranges| > 0 && Start(clusters[k + 1]) == End(clusters[k])
  {
  }

  // ---- holes and widths

  /** A cluster has holes if and only if a code is missing between two of its lines. */
  lemma HoleIsGap(maps: seq<Map>, c: Cluster)
    requires ClusterWf(maps, c)
    ensures Start(c) < End(c) <= |maps|
    ensures HasHoles(maps, c) <==> exists j :: Start(c) < j < End(c) && maps[j].from != maps[j - 1].from + 1
  {
    hide RangeWf;
    ClusterBounds(maps, c);
    if k :| 0 <= k < |c.ranges| && HoleAfter(maps, c, k) {
      RangePair(maps, c, k);
      var j := c.ranges[k].end;
      assert maps[j].from != maps[j - 1].from + 1;
    }
    if j :| Start(c) < j < End(c) && maps[j].from != maps[j - 1].from + 1 {
      var k := RangeOfLine(maps, c, j, |c.ranges| - 1);
      assert RangeWf(maps, c.ranges[k]);
      if c.ranges[k].start < j {
        InsideRange(maps, c.ranges[k], j);
        assert false;
      } else {
        RangePair(maps, c, k - 1);
        assert HoleAfter(maps, c, k - 1);
      }
    }
  }

  lemma {:induction false} WidthIsNarrow(maps: seq<Map>, n: nat)
    requires n <= |maps|
    ensures WidthUpTo(maps, n) <= 2 <==> forall l :: 0 <= l < n ==> maps[l].to <= 0xFFFF
    decreases n
  {
    if n == 0 {
    } else {
      WidthIsNarrow(maps, n - 1);
    }
  }

  lemma WidthOfSurrogate(maps: seq<Map>, i: nat, n: nat)
    requires i < n <= |maps| && maps[i].to == ILLEGAL_16
    ensures WidthUpTo(maps, n) >= 2
  {
    WidthGrows(maps, i + 1, n);
  }

  /** The code for holes is 0xD800 exactly in 16-bit tables with holes. */
  lemma IllegalOfCluster(maps: seq<Map>, c: Cluster)
    requires Settled(maps, c)
    ensures c.width >= 2 ==> (c.illegal == ILLEGAL_16 <==> HasHoles(maps, c) && c.width == 2)
  {
  }

  // ---- the lines that are lost

  lemma HolesOfBlock(maps: seq<Map>, clusters: seq<Cluster>, k: nat, i: nat)
    requires Grouped(maps, clusters) && k < |clusters| && Start(clusters[k]) <= i < End(clusters[k]) <= |maps|
    ensures ClusterWf(maps, clusters[k]) && (HoleBeside(maps, i) <==> HasHoles(maps, clusters[k]))
  {
    hide Grouped, Together, HoleBeside, HasHoles, ClusterWf, Settled, Shapely;
    ClusterOfGroup(maps, clusters, k);
    HoleIsGap(maps, clusters[k]);
    if HoleBeside(maps, i) {
      var j := GapBeside(maps, i);
      TogetherInside(maps, clusters, k, i, j - 1);
      TogetherInside(maps, clusters, k, i, j);
    }
    if HasHoles(maps, clusters[k]) {
      var j :| Start(clusters[k]) < j < End(clusters[k]) && maps[j].from != maps[j - 1].from + 1;
      TogetherInside(maps, clusters, k, i, j - 1);
      TogetherInside(maps, clusters, k, i, j);
      IsBeside(maps, i, j);
    }
  }

  lemma GapBeside(maps: seq<Map>, i: nat) returns (j: nat)
    requires i < |maps| && HoleBeside(maps, i)
    ensures 0 < j < |maps| && maps[j].from != maps[j - 1].from + 1 && Together(maps, i, j - 1) && Together(maps, i, j)
  {
    hide Together;
    j :| 0 < j < |maps| && maps[j].from != maps[j - 1].from + 1 && Together(maps, i, j - 1) && Together(maps, i, j);
  }

  lemma IsBeside(maps: seq<Map>, i: nat, j: nat)
    requires i < |maps| && 0 < j < |maps| && maps[j].from != maps[j - 1].from + 1
    requires Together(maps, i, j - 1) && Together(maps, i, j)
    ensures HoleBeside(maps, i)
  {
  }

  lemma WidthOfBlock(maps: seq<Map>, clusters: seq<Cluster>, k: nat, i: nat)
    requires Grouped(maps, clusters) && k < |clusters| && Start(clusters[k]) <= i < End(clusters[k]) <= |maps|
    ensures NarrowUpTo(maps, i) <==> clusters[k].width <= 2
  {
    hide Grouped, Together, ClusterWf, Settled, Shapely, WidthUpTo;
    ClusterOfGroup(maps, clusters, k);
    var c := clusters[k];
    WidthIsNarrow(maps, End(c));
    forall l | 0 <= l < |maps|
      ensures l < End(c) <==> l <= i || Together(maps, i, l)
    {
      TogetherInside(maps, clusters, k, i, l);
    }
  }

  /** The lines that the compiler gives up can be told before it runs. */
  lemma GivenUpIsLost(maps: seq<Map>, clusters: seq<Cluster>, k: nat, i: nat)
    requires Grouped(maps, clusters) && k < |clusters| && Start(clusters[k]) <= i < End(clusters[k]) <= |maps|
    ensures GivesUp(maps, clusters, k, i) <==> Lost(maps, i)
  {
    hide Grouped, HoleBeside, NarrowUpTo, HasHoles, ClusterWf, Settled, Shapely, WidthUpTo;
    ClusterOfGroup(maps, clusters, k);
    if maps[i].to == ILLEGAL_16 {
      HolesOfBlock(maps, clusters, k, i);
      WidthOfBlock(maps, clusters, k, i);
      WidthOfSurrogate(maps, i, End(clusters[k]));
      IllegalOfCluster(maps, clusters[k]);
    }
  }

  /** What a compiled decoder answers: the target of the line, or an error if there is none or it is lost. */
  function Answered(maps: seq<Map>, c: nat): Outcome {
    var k := IndexOfCode(maps, c);
    if k < |maps| && !Lost(maps, k) then Code(maps[k].to) else Error
  }

  ghost predicate Decodes(p: Program, maps: seq<Map>) {
    forall c: nat :: c <= 0xFF ==> Eval(p, true, c) == Answered(maps, c)
  }

  lemma DecoderAnswers(maps: seq<Map>, clusters: seq<Cluster>, p: Program, c: nat)
    requires Compiled(maps, clusters, true, p) && Grouped(maps, clusters) && c <= 0xFF
    ensures Eval(p, true, c) == Answered(maps, c)
  {
    hide Compiled, Grouped, Lost, GivesUp, Eval, ClusterWf;
    IsCompiled(maps, clusters, true, p);
    SortedMaps(maps, true);
    EvalIsExpected(maps, clusters, true, p, c);
    var i := IndexOfCode(maps, c);
    if i < |maps| {
      var k := ClusterOfLine(maps, clusters, |maps|, i, |clusters| - 1);
      GivenUpIsLost(maps, clusters, k, i);
      forall k': nat, i': nat | GivesUp(maps, clusters, k', i')
        ensures i' < |maps| && (maps[i'].from == c ==> Lost(maps, i))
      {
        GivenUpLine(maps, clusters, k', i');
        GivenUpIsLost(maps, clusters, k', i');
        if maps[i'].from == c {
          OneLine(maps, true, i, i');
        }
      }
    }
  }

  lemma GivenUpLine(maps: seq<Map>, clusters: seq<Cluster>, k: nat, i: nat)
    requires GivesUp(maps, clusters, k, i)
    ensures k < |clusters| && ClusterWf(maps, clusters[k]) && Start(clusters[k]) <= i < End(clusters[k]) <= |maps|
  {
  }

  /** A decoder computes the whole charset if and only if no line is lost. */
  lemma DecoderIsRightIfNoneLost(maps: seq<Map>, clusters: seq<Cluster>, p: Program)
    requires Compiled(maps, clusters, true, p) && Grouped(maps, clusters)
    ensures Computes(p, maps, true) <==> NoneLost(maps)
  {
    hide Compiled, Grouped, Lost, GivesUp, ClusterWf, Computes;
    CompilesTheMap(maps, clusters, true, p);
    IsCompiled(maps, clusters, true, p);
    if NoneLost(maps) {
      forall k: nat, i: nat
        ensures !GivesUp(maps, clusters, k, i)
      {
        if GivesUp(maps, clusters, k, i) {
          GivenUpLine(maps, clusters, k, i);
          GivenUpIsLost(maps, clusters, k, i);
        }
      }
    } else {
      var i :| 0 <= i < |maps| && Lost(maps, i);
      var k := ClusterOfLine(maps, clusters, |maps|, i, |clusters| - 1);
      GivenUpIsLost(maps, clusters, k, i);
    }
  }

  /** The shortest charset of that kind: its first line is lost. */
  lemma SurrogateIsLost()
    ensures Lost(SURROGATE_MAPS, 0)
  {
    var maps := SURROGATE_MAPS;
    assert !InRun(maps, 0) && !InRun(maps, 1);
    assert Bound(maps, 1);
    assert maps[1].from != maps[0].from + 1 && Together(maps, 0, 0) && Together(maps, 0, 1);
  }
}
