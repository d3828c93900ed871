/** Which ranges share a cluster, how wide its codes are, and when no byte is left for its holes. */
module CharsetPolicy {
  import opened Bytes
  import opened CharsetCode
  import opened CharsetMeaning

  function CodeWidth(value: nat): (w: nat)
    ensures IsWidth(w) && (value < U32 ==> value < Capacity(w))
  {
    if value <= 0xFF then 1 else if value <= 0xFFFF then 2 else 4
  }

  function MaxOf(a: nat, b: nat): (m: nat)
    ensures a <= m && b <= m && (m == a || m == b)
  {
    if a < b then b else a
  }

  /** As narrow as the widest target allows. */
  predicate IsTight(maps: seq<Map>, r: Range)
    requires RangeWf(maps, r)
  {
    exists j :: r.start <= j < r.end && r.width == CodeWidth(maps[j].to)
  }

  /** The range could not be any longer. */
  predicate IsMaximal(maps: seq<Map>, r: Range)
    requires RangeWf(maps, r)
  {
    r.end == |maps| || maps[r.end].from != maps[r.end - 1].from + 1 || KindOf(maps[r.end]) != r.kind
  }

  /** The policy of merging, which keeps tables small. */
  predicate Shapely(maps: seq<Map>, c: Cluster) {
    && ClusterWf(maps, c)
    && (forall k :: 0 <= k < |c.ranges| && |c.ranges| > 1 ==> !IsLargeEqual(c.ranges[k]))
    && (forall k :: 0 < k < |c.ranges| ==> SmallGap(maps, c.ranges[k - 1], c.ranges[k]))
    && (|c.ranges| > 1 ==> LastCode(maps, c) - FirstCode(maps, c) <= 0x100 || HasWide(c.ranges))
    && (forall k :: 0 <= k < |c.ranges| ==> IsMaximal(maps, c.ranges[k]))
  }

  predicate SmallGap(maps: seq<Map>, r: Range, next: Range)
    requires RangeWf(maps, r) && RangeWf(maps, next)
  {
    maps[next.start].from - maps[r.end - 1].from <= MERGE_GAP
  }

  predicate HasWide(ranges: seq<Range>) {
    exists k :: 0 <= k < |ranges| && ranges[k].width > 2
  }

  predicate MayJoin(maps: seq<Map>, c: Cluster, next: Range)
    requires ClusterWf(maps, c) && RangeWf(maps, next)
  {
    var last := c.ranges[|c.ranges| - 1];
    && !IsLargeEqual(last)
    && SmallGap(maps, last, next)
    && (HasWide(c.ranges) || maps[next.end - 1].from - FirstCode(maps, c) <= 0x100)
  }

  // ---- widths

  /** The width that the targets of the first `n` lines take: it never shrinks from range to range. */
  function WidthUpTo(maps: seq<Map>, n: nat): (w: nat)
    requires n <= |maps|
    ensures IsWidth(w)
  {
    if n == 0 then 1 else MaxOf(WidthUpTo(maps, n - 1), CodeWidth(maps[n - 1].to))
  }

  lemma {:induction false} WidthGrows(maps: seq<Map>, m: nat, n: nat)
    requires m <= n <= |maps|
    ensures WidthUpTo(maps, m) <= WidthUpTo(maps, n)
    decreases n
  {
    if m >= n {
    } else {
      WidthGrows(maps, m, n - 1);
    }
  }

  lemma {:induction false} WidthWithin(maps: seq<Map>, r: Range, n: nat)
    requires RangeWf(maps, r) && r.start <= n <= r.end
    ensures WidthUpTo(maps, n) <= MaxOf(WidthUpTo(maps, r.start), r.width)
    decreases n
  {
    if n <= r.start {
    } else {
      WidthWithin(maps, r, n - 1);
      assert maps[n - 1].to < Capacity(r.width);
    }
  }

  /** Raising the width of a range to that of the lines before it. */
  lemma WidthOfRaised(maps: seq<Map>, r: Range)
    requires RangeWf(maps, r) && IsTight(maps, r)
    ensures MaxOf(r.width, WidthUpTo(maps, r.start)) == WidthUpTo(maps, r.end)
  {
    var j :| r.start <= j < r.end && r.width == CodeWidth(maps[j].to);
    WidthWithin(maps, r, r.end);
    WidthGrows(maps, r.start, r.end);
    WidthGrows(maps, j + 1, r.end);
  }

  /** Before a cluster gets its width, each range has that of all lines up to its end. */
  predicate WidthsGrow(maps: seq<Map>, c: Cluster) {
    forall k :: 0 <= k < |c.ranges| ==>
      c.ranges[k].end <= |maps| && c.ranges[k].width == WidthUpTo(maps, c.ranges[k].end)
  }

  // ---- where clusters end

  /** The range that begins the later cluster could not go into the earlier one. */
  predicate Apart(maps: seq<Map>, c: Cluster, d: Cluster) {
    && ClusterWf(maps, c) && ClusterWf(maps, d)
    && (IsLargeEqual(d.ranges[0]) || !MayJoin(maps, c, d.ranges[0]))
  }

  predicate Separated(maps: seq<Map>, clusters: seq<Cluster>) {
    forall k :: 0 < k < |clusters| ==> Apart(maps, clusters[k - 1], clusters[k])
  }

  /** The same ranges, but for what their widths are exactly. */
  predicate SameLines(c: Cluster, d: Cluster) {
    && |c.ranges| == |d.ranges| && (HasWide(c.ranges) <==> HasWide(d.ranges))
    && forall k :: 0 <= k < |c.ranges| ==> c.ranges[k].(width := 0) == d.ranges[k].(width := 0)
  }

  lemma ApartStays(maps: seq<Map>, c: Cluster, c': Cluster, d: Cluster, d': Cluster)
    requires Apart(maps, c, d) && SameLines(c, c') && SameLines(d, d') && ClusterWf(maps, c') && ClusterWf(maps, d')
    ensures Apart(maps, c', d')
  {
    hide HasWide, RangeWf;
    var n := |c.ranges| - 1;
    assert c.ranges[n].(width := 0) == c'.ranges[n].(width := 0)
           && c.ranges[0].(width := 0) == c'.ranges[0].(width := 0);
    assert d.ranges[0].(width := 0) == d'.ranges[0].(width := 0);
  }

  lemma SeparatedReplace(maps: seq<Map>, clusters: seq<Cluster>, k: nat, c: Cluster)
    requires Separated(maps, clusters) && k < |clusters| && SameLines(clusters[k], c) && ClusterWf(maps, c)
    ensures Separated(maps, clusters[k := c])
  {
    hide SameLines, Apart, ClusterWf;
    var cs := clusters[k := c];
    forall j | 0 < j < |cs|
      ensures Apart(maps, cs[j - 1], cs[j])
    {
      ApartWf(maps, clusters[j - 1], clusters[j]);
      SameAsItself(clusters[j - 1]);
      SameAsItself(clusters[j]);
      ApartStays(maps, clusters[j - 1], cs[j - 1], clusters[j], cs[j]);
    }
  }

  lemma ApartWf(maps: seq<Map>, c: Cluster, d: Cluster)
    requires Apart(maps, c, d)
    ensures ClusterWf(maps, c) && ClusterWf(maps, d)
  {
  }

  lemma SameAsItself(c: Cluster)
    ensures SameLines(c, c)
  {
  }

  lemma SomeRanges(maps: seq<Map>, c: Cluster)
    requires ClusterWf(maps, c)
    ensures |c.ranges| > 0
  {
  }

  lemma RangePair(maps: seq<Map>, c: Cluster, k: nat)
    requires ClusterWf(maps, c) && k + 1 < |c.ranges|
    ensures c.ranges[k].start < c.ranges[k].end == c.ranges[k + 1].start < c.ranges[k + 1].end <= |maps|
  {
    assert RangeWf(maps, c.ranges[k]) && RangeWf(maps, c.ranges[k + 1]);
  }

  // ---- why a code for holes is found

  function Targets(maps: seq<Map>, start: nat, end: nat): (t: set<nat>)
    requires start <= end <= |maps|
    ensures |t| <= end - start
    ensures forall i :: start <= i < end ==> maps[i].to in t
    ensures forall b: nat :: b in t ==> Uses(maps, start, end, b)
    decreases end - start
  {
    if start == end then {} else {maps[start].to} + Targets(maps, start + 1, end)
  }

  lemma {:induction false} CountBelow(t: set<nat>, n: nat)
    requires forall b: nat :: b < n ==> b in t
    ensures n <= |t|
    decreases n
  {
    if n == 0 {
    } else {
      CountBelow(t - {n - 1}, n - 1);
    }
  }

  /** Every byte can be used only by 256 lines or more. */
  lemma AllBytesUsed(maps: seq<Map>, start: nat, end: nat)
    requires start <= end <= |maps| && forall b: nat :: b < 0x100 ==> Uses(maps, start, end, b)
    ensures end - start >= 0x100
  {
    var t := Targets(maps, start, end);
    forall b: nat | b < 0x100
      ensures b in t
    {
      assert Uses(maps, start, end, b);
    }
    CountBelow(t, 0x100);
  }

  lemma {:induction false} CodesSpread(maps: seq<Map>, i: nat, j: nat)
    requires Sorted(maps) && i <= j < |maps|
    ensures maps[j].from - maps[i].from >= j - i
    decreases j
  {
    if i >= j {
    } else {
      CodesSpread(maps, i, j - 1);
    }
  }

  /** A hole makes the codes reach further than the lines. */
  lemma HolesSpread(maps: seq<Map>, c: Cluster)
    requires Sorted(maps) && ClusterWf(maps, c) && HasHoles(maps, c)
    ensures Start(c) < End(c) <= |maps| && LastCode(maps, c) - FirstCode(maps, c) >= End(c) - Start(c) && |c.ranges| > 1
  {
    ClusterBounds(maps, c);
    var k :| 0 <= k < |c.ranges| && HoleAfter(maps, c, k);
    var r, next := c.ranges[k], c.ranges[k + 1];
    assert RangeWf(maps, r) && RangeWf(maps, next) && r.end == next.start;
    CodesSpread(maps, Start(c), r.end - 1);
    CodesSpread(maps, next.start, End(c) - 1);
  }

  lemma WideOrShort(maps: seq<Map>, c: Cluster)
    requires Shapely(maps, c) && Settled(maps, c) && |c.ranges| > 1 && c.width == 1
    ensures LastCode(maps, c) - FirstCode(maps, c) <= 0x100
  {
  }

  /**
   A cluster is stuck only if it converts all of 256 codes out of 257 to different bytes; a
   decoder, which has 256 codes at most, never is.
   */
  lemma WhenStuck(maps: seq<Map>, c: Cluster, toUni: bool)
    requires Legal(maps, toUni) && Shapely(maps, c) && Settled(maps, c) && Stuck(maps, c)
    ensures !toUni && End(c) - Start(c) == 0x100 && LastCode(maps, c) - FirstCode(maps, c) == 0x100
  {
    ClusterBounds(maps, c);
    HolesSpread(maps, c);
    StuckIsNarrow(maps, c);
    WideOrShort(maps, c);
    AllBytesUsed(maps, Start(c), End(c));
  }

  lemma StuckIsNarrow(maps: seq<Map>, c: Cluster)
    requires Settled(maps, c) && Stuck(maps, c)
    ensures c.width == 1 && Start(c) < End(c) <= |maps| && forall b: nat :: b < 0x100 ==>
            Uses(maps, Start(c), End(c), b)
  {
    ClusterBounds(maps, c);
  }

  // ---- exactly which encoders cannot be compiled

  /** No two lines are converted to the same code, as is so for the bytes of a charset. */
  predicate DistinctTargets(maps: seq<Map>) {
    forall i, j :: 0 <= i < j < |maps| ==> maps[i].to != maps[j].to
  }

  /** Successive codes that stay as they are, enough of them for a cluster of their own. */
  predicate EqualRun(maps: seq<Map>, i: nat) {
    i + MERGE_GAP <= |maps| && forall l :: i <= l < i + MERGE_GAP ==>
      maps[l].to == maps[l].from == maps[i].from + (l - i)
  }

  /** All 256 bytes are targets, of all but one of 257 successive codes, in one cluster. */
  predicate NoByteSpare(maps: seq<Map>) {
    |maps| == 0x100 && maps[0xFF].from - maps[0].from == 0x100 && forall i :: 0 <= i < |maps| ==> !EqualRun(maps, i)
  }

  lemma {:induction false} SetBelow(t: set<nat>, n: nat)
    requires forall b: nat :: b in t ==> b < n
    ensures |t| <= n
    decreases n
  {
    if n == 0 {
      assert t == {};
    } else {
      SetBelow(t - {n - 1}, n - 1);
    }
  }

  lemma {:induction false} DistinctCount(maps: seq<Map>, start: nat, end: nat)
    requires DistinctTargets(maps) && start <= end <= |maps|
    ensures |Targets(maps, start, end)| == end - start
    decreases end - start
  {
    hide Uses, DistinctTargets;
    if start >= end {
    } else {
      DistinctCount(maps, start + 1, end);
      UsedOnce(maps, start, end);
    }
  }

  lemma UsedOnce(maps: seq<Map>, start: nat, end: nat)
    requires DistinctTargets(maps) && start < end <= |maps|
    ensures !Uses(maps, start + 1, end, maps[start].to)
  {
  }

  lemma UsedIsByte(maps: seq<Map>, b: nat)
    requires Legal(maps, false) && Uses(maps, 0, |maps|, b)
    ensures b < 0x100
  {
  }

  /** Distinct bytes: at most 256 lines, and with 256 of them no byte is spare. */
  lemma BytesAreTargets(maps: seq<Map>, b: nat)
    requires Legal(maps, false) && DistinctTargets(maps)
    ensures |maps| <= 0x100 && (|maps| == 0x100 && b < 0x100 ==> Uses(maps, 0, |maps|, b))
  {
    hide Uses, Targets, Legal, DistinctTargets;
    var t := Targets(maps, 0, |maps|);
    DistinctCount(maps, 0, |maps|);
    forall x: nat | x in t
      ensures x < 0x100
    {
      UsedIsByte(maps, x);
    }
    SetBelow(t, 0x100);
    if b < 0x100 && b !in t {
      SetBelow(t + {b}, 0x100);
    }
  }

  /** A run lies in one range, which is then a large equal one. */
  lemma RunIsLarge(maps: seq<Map>, r: Range, i: nat)
    requires RangeWf(maps, r) && IsMaximal(maps, r) && r.start <= i < r.end && EqualRun(maps, i)
    ensures IsLargeEqual(r)
  {
    assert KindOf(maps[i]) == EqualCodes;
    if r.end < i + MERGE_GAP {
      assert false;
    }
  }

  lemma LargeIsRun(maps: seq<Map>, r: Range)
    requires RangeWf(maps, r) && IsLargeEqual(r)
    ensures EqualRun(maps, r.start)
  {
    assert forall l :: r.start <= l < r.end ==> KindOf(maps[l]) == EqualCodes;
  }

  /** Where no code is missing, the codes reach no further than the lines. */
  lemma {:induction false} NoHolesNoSpread(maps: seq<Map>, c: Cluster, n: nat)
    requires ClusterWf(maps, c) && !HasHoles(maps, c) && n < |c.ranges|
    ensures var e := c.ranges[n].end;
            && Start(c) < e <= |maps|
            && maps[e - 1].from - FirstCode(maps, c) == e - 1 - Start(c)
    decreases n
  {
    var r := c.ranges[n];
    assert RangeWf(maps, r);
    ClusterBounds(maps, c);
    assert maps[r.end - 1].from == maps[r.start].from + (r.end - 1 - r.start);
    if n == 0 {
    } else {
      NoHolesNoSpread(maps, c, n - 1);
      RangePair(maps, c, n - 1);
      assert !HoleAfter(maps, c, n - 1);
    }
  }

  /** Two neighbouring lines cannot be far apart when 256 lines are on 257 codes. */
  lemma GapsAreSmall(maps: seq<Map>, i: nat)
    requires Sorted(maps) && NoByteSpare(maps) && 0 < i < |maps|
    ensures maps[i].from - maps[i - 1].from <= 2
  {
    CodesSpread(maps, 0, i - 1);
    CodesSpread(maps, i, 0xFF);
  }

  /** So all ranges join. */
  lemma OneClusterOnly(maps: seq<Map>, clusters: seq<Cluster>)
    requires Legal(maps, false) && NoByteSpare(maps) && Tiles(maps, clusters, |maps|) && Separated(maps, clusters)
    ensures |clusters| == 1
  {
    if |clusters| > 1 {
      var c, d := clusters[0], clusters[1];
      assert Apart(maps, c, d) && End(c) == Start(d);
      ClusterBounds(maps, c);
      ClusterBounds(maps, d);
      NotApart(maps, c, d);
    }
  }

  lemma NotApart(maps: seq<Map>, c: Cluster, d: Cluster)
    requires Legal(maps, false) && NoByteSpare(maps) && ClusterWf(maps, c) && ClusterWf(maps, d) && End(c) == Start(d)
    ensures !Apart(maps, c, d)
  {
    var last, next := c.ranges[|c.ranges| - 1], d.ranges[0];
    assert RangeWf(maps, last) && RangeWf(maps, next);
    if IsLargeEqual(last) {
      LargeIsRun(maps, last);
    }
    if IsLargeEqual(next) {
      LargeIsRun(maps, next);
    }
    GapsAreSmall(maps, next.start);
    ClusterBounds(maps, c);
    CodesSpread(maps, 0, Start(c));
    CodesSpread(maps, next.end - 1, 0xFF);
  }

  lemma StuckMeansNoneSpare(maps: seq<Map>, c: Cluster)
    requires Legal(maps, false) && DistinctTargets(maps) && Shapely(maps, c) && Settled(maps, c) && Stuck(maps, c)
    ensures NoByteSpare(maps)
  {
    WhenStuck(maps, c, false);
    ClusterBounds(maps, c);
    HolesSpread(maps, c);
    BytesAreTargets(maps, 0);
    forall i | 0 <= i < |maps|
      ensures !EqualRun(maps, i)
    {
      if EqualRun(maps, i) {
        var k := RangeOfLine(maps, c, i, |c.ranges| - 1);
        assert RangeWf(maps, c.ranges[k]) && IsMaximal(maps, c.ranges[k]);
        RunIsLarge(maps, c.ranges[k], i);
        assert false;
      }
    }
  }

  lemma NoneSpareIsStuck(maps: seq<Map>, c: Cluster)
    requires Legal(maps, false) && DistinctTargets(maps) && NoByteSpare(maps) && Settled(maps, c)
    requires Start(c) == 0 && End(c) == |maps| && c.width == 1
    ensures Stuck(maps, c)
  {
    ClusterBounds(maps, c);
    if !HasHoles(maps, c) {
      NoHolesNoSpread(maps, c, |c.ranges| - 1);
      assert false;
    }
    assert IllegalByte(maps, c);
    BytesAreTargets(maps, c.illegal);
  }

  lemma {:induction false} NarrowTargets(maps: seq<Map>, n: nat)
    requires Legal(maps, false) && n <= |maps|
    ensures WidthUpTo(maps, n) == 1
    decreases n
  {
    if n == 0 {
    } else {
      NarrowTargets(maps, n - 1);
      assert maps[n - 1].to <= 0xFF;
    }
  }

  /** An encoder is given up if and only if its lines use up all bytes on one code too many. */
  lemma EncoderSticks(maps: seq<Map>, clusters: seq<Cluster>)
    requires Legal(maps, false) && DistinctTargets(maps) && Tiles(maps, clusters, |maps|) && Separated(maps, clusters)
    requires forall k :: 0 <= k < |clusters| ==>
      Shapely(maps, clusters[k]) && Settled(maps, clusters[k]) && clusters[k].width == WidthUpTo(maps, End(clusters[k]))
    ensures NoByteSpare(maps) <==> exists k :: 0 <= k < |clusters| && Stuck(maps, clusters[k])
  {
    hide Legal, ClusterWf, Shapely, Settled, Separated, NoByteSpare, DistinctTargets, WidthUpTo;
    if k :| 0 <= k < |clusters| && Stuck(maps, clusters[k]) {
      StuckMeansNoneSpare(maps, clusters[k]);
    } else if NoByteSpare(maps) {
      OneClusterOnly(maps, clusters);
      NarrowTargets(maps, |maps|);
      NoneSpareIsStuck(maps, clusters[0]);
      assert false;
    }
  }

  // ---- an encoder that cannot be compiled

  /** The bytes 0 to 255 for the codes 256 to 512, without 384. */
  function FullMaps(): (maps: seq<Map>)
    ensures |maps| == 0x100 && forall i :: 0 <= i < 0x100 ==>
            maps[i] == Map(if i < 0x80 then 0x100 + i else 0x101 + i, i)
  {
    seq(0x100, i requires 0 <= i < 0x100 => Map(if i < 0x80 then 0x100 + i else 0x101 + i, i))
  }

  function FullCluster(): Cluster {
    Cluster([Range(0, 0x80, OtherCodes, 1), Range(0x80, 0x100, OtherCodes, 1)], NOT_SET, 1)
  }

  lemma FullLines()
    ensures Legal(FullMaps(), false) && DistinctTargets(FullMaps()) && NoByteSpare(FullMaps())
  {
    hide FullMaps;
    var maps := FullMaps();
    forall i | 0 <= i < |maps|
      ensures !EqualRun(maps, i)
    {
      assert maps[i].from != maps[i].to;
    }
  }

  lemma FullRanges()
    ensures var maps, c := FullMaps(), FullCluster();
            RangeWf(maps, c.ranges[0]) && RangeWf(maps, c.ranges[1]) && ClusterWf(maps, c) && HoleAfter(maps, c, 0)
  {
    hide FullMaps;
  }

  /** Its one cluster has a hole, and every byte is a target. */
  lemma FullIsStuck()
    ensures Shapely(FullMaps(), FullCluster()) && Settled(FullMaps(), FullCluster()) && Stuck(FullMaps(), FullCluster())
  {
    hide FullMaps, RangeWf;
    var maps, c := FullMaps(), FullCluster();
    FullRanges();
    forall b: nat | b < 0x100
      ensures Uses(maps, 0, 0x100, b)
    {
      assert maps[b].to == b;
    }
    assert LowestFree(maps, 0, 0x100, NOT_SET);
  }
}
