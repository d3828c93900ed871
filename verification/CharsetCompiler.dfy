/** The charset compiler: lines to ranges, ranges to clusters, clusters to tables and arms. */
module CharsetCompiler {
  import opened Bytes
  import opened CharsetCode
  import opened CharsetMeaning
  import opened CharsetPolicy
  import opened CharsetBlocks

  /** A range as it is made: as long as it can be and as narrow. */
  predicate Fresh(maps: seq<Map>, r: Range) {
    RangeWf(maps, r) && IsMaximal(maps, r) && IsTight(maps, r)
  }

  /** Ranges that take up the lines from `start` to `end`, in order. */
  predicate InRow(maps: seq<Map>, ranges: seq<Range>, start: nat, end: nat) {
    && (forall k :: 0 <= k < |ranges| ==> Fresh(maps, ranges[k]))
    && (forall k :: 0 < k < |ranges| ==> ranges[k - 1].end == ranges[k].start)
    && (if ranges == [] then start == end else ranges[0].start == start && ranges[|ranges| - 1].end == end)
  }

  function Add(c: Cluster, r: Range): Cluster {
    c.(ranges := c.ranges + [r])
  }

  lemma Joined(maps: seq<Map>, c: Cluster, next: Range)
    requires ClusterWf(maps, c) && RangeWf(maps, next) && End(c) == next.start
    ensures ClusterWf(maps, Add(c, next)) && Start(Add(c, next)) == Start(c) && End(Add(c, next)) == next.end
    ensures FirstCode(maps, Add(c, next)) == FirstCode(maps, c)
            && LastCode(maps, Add(c, next)) == maps[next.end - 1].from
  {
    var rs := Add(c, next).ranges;
    forall k | 0 < k < |rs|
      ensures rs[k - 1].end == rs[k].start
    {
      if k < |c.ranges| {
        assert c.ranges[k - 1].end == c.ranges[k].start;
      }
    }
    ClusterBounds(maps, c);
  }

  lemma JoinedIsShapely(maps: seq<Map>, c: Cluster, next: Range)
    requires Shapely(maps, c) && RangeWf(maps, next) && End(c) == next.start
    requires MayJoin(maps, c, next) && !IsLargeEqual(next) && IsMaximal(maps, next)
    ensures Shapely(maps, Add(c, next))
  {
    hide HasWide, IsLargeEqual, RangeWf;
    Joined(maps, c, next);
    WideStays(c.ranges, next);
    var d := Add(c, next);
    forall k | 0 < k < |d.ranges|
      ensures SmallGap(maps, d.ranges[k - 1], d.ranges[k])
    {
      if k < |c.ranges| {
        assert SmallGap(maps, c.ranges[k - 1], c.ranges[k]);
      }
    }
  }

  lemma WideStays(ranges: seq<Range>, next: Range)
    ensures HasWide(ranges) ==> HasWide(ranges + [next])
  {
    if HasWide(ranges) {
      var k :| 0 <= k < |ranges| && ranges[k].width > 2;
      assert (ranges + [next])[k].width > 2;
    }
  }

  function Raised(r: Range, width: nat): Range {
    r.(width := MaxOf(r.width, width))
  }

  lemma RaisedIsWf(maps: seq<Map>, r: Range, width: nat)
    requires RangeWf(maps, r) && IsWidth(width)
    ensures RangeWf(maps, Raised(r, width)) && Raised(r, width).start == r.start && Raised(r, width).end == r.end
  {
  }

  /** A new cluster at the end, or a longer last one. */
  lemma TilesGrow(maps: seq<Map>, clusters: seq<Cluster>, n: nat, c: Cluster)
    requires Tiles(maps, clusters, n) && ClusterWf(maps, c) && Start(c) == n
    ensures Tiles(maps, clusters + [c], End(c))
  {
    var cs := clusters + [c];
    forall k | 0 < k < |cs|
      ensures End(cs[k - 1]) == Start(cs[k])
    {
      if k < |clusters| {
        assert End(clusters[k - 1]) == Start(clusters[k]);
      }
    }
  }

  lemma TilesExtend(maps: seq<Map>, clusters: seq<Cluster>, n: nat, next: Range)
    requires Tiles(maps, clusters, n) && clusters != [] && RangeWf(maps, next) && next.start == n
    ensures var m := |clusters| - 1;
            ClusterWf(maps, Add(clusters[m], next)) && Tiles(maps, clusters[..m] + [Add(clusters[m], next)], next.end)
  {
    var m := |clusters| - 1;
    Joined(maps, clusters[m], next);
    if m > 0 {
      assert End(clusters[m - 1]) == Start(clusters[m]);
    }
    assert Tiles(maps, clusters[..m], Start(clusters[m]));
    TilesGrow(maps, clusters[..m], Start(clusters[m]), Add(clusters[m], next));
  }

  lemma RowSplit(maps: seq<Map>, ranges: seq<Range>, start: nat, end: nat)
    requires InRow(maps, ranges, start, end) && ranges != []
    ensures Fresh(maps, ranges[0]) && ranges[0].start == start < ranges[0].end <= |maps|
    ensures InRow(maps, ranges[1..], ranges[0].end, end)
  {
    var more := ranges[1..];
    forall k | 0 < k < |more|
      ensures more[k - 1].end == more[k].start
    {
      assert ranges[k].end == ranges[k + 1].start;
    }
    if more != [] {
      assert ranges[0].end == ranges[1].start;
    }
  }

  lemma LastEnds(maps: seq<Map>, clusters: seq<Cluster>, n: nat)
    requires Tiles(maps, clusters, n) && clusters != []
    ensures ClusterWf(maps, clusters[|clusters| - 1]) && |clusters[|clusters| - 1].ranges| > 0
            && End(clusters[|clusters| - 1]) == n
  {
  }

  lemma RaisedKeeps(maps: seq<Map>, last: Cluster, next: Range)
    requires ClusterWf(maps, last) && Fresh(maps, next) && WidthsGrow(maps, last) && End(last) == next.start
    ensures var raised := Raised(next, last.ranges[|last.ranges| - 1].width);
            && RangeWf(maps, raised) && IsMaximal(maps, raised) && raised.start == next.start && raised.end == next.end
            && raised.width == WidthUpTo(maps, raised.end)
            && (IsLargeEqual(raised) <==> IsLargeEqual(next))
            && (MayJoin(maps, last, raised) <==> MayJoin(maps, last, next))
  {
    assert RangeWf(maps, last.ranges[|last.ranges| - 1]);
    RaisedIsWf(maps, next, last.ranges[|last.ranges| - 1].width);
    WidthOfRaised(maps, next);
  }

  /** What is kept while ranges go into clusters. */
  predicate Arranged(maps: seq<Map>, clusters: seq<Cluster>) {
    && Separated(maps, clusters)
    && forall k :: 0 <= k < |clusters| ==> Shapely(maps, clusters[k]) && WidthsGrow(maps, clusters[k])
  }

  lemma LastOfArranged(maps: seq<Map>, clusters: seq<Cluster>)
    requires Arranged(maps, clusters) && clusters != []
    ensures Shapely(maps, clusters[|clusters| - 1]) && WidthsGrow(maps, clusters[|clusters| - 1])
  {
  }

  lemma ArrangedMore(maps: seq<Map>, clusters: seq<Cluster>, c: Cluster)
    requires Arranged(maps, clusters) && Shapely(maps, c) && WidthsGrow(maps, c)
    requires clusters != [] ==> Apart(maps, clusters[|clusters| - 1], c)
    ensures Arranged(maps, clusters + [c])
  {
    hide Apart, Shapely, WidthsGrow;
    var cs := clusters + [c];
    forall k | 0 < k < |cs|
      ensures Apart(maps, cs[k - 1], cs[k])
    {
      if k < |clusters| {
        assert Apart(maps, clusters[k - 1], clusters[k]);
      }
    }
  }

  lemma ArrangedLonger(maps: seq<Map>, clusters: seq<Cluster>, r: Range)
    requires Arranged(maps, clusters) && clusters != [] && RangeWf(maps, r) && r.width == WidthUpTo(maps, r.end)
    requires Shapely(maps, Add(clusters[|clusters| - 1], r))
    ensures Arranged(maps, clusters[..|clusters| - 1] + [Add(clusters[|clusters| - 1], r)])
  {
    var m := |clusters| - 1;
    var c, d := clusters[m], Add(clusters[m], r);
    WidthsGrowOn(maps, c, r);
    ArrangedFront(maps, clusters);
    if m > 0 {
      assert Apart(maps, clusters[m - 1], c);
      StillApart(maps, clusters[m - 1], c, r);
    }
    ArrangedMore(maps, clusters[..m], d);
  }

  lemma ArrangedFront(maps: seq<Map>, clusters: seq<Cluster>)
    requires Arranged(maps, clusters) && clusters != []
    ensures Arranged(maps, clusters[..|clusters| - 1])
  {
    hide Apart, Shapely, WidthsGrow;
  }

  lemma WidthsGrowOn(maps: seq<Map>, c: Cluster, r: Range)
    requires WidthsGrow(maps, c) && r.end <= |maps| && r.width == WidthUpTo(maps, r.end)
    ensures WidthsGrow(maps, Add(c, r))
  {
  }

  lemma StillApart(maps: seq<Map>, b: Cluster, c: Cluster, r: Range)
    requires Apart(maps, b, c) && Shapely(maps, Add(c, r))
    ensures Apart(maps, b, Add(c, r))
  {
    assert Add(c, r).ranges[0] == c.ranges[0];
  }

  lemma FreshIsWf(maps: seq<Map>, r: Range)
    requires Fresh(maps, r)
    ensures RangeWf(maps, r) && IsMaximal(maps, r)
  {
  }

  lemma FirstRange(maps: seq<Map>, r: Range)
    requires Fresh(maps, r) && r.start == 0
    ensures r.width == WidthUpTo(maps, r.end)
  {
    WidthOfRaised(maps, r);
  }

  lemma ApartIs(maps: seq<Map>, c: Cluster, r: Range)
    requires ClusterWf(maps, c) && RangeWf(maps, r) && (IsLargeEqual(r) || !MayJoin(maps, c, r))
    ensures Apart(maps, c, Cluster([r], NOT_SET, 0))
  {
  }

  lemma NewCluster(maps: seq<Map>, r: Range)
    requires RangeWf(maps, r) && IsMaximal(maps, r) && r.width == WidthUpTo(maps, r.end)
    ensures var c := Cluster([r], NOT_SET, 0);
            Shapely(maps, c) && WidthsGrow(maps, c) && ClusterWf(maps, c) && Start(c) == r.start && End(c) == r.end
  {
  }

  lemma WidthsOf(maps: seq<Map>, c: Cluster)
    requires Shapely(maps, c)
    ensures c.ranges != [] && ClusterWf(maps, c) && forall k :: 0 <= k < |c.ranges| ==> IsWidth(c.ranges[k].width)
  {
    forall k | 0 <= k < |c.ranges|
      ensures IsWidth(c.ranges[k].width)
    {
      assert RangeWf(maps, c.ranges[k]);
    }
  }

  lemma WidenedIsWf(maps: seq<Map>, c: Cluster, d: Cluster, width: nat)
    requires ClusterWf(maps, c) && IsWidth(width) && forall k :: 0 <= k < |c.ranges| ==> c.ranges[k].width <= width
    requires d.ranges == WithWidth(c.ranges, width)
    ensures ClusterWf(maps, d) && Start(d) == Start(c) && End(d) == End(c)
  {
    hide WithWidth;
    forall k | 0 <= k < |d.ranges|
      ensures RangeWf(maps, d.ranges[k])
    {
      WidenedRange(maps, c.ranges[k], width);
    }
    forall k | 0 < k < |d.ranges|
      ensures d.ranges[k - 1].end == d.ranges[k].start
    {
      assert c.ranges[k - 1].end == c.ranges[k].start;
    }
  }

  lemma WidenedRange(maps: seq<Map>, r: Range, width: nat)
    requires RangeWf(maps, r) && IsWidth(width) && r.width <= width
    ensures RangeWf(maps, r.(width := width))
  {
    CapacityGrows(r.width, width);
  }

  /** Setting the width of all ranges to that of the widest. */
  lemma WidenedKeeps(maps: seq<Map>, c: Cluster, width: nat)
    requires Shapely(maps, c) && IsWidth(width) && forall k :: 0 <= k < |c.ranges| ==> c.ranges[k].width <= width
    ensures var d := Cluster(WithWidth(c.ranges, width), c.illegal, width);
            && Shapely(maps, d) && IsUniform(d) && ClusterWf(maps, c) && ClusterWf(maps, d)
            && Start(d) == Start(c) && End(d) == End(c)
  {
    hide WithWidth, ClusterWf, RangeWf;
    var rs, d := WithWidth(c.ranges, width), Cluster(WithWidth(c.ranges, width), c.illegal, width);
    WidenedIsWf(maps, c, d, width);
    RangesOf(maps, c);
    RangesOf(maps, d);
    forall k | 0 < k < |rs|
      ensures SmallGap(maps, rs[k - 1], rs[k])
    {
      assert SmallGap(maps, c.ranges[k - 1], c.ranges[k]);
    }
    SomeRanges(maps, c);
    if HasWide(c.ranges) {
      assert rs[0].width > 2;
    }
  }

  /** The widest range is the last, so the width of the cluster is that of all lines up to its end. */
  lemma WidenedIsSized(maps: seq<Map>, c: Cluster, width: nat)
    requires Shapely(maps, c) && WidthsGrow(maps, c) && IsWidth(width)
    requires forall k :: 0 <= k < |c.ranges| ==> c.ranges[k].width <= width
    requires exists k :: 0 <= k < |c.ranges| && c.ranges[k].width == width
    ensures var d := Cluster(WithWidth(c.ranges, width), c.illegal, width); SameLines(c, d) && Sized(maps, d)
  {
    hide RangeWf, Shapely, WidthUpTo;
    var d, n := Cluster(WithWidth(c.ranges, width), c.illegal, width), |c.ranges| - 1;
    var k :| 0 <= k < |c.ranges| && c.ranges[k].width == width;
    assert d.ranges[k].width == width;
    RangesAdvanceOf(maps, c, k);
    WidthGrows(maps, c.ranges[k].end, c.ranges[n].end);
  }

  lemma RangesAdvanceOf(maps: seq<Map>, c: Cluster, k: nat)
    requires Shapely(maps, c) && k < |c.ranges|
    ensures c.ranges[k].end <= End(c) <= |maps|
  {
    ClusterBounds(maps, c);
  }

  /** The cluster has one width, that of all lines up to its end. */
  predicate Sized(maps: seq<Map>, c: Cluster) {
    |c.ranges| > 0 && End(c) <= |maps| && IsUniform(c) && c.width == WidthUpTo(maps, End(c))
  }

  lemma RangesOf(maps: seq<Map>, c: Cluster)
    requires ClusterWf(maps, c)
    ensures forall k :: 0 <= k < |c.ranges| ==> RangeWf(maps, c.ranges[k])
  {
  }

  lemma CapacityGrows(v: nat, w: nat)
    requires v <= w
    ensures Capacity(v) <= Capacity(w)
  {
  }

  lemma TilesReplace(maps: seq<Map>, clusters: seq<Cluster>, n: nat, k: nat, c: Cluster)
    requires Tiles(maps, clusters, n) && k < |clusters| && ClusterWf(maps, c)
    requires Start(c) == Start(clusters[k]) && End(c) == End(clusters[k])
    ensures Tiles(maps, clusters[k := c], n)
  {
    var cs := clusters[k := c];
    forall j | 0 < j < |cs|
      ensures End(cs[j - 1]) == Start(cs[j])
    {
      assert End(clusters[j - 1]) == Start(clusters[j]);
    }
  }

  lemma RangeLines(maps: seq<Map>, c: Cluster, k: nat)
    requires ClusterWf(maps, c) && k < |c.ranges| && IsUniform(c)
    ensures Start(c) <= c.ranges[k].start < c.ranges[k].end <= |maps|
    ensures c.ranges[k].end == if k + 1 < |c.ranges| then c.ranges[k + 1].start else End(c)
    ensures c.ranges[0].width == 1 ==> forall i :: c.ranges[k].start <= i < c.ranges[k].end ==> maps[i].to < 256
  {
    ClusterBounds(maps, c);
    assert RangeWf(maps, c.ranges[k]);
    if k + 1 < |c.ranges| {
      RangePair(maps, c, k);
    }
  }

  /** The bytes that are marked are the targets of the lines. */
  ghost predicate Marks(marks: seq<bool>, maps: seq<Map>, start: nat, end: nat) {
    |marks| == 256 && end <= |maps| && forall b: nat :: b < 256 ==> (marks[b] <==> Uses(maps, start, end, b))
  }

  lemma NoMarks(marks: seq<bool>, maps: seq<Map>, n: nat)
    requires n <= |maps| && |marks| == 256 && forall b :: 0 <= b < 256 ==> !marks[b]
    ensures Marks(marks, maps, n, n)
  {
  }

  lemma MarkOne(marks: seq<bool>, maps: seq<Map>, start: nat, i: nat)
    requires start <= i < |maps| && Marks(marks, maps, start, i) && maps[i].to < 256
    ensures Marks(marks[maps[i].to := true], maps, start, i + 1)
  {
    var t := marks[maps[i].to := true];
    forall b: nat | b < 256
      ensures t[b] <==> Uses(maps, start, i + 1, b)
    {
      if Uses(maps, start, i, b) {
        var j :| start <= j < i && maps[j].to == b;
        assert start <= j < i + 1;
      } else if b == maps[i].to {
        assert start <= i < i + 1;
      }
    }
  }

  lemma FirstFree(marks: seq<bool>, maps: seq<Map>, start: nat, end: nat, code: nat)
    requires Marks(marks, maps, start, end) && forall b: nat :: b < 256 && b < code ==> marks[b]
    requires if code < 256 then !marks[code] else code == NOT_SET
    ensures LowestFree(maps, start, end, code)
  {
  }

  lemma UniformWidth(maps: seq<Map>, c: Cluster)
    requires Sized(maps, c)
    ensures IsUniform(c) && IsWidth(c.width)
  {
  }

  lemma SameLinesAs(maps: seq<Map>, c: Cluster, illegal: nat)
    requires Sized(maps, c)
    ensures SameLines(c, c.(illegal := illegal)) && Sized(maps, c.(illegal := illegal))
  {
  }

  lemma HolesNeedRanges(maps: seq<Map>, c: Cluster)
    requires ClusterWf(maps, c) && HasHoles(maps, c)
    ensures |c.ranges| > 1
  {
  }

  lemma IsSettled(maps: seq<Map>, c: Cluster, illegal: nat)
    requires Shapely(maps, c) && ClusterWf(maps, c) && IsUniform(c) && Start(c) <= End(c) <= |maps|
    requires if !HasHoles(maps, c) then illegal == NOT_SET
             else if c.width == 1 then LowestFree(maps, Start(c), End(c), illegal)
             else illegal == if c.width == 2 then ILLEGAL_16 else ILLEGAL_32
    ensures var d := c.(illegal := illegal);
            ClusterWf(maps, d) && Start(d) == Start(c) && End(d) == End(c) && Shapely(maps, d) && Settled(maps, d)
              && IsUniform(d)
  {
    hide LowestFree, RangeWf;
    var d := c.(illegal := illegal);
    assert forall k :: 0 <= k < |c.ranges| ==> (HoleAfter(maps, c, k) <==> HoleAfter(maps, d, k));
  }

  lemma NothingFilled(maps: seq<Map>, start: nat, first: nat, illegal: nat)
    requires start <= |maps|
    ensures Filled(maps, start, start, first, illegal, [])
  {
  }

  lemma FillLine(maps: seq<Map>, start: nat, i: nat, first: nat, illegal: nat, values: seq<nat>)
    requires start <= i < |maps| && Filled(maps, start, i, first, illegal, values) && |values| == maps[i].from - first
    ensures Filled(maps, start, i + 1, first, illegal, values + [maps[i].to])
  {
    var w := values + [maps[i].to];
    forall j | 0 <= j < |w| && w[j] != illegal
      ensures exists l :: start <= l < i + 1 && maps[l].from == first + j
    {
      if j < |values| {
        var l :| start <= l < i && maps[l].from == first + j;
        assert start <= l < i + 1;
      } else {
        assert start <= i < i + 1 && maps[i].from == first + j;
      }
    }
  }

  lemma FillHole(maps: seq<Map>, start: nat, i: nat, first: nat, illegal: nat, values: seq<nat>)
    requires start <= i <= |maps| && Filled(maps, start, i, first, illegal, values)
    ensures Filled(maps, start, i, first, illegal, values + [illegal])
  {
    var w := values + [illegal];
    forall j | 0 <= j < |w| && w[j] != illegal
      ensures exists l :: start <= l < i && maps[l].from == first + j
    {
      assert w[j] == values[j];
    }
  }

  lemma RangeCodes(maps: seq<Map>, c: Cluster, k: nat)
    requires ClusterWf(maps, c) && k < |c.ranges|
    ensures var r := c.ranges[k];
            && Start(c) <= r.start < r.end <= |maps|
            && r.end == (if k + 1 < |c.ranges| then c.ranges[k + 1].start else End(c))
            && forall i :: r.start <= i < r.end ==> maps[i].from == maps[r.start].from + (i - r.start)
  {
    ClusterBounds(maps, c);
    assert RangeWf(maps, c.ranges[k]);
    if k + 1 < |c.ranges| {
      RangePair(maps, c, k);
    }
  }

  lemma HoleIs(maps: seq<Map>, c: Cluster, k: nat, toUni: bool)
    requires Legal(maps, toUni) && ClusterWf(maps, c) && k + 1 < |c.ranges|
    ensures var r, next := c.ranges[k], c.ranges[k + 1];
            && 0 < r.end <= |maps| && next.start < |maps| && maps[r.end - 1].from + 1 <= maps[next.start].from
            && (HoleAfter(maps, c, k) <==> maps[r.end - 1].from + 1 != maps[next.start].from)
  {
    RangePair(maps, c, k);
  }

  lemma NoHoleAtEnd(maps: seq<Map>, c: Cluster)
    requires ClusterWf(maps, c)
    ensures !HoleAfter(maps, c, |c.ranges| - 1)
  {
  }

  lemma PlainIsNotStuck(maps: seq<Map>, c: Cluster)
    requires ClusterWf(maps, c) && !NeedsTable(c)
    ensures !Stuck(maps, c)
  {
  }

  lemma FirstCodesGrow(maps: seq<Map>, clusters: seq<Cluster>, j: nat, k: nat, toUni: bool)
    requires Legal(maps, toUni) && Tiles(maps, clusters, |maps|) && j < k < |clusters|
    ensures FirstCode(maps, clusters[j]) < FirstCode(maps, clusters[k])
  {
    ClustersAdvance(maps, clusters, |maps|, j, k);
    ClusterBounds(maps, clusters[j]);
    ClusterBounds(maps, clusters[k]);
  }

  lemma TableAdded(maps: seq<Map>, clusters: seq<Cluster>, k: nat, tables: seq<Table>, t: Table, toUni: bool)
    requires Legal(maps, toUni) && Tiles(maps, clusters, |maps|) && k < |clusters|
             && TablesFor(maps, clusters, k, tables)
    requires TableOk(maps, clusters[k], t)
    ensures TablesFor(maps, clusters, k + 1, tables + [t])
  {
    hide Legal, TableOk, NeedsTable, FirstCode, LastCode, RangeWf;
    var ts := tables + [t];
    NameOfTable(maps, clusters[k], t);
    forall j | 0 <= j < k + 1
      ensures NeedsTable(clusters[j]) ==> HasTable(maps, clusters[j], ts)
    {
      FindTableAppend(tables, t, FirstCode(maps, clusters[j]), LastCode(maps, clusters[j]));
      if j < k {
        FirstCodesGrow(maps, clusters, j, k, toUni);
      } else {
        forall i | 0 <= i < |tables|
          ensures tables[i].first != t.first
        {
          var l :| 0 <= l < k && tables[i].first == FirstCode(maps, clusters[l]);
          FirstCodesGrow(maps, clusters, l, k, toUni);
        }
      }
    }
    forall i | 0 <= i < |ts|
      ensures exists l :: 0 <= l < k + 1 && ts[i].first == FirstCode(maps, clusters[l])
    {
      if i < |tables| {
        var l :| 0 <= l < k && tables[i].first == FirstCode(maps, clusters[l]);
        assert 0 <= l < k + 1;
      } else {
        assert 0 <= k < k + 1;
      }
    }
  }

  lemma TableSkipped(maps: seq<Map>, clusters: seq<Cluster>, k: nat, tables: seq<Table>)
    requires Tiles(maps, clusters, |maps|) && k < |clusters| && TablesFor(maps, clusters, k, tables)
             && !NeedsTable(clusters[k])
    ensures TablesFor(maps, clusters, k + 1, tables)
  {
    hide ClusterWf, NeedsTable, FirstCode, HasTable;
    forall i | 0 <= i < |tables|
      ensures exists l :: 0 <= l < k + 1 && tables[i].first == FirstCode(maps, clusters[l])
    {
      var l :| 0 <= l < k && tables[i].first == FirstCode(maps, clusters[l]);
      assert 0 <= l < k + 1;
    }
  }

  lemma SomeClusters(maps: seq<Map>, clusters: seq<Cluster>, toUni: bool)
    requires Legal(maps, toUni) && Tiles(maps, clusters, |maps|)
    ensures clusters != []
  {
  }

  /** A decoder whose cluster goes from 0 to 255 has no other. */
  lemma OnlyCluster(maps: seq<Map>, clusters: seq<Cluster>, k: nat, toUni: bool)
    requires Legal(maps, toUni) && Tiles(maps, clusters, |maps|) && k < |clusters| && toUni
    requires FirstCode(maps, clusters[k]) == 0 && LastCode(maps, clusters[k]) == 0xFF
    ensures |clusters| == 1
  {
    ClusterBounds(maps, clusters[k]);
    if k > 0 {
      FirstCodesGrow(maps, clusters, 0, k, toUni);
      assert false;
    } else if |clusters| > 1 {
      LinesAround(maps, clusters[0], toUni);
      LinesAround(maps, clusters[1], toUni);
      assert false;
    }
  }

  lemma RowGrows(maps: seq<Map>, ranges: seq<Range>, end: nat, r: Range)
    requires InRow(maps, ranges, 0, end) && Fresh(maps, r) && r.start == end
    ensures InRow(maps, ranges + [r], 0, r.end)
  {
    var rs := ranges + [r];
    forall k | 0 < k < |rs|
      ensures rs[k - 1].end == rs[k].start
    {
      if k < |ranges| {
        assert ranges[k - 1].end == ranges[k].start;
      }
    }
  }

  // ---- the compiler

  /** One conversion function in the making. */
  class Generator {
    const maps: seq<Map>
    const toUni: bool
    var ranges: seq<Range>
    var clusters: seq<Cluster>
    var tables: seq<Table>
    var arms: seq<Arm>
    var tail: bool

    constructor (maps: seq<Map>, toUni: bool)
      ensures this.maps == maps && this.toUni == toUni && ranges == [] && clusters == [] && tables == [] && arms == []
              && !tail
    {
      this.maps, this.toUni := maps, toUni;
      ranges, clusters, tables, arms, tail := [], [], [], [], false;
    }

    /** Takes the longest range that starts at line `i`, if there are lines left. */
    method AppendRange(i: nat) returns (more: bool, next: nat)
      requires Legal(maps, toUni)
      modifies this`ranges
      ensures more <==> i < |maps|
      ensures !more ==> ranges == old(ranges) && next == i
      ensures more ==> i < next <= |maps| && |ranges| == |old(ranges)| + 1 && ranges[..|old(ranges)|] == old(ranges)
      ensures more ==>
        var r := ranges[|ranges| - 1];
        Fresh(maps, r) && r.start == i && r.end == next
    {
      if i >= |maps| {
        return false, i;
      }
      var idx, end, toMax, kind, again := i, i, 0, KindOf(maps[i]), true;
      while again
        invariant i <= end <= idx <= |maps| && (again ==> idx < |maps|) && (idx > i ==> end + 1 == idx)
        invariant idx == i ==> toMax == 0 && again
        invariant idx < |maps| && again ==> maps[idx].from == maps[i].from + (idx - i) && KindOf(maps[idx]) == kind
        invariant forall j :: i <= j < idx ==>
                  maps[j].from == maps[i].from + (j - i) && KindOf(maps[j]) == kind && maps[j].to <= toMax
        invariant idx > i ==> exists j :: i <= j < idx && toMax == maps[j].to
        invariant !again ==>
                  i < idx && (idx == |maps| || maps[idx].from != maps[end].from + 1 || KindOf(maps[idx]) != kind)
        decreases |maps| - idx, again
      {
        if toMax < maps[idx].to {
          toMax := maps[idx].to;
        }
        assert toMax == maps[idx].to || idx > i;
        end := idx;
        idx := idx + 1;
        again := idx < |maps| && maps[end].from + 1 == maps[idx].from && KindOf(maps[idx]) == kind;
      }
      assert toMax < U32;
      ranges := ranges + [Range(i, idx, kind, CodeWidth(toMax))];
      return true, idx;
    }

    /** Whether a range can be added to the last cluster. */
    method CanBeMerged(last: Cluster, next: Range) returns (b: bool)
      requires Legal(maps, toUni) && ClusterWf(maps, last) && RangeWf(maps, next) && End(last) == next.start
      ensures b <==> MayJoin(maps, last, next)
    {
      var lastClustered := last.ranges[|last.ranges| - 1];
      assert RangeWf(maps, lastClustered);
      if IsLargeEqual(lastClustered) {
        return false;
      }
      if maps[next.start].from - maps[lastClustered.end - 1].from > MERGE_GAP {
        return false;
      }
      var k := 0;
      while k < |last.ranges|
        invariant 0 <= k <= |last.ranges| && forall j :: 0 <= j < k ==> last.ranges[j].width <= 2
      {
        if last.ranges[k].width > 2 {
          return true;
        }
        k := k + 1;
      }
      var first := last.ranges[0];
      return maps[next.end - 1].from - maps[first.start].from <= 0x100;
    }

    /** Moves all ranges into clusters. */
    method JoinRanges()
      requires Legal(maps, toUni) && clusters == [] && InRow(maps, ranges, 0, |maps|)
      modifies this`ranges, this`clusters
      ensures ranges == [] && Tiles(maps, clusters, |maps|) && Arranged(maps, clusters)
    {
      hide Legal, ClusterWf, RangeWf, IsLargeEqual, MayJoin, Shapely, Fresh, Apart;
      ghost var n: nat := 0;
      while ranges != []
        invariant n <= |maps| && InRow(maps, ranges, n, |maps|) && Tiles(maps, clusters, n) && Arranged(maps, clusters)
        decreases |ranges|
      {
        n := JoinOne(n);
      }
    }

    /** Moves the first range into the last cluster or into a new one. */
    method JoinOne(ghost n: nat) returns (ghost end: nat)
      requires Legal(maps, toUni) && ranges != [] && InRow(maps, ranges, n, |maps|) && Tiles(maps, clusters, n)
      requires Arranged(maps, clusters)
      modifies this`ranges, this`clusters
      ensures ranges == old(ranges[1..]) && end == old(ranges[0].end) <= |maps|
      ensures InRow(maps, ranges, end, |maps|) && Tiles(maps, clusters, end) && Arranged(maps, clusters)
    {
      hide Legal, ClusterWf, RangeWf, IsLargeEqual, MayJoin, Shapely, Arranged, Fresh, Apart, InRow, WidthsGrow,
        WidthUpTo, IsMaximal;
      var next := ranges[0];
      RowSplit(maps, ranges, n, |maps|);
      FreshIsWf(maps, next);
      var join := false;
      if clusters != [] {
        LastEnds(maps, clusters, n);
        if !IsLargeEqual(next) {
          join := CanBeMerged(clusters[|clusters| - 1], next);
        }
      }
      ranges := ranges[1..];
      end := next.end;
      if clusters != [] {
        var last := clusters[|clusters| - 1];
        LastOfArranged(maps, clusters);
        var raised := Raised(next, last.ranges[|last.ranges| - 1].width);
        RaisedKeeps(maps, last, next);
        if join {
          TilesExtend(maps, clusters, n, raised);
          JoinedIsShapely(maps, last, raised);
          ArrangedLonger(maps, clusters, raised);
          clusters := clusters[..|clusters| - 1] + [Add(last, raised)];
        } else {
          NewCluster(maps, raised);
          TilesGrow(maps, clusters, n, Cluster([raised], NOT_SET, 0));
          ApartIs(maps, last, raised);
          ArrangedMore(maps, clusters, Cluster([raised], NOT_SET, 0));
          clusters := clusters + [Cluster([raised], NOT_SET, 0)];
        }
      } else {
        FirstRange(maps, next);
        NewCluster(maps, next);
        TilesGrow(maps, clusters, n, Cluster([next], NOT_SET, 0));
        ArrangedMore(maps, clusters, Cluster([next], NOT_SET, 0));
        clusters := clusters + [Cluster([next], NOT_SET, 0)];
      }
    }

    /** The widest target of a cluster decides for all its ranges. */
    method WidenRanges(rs: seq<Range>) returns (wide: seq<Range>, width: nat)
      requires rs != [] && forall k :: 0 <= k < |rs| ==> IsWidth(rs[k].width)
      ensures IsWidth(width) && wide == WithWidth(rs, width)
      ensures (forall k :: 0 <= k < |rs| ==> rs[k].width <= width) && exists k :: 0 <= k < |rs| && rs[k].width == width
    {
      width := 0;
      var k := 0;
      while k < |rs|
        invariant 0 <= k <= |rs| && (k == 0 ==> width == 0)
        invariant (forall j :: 0 <= j < k ==> rs[j].width <= width)
                  && (k > 0 ==> exists j :: 0 <= j < k && rs[j].width == width)
      {
        if width < rs[k].width {
          width := rs[k].width;
        }
        assert width == rs[k].width || k > 0;
        k := k + 1;
      }
      wide := [];
      while |wide| < |rs|
        invariant |wide| <= |rs| && wide == WithWidth(rs[..|wide|], width)
      {
        k := |wide|;
        assert rs[..k + 1][..k] == rs[..k];
        wide := wide + [rs[k].(width := width)];
      }
      assert rs[..|rs|] == rs;
    }

    method Widen()
      requires Tiles(maps, clusters, |maps|) && Arranged(maps, clusters)
      modifies this`clusters
      ensures Tiles(maps, clusters, |maps|) && Separated(maps, clusters)
      ensures forall k :: 0 <= k < |clusters| ==> Shapely(maps, clusters[k]) && Sized(maps, clusters[k])
    {
      hide ClusterWf, Shapely, IsUniform, WidthsGrow, Sized, SameLines, Separated;
      var k := 0;
      while k < |clusters|
        invariant 0 <= k <= |clusters| && Tiles(maps, clusters, |maps|) && Separated(maps, clusters)
        invariant forall j :: 0 <= j < |clusters| ==> Shapely(maps, clusters[j])
        invariant forall j :: 0 <= j < k ==> Sized(maps, clusters[j])
        invariant forall j :: k <= j < |clusters| ==> WidthsGrow(maps, clusters[j])
      {
        var c := clusters[k];
        WidthsOf(maps, c);
        var wide, width := WidenRanges(c.ranges);
        WidenedKeeps(maps, c, width);
        WidenedIsSized(maps, c, width);
        TilesReplace(maps, clusters, |maps|, k, Cluster(wide, c.illegal, width));
        SeparatedReplace(maps, clusters, k, Cluster(wide, c.illegal, width));
        clusters := clusters[k := Cluster(wide, c.illegal, width)];
        k := k + 1;
      }
    }

    /** Whether there is a code between two ranges that no range has. */
    method FindHoles(c: Cluster) returns (found: bool)
      requires ClusterWf(maps, c)
      ensures found <==> HasHoles(maps, c)
    {
      hide ClusterWf;
      var k := 0;
      SomeRanges(maps, c);
      while k < |c.ranges| - 1
        invariant 0 <= k < |c.ranges| && forall j :: 0 <= j < k ==> !HoleAfter(maps, c, j)
      {
        RangePair(maps, c, k);
        var r, n := c.ranges[k], c.ranges[k + 1];
        if maps[r.end - 1].from + 1 != maps[n.start].from {
          assert HoleAfter(maps, c, k);
          return true;
        }
        k := k + 1;
      }
      return false;
    }

    /** The lowest byte that is no target in the cluster. */
    method FindIllegal8(c: Cluster) returns (code: nat)
      requires ClusterWf(maps, c) && IsUniform(c) && End(c) <= |maps|
      ensures if |c.ranges| > 1 && c.width == 1 then LowestFree(maps, Start(c), End(c), code) else code == 0
    {
      hide ClusterWf, Marks, LowestFree;
      SomeRanges(maps, c);
      ClusterBounds(maps, c);
      var inTables := new bool[256](_ => false);
      ghost var n: nat := Start(c);
      NoMarks(inTables[..], maps, n);
      if |c.ranges| > 1 && c.ranges[0].width == 1 {
        var k := 0;
        while k < |c.ranges|
          invariant 0 <= k <= |c.ranges| && Marks(inTables[..], maps, Start(c), n)
          invariant n == if k < |c.ranges| then c.ranges[k].start else End(c)
        {
          RangeLines(maps, c, k);
          var i := c.ranges[k].start;
          while i < c.ranges[k].end
            invariant c.ranges[k].start <= i <= c.ranges[k].end && Marks(inTables[..], maps, Start(c), i)
          {
            MarkOne(inTables[..], maps, Start(c), i);
            inTables[maps[i].to] := true;
            i := i + 1;
          }
          n := i;
          k := k + 1;
        }
      } else {
        assert !inTables[0];
      }
      code := 0;
      while code < 256 && inTables[code]
        invariant code <= 256 && forall b: nat :: b < code ==> inTables[b]
      {
        code := code + 1;
      }
      if code == 256 {
        code := NOT_SET;
      }
      FirstFree(inTables[..], maps, Start(c), n, code);
    }

    method ChooseIllegal()
      requires Legal(maps, toUni) && Tiles(maps, clusters, |maps|) && Separated(maps, clusters)
      requires forall k :: 0 <= k < |clusters| ==> Shapely(maps, clusters[k]) && Sized(maps, clusters[k])
      modifies this`clusters
      ensures Tiles(maps, clusters, |maps|) && Separated(maps, clusters)
      ensures forall k :: 0 <= k < |clusters| ==>
              Shapely(maps, clusters[k]) && Settled(maps, clusters[k]) && Sized(maps, clusters[k])
    {
      hide ClusterWf, Shapely, IsUniform, Legal, Settled, HasHoles, Sized, SameLines, Separated;
      var k := 0;
      while k < |clusters|
        invariant 0 <= k <= |clusters| && Tiles(maps, clusters, |maps|) && Separated(maps, clusters)
        invariant forall j :: 0 <= j < |clusters| ==> Shapely(maps, clusters[j]) && Sized(maps, clusters[j])
        invariant forall j :: 0 <= j < k ==> Settled(maps, clusters[j])
      {
        var c := clusters[k];
        WidthsOf(maps, c);
        ClusterBounds(maps, c);
        UniformWidth(maps, c);
        var holes := FindHoles(c);
        var illegal := NOT_SET;
        if holes {
          HolesNeedRanges(maps, c);
          if c.width == 1 {
            illegal := FindIllegal8(c);
          } else if c.width == 2 {
            illegal := ILLEGAL_16;
          } else {
            illegal := ILLEGAL_32;
          }
        }
        IsSettled(maps, c, illegal);
        TilesReplace(maps, clusters, |maps|, k, c.(illegal := illegal));
        SameLinesAs(maps, c, illegal);
        SeparatedReplace(maps, clusters, k, c.(illegal := illegal));
        clusters := clusters[k := c.(illegal := illegal)];
        k := k + 1;
      }
    }

    /** Ranges to clusters, with widths and illegal codes. */
    method Merge()
      requires Legal(maps, toUni) && clusters == [] && InRow(maps, ranges, 0, |maps|)
      modifies this`ranges, this`clusters
      ensures ranges == [] && Tiles(maps, clusters, |maps|) && Separated(maps, clusters)
      ensures forall k :: 0 <= k < |clusters| ==>
              Shapely(maps, clusters[k]) && Settled(maps, clusters[k]) && Sized(maps, clusters[k])
    {
      hide Shapely, Settled, Sized, Separated, ClusterWf, Legal, Arranged, InRow;
      JoinRanges();
      Widen();
      ChooseIllegal();
    }

    /** The table of one cluster, which cannot be made if it has a hole and no code for it. */
    method EmitTable(c: Cluster) returns (made: bool, values: seq<nat>)
      requires Legal(maps, toUni) && ClusterWf(maps, c)
      ensures made <==> !Stuck(maps, c)
      ensures made ==> TableOk(maps, c, Table(FirstCode(maps, c), LastCode(maps, c), c.width, values))
    {
      hide ClusterWf, Filled, HoleAfter, Legal;
      SomeRanges(maps, c);
      ClusterBounds(maps, c);
      var first := maps[c.ranges[0].start].from;
      values := [];
      var k := 0;
      NothingFilled(maps, Start(c), first, c.illegal);
      while k < |c.ranges|
        invariant 0 <= k <= |c.ranges|
        invariant Filled(maps, Start(c), if k < |c.ranges| then c.ranges[k].start else End(c), first, c.illegal, values)
        invariant |values| == if k < |c.ranges| then maps[c.ranges[k].start].from - first
                  else LastCode(maps, c) - first + 1
        invariant c.illegal == NOT_SET ==> forall j :: 0 <= j < k ==> !HoleAfter(maps, c, j)
      {
        var r := c.ranges[k];
        RangeCodes(maps, c, k);
        var i := r.start;
        while i < r.end
          invariant r.start <= i <= r.end && Filled(maps, Start(c), i, first, c.illegal, values)
          invariant |values| == maps[r.start].from - first + (i - r.start)
        {
          FillLine(maps, Start(c), i, first, c.illegal, values);
          values := values + [maps[i].to];
          i := i + 1;
        }
        if k + 1 < |c.ranges| {
          var high := maps[c.ranges[k + 1].start].from;
          var code := maps[r.end - 1].from + 1;
          HoleIs(maps, c, k, toUni);
          if code != high {
            if c.illegal == NOT_SET {
              return false, values;
            }
            while code < high
              invariant code <= high && |values| == code - first
              invariant Filled(maps, Start(c), r.end, first, c.illegal, values)
            {
              FillHole(maps, Start(c), r.end, first, c.illegal, values);
              values := values + [c.illegal];
              code := code + 1;
            }
          }
        }
        NoHoleAtEnd(maps, c);
        k := k + 1;
      }
      return true, values;
    }

    /** A table for each cluster that needs one. */
    method GenerateTables() returns (made: bool)
      requires Legal(maps, toUni) && Tiles(maps, clusters, |maps|) && tables == []
      modifies this`tables
      ensures made <==> forall k :: 0 <= k < |clusters| ==> ClusterWf(maps, clusters[k]) && !Stuck(maps, clusters[k])
      ensures made ==> TablesFor(maps, clusters, |clusters|, tables)
    {
      hide ClusterWf, Legal, HasTable, TableOk, Stuck, NeedsTable, FirstCode, LastCode;
      var k := 0;
      while k < |clusters|
        invariant 0 <= k <= |clusters| && TablesFor(maps, clusters, k, tables)
        invariant forall j :: 0 <= j < k ==> !Stuck(maps, clusters[j])
      {
        var c := clusters[k];
        SomeRanges(maps, c);
        if NeedsTable(c) {
          var one, values := EmitTable(c);
          if !one {
            return false;
          }
          TableAdded(maps, clusters, k, tables, Table(FirstCode(maps, c), LastCode(maps, c), c.width, values), toUni);
          tables := tables + [Table(FirstCode(maps, c), LastCode(maps, c), c.width, values)];
        } else {
          PlainIsNotStuck(maps, c);
          TableSkipped(maps, clusters, k, tables);
        }
        k := k + 1;
      }
      return true;
    }

    /** An arm for each cluster, and a last return unless one arm takes everything. */
    method GenerateBody()
      requires Legal(maps, toUni) && Tiles(maps, clusters, |maps|) && arms == [] && !tail
      modifies this`arms, this`tail
      ensures |arms| == |clusters| && clusters != []
      ensures forall k :: 0 <= k < |clusters| ==>
              ClusterWf(maps, clusters[k]) && arms[k] == ArmOf(maps, clusters[k], toUni)
      ensures tail <==> NeedsTail(maps, clusters[|clusters| - 1], toUni)
    {
      hide ClusterWf, Legal, ActionOf;
      SomeClusters(maps, clusters, toUni);
      var firstCode, lastCode := false, false;
      var k := 0;
      while k < |clusters|
        invariant 0 <= k <= |clusters| && |arms| == k
        invariant forall j :: 0 <= j < k ==> arms[j] == ArmOf(maps, clusters[j], toUni)
        invariant k > 0 ==> (firstCode || lastCode <==> NeedsTail(maps, clusters[k - 1], toUni))
      {
        var c := clusters[k];
        SomeRanges(maps, c);
        ClusterBounds(maps, c);
        var firstFrom, lastFrom := maps[c.ranges[0].start].from, maps[c.ranges[|c.ranges| - 1].end - 1].from;
        firstCode := firstFrom != 0;
        lastCode := lastFrom != 0xFF || !toUni;
        var guard := Always;
        if !firstCode && !lastCode {
          OnlyCluster(maps, clusters, k, toUni);
          assert |clusters| == 1;
        } else if firstFrom == lastFrom {
          guard := Is(lastFrom);
        } else if firstCode && lastCode {
          guard := Between(firstFrom, lastFrom);
        } else if firstCode {
          guard := AtLeast(firstFrom);
        } else {
          guard := AtMost(lastFrom);
        }
        arms := arms + [Arm(guard, ActionOf(maps, c))];
        k := k + 1;
      }
      tail := firstCode || lastCode;
    }

    /**
     Compiles the charset, or gives up on a cluster that has no code for its holes. That never
     happens to a decoder, and to an encoder exactly if no byte is spare.
     */
    method Generate() returns (done: bool)
      requires Legal(maps, toUni) && ranges == [] && clusters == [] && tables == [] && arms == [] && !tail
      modifies this
      ensures done <==> forall k :: 0 <= k < |clusters| ==> ClusterWf(maps, clusters[k]) && !Stuck(maps, clusters[k])
      ensures done ==> Compiled(maps, clusters, toUni, Program(tables, arms, tail))
      ensures Tiles(maps, clusters, |maps|) && Separated(maps, clusters)
      ensures forall k :: 0 <= k < |clusters| ==>
              Shapely(maps, clusters[k]) && Settled(maps, clusters[k]) && Sized(maps, clusters[k])
      ensures toUni ==> done
      ensures !toUni && DistinctTargets(maps) ==> (done <==> !NoByteSpare(maps))
      ensures toUni ==> Decodes(Program(tables, arms, tail), maps)
      ensures toUni ==> (Computes(Program(tables, arms, tail), maps, true) <==> NoneLost(maps))
      ensures !toUni && done ==> Computes(Program(tables, arms, tail), maps, false)
    {
      hide Legal, RangeWf, Settled, Shapely, TablesFor, ArmOf, NeedsTail, ClusterWf, Stuck, Fresh, Sized, Separated,
        NoByteSpare, DistinctTargets, NoneLost, Computes, Decodes;
      MakeRanges();
      Merge();
      Spares(maps, clusters, toUni);
      done := GenerateTables();
      if done {
        GenerateBody();
        WhatIsComputed(maps, clusters, toUni, Program(tables, arms, tail));
      }
    }

    /** One range after the other, until there are no lines left. */
    method MakeRanges()
      requires Legal(maps, toUni) && ranges == []
      modifies this`ranges
      ensures InRow(maps, ranges, 0, |maps|)
    {
      hide Legal, Fresh;
      var more, i := true, 0;
      while more
        invariant i <= |maps| && InRow(maps, ranges, 0, i) && (!more ==> i == |maps|)
        decreases |maps| - i, more
      {
        ghost var was, from := ranges, i;
        more, i := AppendRange(i);
        if more {
          RowGrows(maps, was, from, ranges[|ranges| - 1]);
          assert ranges == was + [ranges[|ranges| - 1]];
        }
      }
    }
  }

  /** Whose clusters are stuck. */
  lemma Spares(maps: seq<Map>, clusters: seq<Cluster>, toUni: bool)
    requires Legal(maps, toUni) && Tiles(maps, clusters, |maps|) && Separated(maps, clusters)
    requires forall k :: 0 <= k < |clusters| ==>
             Shapely(maps, clusters[k]) && Settled(maps, clusters[k]) && Sized(maps, clusters[k])
    ensures toUni ==> forall k :: 0 <= k < |clusters| ==> ClusterWf(maps, clusters[k]) && !Stuck(maps, clusters[k])
    ensures !toUni && DistinctTargets(maps) ==>
      (NoByteSpare(maps) <==>
        exists k :: 0 <= k < |clusters| && ClusterWf(maps, clusters[k]) && Stuck(maps, clusters[k]))
  {
    hide Legal, Settled, Shapely, Stuck, Separated, NoByteSpare, DistinctTargets, RangeWf;
    forall k | 0 <= k < |clusters| && toUni
      ensures ClusterWf(maps, clusters[k]) && !Stuck(maps, clusters[k])
    {
      if Stuck(maps, clusters[k]) {
        WhenStuck(maps, clusters[k], toUni);
      }
    }
    if !toUni && DistinctTargets(maps) {
      EncoderSticks(maps, clusters);
    }
  }

  /** Whether the program is right can be told from the lines. */
  lemma WhatIsComputed(maps: seq<Map>, clusters: seq<Cluster>, toUni: bool, p: Program)
    requires Compiled(maps, clusters, toUni, p) && Separated(maps, clusters)
    requires forall k :: 0 <= k < |clusters| ==>
             Shapely(maps, clusters[k]) && Settled(maps, clusters[k]) && Sized(maps, clusters[k])
    ensures toUni ==> Decodes(p, maps)
    ensures toUni ==> (Computes(p, maps, true) <==> NoneLost(maps))
    ensures !toUni ==> Computes(p, maps, false)
  {
    hide Compiled, Legal, Settled, Shapely, Separated, RangeWf, ClusterWf, Answered, NoneLost, Computes, Eval;
    if toUni {
      IsCompiled(maps, clusters, toUni, p);
      forall c: nat | c <= 0xFF
        ensures Eval(p, true, c) == Answered(maps, c)
      {
        DecoderAnswers(maps, clusters, p, c);
      }
      DecoderIsRightIfNoneLost(maps, clusters, p);
    } else {
      EncodersAreRight(maps, clusters, p);
    }
  }

  predicate IsUniform(c: Cluster) {
    IsWidth(c.width) && forall k :: 0 <= k < |c.ranges| ==> c.ranges[k].width == c.width
  }

  function WithWidth(rs: seq<Range>, width: nat): (r: seq<Range>)
    ensures |r| == |rs| && forall k :: 0 <= k < |rs| ==> r[k] == rs[k].(width := width)
  {
    if rs == [] then [] else WithWidth(rs[..|rs| - 1], width) + [rs[|rs| - 1].(width := width)]
  }
}
