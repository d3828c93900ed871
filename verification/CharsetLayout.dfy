/** The numbers that the charset compiler uses, and a charset whose program is written out. */
module CharsetLayout {
  import opened CharsetCode
  import opened CharsetMeaning
  import opened CharsetPolicy
  import opened CharsetCompiler

  /** The codes that mean something else, and how many codes the widths have. */
  lemma Codes()
    ensures ILLEGAL_16 == 0xD800 && ILLEGAL_32 == 0x11_0000 && NOT_SET == 4_294_967_295 && UNICODE_MAX == 0x10_FFFF
    ensures Capacity(1) == 0x100 && Capacity(2) == 0x1_0000 && Capacity(4) == 0x1_0000_0000
  {
  }

  /** A decoder stores 32 bits, an encoder 8. */
  lemma WhatIsStored(c: nat)
    ensures Stored(true, c) < 0x1_0000_0000 && Stored(false, c) < 0x100
    ensures c < 0x1_0000_0000 ==> Stored(true, c) == c
    ensures c < 0x100 ==> Stored(false, c) == c
    ensures Stored(true, 0x1_0000_0000) == 0 && Stored(false, 0x100) == 0
  {
  }

  /** What becomes of a cluster: a constant, the code itself, or a table. */
  lemma WhatIsDone(maps: seq<Map>, c: Cluster)
    requires ClusterWf(maps, c)
    ensures |c.ranges| == 1 && End(c) == Start(c) + 1 ==> ActionOf(maps, c) == Constant(maps[Start(c)].to)
    ensures |c.ranges| == 1 && End(c) >= Start(c) + 128 && c.ranges[0].kind.EqualCodes? ==> ActionOf(maps, c) == Same
    ensures ActionOf(maps, c).LookUp? <==>
            |c.ranges| > 1 || (Start(c) + 1 < End(c) && (c.ranges[0].kind.OtherCodes? || End(c) < Start(c) + 128))
  {
    assert RangeWf(maps, c.ranges[0]);
  }

  /**
   A range is taken into a cluster over a gap of 127 codes and not over one of 128, and only up to
   257 codes in all unless there are wide ones.
   */
  lemma WhereClustersEnd(maps: seq<Map>, c: Cluster, next: Range)
    requires ClusterWf(maps, c) && RangeWf(maps, next) && c.ranges[|c.ranges| - 1].kind.OtherCodes?
    ensures
      var last := c.ranges[|c.ranges| - 1];
      MayJoin(maps, c, next) <==>
        && maps[next.start].from - maps[last.end - 1].from <= 128
        && ((exists k :: 0 <= k < |c.ranges| && c.ranges[k].width > 2)
            || maps[next.end - 1].from - maps[Start(c)].from < 257)
  {
  }

  // ---- a charset of two lines with a hole between them

  const SAMPLE: seq<Map> := [Map(0x41, 0x41), Map(0x43, 0x20AC)]

  lemma SecondFollows(maps: seq<Map>, r: Range)
    requires RangeWf(maps, r) && r.start + 1 < r.end
    ensures r.start + 1 < |maps| && maps[r.start + 1].from == maps[r.start].from + 1
  {
  }

  lemma {:induction false} OneLineEach(maps: seq<Map>, c: Cluster, k: nat)
    requires ClusterWf(maps, c) && k < |c.ranges|
    requires forall j :: 0 <= j < |c.ranges| ==> c.ranges[j].end == c.ranges[j].start + 1
    ensures c.ranges[k].end == Start(c) + k + 1
    decreases k
  {
    if k == 0 {
    } else {
      OneLineEach(maps, c, k - 1);
    }
  }

  lemma SampleRange(r: Range)
    requires RangeWf(SAMPLE, r)
    ensures r.end == r.start + 1 && r.kind == if r.start == 0 then EqualCodes else OtherCodes
  {
    if r.start + 1 < r.end {
      SecondFollows(SAMPLE, r);
      assert false;
    }
    assert KindOf(SAMPLE[r.start]) == r.kind;
  }

  lemma SampleCluster(c: Cluster)
    requires ClusterWf(SAMPLE, c)
    ensures End(c) == Start(c) + |c.ranges| <= 2 && |c.ranges| > 0
  {
    ClusterBounds(SAMPLE, c);
    forall k | 0 <= k < |c.ranges|
      ensures c.ranges[k].end == c.ranges[k].start + 1
    {
      assert RangeWf(SAMPLE, c.ranges[k]);
      SampleRange(c.ranges[k]);
    }
    OneLineEach(SAMPLE, c, |c.ranges| - 1);
  }

  /** They are in one cluster, because the second could go into the cluster of the first. */
  lemma SampleClusters(clusters: seq<Cluster>)
    requires clusters != [] && Tiles(SAMPLE, clusters, 2) && Separated(SAMPLE, clusters)
    ensures |clusters| == 1 && |clusters[0].ranges| == 2 && Start(clusters[0]) == 0
  {
    var c := clusters[0];
    SampleCluster(c);
    if |clusters| > 1 {
      var d := clusters[1];
      SampleCluster(d);
      assert Apart(SAMPLE, c, d) && End(c) == Start(d);
      assert RangeWf(SAMPLE, c.ranges[0]) && RangeWf(SAMPLE, d.ranges[0]);
      SampleRange(c.ranges[0]);
      SampleRange(d.ranges[0]);
      assert MayJoin(SAMPLE, c, d.ranges[0]);
      assert false;
    }
  }

  lemma SampleWidth(c: Cluster)
    requires ClusterWf(SAMPLE, c) && Settled(SAMPLE, c) && Sized(SAMPLE, c) && |c.ranges| == 2 && Start(c) == 0
    ensures c.width == 2 && c.illegal == 0xD800 && FirstCode(SAMPLE, c) == 0x41 && LastCode(SAMPLE, c) == 0x43
  {
    SampleCluster(c);
    assert RangeWf(SAMPLE, c.ranges[0]) && RangeWf(SAMPLE, c.ranges[1]);
    SampleRange(c.ranges[0]);
    SampleRange(c.ranges[1]);
    assert WidthUpTo(SAMPLE, 1) == 1 && WidthUpTo(SAMPLE, 2) == 2;
    assert HoleAfter(SAMPLE, c, 0);
  }

  lemma SampleTable(c: Cluster, t: Table)
    requires ClusterWf(SAMPLE, c) && TableOk(SAMPLE, c, t) && Start(c) == 0 && End(c) == 2
    requires c.width == 2 && c.illegal == 0xD800 && FirstCode(SAMPLE, c) == 0x41 && LastCode(SAMPLE, c) == 0x43
    ensures t == Table(0x41, 0x43, 2, [0x41, 0xD800, 0x20AC])
  {
    CellOfLine(SAMPLE, c, t, 0);
    CellOfLine(SAMPLE, c, t, 1);
    CellOfHole(SAMPLE, c, t, 0x42);
    assert t.values == [0x41, 0xD800, 0x20AC];
  }

  /** The program of the decoder: one table of 16-bit codes, with 0xD800 in the hole. */
  lemma SampleProgram(clusters: seq<Cluster>, p: Program)
    requires Compiled(SAMPLE, clusters, true, p) && Separated(SAMPLE, clusters)
    requires forall k :: 0 <= k < |clusters| ==> Sized(SAMPLE, clusters[k])
    ensures p.arms == [Arm(Between(0x41, 0x43), LookUp(0x41, 0x43, 0xD800))] && p.tail
    ensures var k := FindTable(p.tables, 0x41, 0x43);
            k < |p.tables| && p.tables[k] == Table(0x41, 0x43, 2, [0x41, 0xD800, 0x20AC])
  {
    hide ClusterWf, Settled, Sized, TableOk, Separated, Legal, FirstCode, LastCode;
    SampleClusters(clusters);
    var c := clusters[0];
    assert ClusterWf(SAMPLE, c) && NeedsTable(c);
    SampleCluster(c);
    SampleWidth(c);
    SampleTable(c, p.tables[FindTable(p.tables, 0x41, 0x43)]);
  }
}
