/** Why the compiled arms and tables compute the charset. */
module CharsetMeaning {
  import opened Bytes
  import opened CharsetCode

  const MERGE_GAP: nat := 128

  predicate IsLargeEqual(r: Range) {
    r.kind == EqualCodes && r.end - r.start >= MERGE_GAP
  }

  /** A single code, or many codes that stay as they are, need no table. */
  predicate NeedsTable(c: Cluster)
    requires |c.ranges| > 0
  {
    !(|c.ranges| == 1 && (IsLargeEqual(c.ranges[0]) || c.ranges[0].start + 1 == c.ranges[0].end))
  }

  /** What is known of a cluster once its width and its illegal code are chosen. */
  ghost predicate Settled(maps: seq<Map>, c: Cluster) {
    && ClusterWf(maps, c) && IsWidth(c.width)
    && (forall k :: 0 <= k < |c.ranges| ==> c.ranges[k].width == c.width)
    && (!HasHoles(maps, c) ==> c.illegal == NOT_SET)
    && (HasHoles(maps, c) && c.width == 2 ==> c.illegal == ILLEGAL_16)
    && (HasHoles(maps, c) && c.width == 4 ==> c.illegal == ILLEGAL_32)
    && (HasHoles(maps, c) && c.width == 1 ==> IllegalByte(maps, c))
  }

  /** The lowest byte that no code of the cluster is converted to. */
  ghost predicate IllegalByte(maps: seq<Map>, c: Cluster)
    requires ClusterWf(maps, c)
  {
    ClusterBounds(maps, c);
    LowestFree(maps, Start(c), End(c), c.illegal)
  }

  ghost predicate LowestFree(maps: seq<Map>, start: nat, end: nat, code: nat)
    requires end <= |maps|
  {
    && (code == NOT_SET || code < 0x100)
    && (forall b: nat :: b < 0x100 && b < code ==> Uses(maps, start, end, b))
    && (code != NOT_SET ==> !Uses(maps, start, end, code))
  }

  /** There is a hole to fill and nothing to fill it with. */
  ghost predicate Stuck(maps: seq<Map>, c: Cluster)
    requires ClusterWf(maps, c)
  {
    HasHoles(maps, c) && c.illegal == NOT_SET
  }

  // ---- tables

  /** The table has the targets of the lines, and the illegal code wherever there is no line. */
  ghost predicate Filled(maps: seq<Map>, start: nat, end: nat, first: nat, illegal: nat, values: seq<nat>)
    requires end <= |maps|
  {
    && (forall i :: start <= i < end ==>
       first <= maps[i].from < first + |values| && values[maps[i].from - first] == maps[i].to)
    && (forall j :: 0 <= j < |values| ==>
       values[j] == illegal || exists i :: start <= i < end && maps[i].from == first + j)
  }

  ghost predicate TableOk(maps: seq<Map>, c: Cluster, t: Table)
    requires ClusterWf(maps, c)
  {
    ClusterBounds(maps, c);
    && t.first == FirstCode(maps, c) && t.last == LastCode(maps, c) && t.width == c.width
    && |t.values| == t.last - t.first + 1
    && Filled(maps, Start(c), End(c), t.first, c.illegal, t.values)
  }

  /** Each of the first `n` clusters that needs a table has one under its name. */
  ghost predicate TablesFor(maps: seq<Map>, clusters: seq<Cluster>, n: nat, tables: seq<Table>)
    requires n <= |clusters|
  {
    && (forall k :: 0 <= k < n ==>
       ClusterWf(maps, clusters[k]) && (NeedsTable(clusters[k]) ==> HasTable(maps, clusters[k], tables)))
    && (forall t :: 0 <= t < |tables| ==> exists k :: 0 <= k < n && tables[t].first == FirstCode(maps, clusters[k]))
  }

  ghost predicate HasTable(maps: seq<Map>, c: Cluster, tables: seq<Table>)
    requires ClusterWf(maps, c)
  {
    var t := FindTable(tables, FirstCode(maps, c), LastCode(maps, c));
    t < |tables| && TableOk(maps, c, tables[t])
  }

  lemma {:induction false} FindTableAppend(tables: seq<Table>, t: Table, first: nat, last: nat)
    ensures var k := FindTable(tables, first, last);
            FindTable(tables + [t], first, last)
            == if k < |tables| || (t.first == first && t.last == last) then k else |tables| + 1
  {
    if tables == [] {
      assert [t][1..] == [];
    } else if !(tables[0].first == first && tables[0].last == last) {
      FindTableAppend(tables[1..], t, first, last);
      assert (tables + [t])[1..] == tables[1..] + [t];
    }
  }

  // ---- arms

  function GuardOf(first: nat, last: nat, toUni: bool): Guard {
    var firstCode, lastCode := first != 0, last != 0xFF || !toUni;
    if !firstCode && !lastCode then Always
    else if first == last then Is(last)
    else if firstCode && lastCode then Between(first, last)
    else if firstCode then AtLeast(first)
    else AtMost(last)
  }

  function ActionOf(maps: seq<Map>, c: Cluster): Action
    requires ClusterWf(maps, c)
  {
    if NeedsTable(c) then LookUp(FirstCode(maps, c), LastCode(maps, c), c.illegal)
    else if IsLargeEqual(c.ranges[0]) then Same
    else Constant(maps[Start(c)].to)
  }

  function ArmOf(maps: seq<Map>, c: Cluster, toUni: bool): Arm
    requires ClusterWf(maps, c)
  {
    Arm(GuardOf(FirstCode(maps, c), LastCode(maps, c), toUni), ActionOf(maps, c))
  }

  /** The guard is passed by exactly the codes from first to last. */
  lemma GuardIsExact(first: nat, last: nat, toUni: bool, c: nat)
    requires first <= last && InDomain(toUni, c) && (toUni ==> last <= 0xFF)
    ensures Passes(GuardOf(first, last, toUni), c) <==> first <= c <= last
  {
  }

  /** The one flaw: a line that is converted to the code taken for illegal. */
  predicate Clashes(maps: seq<Map>, cl: Cluster, i: nat)
    requires i < |maps|
  {
    cl.illegal == ILLEGAL_16 && maps[i].to == ILLEGAL_16
  }

  /** What the compiled function answers for the code of line `i`. */
  function Answer(maps: seq<Map>, cl: Cluster, i: nat): Outcome
    requires i < |maps|
  {
    if Clashes(maps, cl, i) then Error else Code(maps[i].to)
  }

  lemma {:induction false} RangeOfLine(maps: seq<Map>, cl: Cluster, i: nat, n: nat) returns (k: nat)
    requires ClusterWf(maps, cl) && n < |cl.ranges| && Start(cl) <= i < cl.ranges[n].end
    ensures k <= n && cl.ranges[k].start <= i < cl.ranges[k].end
    decreases n
  {
    if cl.ranges[n].start <= i {
      k := n;
    } else {
      assert cl.ranges[n - 1].end == cl.ranges[n].start;
      k := RangeOfLine(maps, cl, i, n - 1);
    }
  }

  lemma TargetFits(maps: seq<Map>, cl: Cluster, i: nat)
    requires Settled(maps, cl) && Start(cl) <= i < End(cl)
    ensures i < |maps| && maps[i].to < Capacity(cl.width)
  {
    hide HasHoles, IllegalByte;
    var k := RangeOfLine(maps, cl, i, |cl.ranges| - 1);
    assert RangeWf(maps, cl.ranges[k]);
  }

  /** No line but a clashing one is converted to the illegal code of its cluster. */
  lemma IllegalIsFree(maps: seq<Map>, cl: Cluster, i: nat, toUni: bool)
    requires Legal(maps, toUni) && Settled(maps, cl) && Start(cl) <= i < End(cl) <= |maps|
    requires cl.illegal != NOT_SET
    ensures maps[i].to == cl.illegal ==> Clashes(maps, cl, i)
    ensures cl.illegal < Capacity(cl.width)
  {
    ClusterBounds(maps, cl);
    if cl.width == 1 && maps[i].to == cl.illegal {
      assert Uses(maps, Start(cl), End(cl), maps[i].to);
    }
  }

  lemma CellOfLine(maps: seq<Map>, cl: Cluster, t: Table, i: nat)
    requires ClusterWf(maps, cl) && TableOk(maps, cl, t) && Start(cl) <= i < End(cl)
    ensures i < |maps| && t.first <= maps[i].from < t.first + |t.values|
            && t.values[maps[i].from - t.first] == maps[i].to
  {
    hide ClusterWf;
    ClusterBounds(maps, cl);
  }

  lemma CellOfHole(maps: seq<Map>, cl: Cluster, t: Table, c: nat)
    requires ClusterWf(maps, cl) && TableOk(maps, cl, t) && t.first <= c <= t.last && End(cl) <= |maps|
    requires forall i :: Start(cl) <= i < End(cl) ==> maps[i].from != c
    ensures c - t.first < |t.values| && t.values[c - t.first] == cl.illegal
  {
    hide ClusterWf;
    assert t.first + (c - t.first) == c;
  }

  lemma LookUpOfLine(maps: seq<Map>, cl: Cluster, toUni: bool, tables: seq<Table>, i: nat)
    requires Legal(maps, toUni) && Settled(maps, cl) && Start(cl) <= i < End(cl) <= |maps|
    requires HasTable(maps, cl, tables)
    ensures Act(tables, LookUp(FirstCode(maps, cl), LastCode(maps, cl), cl.illegal), toUni, maps[i].from)
            == Answer(maps, cl, i)
  {
    hide Settled, Legal, ClusterWf, Filled, FindTable, Stored, Capacity;
    WidthOf(maps, cl);
    ToFits(maps, toUni, i);
    TargetFits(maps, cl, i);
    var t := tables[FindTable(tables, FirstCode(maps, cl), LastCode(maps, cl))];
    CellOfLine(maps, cl, t, i);
    Small(maps[i].to, Capacity(t.width));
    if cl.illegal != NOT_SET {
      IllegalIsFree(maps, cl, i, toUni);
    } else {
      assert !Clashes(maps, cl, i);
    }
  }

  lemma Small(n: nat, m: nat)
    requires n < m
    ensures n % m == n
  {
  }

  lemma LookUpOfHole(maps: seq<Map>, cl: Cluster, toUni: bool, tables: seq<Table>, c: nat)
    requires Legal(maps, toUni) && Settled(maps, cl) && End(cl) <= |maps| && cl.illegal != NOT_SET
    requires HasTable(maps, cl, tables) && FirstCode(maps, cl) <= c <= LastCode(maps, cl)
    requires forall i :: Start(cl) <= i < End(cl) ==> maps[i].from != c
    ensures Act(tables, LookUp(FirstCode(maps, cl), LastCode(maps, cl), cl.illegal), toUni, c) == Error
  {
    hide Settled, Legal, ClusterWf, Filled, FindTable, Stored, Capacity;
    WidthOf(maps, cl);
    CellOfHole(maps, cl, tables[FindTable(tables, FirstCode(maps, cl), LastCode(maps, cl))], c);
    IllegalIsFree(maps, cl, Start(cl), toUni);
    Small(cl.illegal, Capacity(cl.width));
  }

  lemma WidthOf(maps: seq<Map>, cl: Cluster)
    requires Settled(maps, cl)
    ensures IsWidth(cl.width) && ClusterWf(maps, cl) && Start(cl) < End(cl) <= |maps|
  {
    ClusterBounds(maps, cl);
  }

  lemma ToFits(maps: seq<Map>, toUni: bool, i: nat)
    requires Legal(maps, toUni) && i < |maps|
    ensures Stored(toUni, maps[i].to) == maps[i].to && maps[i].to <= UNICODE_MAX && maps[i].from <= UNICODE_MAX
  {
  }

  /** Without holes, every code between the first and the last has its line. */
  lemma {:induction false} NoHoles(maps: seq<Map>, cl: Cluster, n: nat, c: nat) returns (i: nat)
    requires ClusterWf(maps, cl) && n < |cl.ranges| && !HasHoles(maps, cl)
    requires maps[Start(cl)].from <= c && (assert RangeWf(maps, cl.ranges[n]); c <= maps[cl.ranges[n].end - 1].from)
    ensures Start(cl) <= i < cl.ranges[n].end <= |maps| && maps[i].from == c
    decreases n
  {
    var r := cl.ranges[n];
    assert RangeWf(maps, r);
    RangesAdvance(maps, cl, 0, n);
    if maps[r.start].from <= c {
      i := r.start + (c - maps[r.start].from);
      assert maps[r.end - 1].from == maps[r.start].from + (r.end - 1 - r.start);
    } else {
      assert !HoleAfter(maps, cl, n - 1);
      i := NoHoles(maps, cl, n - 1, c);
    }
  }

  /** What an arm answers, for the codes that pass its guard. */
  lemma ArmIsRight(maps: seq<Map>, cl: Cluster, toUni: bool, tables: seq<Table>, c: nat)
    requires Legal(maps, toUni) && Settled(maps, cl) && !Stuck(maps, cl)
             && (NeedsTable(cl) ==> HasTable(maps, cl, tables))
    requires FirstCode(maps, cl) <= c <= LastCode(maps, cl) && End(cl) <= |maps|
    ensures forall i :: Start(cl) <= i < End(cl) && maps[i].from == c ==>
            Act(tables, ActionOf(maps, cl), toUni, c) == Answer(maps, cl, i)
    ensures (forall i :: Start(cl) <= i < End(cl) ==> maps[i].from != c) ==>
            Act(tables, ActionOf(maps, cl), toUni, c) == Error
  {
    hide Legal, Act, HasTable, Stored, NeedsTable, Clashes;
    if NeedsTable(cl) {
      forall i | Start(cl) <= i < End(cl) && maps[i].from == c
        ensures Act(tables, ActionOf(maps, cl), toUni, c) == Answer(maps, cl, i)
      {
        LookUpOfLine(maps, cl, toUni, tables, i);
      }
      if forall i :: Start(cl) <= i < End(cl) ==> maps[i].from != c {
        HoleNeedsCode(maps, cl, c);
        LookUpOfHole(maps, cl, toUni, tables, c);
      }
    } else {
      var i := PlainLine(maps, cl, toUni, c);
      PlainArm(maps, cl, toUni, tables, i);
      forall j | Start(cl) <= j < End(cl) && maps[j].from == c
        ensures j == i
      {
        OneLine(maps, toUni, i, j);
      }
    }
  }

  lemma OneLine(maps: seq<Map>, toUni: bool, i: nat, j: nat)
    requires Legal(maps, toUni) && i < |maps| && j < |maps| && maps[i].from == maps[j].from
    ensures i == j
  {
  }

  lemma HoleNeedsCode(maps: seq<Map>, cl: Cluster, c: nat)
    requires Settled(maps, cl) && !Stuck(maps, cl) && FirstCode(maps, cl) <= c <= LastCode(maps, cl)
    requires forall i :: Start(cl) <= i < End(cl) ==> maps[i].from != c
    ensures cl.illegal != NOT_SET
  {
    if !HasHoles(maps, cl) {
      var i := NoHoles(maps, cl, |cl.ranges| - 1, c);
      assert false;
    }
  }

  /** In a cluster without a table every code has its line. */
  lemma PlainLine(maps: seq<Map>, cl: Cluster, toUni: bool, c: nat) returns (i: nat)
    requires Settled(maps, cl) && !NeedsTable(cl) && FirstCode(maps, cl) <= c <= LastCode(maps, cl)
    ensures Start(cl) <= i < End(cl) <= |maps| && maps[i].from == c
  {
    i := NoHoles(maps, cl, 0, c);
  }

  lemma PlainArm(maps: seq<Map>, cl: Cluster, toUni: bool, tables: seq<Table>, i: nat)
    requires Legal(maps, toUni) && Settled(maps, cl) && !NeedsTable(cl) && Start(cl) <= i < End(cl) <= |maps|
    ensures Act(tables, ActionOf(maps, cl), toUni, maps[i].from) == Answer(maps, cl, i)
  {
    hide Legal, Stored;
    ToFits(maps, toUni, i);
    var r := cl.ranges[0];
    assert RangeWf(maps, r) && cl.illegal == NOT_SET;
    if IsLargeEqual(r) {
      assert KindOf(maps[i]) == EqualCodes;
    }
  }

  // ---- the whole program

  /** The arms and tables belong to the clusters, and after the last arm an error is returned if need be. */
  ghost predicate Compiled(maps: seq<Map>, clusters: seq<Cluster>, toUni: bool, p: Program) {
    && Legal(maps, toUni) && Tiles(maps, clusters, |maps|) && clusters != []
    && (forall k :: 0 <= k < |clusters| ==> Settled(maps, clusters[k]) && !Stuck(maps, clusters[k]))
    && TablesFor(maps, clusters, |clusters|, p.tables)
    && |p.arms| == |clusters| && (forall k :: 0 <= k < |clusters| ==> p.arms[k] == ArmOf(maps, clusters[k], toUni))
    && (p.tail <==> NeedsTail(maps, clusters[|clusters| - 1], toUni))
  }

  predicate NeedsTail(maps: seq<Map>, cl: Cluster, toUni: bool)
    requires ClusterWf(maps, cl)
  {
    FirstCode(maps, cl) != 0 || LastCode(maps, cl) != 0xFF || !toUni
  }

  /** `o` is the right answer for `c`, but for the clashing lines. */
  ghost predicate IsAnswer(maps: seq<Map>, clusters: seq<Cluster>, c: nat, o: Outcome) {
    && (forall k, i :: && 0 <= k < |clusters| && ClusterWf(maps, clusters[k])
                       && Start(clusters[k]) <= i < End(clusters[k]) <= |maps| && maps[i].from == c
                       ==> o == Answer(maps, clusters[k], i))
    && ((forall i :: 0 <= i < |maps| ==> maps[i].from != c) ==> o == Error)
  }

  lemma {:induction false} ClustersAdvance(maps: seq<Map>, clusters: seq<Cluster>, n: nat, j: nat, k: nat)
    requires Tiles(maps, clusters, n) && j < k < |clusters|
    ensures End(clusters[j]) <= Start(clusters[k])
    decreases k
  {
    assert End(clusters[k - 1]) == Start(clusters[k]);
    if j >= k - 1 {
    } else {
      ClustersAdvance(maps, clusters, n, j, k - 1);
      ClusterBounds(maps, clusters[k - 1]);
    }
  }

  /** A line is in one cluster only, so the answer of that cluster is the answer. */
  lemma OneCluster(maps: seq<Map>, clusters: seq<Cluster>, toUni: bool, c: nat, o: Outcome, k: nat, i: nat)
    requires Legal(maps, toUni) && Tiles(maps, clusters, |maps|) && k < |clusters|
    requires Start(clusters[k]) <= i < End(clusters[k]) <= |maps| && maps[i].from == c
             && o == Answer(maps, clusters[k], i)
    ensures IsAnswer(maps, clusters, c, o)
  {
    hide Legal;
    forall k', i' | 0 <= k' < |clusters| && ClusterWf(maps, clusters[k'])
      && Start(clusters[k']) <= i' < End(clusters[k']) <= |maps| && maps[i'].from == c
      ensures o == Answer(maps, clusters[k'], i')
    {
      OneLine(maps, toUni, i, i');
      if k < k' {
        ClustersAdvance(maps, clusters, |maps|, k, k');
      } else if k' < k {
        ClustersAdvance(maps, clusters, |maps|, k', k);
      }
    }
  }

  /** Lines before, in and after a cluster. */
  lemma LinesAround(maps: seq<Map>, cl: Cluster, toUni: bool)
    requires Legal(maps, toUni) && ClusterWf(maps, cl)
    ensures Start(cl) < End(cl) <= |maps| && FirstCode(maps, cl) <= LastCode(maps, cl)
            && (toUni ==> LastCode(maps, cl) <= 0xFF)
    ensures forall i :: Start(cl) <= i < End(cl) ==> FirstCode(maps, cl) <= maps[i].from <= LastCode(maps, cl)
    ensures forall i :: End(cl) <= i < |maps| ==> LastCode(maps, cl) < maps[i].from
  {
    ClusterBounds(maps, cl);
  }

  lemma NoLineAnswer(maps: seq<Map>, clusters: seq<Cluster>, c: nat)
    requires forall i :: 0 <= i < |maps| ==> maps[i].from != c
    ensures IsAnswer(maps, clusters, c, Error)
  {
  }

  lemma PassingArm(maps: seq<Map>, clusters: seq<Cluster>, toUni: bool, p: Program, c: nat, k: nat)
    requires Compiled(maps, clusters, toUni, p) && k < |clusters|
    requires forall i :: 0 <= i < Start(clusters[k]) ==> maps[i].from != c
    requires FirstCode(maps, clusters[k]) <= c <= LastCode(maps, clusters[k])
    ensures IsAnswer(maps, clusters, c, Act(p.tables, ActionOf(maps, clusters[k]), toUni, c))
  {
    hide Legal, Settled, ClusterWf, HasTable, Act, NeedsTable, IsAnswer, Stuck, ActionOf, NeedsTail, ArmOf;
    var cl := clusters[k];
    KnownCluster(maps, clusters, toUni, p, k);
    LinesAround(maps, cl, toUni);
    ArmIsRight(maps, cl, toUni, p.tables, c);
    if i :| Start(cl) <= i < End(cl) && maps[i].from == c {
      OneCluster(maps, clusters, toUni, c, Act(p.tables, ActionOf(maps, cl), toUni, c), k, i);
    } else {
      NoLineAnswer(maps, clusters, c);
    }
  }

  lemma KnownCluster(maps: seq<Map>, clusters: seq<Cluster>, toUni: bool, p: Program, k: nat)
    requires Compiled(maps, clusters, toUni, p) && k < |clusters|
    ensures var cl := clusters[k];
            ClusterWf(maps, cl) && Settled(maps, cl) && !Stuck(maps, cl)
              && (NeedsTable(cl) ==> HasTable(maps, cl, p.tables))
  {
  }

  lemma LastArm(maps: seq<Map>, clusters: seq<Cluster>, toUni: bool, p: Program, c: nat)
    requires Compiled(maps, clusters, toUni, p) && InDomain(toUni, c)
    requires !(FirstCode(maps, clusters[|clusters| - 1]) <= c <= LastCode(maps, clusters[|clusters| - 1]))
    ensures p.tail
  {
  }

  /** Codes that no earlier cluster has are answered by the rest of the chain. */
  lemma {:induction false} ChainIsRight(maps: seq<Map>, clusters: seq<Cluster>, toUni: bool, p: Program, c: nat, k: nat)
    requires Compiled(maps, clusters, toUni, p) && InDomain(toUni, c) && k <= |clusters|
    requires forall i :: 0 <= i < |maps| && (k < |clusters| ==> i < Start(clusters[k])) ==> maps[i].from != c
    requires k > 0 ==> !(FirstCode(maps, clusters[k - 1]) <= c <= LastCode(maps, clusters[k - 1]))
    ensures IsAnswer(maps, clusters, c, Chain(p.tables, p.arms[k..], p.tail, toUni, c))
    decreases |clusters| - k
  {
    hide Legal, Settled, ClusterWf, HasTable, Act, NeedsTable, IsAnswer, Stuck, ActionOf, NeedsTail, GuardOf, InDomain,
      Passes, TablesFor;
    if k == |clusters| {
      LastArm(maps, clusters, toUni, p, c);
      NoLineAnswer(maps, clusters, c);
    } else {
      var cl := clusters[k];
      KnownCluster(maps, clusters, toUni, p, k);
      LinesAround(maps, cl, toUni);
      GuardIsExact(FirstCode(maps, cl), LastCode(maps, cl), toUni, c);
      assert p.arms[k..][0] == ArmOf(maps, cl, toUni) && p.arms[k..][1..] == p.arms[k + 1..];
      if FirstCode(maps, cl) <= c <= LastCode(maps, cl) {
        PassingArm(maps, clusters, toUni, p, c, k);
      } else {
        ChainIsRight(maps, clusters, toUni, p, c, k + 1);
      }
    }
  }

  /** A line is given up for an illegal code. */
  ghost predicate GivesUp(maps: seq<Map>, clusters: seq<Cluster>, k: nat, i: nat) {
    && k < |clusters| && ClusterWf(maps, clusters[k]) && Start(clusters[k]) <= i < End(clusters[k]) <= |maps|
    && Clashes(maps, clusters[k], i)
  }

  ghost predicate Computes(p: Program, maps: seq<Map>, toUni: bool) {
    forall c: nat :: InDomain(toUni, c) ==> Eval(p, toUni, c) == Expected(maps, c)
  }

  /** The program is right for a code exactly if the code's line is not given up. */
  lemma EvalIsExpected(maps: seq<Map>, clusters: seq<Cluster>, toUni: bool, p: Program, c: nat)
    requires Compiled(maps, clusters, toUni, p) && InDomain(toUni, c)
    ensures Eval(p, toUni, c) == Expected(maps, c) <==>
            (forall k: nat, i: nat :: GivesUp(maps, clusters, k, i) ==> maps[i].from != c)
    ensures Eval(p, toUni, c) == Expected(maps, c) || Eval(p, toUni, c) == Error
  {
    hide Legal, Settled, HasTable, Act, NeedsTable, Stuck, ActionOf, NeedsTail, GuardOf, InDomain, Passes, TablesFor,
      Chain, ClusterWf, Compiled;
    IsCompiled(maps, clusters, toUni, p);
    ChainIsRight(maps, clusters, toUni, p, c, 0);
    assert p.arms[0..] == p.arms;
    var o := Eval(p, toUni, c);
    if i :| 0 <= i < |maps| && maps[i].from == c {
      SortedMaps(maps, toUni);
      ExpectedOfMapped(maps, i);
      var k := ClusterOfLine(maps, clusters, |maps|, i, |clusters| - 1);
      assert o == Answer(maps, clusters[k], i);
      if Clashes(maps, clusters[k], i) {
        assert GivesUp(maps, clusters, k, i);
      } else {
        forall k': nat, i': nat | GivesUp(maps, clusters, k', i')
          ensures maps[i'].from != c
        {
          if maps[i'].from == c {
            assert false;
          }
        }
      }
    } else {
      ExpectedOfUnmapped(maps, c);
    }
  }

  lemma SortedMaps(maps: seq<Map>, toUni: bool)
    requires Legal(maps, toUni)
    ensures Sorted(maps)
  {
  }

  lemma IsCompiled(maps: seq<Map>, clusters: seq<Cluster>, toUni: bool, p: Program)
    requires Compiled(maps, clusters, toUni, p)
    ensures Legal(maps, toUni) && Tiles(maps, clusters, |maps|) && clusters != [] && Start(clusters[0]) == 0
  {
  }

  lemma {:induction false} ClusterOfLine(maps: seq<Map>, clusters: seq<Cluster>, n: nat, i: nat, m: nat)
    returns (k: nat)
    requires Tiles(maps, clusters, n) && m < |clusters| && i < End(clusters[m])
    ensures k <= m && Start(clusters[k]) <= i < End(clusters[k]) <= |maps|
    decreases m
  {
    ClusterBounds(maps, clusters[m]);
    if Start(clusters[m]) <= i {
      k := m;
    } else {
      assert End(clusters[m - 1]) == Start(clusters[m]);
      k := ClusterOfLine(maps, clusters, n, i, m - 1);
    }
  }

  /** The whole charset is computed if and only if no line is given up. */
  lemma CompilesTheMap(maps: seq<Map>, clusters: seq<Cluster>, toUni: bool, p: Program)
    requires Compiled(maps, clusters, toUni, p)
    ensures Computes(p, maps, toUni) <==> (forall k: nat, i: nat :: !GivesUp(maps, clusters, k, i))
  {
    hide Legal, Settled, HasTable, Act, NeedsTable, Stuck, ActionOf, NeedsTail, GuardOf, Passes, TablesFor, Chain,
      ClusterWf, Compiled, Eval, Expected;
    if Computes(p, maps, toUni) {
      forall k: nat, i: nat | GivesUp(maps, clusters, k, i)
        ensures false
      {
        LineInDomain(maps, clusters, toUni, p, i);
        EvalIsExpected(maps, clusters, toUni, p, maps[i].from);
      }
    } else {
      var c: nat :| InDomain(toUni, c) && Eval(p, toUni, c) != Expected(maps, c);
      EvalIsExpected(maps, clusters, toUni, p, c);
    }
  }

  lemma LineInDomain(maps: seq<Map>, clusters: seq<Cluster>, toUni: bool, p: Program, i: nat)
    requires Compiled(maps, clusters, toUni, p) && i < |maps|
    ensures InDomain(toUni, maps[i].from)
  {
  }

  /** So a charset in which nothing is converted to 0xD800 is always computed, whatever its clusters. */
  lemma NoneGivenUp(maps: seq<Map>, clusters: seq<Cluster>, toUni: bool, p: Program)
    requires Compiled(maps, clusters, toUni, p)
    requires forall i :: 0 <= i < |maps| ==> maps[i].to != ILLEGAL_16
    ensures Computes(p, maps, toUni)
  {
    hide Legal, Compiled, ClusterWf, Computes;
    CompilesTheMap(maps, clusters, toUni, p);
  }

  /** Encoders give bytes, which never clash. */
  lemma EncodersAreRight(maps: seq<Map>, clusters: seq<Cluster>, p: Program)
    requires Compiled(maps, clusters, false, p)
    ensures Computes(p, maps, false)
  {
    IsCompiled(maps, clusters, false, p);
    NoneGivenUp(maps, clusters, false, p);
  }

  // ---- there and back

  /** The lines with source and target exchanged, in some order. */
  ghost predicate Swapped(maps: seq<Map>, back: seq<Map>) {
    && (forall i :: 0 <= i < |maps| ==> Map(maps[i].to, maps[i].from) in back)
    && (forall i :: 0 <= i < |back| ==> Map(back[i].to, back[i].from) in maps)
  }

  /** The two compiled functions are inverse to each other. */
  lemma ThereAndBack(maps: seq<Map>, p: Program, back: seq<Map>, q: Program, b: nat, u: nat)
    requires Legal(maps, true) && Legal(back, false) && Swapped(maps, back)
    requires Computes(p, maps, true) && Computes(q, back, false) && b <= 0xFF && u < U32
    ensures Eval(p, true, b) == Code(u) <==> Eval(q, false, u) == Code(b)
  {
    hide Eval;
    if Eval(p, true, b) == Code(u) {
      var i := IndexOfCode(maps, b);
      assert Map(u, b) in back;
      var j :| 0 <= j < |back| && back[j] == Map(u, b);
      ExpectedOfMapped(back, j);
    }
    if Eval(q, false, u) == Code(b) {
      var j := IndexOfCode(back, u);
      assert Map(b, u) in maps;
      var i :| 0 <= i < |maps| && maps[i] == Map(b, u);
      ExpectedOfMapped(maps, i);
    }
  }

  // ---- a charset that is not computed

  const SURROGATE_MAPS: seq<Map> := [Map(0, 0xD800), Map(2, 0x100)]
  const SURROGATE_CLUSTER: Cluster := Cluster([Range(0, 1, OtherCodes, 2), Range(1, 2, OtherCodes, 2)], ILLEGAL_16, 2)
  const SURROGATE_TABLE: Table := Table(0, 2, 2, [0xD800, 0xD800, 0x100])
  const SURROGATE_PROGRAM: Program := Program([SURROGATE_TABLE], [Arm(AtMost(2), LookUp(0, 2, ILLEGAL_16))], true)

  lemma SurrogateClusterIsSettled()
    ensures Settled(SURROGATE_MAPS, SURROGATE_CLUSTER) && HasHoles(SURROGATE_MAPS, SURROGATE_CLUSTER)
  {
    var maps, cl := SURROGATE_MAPS, SURROGATE_CLUSTER;
    assert RangeWf(maps, cl.ranges[0]) && RangeWf(maps, cl.ranges[1]);
    assert HoleAfter(maps, cl, 0);
  }

  lemma SurrogateTableIsOk()
    ensures ClusterWf(SURROGATE_MAPS, SURROGATE_CLUSTER) && TableOk(SURROGATE_MAPS, SURROGATE_CLUSTER, SURROGATE_TABLE)
  {
    hide Settled, HasHoles;
    SurrogateClusterIsSettled();
    WidthOf(SURROGATE_MAPS, SURROGATE_CLUSTER);
    var maps, t := SURROGATE_MAPS, SURROGATE_TABLE;
    assert maps[0].from == 0 && maps[1].from == 0 + 2;
    assert Filled(maps, 0, 2, 0, ILLEGAL_16, t.values);
  }

  lemma SurrogateTables()
    ensures TablesFor(SURROGATE_MAPS, [SURROGATE_CLUSTER], 1, [SURROGATE_TABLE])
  {
    hide TableOk, Filled, NeedsTable;
    SurrogateTableIsOk();
    NameOfTable(SURROGATE_MAPS, SURROGATE_CLUSTER, SURROGATE_TABLE);
    var cs := [SURROGATE_CLUSTER];
    assert FindTable([SURROGATE_TABLE], 0, 2) == 0;
    assert [SURROGATE_TABLE][0].first == FirstCode(SURROGATE_MAPS, cs[0]);
  }

  lemma NameOfTable(maps: seq<Map>, c: Cluster, t: Table)
    requires ClusterWf(maps, c) && TableOk(maps, c, t)
    ensures t.first == FirstCode(maps, c) && t.last == LastCode(maps, c)
  {
  }

  /** A line that is converted to what stands for a hole is answered with an error. */
  lemma SurrogateIsGivenUp()
    ensures Compiled(SURROGATE_MAPS, [SURROGATE_CLUSTER], true, SURROGATE_PROGRAM)
    ensures Eval(SURROGATE_PROGRAM, true, 0) == Error && Expected(SURROGATE_MAPS, 0) == Code(0xD800)
  {
    hide Settled, TablesFor, HasHoles;
    SurrogateClusterIsSettled();
    WidthOf(SURROGATE_MAPS, SURROGATE_CLUSTER);
    SurrogateTables();
    assert FindTable([SURROGATE_TABLE], 0, 2) == 0;
  }
}
