/** When the two compiled functions of a charset are inverse to each other. */
module CharsetInverse {
  import opened Bytes
  import opened CharsetCode
  import opened CharsetMeaning
  import opened CharsetPolicy

  ghost predicate Inverse(p: Program, q: Program) {
    forall b: nat, u: nat :: b <= 0xFF && u < U32 ==> (Eval(p, true, b) == Code(u) <==> Eval(q, false, u) == Code(b))
  }

  function Insert(back: seq<Map>, m: Map): (r: seq<Map>)
    ensures forall x :: x in r <==> x == m || x in back
  {
    if back == [] || m.from < back[0].from then [m] + back else [back[0]] + Insert(back[1..], m)
  }

  /** The lines of the encoder: source and target exchanged, and sorted again. */
  function BackOf(maps: seq<Map>): (r: seq<Map>)
    ensures forall x :: x in r <==> Map(x.to, x.from) in maps
  {
    if maps == [] then [] else
      var n := |maps| - 1;
      assert maps == maps[..n] + [maps[n]];
      Insert(BackOf(maps[..n]), Map(maps[n].to, maps[n].from))
  }

  lemma {:induction false} InsertIsSorted(back: seq<Map>, m: Map)
    requires Sorted(back) && forall i :: 0 <= i < |back| ==> back[i].from != m.from
    ensures Sorted(Insert(back, m))
    decreases |back|
  {
    if back == [] || m.from < back[0].from {
    } else {
      var more := Insert(back[1..], m);
      InsertIsSorted(back[1..], m);
      forall j | 0 <= j < |more|
        ensures back[0].from < more[j].from
      {
        assert more[j] in more;
      }
    }
  }

  lemma {:induction false} BackIsSorted(maps: seq<Map>)
    requires DistinctTargets(maps)
    ensures Sorted(BackOf(maps))
    decreases |maps|
  {
    if maps == [] {
    } else {
      var n := |maps| - 1;
      var back := BackOf(maps[..n]);
      BackIsSorted(maps[..n]);
      forall i | 0 <= i < |back|
        ensures back[i].from != maps[n].to
      {
        assert back[i] in back;
        assert Map(back[i].to, back[i].from) in maps[..n];
      }
      InsertIsSorted(back, Map(maps[n].to, maps[n].from));
    }
  }

  /** The lines of the encoder are legal if targets are distinct. */
  lemma BackIsLegal(maps: seq<Map>)
    requires Legal(maps, true) && DistinctTargets(maps)
    ensures Legal(BackOf(maps), false) && Swapped(maps, BackOf(maps))
  {
    var back := BackOf(maps);
    BackIsSorted(maps);
    forall i | 0 <= i < |maps|
      ensures Map(maps[i].to, maps[i].from) in back
    {
      assert Map(maps[i].from, maps[i].to) in maps;
    }
    forall i | 0 <= i < |back|
      ensures back[i].from <= UNICODE_MAX && back[i].to <= 0xFF && Map(back[i].to, back[i].from) in maps
    {
      assert back[i] in back;
    }
    assert Map(maps[0].to, maps[0].from) in back;
  }

  /** Two bytes with one target cannot both come back. */
  lemma InverseMeansDistinct(maps: seq<Map>, p: Program, q: Program)
    requires Legal(maps, true) && Computes(p, maps, true) && Inverse(p, q)
    ensures DistinctTargets(maps)
  {
    hide Eval;
    forall i, j | 0 <= i < j < |maps|
      ensures maps[i].to != maps[j].to
    {
      ExpectedOfMapped(maps, i);
      ExpectedOfMapped(maps, j);
      assert InDomain(true, maps[i].from) && InDomain(true, maps[j].from);
    }
  }

  /**
   Of a charset that its decoder computes, the functions are inverse if and only if no two bytes
   have one target; otherwise no encoder at all could do it.
   */
  lemma InverseIffDistinct(maps: seq<Map>, p: Program, q: Program)
    requires Legal(maps, true) && Computes(p, maps, true)
    requires DistinctTargets(maps) ==> Computes(q, BackOf(maps), false)
    ensures Inverse(p, q) <==> DistinctTargets(maps)
  {
    hide Eval, Computes, DistinctTargets, Legal, Swapped;
    if Inverse(p, q) {
      InverseMeansDistinct(maps, p, q);
    }
    if DistinctTargets(maps) {
      BackIsLegal(maps);
      forall b: nat, u: nat | b <= 0xFF && u < U32
        ensures Eval(p, true, b) == Code(u) <==> Eval(q, false, u) == Code(b)
      {
        ThereAndBack(maps, p, BackOf(maps), q, b, u);
      }
    }
  }
}
