/**
 The conversion functions that the charset compiler writes, as a small language with a meaning:
 a chain of guarded arms, which pass the code on, give a constant or look in a table.
 */
module CharsetCode {
  import opened Bytes

  const UNICODE_MAX: nat := 0x10_FFFF
  const ILLEGAL_16: nat := 0xD800
  const ILLEGAL_32: nat := UNICODE_MAX + 1
  const NOT_SET: nat := 0xFFFF_FFFF

  /** One line of a charset file: a code and what it is converted to. */
  datatype Map = Map(from: nat, to: nat)

  predicate Sorted(maps: seq<Map>) {
    forall i, j :: 0 <= i < j < |maps| ==> maps[i].from < maps[j].from
  }

  /** The codes that a conversion function can be asked for. */
  predicate InDomain(toUni: bool, c: nat) {
    if toUni then c <= 0xFF else c < U32
  }

  predicate Legal(maps: seq<Map>, toUni: bool) {
    && |maps| > 0 && Sorted(maps)
    && forall i :: 0 <= i < |maps| ==>
         var m := maps[i];
         if toUni then m.from <= 0xFF && m.to <= UNICODE_MAX else m.from <= UNICODE_MAX && m.to <= 0xFF
  }

  /** Codes of 1, 2 and 4 bytes. */
  function Capacity(width: nat): (n: nat)
    ensures n > 0
  {
    if width <= 1 then 0x100 else if width == 2 then 0x1_0000 else U32
  }

  // ---- the language

  datatype Guard = Always | Is(code: nat) | Between(low: nat, high: nat) | AtLeast(low: nat) | AtMost(high: nat)

  datatype Table = Table(first: nat, last: nat, width: nat, values: seq<nat>)

  /** A table is named after its first and last code. */
  datatype Action = Same | Constant(value: nat) | LookUp(first: nat, last: nat, illegal: nat)

  datatype Arm = Arm(guard: Guard, action: Action)

  datatype Program = Program(tables: seq<Table>, arms: seq<Arm>, tail: bool)

  /** `Undefined` is a read outside a table or an end without a return. */
  datatype Outcome = Code(code: nat) | Error | Undefined

  predicate Passes(g: Guard, c: nat) {
    match g
    case Always => true
    case Is(code) => c == code
    case Between(low, high) => low <= c && c <= high
    case AtLeast(low) => low <= c
    case AtMost(high) => c <= high
  }

  /** What is stored: 32 bits when decoding, a byte when encoding. */
  function Stored(toUni: bool, code: nat): nat {
    if toUni then code % U32 else code % 0x100
  }

  function FindTable(tables: seq<Table>, first: nat, last: nat): (k: nat)
    ensures k <= |tables| && (k < |tables| ==> tables[k].first == first && tables[k].last == last)
    ensures forall i :: 0 <= i < k ==> tables[i].first != first || tables[i].last != last
  {
    if tables == [] || (tables[0].first == first && tables[0].last == last) then 0
    else 1 + FindTable(tables[1..], first, last)
  }

  /** The index is taken from the start of the table, whose name gives it. */
  function Act(tables: seq<Table>, a: Action, toUni: bool, c: nat): Outcome {
    match a
    case Same => Code(Stored(toUni, c))
    case Constant(v) => Code(Stored(toUni, v))
    case LookUp(first, last, illegal) =>
      var k := FindTable(tables, first, last);
      if k == |tables| || c < first || c - first >= |tables[k].values| then Undefined
      else
        var code := tables[k].values[c - first] % Capacity(tables[k].width);
        if illegal != NOT_SET && code == illegal then Error else Code(Stored(toUni, code))
  }

  function Chain(tables: seq<Table>, arms: seq<Arm>, tail: bool, toUni: bool, c: nat): Outcome {
    if arms == [] then (if tail then Error else Undefined)
    else if Passes(arms[0].guard, c) then Act(tables, arms[0].action, toUni, c)
    else Chain(tables, arms[1..], tail, toUni, c)
  }

  function Eval(p: Program, toUni: bool, c: nat): Outcome {
    Chain(p.tables, p.arms, p.tail, toUni, c)
  }

  // ---- what it should compute

  function IndexOfCode(maps: seq<Map>, c: nat): (k: nat)
    ensures k <= |maps| && (forall i :: 0 <= i < k ==> maps[i].from != c) && (k < |maps| ==> maps[k].from == c)
  {
    if maps == [] || maps[0].from == c then 0 else 1 + IndexOfCode(maps[1..], c)
  }

  function Expected(maps: seq<Map>, c: nat): Outcome {
    var k := IndexOfCode(maps, c);
    if k < |maps| then Code(maps[k].to) else Error
  }

  lemma ExpectedOfMapped(maps: seq<Map>, k: nat)
    requires Sorted(maps) && k < |maps|
    ensures Expected(maps, maps[k].from) == Code(maps[k].to)
  {
    var i := IndexOfCode(maps, maps[k].from);
    assert maps[i].from == maps[k].from;
  }

  lemma ExpectedOfUnmapped(maps: seq<Map>, c: nat)
    requires forall i :: 0 <= i < |maps| ==> maps[i].from != c
    ensures Expected(maps, c) == Error
  {
    if IndexOfCode(maps, c) < |maps| {
      assert false;
    }
  }

  // ---- ranges and clusters

  datatype Kind = EqualCodes | OtherCodes

  function KindOf(m: Map): Kind {
    if m.from == m.to then EqualCodes else OtherCodes
  }

  /** Consecutive codes, all of the same kind; the lines `start` to `end` of the charset. */
  datatype Range = Range(start: nat, end: nat, kind: Kind, width: nat)

  datatype Cluster = Cluster(ranges: seq<Range>, illegal: nat, width: nat)

  predicate IsWidth(w: nat) {
    w == 1 || w == 2 || w == 4
  }

  predicate RangeWf(maps: seq<Map>, r: Range) {
    && r.start < r.end <= |maps| && IsWidth(r.width)
    && forall i :: r.start <= i < r.end ==>
         maps[i].from == maps[r.start].from + (i - r.start) && KindOf(maps[i]) == r.kind
           && maps[i].to < Capacity(r.width)
  }

  predicate ClusterWf(maps: seq<Map>, c: Cluster) {
    && |c.ranges| > 0
    && (forall k :: 0 <= k < |c.ranges| ==> RangeWf(maps, c.ranges[k]))
    && (forall k :: 0 < k < |c.ranges| ==> c.ranges[k - 1].end == c.ranges[k].start)
  }

  function Start(c: Cluster): nat
    requires |c.ranges| > 0
  {
    c.ranges[0].start
  }

  function End(c: Cluster): nat
    requires |c.ranges| > 0
  {
    c.ranges[|c.ranges| - 1].end
  }

  function FirstCode(maps: seq<Map>, c: Cluster): nat
    requires ClusterWf(maps, c)
  {
    maps[Start(c)].from
  }

  function LastCode(maps: seq<Map>, c: Cluster): nat
    requires ClusterWf(maps, c)
  {
    maps[End(c) - 1].from
  }

  lemma {:induction false} RangesAdvance(maps: seq<Map>, c: Cluster, j: nat, k: nat)
    requires ClusterWf(maps, c) && j <= k < |c.ranges|
    ensures c.ranges[j].start <= c.ranges[k].start && c.ranges[j].end <= c.ranges[k].end
    decreases k
  {
    if j >= k {
    } else {
      RangesAdvance(maps, c, j, k - 1);
      assert RangeWf(maps, c.ranges[k]) && RangeWf(maps, c.ranges[k - 1]);
    }
  }

  lemma ClusterBounds(maps: seq<Map>, c: Cluster)
    requires ClusterWf(maps, c)
    ensures Start(c) < End(c) <= |maps|
    ensures forall k :: 0 <= k < |c.ranges| ==> Start(c) <= c.ranges[k].start < c.ranges[k].end <= End(c)
  {
    forall k | 0 <= k < |c.ranges|
      ensures Start(c) <= c.ranges[k].start < c.ranges[k].end <= End(c)
    {
      RangesAdvance(maps, c, 0, k);
      RangesAdvance(maps, c, k, |c.ranges| - 1);
      assert RangeWf(maps, c.ranges[k]);
    }
    assert RangeWf(maps, c.ranges[|c.ranges| - 1]);
  }

  /** Some code between two ranges of the cluster is not mapped. */
  predicate HoleAfter(maps: seq<Map>, c: Cluster, k: nat)
    requires ClusterWf(maps, c)
  {
    k + 1 < |c.ranges| && (assert RangeWf(maps, c.ranges[k]) && RangeWf(maps, c.ranges[k + 1]);
                           maps[c.ranges[k].end - 1].from + 1 != maps[c.ranges[k + 1].start].from)
  }

  predicate HasHoles(maps: seq<Map>, c: Cluster)
    requires ClusterWf(maps, c)
  {
    exists k :: 0 <= k < |c.ranges| && HoleAfter(maps, c, k)
  }

  /** The clusters take up the first `n` lines, in order. */
  predicate Tiles(maps: seq<Map>, clusters: seq<Cluster>, n: nat) {
    && (forall k :: 0 <= k < |clusters| ==> ClusterWf(maps, clusters[k]))
    && (if clusters == [] then n == 0 else Start(clusters[0]) == 0 && End(clusters[|clusters| - 1]) == n)
    && (forall k :: 0 < k < |clusters| ==> End(clusters[k - 1]) == Start(clusters[k]))
  }

  /** A byte-wide cluster uses the byte as a target. */
  predicate Uses(maps: seq<Map>, start: nat, end: nat, code: nat)
    requires end <= |maps|
  {
    exists i :: start <= i < end && maps[i].to == code
  }
}
