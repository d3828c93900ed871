/**
 The response cache: a list with the entry used last at its head, a budget of bytes, a time to
 live, and a bound that saves most scans for expired entries. A history of all uses says what
 the list should hold.
 */
module ResponseCache {
  import opened Bytes
  import opened XmlTree

  /** `dynamic` is the memory that the pool of the document has taken from the heap. */
  datatype Response = Response(document: Tree, id: nat, dynamic: nat)

  datatype Entry = Entry(request: seq<byte>, response: Response, expiration: int)

  // ---- the history

  datatype Event = Used(key: seq<byte>) | Stored(key: seq<byte>, document: Tree, id: nat, expiration: int)

  /** The position of the last event for a request, or -1. */
  function LastUse(h: seq<Event>, key: seq<byte>): (n: int)
    ensures -1 <= n < |h| && (n >= 0 ==> h[n].key == key)
    ensures forall i :: n < i < |h| ==> h[i].key != key
  {
    if h == [] then -1
    else if h[|h| - 1].key == key then |h| - 1
    else LastUse(h[..|h| - 1], key)
  }

  /** A response is stored for the request. */
  predicate Stores(e: Event, key: seq<byte>) {
    e.Stored? && e.key == key
  }

  /** The last response stored for a request, if there is one. */
  function LastStored(h: seq<Event>, key: seq<byte>): (e: Option<Event>)
    ensures e.None? ==> forall i :: 0 <= i < |h| ==> !Stores(h[i], key)
    ensures e.Some? ==> Stores(e.v, key) && exists i :: 0 <= i < |h| && h[i] == e.v
                                                        && forall j :: i < j < |h| ==> !Stores(h[j], key)
  {
    if h == [] then None
    else if Stores(h[|h| - 1], key) then Some(h[|h| - 1])
    else LastStored(h[..|h| - 1], key)
  }

  /** The history says of the entry's request what the entry says. */
  predicate Agrees(h: seq<Event>, e: Entry) {
    LastStored(h, e.request) == Some(Stored(e.request, e.response.document, e.response.id, e.expiration))
  }

  lemma LastUseOf(h: seq<Event>, e: Event, key: seq<byte>)
    ensures LastUse(h + [e], key) == if e.key == key then |h| else LastUse(h, key)
  {
    assert (h + [e])[..|h|] == h;
  }

  lemma LastStoredOf(h: seq<Event>, e: Event, key: seq<byte>)
    ensures LastStored(h + [e], key) == if Stores(e, key) then Some(e) else LastStored(h, key)
  {
    assert (h + [e])[..|h|] == h;
  }

  // ---- lists of entries

  predicate DistinctKeys(es: seq<Entry>) {
    forall i, j :: 0 <= i < j < |es| ==> es[i].request != es[j].request
  }

  /** Entries used later stand before those used earlier. */
  predicate InOrderOfUse(es: seq<Entry>, h: seq<Event>) {
    forall i, j :: 0 <= i < j < |es| ==> LastUse(h, es[i].request) > LastUse(h, es[j].request)
  }

  predicate AllAgree(es: seq<Entry>, h: seq<Event>) {
    forall i :: 0 <= i < |es| ==> Agrees(h, es[i])
  }

  predicate ExpireWithin(es: seq<Entry>, low: int, high: int) {
    forall i :: 0 <= i < |es| ==> low <= es[i].expiration <= high
  }

  predicate Expired(e: Entry, now: int) {
    e.expiration < now
  }

  /** What a full scan leaves; `UnexpiredConcat` says that it keeps the order. */
  function Unexpired(es: seq<Entry>, now: int): (r: seq<Entry>)
    ensures |r| <= |es| && forall e :: e in r <==> e in es && !Expired(e, now)
  {
    if es == [] then [] else (if Expired(es[0], now) then [] else [es[0]]) + Unexpired(es[1..], now)
  }

  lemma {:induction false} UnexpiredConcat(x: seq<Entry>, y: seq<Entry>, now: int)
    ensures Unexpired(x + y, now) == Unexpired(x, now) + Unexpired(y, now)
    decreases |x|
  {
    if x == [] {
      assert x + y == y;
    } else {
      assert (x + y)[1..] == x[1..] + y;
      UnexpiredConcat(x[1..], y, now);
    }
  }

  lemma {:induction false} NoneExpired(es: seq<Entry>, now: int)
    requires forall i :: 0 <= i < |es| ==> !Expired(es[i], now)
    ensures Unexpired(es, now) == es
    decreases |es|
  {
    if es == [] {
    } else {
      NoneExpired(es[1..], now);
    }
  }

  /** Where an unexpired entry for the request stands, or the number of entries. */
  function FindFresh(es: seq<Entry>, request: seq<byte>, now: int): (k: nat)
    ensures k <= |es| && (k < |es| ==> !Expired(es[k], now) && es[k].request == request)
    ensures forall i :: 0 <= i < k ==> Expired(es[i], now) || es[i].request != request
  {
    if es == [] || (!Expired(es[0], now) && es[0].request == request) then 0 else 1 + FindFresh(es[1..], request, now)
  }

  function Without(es: seq<Entry>, k: nat): (r: seq<Entry>)
    requires k < |es|
    ensures |r| == |es| - 1 && forall i :: 0 <= i < |r| ==> r[i] == if i < k then es[i] else es[i + 1]
  {
    es[..k] + es[k + 1..]
  }

  /** All that is kept of a list by dropping entries. */
  predicate Good(es: seq<Entry>, h: seq<Event>, low: int, high: int) {
    DistinctKeys(es) && InOrderOfUse(es, h) && AllAgree(es, h) && ExpireWithin(es, low, high)
  }

  lemma GoodWithout(es: seq<Entry>, k: nat, h: seq<Event>, low: int, high: int)
    requires k < |es| && Good(es, h, low, high)
    ensures Good(Without(es, k), h, low, high)
  {
    hide LastUse, Agrees;
  }

  /** A list stays good if an entry with a new event comes to its head. */
  lemma GoodAtHead(e: Entry, es: seq<Entry>, h: seq<Event>, event: Event, low: int, high: int)
    requires Good(es, h, low, high) && event.key == e.request && low <= e.expiration <= high
    requires forall i :: 0 <= i < |es| ==> es[i].request != e.request
    requires if event.Stored? then event == Stored(e.request, e.response.document, e.response.id, e.expiration)
             else Agrees(h, e)
    ensures Good([e] + es, h + [event], low, high)
  {
    hide LastUse, LastStored;
    var r, g := [e] + es, h + [event];
    forall i | 0 <= i < |r|
      ensures Agrees(g, r[i])
    {
      LastStoredOf(h, event, r[i].request);
      assert i > 0 ==> Agrees(h, es[i - 1]);
    }
    forall i, j | 0 <= i < j < |r|
      ensures LastUse(g, r[i].request) > LastUse(g, r[j].request)
    {
      LastUseOf(h, event, r[i].request);
      LastUseOf(h, event, r[j].request);
    }
  }

  // ---- what entries take up

  /** The bytes of all requests. */
  function RequestBytes(es: seq<Entry>): nat {
    if es == [] then 0 else |es[0].request| + RequestBytes(es[1..])
  }

  /** What the pools of all responses have taken from the heap. */
  function PoolBytes(es: seq<Entry>): nat {
    if es == [] then 0 else es[0].response.dynamic + PoolBytes(es[1..])
  }

  // ---- the cache

  const MAX_TIME: int := 0x7FFF_FFFF_FFFF_FFFF * 1_000_000_000 + 999_999_999

  /** The last nanosecond of the last second that fits in 63 bits. */
  lemma LatestTime()
    ensures (MAX_TIME + 1) == 0x8000_0000_0000_0000 * 1_000_000_000
  {
  }

  /** Times are in nanoseconds; `overhead` is what an entry and its response take without their contents. */
  class Cache {
    const ttl: int
    const maxSize: nat
    const overhead: nat
    var nextExpiration: int
    var size: nat
    var entries: seq<Entry>
    ghost var history: seq<Event>
    ghost var clock: int

    function EntrySize(request: seq<byte>, response: Response): nat {
      |request| + overhead + response.dynamic
    }

    function Total(es: seq<Entry>): nat {
      if es == [] then 0 else Total(es[..|es| - 1]) + EntrySize(es[|es| - 1].request, es[|es| - 1].response)
    }

    /** All but the accounting of sizes. */
    ghost predicate Consistent()
      reads this
    {
      Good(entries, history, nextExpiration, clock + ttl)
    }

    ghost predicate Valid()
      reads this
    {
      Consistent() && size == Total(entries) && size <= maxSize
    }

    constructor (ttl: int, maxSize: nat, overhead: nat, ghost now: int)
      ensures Valid() && entries == [] && history == [] && clock == now
      ensures this.ttl == ttl && this.maxSize == maxSize && this.overhead == overhead
    {
      this.ttl, this.maxSize, this.overhead := ttl, maxSize, overhead;
      nextExpiration, size, entries := MAX_TIME, 0, [];
      history, clock := [], now;
    }

    lemma {:induction false} TotalConcat(x: seq<Entry>, y: seq<Entry>)
      ensures Total(x + y) == Total(x) + Total(y)
      decreases |y|
    {
      if y == [] {
        assert x + y == x;
      } else {
        var n := |y| - 1;
        assert (x + y)[..|x| + n] == x + y[..n];
        TotalConcat(x, y[..n]);
      }
    }

    /** The size of a list: its requests, what its responses have taken from the heap, and the overhead of each. */
    lemma {:induction false} TotalIsSum(es: seq<Entry>)
      ensures Total(es) == RequestBytes(es) + PoolBytes(es) + |es| * overhead
      decreases |es|
    {
      if es == [] {
      } else {
        TotalConcat([es[0]], es[1..]);
        TotalOne(es[0]);
        TotalIsSum(es[1..]);
        assert [es[0]] + es[1..] == es;
      }
    }

    lemma TotalOne(e: Entry)
      ensures Total([e]) == EntrySize(e.request, e.response)
    {
      assert [e][..0] == [];
      assert Total([]) == 0;
    }

    lemma TotalWithout(es: seq<Entry>, k: nat)
      requires k < |es|
      ensures Total(es) == Total(Without(es, k)) + EntrySize(es[k].request, es[k].response)
    {
      hide Total, EntrySize;
      var x, e, y := es[..k], es[k], es[k + 1..];
      SplitAt(es, k);
      TotalConcat(x, [e] + y);
      TotalConcat([e], y);
      TotalConcat(x, y);
      TotalOne(e);
    }

    method Remove(k: nat)
      requires Valid() && k < |entries|
      modifies this`size, this`entries
      ensures Valid() && entries == Without(old(entries), k)
      ensures size == old(size) - EntrySize(old(entries[k].request), old(entries[k].response))
    {
      hide Total, EntrySize, Good, Without;
      TotalWithout(entries, k);
      GoodWithout(entries, k, history, nextExpiration, clock + ttl);
      size := size - EntrySize(entries[k].request, entries[k].response);
      entries := Without(entries, k);
    }

    method RemoveLast()
      requires Valid() && entries != []
      modifies this`size, this`entries
      ensures Valid() && entries == old(entries[..|entries| - 1])
      ensures size == old(size) - EntrySize(old(entries[|entries| - 1].request), old(entries[|entries| - 1].response))
    {
      assert Without(entries, |entries| - 1) == entries[..|entries| - 1];
      Remove(|entries| - 1);
    }

    /** Removes everything, or what has expired; the bound on expirations decides whether to look. */
    method Clear(removeAll: bool, now: int)
      requires Valid() && clock <= now
      modifies this
      ensures Valid() && history == old(history)
      ensures entries == if removeAll then [] else Unexpired(old(entries), now)
    {
      hide Good, Total, EntrySize, Unexpired, Without;
      if removeAll {
        while entries != []
          invariant Valid() && history == old(history)
          decreases |entries|
        {
          RemoveLast();
        }
        NoEntriesAreGood(history, MAX_TIME, clock + ttl);
        nextExpiration := MAX_TIME;
      } else {
        ghost var es := entries;
        GoodLater(entries, history, nextExpiration, clock + ttl, now + ttl);
        clock := now;
        if nextExpiration < now {
          Scan(now);
        } else {
          FreshIfBounded(es, history, nextExpiration, clock + ttl, now);
        }
      }
    }

    /** The scan of the whole list, which also finds the new bound. */
    method Scan(now: int)
      requires Valid() && clock == now
      modifies this`size, this`entries, this`nextExpiration
      ensures Valid() && entries == Unexpired(old(entries), now)
    {
      hide Good, Total, EntrySize, Without, Scanned, ExpireWithin;
      ghost var es, low := entries, nextExpiration;
      var next := MAX_TIME;
      var i := 0;
      ghost var k: nat := 0;
      ScannedNone(es, now, next, now + ttl);
      while i < |entries|
        invariant 0 <= i <= |entries| && Valid() && nextExpiration == low
        invariant Scanned(entries, i, es, k, now) && ExpireWithin(entries[..i], next, now + ttl)
        decreases |entries| - i
      {
        ScannedOn(entries, i, es, k, now);
        if entries[i].expiration < now {
          WithoutAt(entries, i);
          Remove(i);
        } else {
          LaterBound(entries, i, history, low, next, now + ttl);
          if next > entries[i].expiration {
            next := entries[i].expiration;
          }
          i := i + 1;
        }
        k := k + 1;
      }
      ScannedAll(entries, es, k, now);
      NewBound(entries, history, low, next, now + ttl);
      nextExpiration := next;
    }

    /** How many entries from the head may stay when `need` bytes more are wanted. */
    function Fitting(es: seq<Entry>, need: nat): (n: nat)
      ensures n <= |es| && (need <= maxSize ==> Total(es[..n]) + need <= maxSize)
      ensures n < |es| ==> Total(es[..n + 1]) + need > maxSize
    {
      assert es[..|es|] == es;
      if Total(es) + need <= maxSize || es == [] then |es|
      else
        var less := es[..|es| - 1];
        assert forall m :: 0 <= m <= |less| ==> less[..m] == es[..m];
        Fitting(less, need)
    }

    /**
     Looks for an unexpired entry and moves it to the head, dropping what has expired on the way.
     A copy of the response takes `copyDynamic` bytes, or cannot be made.
     */
    method Get(request: seq<byte>, copy: bool, now: int, copyDynamic: Option<nat>)
      returns (ok: bool, response: Option<Response>, copied: bool)
      requires Valid() && clock <= now
      modifies this
      ensures Valid() && clock == now
      ensures ok <==> (copy && FindFresh(old(entries), request, now) < |old(entries)| ==> copyDynamic.Some?)
      ensures copied <==> copy && response.Some?
      ensures
        var es, k := old(entries), FindFresh(old(entries), request, now);
        if k < |es| then
          && entries == [es[k]] + (Unexpired(es[..k], now) + es[k + 1..]) && history == old(history) + [Used(request)]
          && response.Some? == ok && (ok ==> IsLastStored(old(history), request, response.v, now))
        else
          && entries == Unexpired(es, now) && history == old(history) && response == None
          && forall e :: e in entries ==> e.request != request
    {
      hide Good, Total, EntrySize, Without, Scanned, ExpireWithin, FindFresh, Unexpired;
      ghost var es := entries;
      ghost var k: nat := 0;
      GoodLater(entries, history, nextExpiration, clock + ttl, now + ttl);
      clock := now;
      ScannedNone(es, now, 0, 0);
      var i := 0;
      var hit := false;
      while i < |entries| && !hit
        invariant 0 <= i <= |entries| && Valid() && clock == now && history == old(history)
        invariant k <= |es| && Scanned(entries, i, es, k, now)
        invariant forall j :: 0 <= j < k ==> Expired(es[j], now) || es[j].request != request
        invariant hit ==> i < |entries| && !Expired(entries[i], now) && entries[i].request == request
        decreases |entries| - i, !hit
      {
        ScannedOn(entries, i, es, k, now);
        SameEntry(entries, i, es, k, now);
        if entries[i].expiration < now {
          Remove(i);
          k := k + 1;
        } else if entries[i].request == request {
          hit := true;
        } else {
          i := i + 1;
          k := k + 1;
        }
      }
      ok, response, copied := true, None, false;
      if hit {
        HitAt(entries, i, es, k, request, now);
        var e := entries[i];
        ToHead(entries, i, history, request, nextExpiration, clock + ttl);
        HitIsLastStored(entries, i, history, nextExpiration, clock + ttl, now);
        TotalWithout(entries, i);
        TotalAtHead(e, Without(entries, i));
        entries := [e] + Without(entries, i);
        history := history + [Used(request)];
        if !copy {
          response := Some(e.response);
        } else if copyDynamic.Some? {
          response, copied := Some(e.response.(dynamic := copyDynamic.v)), true;
        } else {
          ok := false;
        }
      } else {
        ScannedAll(entries, es, k, now);
        MissAfter(es, k, request, now);
      }
    }

    lemma TotalAtHead(e: Entry, es: seq<Entry>)
      ensures Total([e] + es) == Total(es) + EntrySize(e.request, e.response)
    {
      hide Total, EntrySize;
      TotalConcat([e], es);
      TotalOne(e);
    }

    /**
     Stores a copy of a response that was not found before, at the cost of the entries used
     longest ago. The accounting survives exactly if the copy takes as much memory as the response.
     */
    method Insert(request: seq<byte>, response: Response, now: int, granted: bool, copyDynamic: Option<nat>)
      requires Valid() && clock <= now && forall e :: e in entries ==> e.request != request
      modifies this
      ensures Consistent() && size <= maxSize && clock == now
      ensures
        var es, need := old(entries), EntrySize(request, response);
        var n := Fitting(es, need);
        var stored := need <= maxSize && granted && copyDynamic.Some?;
        && (need > maxSize ==> entries == es)
        && (need <= maxSize && !stored ==> entries == es[..n])
        && (stored ==> entries == [Entry(request, response.(dynamic := copyDynamic.v), now + ttl)] + es[..n])
        && history == old(history)
           + (if stored then [Stored(request, response.document, response.id, now + ttl)] else [])
        && (size == Total(entries) <==> (stored ==> copyDynamic.v == response.dynamic))
      ensures EvictsLeastUsed(old(entries), old(history), Fitting(old(entries), EntrySize(request, response)))
    {
      hide Good, Total, EntrySize, Without, Fitting;
      ghost var es := entries;
      OrderOfGood(entries, history, nextExpiration, clock + ttl);
      GoodLater(entries, history, nextExpiration, clock + ttl, now + ttl);
      if entries != [] {
        BoundOfGood(entries, history, nextExpiration, clock + ttl);
      }
      clock := now;
      var need := EntrySize(request, response);
      if maxSize >= need {
        while maxSize - size < need
          invariant Valid() && clock == now && history == old(history) && entries <= es
                    && nextExpiration == old(nextExpiration)
          invariant Fitting(entries, need) == Fitting(es, need)
          decreases |entries|
        {
          NonEmptyIfUsed(entries);
          FittingLess(entries, need);
          RemoveLast();
        }
        FittingAll(entries, need);
        if granted && copyDynamic.Some? {
          var e := Entry(request, response.(dynamic := copyDynamic.v), now + ttl);
          ghost var event := Stored(request, response.document, response.id, now + ttl);
          TotalAtHead(e, entries);
          SizeOfCopy(request, response, copyDynamic.v);
          if entries == [] {
            NoEntriesAreGood(history, e.expiration, clock + ttl);
            nextExpiration := e.expiration;
          }
          GoodAtHead(e, entries, history, event, nextExpiration, clock + ttl);
          size := size + need;
          entries := [e] + entries;
          history := history + [event];
        }
      }
    }

    lemma SizeOfCopy(request: seq<byte>, response: Response, dynamic: nat)
      ensures EntrySize(request, response.(dynamic := dynamic)) == EntrySize(request, response) <==>
              dynamic == response.dynamic
    {
    }

    lemma NonEmptyIfUsed(es: seq<Entry>)
      ensures Total(es) > 0 ==> es != []
    {
    }

    lemma FittingLess(es: seq<Entry>, need: nat)
      requires Total(es) + need > maxSize && es != []
      ensures Fitting(es, need) == Fitting(es[..|es| - 1], need)
    {
    }

    lemma FittingAll(es: seq<Entry>, need: nat)
      requires Total(es) + need <= maxSize
      ensures Fitting(es, need) == |es|
    {
    }
  }

  lemma NoEntriesAreGood(h: seq<Event>, low: int, high: int)
    ensures Good([], h, low, high)
  {
  }

  lemma GoodLater(es: seq<Entry>, h: seq<Event>, low: int, high: int, later: int)
    requires Good(es, h, low, high) && high <= later
    ensures Good(es, h, low, later)
  {
  }

  /** If the bound has not been passed, a full scan would find nothing. */
  lemma FreshIfBounded(es: seq<Entry>, h: seq<Event>, low: int, high: int, now: int)
    requires Good(es, h, low, high) && now <= low
    ensures Unexpired(es, now) == es
  {
    NoneExpired(es, now);
  }

  /** The response that was stored last for the request, and its time is not over. */
  predicate IsLastStored(h: seq<Event>, request: seq<byte>, r: Response, now: int) {
    var e := LastStored(h, request);
    e.Some? && e.v.document == r.document && e.v.id == r.id && now <= e.v.expiration
  }

  /** The first `n` entries have been used later than the others. */
  ghost predicate EvictsLeastUsed(es: seq<Entry>, h: seq<Event>, n: nat) {
    forall i, j :: 0 <= i < n <= j < |es| ==> LastUse(h, es[i].request) > LastUse(h, es[j].request)
  }

  lemma OrderOfGood(es: seq<Entry>, h: seq<Event>, low: int, high: int)
    requires Good(es, h, low, high)
    ensures forall n: nat :: EvictsLeastUsed(es, h, n)
  {
  }

  lemma BoundOfGood(es: seq<Entry>, h: seq<Event>, low: int, high: int)
    requires Good(es, h, low, high) && es != []
    ensures low <= high
  {
    assert low <= es[0].expiration;
  }

  lemma SameEntry(cur: seq<Entry>, i: nat, es: seq<Entry>, k: nat, now: int)
    requires i < |cur| && Scanned(cur, i, es, k, now)
    ensures k < |es| && cur[i] == es[k]
  {
    assert cur[i] == cur[i..][0] == es[k];
  }

  lemma HitAt(cur: seq<Entry>, i: nat, es: seq<Entry>, k: nat, request: seq<byte>, now: int)
    requires i < |cur| && Scanned(cur, i, es, k, now) && !Expired(cur[i], now) && cur[i].request == request
    requires forall j :: 0 <= j < k ==> Expired(es[j], now) || es[j].request != request
    ensures k < |es| && cur[i] == es[k] && FindFresh(es, request, now) == k
    ensures Without(cur, i) == Unexpired(es[..k], now) + es[k + 1..]
  {
    hide Unexpired;
    SameEntry(cur, i, es, k, now);
    assert cur[i + 1..] == cur[i..][1..] == es[k..][1..] == es[k + 1..];
  }

  lemma MissAfter(es: seq<Entry>, k: nat, request: seq<byte>, now: int)
    requires k == |es| && forall j :: 0 <= j < k ==> Expired(es[j], now) || es[j].request != request
    ensures FindFresh(es, request, now) == |es|
    ensures forall e :: e in Unexpired(es, now) ==> e.request != request
  {
    hide Unexpired;
  }

  lemma ToHead(es: seq<Entry>, i: nat, h: seq<Event>, request: seq<byte>, low: int, high: int)
    requires i < |es| && Good(es, h, low, high) && es[i].request == request
    ensures Good([es[i]] + Without(es, i), h + [Used(request)], low, high)
  {
    hide LastUse, Agrees;
    GoodWithout(es, i, h, low, high);
    GoodAtHead(es[i], Without(es, i), h, Used(request), low, high);
  }

  lemma HitIsLastStored(es: seq<Entry>, i: nat, h: seq<Event>, low: int, high: int, now: int)
    requires i < |es| && Good(es, h, low, high) && !Expired(es[i], now)
    ensures IsLastStored(h, es[i].request, es[i].response, now)
  {
    assert Agrees(h, es[i]);
  }

  /** The scan has come to entry `i`, which was entry `k` before. */
  predicate Scanned(cur: seq<Entry>, i: nat, es: seq<Entry>, k: nat, now: int) {
    i <= |cur| && k <= |es| && cur[i..] == es[k..] && cur[..i] == Unexpired(es[..k], now)
  }

  lemma ScannedNone(es: seq<Entry>, now: int, low: int, high: int)
    ensures Scanned(es, 0, es, 0, now) && ExpireWithin(es[..0], low, high)
  {
  }

  lemma ScannedOn(cur: seq<Entry>, i: nat, es: seq<Entry>, k: nat, now: int)
    requires i < |cur| && Scanned(cur, i, es, k, now)
    ensures if Expired(cur[i], now) then Scanned(Without(cur, i), i, es, k + 1, now)
            else Scanned(cur, i + 1, es, k + 1, now)
  {
    hide Unexpired;
    assert cur[i] == cur[i..][0] == es[k];
    assert cur[i + 1..] == cur[i..][1..] == es[k..][1..] == es[k + 1..];
    OneMore(es, k, now);
    if Expired(cur[i], now) {
      WithoutAt(cur, i);
    } else {
      assert cur[..i + 1] == cur[..i] + [cur[i]];
    }
  }

  lemma ScannedAll(cur: seq<Entry>, es: seq<Entry>, k: nat, now: int)
    requires Scanned(cur, |cur|, es, k, now)
    ensures k == |es| && cur == Unexpired(es, now) && cur[..|cur|] == cur
  {
    assert es[..k] == es;
  }

  lemma SplitAt(es: seq<Entry>, k: nat)
    requires k < |es|
    ensures es == es[..k] + ([es[k]] + es[k + 1..])
  {
  }

  lemma OneMore(es: seq<Entry>, k: nat, now: int)
    requires k < |es|
    ensures Unexpired(es[..k + 1], now) == Unexpired(es[..k], now) + if Expired(es[k], now) then [] else [es[k]]
  {
    assert es[..k + 1] == es[..k] + [es[k]];
    UnexpiredConcat(es[..k], [es[k]], now);
    assert [es[k]][1..] == [];
  }

  lemma WithoutAt(es: seq<Entry>, i: nat)
    requires i < |es|
    ensures Without(es, i)[..i] == es[..i] && Without(es, i)[i..] == es[i + 1..]
  {
  }

  lemma LaterBound(es: seq<Entry>, i: nat, h: seq<Event>, low: int, next: int, high: int)
    requires i < |es| && Good(es, h, low, high) && ExpireWithin(es[..i], next, high)
    ensures ExpireWithin(es[..i + 1], if next > es[i].expiration then es[i].expiration else next, high)
  {
    hide LastUse, Agrees;
    assert forall j :: 0 <= j < i ==> es[..i + 1][j] == es[..i][j];
  }

  lemma NewBound(es: seq<Entry>, h: seq<Event>, low: int, next: int, high: int)
    requires Good(es, h, low, high) && ExpireWithin(es, next, high)
    ensures Good(es, h, next, high)
  {
  }
}
