/** One request to the core: from the cache if possible, else over the connection and into the cache. */
module CoreRequest {
  import opened Bytes
  import opened XmlTree
  import opened WireFormat
  import opened WireMemory
  import opened WireRoundTrip
  import opened ResponseCache
  import Connection
  import WireMachine

  /** "response" and "continued". */
  const RESPONSE: seq<byte> := [0x72, 0x65, 0x73, 0x70, 0x6F, 0x6E, 0x73, 0x65]
  const CONTINUED: seq<byte> := [0x63, 0x6F, 0x6E, 0x74, 0x69, 0x6E, 0x75, 0x65, 0x64]

  /** The size of the buffer on the stack; a longer request needs one from the heap. */
  const STATIC_SIZE: nat := 2048

  /** The position of the first child of that name, or the number of children. */
  function FirstNamed(ts: seq<Tree>, name: seq<byte>): (i: nat)
    ensures i <= |ts| && (i < |ts| ==> ts[i].name == name)
    ensures forall j :: 0 <= j < i ==> ts[j].name != name
  {
    if ts == [] || ts[0].name == name then 0 else 1 + FirstNamed(ts[1..], name)
  }

  function FirstChild(t: Tree, name: seq<byte>): (c: Option<Tree>)
    ensures c.None? ==> forall k :: k in t.children ==> k.name != name
    ensures c.Some? ==> c.v.name == name && exists i :: 0 <= i < |t.children| && c.v == t.children[i]
                                                         && forall j :: 0 <= j < i ==> t.children[j].name != name
  {
    var i := FirstNamed(t.children, name);
    if i < |t.children| then Some(t.children[i]) else None
  }

  /** More responses will follow to the same request. */
  predicate IsContinued(document: Tree) {
    var root := FirstChild(document, RESPONSE);
    root.Some? && FirstChild(root.v, CONTINUED).Some?
  }

  /** The same written out: `d.children[i]` is the first response, and has a child that says so. */
  ghost predicate SaysContinued(d: Tree, i: nat, j: nat) {
    && i < |d.children| && j < |d.children[i].children|
    && d.children[i].name == Ascii("response") && d.children[i].children[j].name == Ascii("continued")
    && forall k :: 0 <= k < i ==> d.children[k].name != Ascii("response")
  }

  ghost predicate MoreFollows(d: Tree) {
    exists i, j :: SaysContinued(d, i, j)
  }

  lemma ContinuedIff(d: Tree)
    ensures IsContinued(d) <==> MoreFollows(d)
  {
    assert RESPONSE == Ascii("response") && CONTINUED == Ascii("continued");
    var i := FirstNamed(d.children, RESPONSE);
    if i < |d.children| {
      var j := FirstNamed(d.children[i].children, CONTINUED);
      assert j < |d.children[i].children| ==> SaysContinued(d, i, j);
    }
  }

  /** Responses of which more is to come are not stored. */
  ghost predicate Whole(h: seq<Event>) {
    forall i :: 0 <= i < |h| && h[i].Stored? ==> !MoreFollows(h[i].document)
  }

  lemma WholeBoth(g: seq<Event>, h: seq<Event>)
    requires Whole(g) && Whole(h)
    ensures Whole(g + h)
  {
    hide MoreFollows;
  }

  lemma UseIsWhole(h: seq<Event>, request: seq<byte>)
    requires Whole(h)
    ensures Whole(h + [Used(request)])
  {
    hide MoreFollows;
  }

  lemma CachedIsWhole(h: seq<Event>, request: seq<byte>, r: Response, now: int)
    requires Whole(h) && IsLastStored(h, request, r, now)
    ensures !MoreFollows(r.document)
  {
    hide MoreFollows, LastStored;
    var e := LastStored(h, request);
    var i :| 0 <= i < |h| && h[i] == e.v;
  }

  /**
   Clocks and memory in one request: when the cache is searched and what a copy of the response
   found takes, whether the request gets a buffer, whether the response gets its first block and
   how many more there are, how much of them its pool counts, and when and whether it is stored.
   */
  datatype World = World(
    start: int, cacheCopy: Option<nat>, bufferGranted: bool, responseGranted: bool, blocks: nat, dynamic: nat,
    end: int, granted: bool, copyDynamic: Option<nat>)

  /** All that a request changes and another can see. */
  datatype Snap = Snap(sent: seq<byte>, capacity: nat, stream: seq<byte>, id: nat, history: seq<Event>)

  /** What arrives when the core sends `t`: a document with a response in it, or nothing that is used. */
  ghost function Answer(t: Tree): (d: Option<Tree>) {
    if FirstChild(Delivered(t), RESPONSE).Some? then Some(Delivered(t)) else None
  }

  /** When the core has sent a message, it is read and no byte more, exactly if there is memory for it. */
  ghost predicate Answers(stream: seq<byte>, blocks: nat, document: Option<Tree>, left: seq<byte>) {
    forall m, rest :: WireMessage(m) && stream == Encode(m) + rest ==>
      if blocks >= |ReadRequests(m)| then document == Answer(m) && left == rest else document == None
  }

  function DocumentOf(r: Option<Response>): Option<Tree> {
    if r.Some? then Some(r.v.document) else None
  }

  /** Reads one message; what has no response in it is dropped. */
  method ReadAnswer(receiver: Connection.Receiver, blocks: nat) returns (document: Option<Tree>)
    requires receiver.Valid()
    modifies receiver, receiver.storage
    ensures receiver.Valid() && (document.Some? ==> FirstChild(document.v, RESPONSE).Some?)
    ensures Answers(old(receiver.Stream()), blocks, document, receiver.Stream())
  {
    hide FirstChild, Encode, WireMessage, ReadRequests, Delivered, TreeAt, Wf, Connection.Delivery;
    document := None;
    var outcome, doc := WireMachine.Receive(receiver, blocks);
    if outcome == WireMachine.Done && FirstChild(TreeAt(doc.arena, 0), RESPONSE).Some? {
      document := Some(TreeAt(doc.arena, 0));
    }
  }

  class Core {
    const cache: Cache
    const sender: Connection.Sender
    const receiver: Connection.Receiver
    var responseId: nat

    ghost predicate Valid()
      reads cache, receiver, receiver.storage
    {
      cache.Valid() && receiver.Valid() && Whole(cache.history)
    }

    ghost function Now(): (s: Snap)
      requires receiver.Valid()
      reads this, cache, sender, receiver, receiver.storage
    {
      Snap(sender.sent, Connection.Capacity(sender.events), receiver.Stream(), responseId, cache.history)
    }

    constructor (ttl: int, maxSize: nat, overhead: nat, ghost now: int, sender: Connection.Sender,
                 receiver: Connection.Receiver)
      requires receiver.Valid()
      ensures Valid() && fresh(cache) && this.sender == sender && this.receiver == receiver
      ensures cache.entries == [] && cache.clock == now && cache.ttl == ttl && cache.maxSize == maxSize
      ensures Now() == Snap(sender.sent, Connection.Capacity(sender.events), receiver.Stream(), 0, [])
    {
      cache := new Cache(ttl, maxSize, overhead, now);
      this.sender, this.receiver := sender, receiver;
      responseId := 0;
    }

    /** Whether an answer is kept. */
    predicate Keeps(request: seq<byte>, useCache: bool, response: Option<Response>, w: World) {
      && useCache && response.Some? && !IsContinued(response.v.document)
      && cache.EntrySize(request, response.v) <= cache.maxSize && w.granted && w.copyDynamic.Some?
    }

    function StoredBy(request: seq<byte>, useCache: bool, response: Option<Response>, w: World): seq<Event> {
      if !Keeps(request, useCache, response, w) then []
      else [Stored(request, response.v.document, response.v.id, w.end + cache.ttl)]
    }

    /** What is stored for a response is whole, and nothing is if it is not. */
    lemma StoredIsWhole(request: seq<byte>, useCache: bool, response: Response, w: World)
      ensures Whole(StoredBy(request, useCache, Some(response), w))
      ensures MoreFollows(response.document) ==> StoredBy(request, useCache, Some(response), w) == []
    {
      ContinuedIff(response.document);
    }

    lemma NothingStored(request: seq<byte>, useCache: bool, w: World)
      ensures StoredBy(request, useCache, None, w) == []
    {
    }

    /**
     What one exchange over the connection does.  The core gets the request, or as much of it
     as the connection takes; a response is a document with a response in it and gets the next
     number; and when the core has sent a tree, its normal form is the response.
     */
    ghost predicate Exchanged(s: Snap, t: Snap, request: seq<byte>, useCache: bool, w: World,
                              response: Option<Response>) {
      var sent := s.capacity >= |request|;
      && t.sent == s.sent + (if sent then request else request[..s.capacity])
      && (!sent || !w.responseGranted ==> response == None && t.stream == s.stream)
      && t.id == s.id + (if response.Some? then 1 else 0)
      && (response.Some? ==> response.v.id == t.id && response.v.dynamic == w.dynamic)
      && (response.Some? ==> FirstChild(response.v.document, RESPONSE).Some?)
      && t.history == s.history + StoredBy(request, useCache, response, w)
      && (sent && w.responseGranted ==> Answers(s.stream, w.blocks, DocumentOf(response), t.stream))
    }

    /** Stores a response unless more is to come. */
    method Keep(request: seq<byte>, useCache: bool, response: Response, w: World)
      requires cache.Valid() && (w.copyDynamic.Some? ==> w.copyDynamic.v == response.dynamic)
      requires useCache ==> cache.clock <= w.end && forall e :: e in cache.entries ==> e.request != request
      modifies cache
      ensures MoreFollows(response.document) ==> cache.history == old(cache.history)
      ensures cache.Valid() && cache.history == old(cache.history) + StoredBy(request, useCache, Some(response), w)
    {
      hide IsContinued, MoreFollows, Good, LastUse;
      StoredIsWhole(request, useCache, response, w);
      if useCache && !IsContinued(response.document) {
        cache.Insert(request, response, w.end, w.granted, w.copyDynamic);
      }
    }

    /** Sends a request, reads the answer, and stores it unless more is to come. */
    method Exchange(buffer: array<byte>, useCache: bool, w: World) returns (response: Option<Response>)
      requires Valid() && buffer != receiver.storage
      requires useCache ==> cache.clock <= w.end && forall e :: e in cache.entries ==> e.request != buffer[..]
      requires w.copyDynamic.Some? ==> w.copyDynamic.v == w.dynamic
      modifies this, cache, sender, receiver, receiver.storage
      ensures Valid() && Exchanged(old(Now()), Now(), old(buffer[..]), useCache, w, response)
      ensures response.Some? && MoreFollows(response.v.document) ==> cache.history == old(cache.history)
    {
      hide StoredBy, Whole, MoreFollows, FirstChild, Answers, Connection.Delivery, Connection.Capacity;
      NothingStored(buffer[..], useCache, w);
      ghost var h := cache.history;
      response := None;
      var request := buffer[..];
      var sent := sender.SendAll(buffer);
      if sent && w.responseGranted {
        var document := ReadAnswer(receiver, w.blocks);
        if document.Some? {
          responseId := responseId + 1;
          response := Some(Response(document.v, responseId, w.dynamic));
          StoredIsWhole(request, useCache, response.v, w);
          WholeBoth(h, StoredBy(request, useCache, response, w));
          Keep(request, useCache, response.v, w);
        }
      }
    }

    /**
     A cached answer is the last one stored for the same request, and then nothing is sent.
     Any other is what the core answers to exactly this request.  `flag` is what the caller has
     in the variable for `copied`, which not every failure sets.
     */
    method DoRequest(a: Arena, i: nat, useCache: bool, copy: bool, flag: bool, w: World)
      returns (response: Option<Response>, copied: bool)
      requires Valid() && Wf(a) && i < |a| && cache.clock <= w.start <= w.end
      requires w.copyDynamic.Some? ==> w.copyDynamic.v == w.dynamic
      modifies this, cache, sender, receiver, receiver.storage
      ensures Valid()
      ensures response.Some? && MoreFollows(response.v.document) ==> cache.history == old(cache.history)
      ensures !HasBuffer(Encode(TreeAt(a, i)), w) ==> response == None && copied == flag && Now() == old(Now())
      ensures HasBuffer(Encode(TreeAt(a, i)), w) && Hits(old(cache.entries), Encode(TreeAt(a, i)), useCache, w) ==>
        && response.Some? == (copy ==> w.cacheCopy.Some?) && (copied <==> copy && response.Some?)
        && (response.Some? ==> IsLastStored(old(cache.history), Encode(TreeAt(a, i)), response.v, w.start))
        && Now() == old(Now()).(history := old(cache.history) + [Used(Encode(TreeAt(a, i)))])
      ensures HasBuffer(Encode(TreeAt(a, i)), w) && !Hits(old(cache.entries), Encode(TreeAt(a, i)), useCache, w) ==>
        && Exchanged(old(Now()), Now(), Encode(TreeAt(a, i)), useCache, w, response)
        && copied == (response.Some? || (!useCache && flag))
    {
      hide Encode, TreeAt, WireMessage, Whole, MoreFollows, IsContinued, FirstChild, FindFresh, LastStored, LastUse,
        Good, Exchanged, IsLastStored, Unexpired, Connection.Delivery, Connection.Capacity;
      var buffer := WireMachine.Prepare(a, i);
      response, copied := None, flag;
      if buffer.Length > STATIC_SIZE && !w.bufferGranted {
        return;
      }
      var ok := true;
      if useCache {
        ghost var h := cache.history;
        ok, response, copied := cache.Get(buffer[..], copy, w.start, w.cacheCopy);
        UseIsWhole(h, buffer[..]);
        if response.Some? {
          CachedIsWhole(h, buffer[..], response.v, w.start);
        }
      }
      if ok && response.None? {
        response := Exchange(buffer, useCache, w);
        if response.Some? {
          copied := true;
        }
      }
    }
  }

  predicate HasBuffer(request: seq<byte>, w: World) {
    |request| <= STATIC_SIZE || w.bufferGranted
  }

  /** Requests of up to 2048 bytes need no memory. */
  lemma LongRequests(request: seq<byte>, w: World)
    ensures HasBuffer(request, w) <==> (|request| > 2048 ==> w.bufferGranted)
  {
  }

  predicate Hits(es: seq<Entry>, request: seq<byte>, useCache: bool, w: World) {
    useCache && FindFresh(es, request, w.start) < |es|
  }

  /** Requests that the cache takes for the same mean the same to the core. */
  lemma SameBytesSameRequest(t: Tree, u: Tree)
    requires WireMessage(t) && WireMessage(u) && Encode(t) == Encode(u)
    ensures Delivered(t) == Delivered(u)
  {
    EncodingIsPrefixFree(t, u, [], []);
  }
}
