/**
 The two ends of a core connection: a receive buffer that is refilled in chunks of any size,
 and a send loop that may be cut short anywhere.  The kernel is a script of events.
 */
module Connection {
  import opened Bytes

  /**
   What one poll and its transfer bring.  `Chunk` holds bytes that the peer has sent, an
   empty one being the end of its stream; `Room` is how many bytes the kernel will take;
   `Idle` is a poll that timed out before the deadline; `Fault` is any error.
   */
  datatype Event = Chunk(data: seq<byte>) | Room(size: nat) | Idle | Fault

  /** Everything a script delivers before it fails, ends or runs out of time. */
  function Delivery(events: seq<Event>): (s: seq<byte>) {
    if events == [] then []
    else match events[0]
      case Chunk(data) => if data == [] then [] else data + Delivery(events[1..])
      case Idle => Delivery(events[1..])
      case _ => []
  }

  /** How many bytes a script accepts before it fails, ends or runs out of time. */
  function Capacity(events: seq<Event>): (n: nat) {
    if events == [] then 0
    else match events[0]
      case Room(size) => if size == 0 then 0 else size + Capacity(events[1..])
      case Idle => Capacity(events[1..])
      case _ => 0
  }

  /** However a stream is cut into chunks, the same bytes are delivered. */
  lemma {:induction false} DeliveryOfCuts(pieces: seq<seq<byte>>, events: seq<Event>)
    requires forall i :: 0 <= i < |pieces| ==> pieces[i] != []
    ensures Delivery(Chunks(pieces) + events) == Flatten(pieces) + Delivery(events)
    decreases |pieces|
  {
    if pieces == [] {
      assert Chunks(pieces) + events == events;
    } else {
      var more := Chunks(pieces[1..]) + events;
      assert Chunks(pieces) + events == [Chunk(pieces[0])] + more;
      DeliveryOfCuts(pieces[1..], events);
      assert ([Chunk(pieces[0])] + more)[1..] == more;
    }
  }

  function Chunks(pieces: seq<seq<byte>>): (events: seq<Event>) {
    if pieces == [] then [] else [Chunk(pieces[0])] + Chunks(pieces[1..])
  }

  function Flatten(pieces: seq<seq<byte>>): (s: seq<byte>) {
    if pieces == [] then [] else pieces[0] + Flatten(pieces[1..])
  }

  /** Taking bytes from the front of a buffer, in front of what is still to come. */
  lemma TakeFront(got: seq<byte>, buffer: seq<byte>, i: nat, n: nat, j: nat, more: seq<byte>)
    requires i + n <= j <= |buffer|
    ensures got + buffer[i..i + n] + (buffer[i + n..j] + more) == got + (buffer[i..j] + more)
  {
    assert buffer[i..j] == buffer[i..i + n] + buffer[i + n..j];
  }

  class Receiver {
    const storage: array<byte>
    var getp: nat
    var putp: nat
    var events: seq<Event>

    ghost predicate Valid()
      reads this, storage
    {
      getp <= putp <= storage.Length && storage.Length > 0
    }

    /** The bytes that are still to be read: buffered ones first. */
    ghost function Stream(): (s: seq<byte>)
      requires Valid()
      reads this, storage
    {
      storage[getp..putp] + Delivery(events)
    }

    constructor (size: nat, events: seq<Event>)
      requires size > 0
      ensures Valid() && fresh(storage) && Stream() == Delivery(events)
    {
      storage := new byte[size];
      getp, putp := 0, 0;
      this.events := events;
    }

    /** One poll and one recv into the empty buffer, which stays empty when the poll timed out. */
    method Refill() returns (ok: bool)
      requires Valid() && getp == putp && events != []
      modifies this, storage
      ensures Valid() && Stream() == old(Stream())
      ensures ok ==> if getp == putp then |events| < |old(events)| else true
      ensures !ok ==> Stream() == []
    {
      putp, getp := 0, 0;
      match events[0]
      case Idle =>
        events := events[1..];
        return true;
      case Chunk(data) =>
        if data == [] {
          return false;
        }
        var n := if |data| < storage.Length then |data| else storage.Length;
        for i := 0 to n
          modifies storage
          invariant storage[..i] == data[..i]
        {
          storage[i] := data[i];
        }
        putp := n;
        if n < |data| {
          assert data == data[..n] + data[n..];
          assert ([Chunk(data[n..])] + events[1..])[1..] == events[1..];
          events := [Chunk(data[n..])] + events[1..];
        } else {
          events := events[1..];
        }
        return true;
      case _ =>
        return false;
    }

    /** Fills `data` from the stream, refilling the buffer as often as that takes. */
    method RecvAll(data: array<byte>) returns (ok: bool)
      requires Valid() && data != storage
      modifies this, storage, data
      ensures Valid()
      ensures ok <==> |old(Stream())| >= data.Length
      ensures ok ==> data[..] == old(Stream())[..data.Length] && Stream() == old(Stream())[data.Length..]
    {
      ghost var s := Stream();
      var size := 0;
      while size < data.Length
        invariant Valid() && size <= data.Length
        invariant s == data[..size] + Stream()
        decreases data.Length - size, |events|, putp == getp
      {
        if getp == putp {
          if events == [] {
            return false;
          }
          var filled := Refill();
          if !filled {
            return false;
          }
        }
        if getp < putp {
          size := Take(data, size);
        }
      }
      assert data[..data.Length] == data[..];
      return true;
    }

    /** Copies buffered bytes into `data`, as many as there are and as fit. */
    method Take(data: array<byte>, size: nat) returns (filled: nat)
      requires Valid() && data != storage && size < data.Length && getp < putp
      modifies this, data
      ensures Valid() && events == old(events) && storage[..] == old(storage[..])
      ensures size < filled <= data.Length
      ensures data[..filled] + Stream() == old(data[..size] + Stream())
    {
      hide Delivery;
      var n := if data.Length - size < putp - getp then data.Length - size else putp - getp;
      for i := 0 to n
        modifies data
        invariant storage[..] == old(storage[..])
        invariant data[..size + i] == old(data[..size]) + storage[..][getp..getp + i]
      {
        data[size + i] := storage[getp + i];
      }
      ghost var s, more := storage[..], Delivery(events);
      TakeFront(old(data[..size]), s, getp, n, putp, more);
      getp := getp + n;
      filled := size + n;
    }
  }

  class Sender {
    var sent: seq<byte>
    var events: seq<Event>

    constructor (events: seq<Event>)
      ensures sent == [] && this.events == events
    {
      sent := [];
      this.events := events;
    }

    /** Sends a request, resuming after every partial transfer. */
    method SendAll(data: array<byte>) returns (ok: bool)
      modifies this
      ensures ok <==> Capacity(old(events)) >= data.Length
      ensures sent == old(sent) + if ok then data[..] else data[..Capacity(old(events))]
    {
      var getp: nat := 0;
      assert data[..0] == [];
      while getp < data.Length
        invariant getp <= data.Length && sent == old(sent) + data[..getp]
        invariant Capacity(old(events)) >= data.Length <==> getp + Capacity(events) >= data.Length
        invariant getp < data.Length ==> Capacity(old(events)) == getp + Capacity(events)
        decreases |events|
      {
        if events == [] {
          return false;
        }
        var e := events[0];
        events := events[1..];
        match e
        case Idle =>
        case Room(room) =>
          if room == 0 {
            return false;
          }
          var n := if room < data.Length - getp then room else data.Length - getp;
          assert data[..getp] + data[getp..getp + n] == data[..getp + n];
          sent := sent + data[getp..getp + n];
          getp := getp + n;
        case _ =>
          return false;
      }
      assert data[..data.Length] == data[..];
      return true;
    }
  }
}
