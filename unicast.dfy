/** The unicast node (class `Node`): `push` sends each outbox entry once over
    its own stream connection, announcing the frame's length first; `pull`
    accepts connections, reads the announced number of bytes and puts the
    decoded message in the inbox. Sockets are replaced by what they deliver:
    whether the destination could be reached, and for each accepted connection
    the bytes the peer sent. */
module Unicast {
  import opened Wrappers
  import opened Bytes
  import Decimal
  import Header
  import Frame
  import Receive
  import Seqs
  import opened Communication

  /** What one successful `push` puts on the wire: the length announcement,
      then the frame, to the entry's destination. */
  datatype Transmission = Transmission(destination: Address, announcement: seq<byte>, frame: seq<byte>)

  /** An accepted connection as the receiver sees it: the bytes of the peer's
      first send (the length announcement), the bytes it sends after the
      acknowledgement, and how many bytes the network hands over per `recv`. */
  datatype Connection = Connection(announcement: seq<byte>, stream: seq<byte>, grants: seq<nat>)

  /** The size of the first read, `c.recv(1024)`. */
  const AnnouncementRead: nat := 1024

  /** One pass of `push` with an entry in hand: pack it with the node's own
      address; if that fails or the destination cannot be reached the entry is
      dropped, otherwise the announcement and the frame are sent. The
      announcement always reads back as the length of the frame it precedes. */
  function Dispatch(host: string, port: int, e: Entry, reachable: bool): (r: Option<Transmission>)
    ensures r.Some? <==> reachable && Frame.Pack(host, port, e.dataType, e.data).Ok?
    ensures r.Some? ==>
      && r.value.destination == e.destination
      && r.value.frame == Frame.Pack(host, port, e.dataType, e.data).value
      && Decimal.ParseAnnouncement(r.value.announcement) == Some(|r.value.frame|)
  {
    match Frame.Pack(host, port, e.dataType, e.data)
    case Err(_) => None
    case Ok(frame) =>
      if reachable then
        Decimal.AnnouncementRoundTrip(|frame|);
        Some(Transmission(e.destination, Decimal.Announcement(|frame|), frame))
      else None
  }

  /** The transmissions of successive passes over `entries`, one reachability
      outcome per entry. */
  function DispatchAll(host: string, port: int, entries: seq<Entry>, reachable: seq<bool>): seq<Transmission>
    requires |entries| == |reachable|
    decreases |entries|
  {
    if entries == [] then []
    else
      var k := |entries| - 1;
      DispatchAll(host, port, entries[..k], reachable[..k]) + Listed(Dispatch(host, port, entries[k], reachable[k]))
  }

  /** Each entry is sent at most once, and every transmission is what the pass
      over one of the entries sends: its frame, to its own destination. */
  lemma {:induction false} DispatchAllBounds(host: string, port: int, entries: seq<Entry>, reachable: seq<bool>)
    requires |entries| == |reachable|
    ensures |DispatchAll(host, port, entries, reachable)| <= |entries|
    ensures forall t :: t in DispatchAll(host, port, entries, reachable) ==>
              exists i :: 0 <= i < |entries| && Dispatch(host, port, entries[i], reachable[i]) == Some(t)
    decreases |entries|
  {
    if entries != [] {
      var k := |entries| - 1;
      DispatchAllBounds(host, port, entries[..k], reachable[..k]);
      forall t | t in DispatchAll(host, port, entries, reachable)
        ensures exists i :: 0 <= i < |entries| && Dispatch(host, port, entries[i], reachable[i]) == Some(t)
      {
        if t in DispatchAll(host, port, entries[..k], reachable[..k]) {
          var i :| 0 <= i < k && Dispatch(host, port, entries[..k][i], reachable[..k][i]) == Some(t);
          assert entries[..k][i] == entries[i] && reachable[..k][i] == reachable[i];
        } else {
          assert Dispatch(host, port, entries[k], reachable[k]) == Some(t);
        }
      }
    }
  }

  /** Nothing is lost: when every entry packs and every destination can be
      reached, pass i sends entry i, for every entry, in outbox order. */
  lemma DispatchAllComplete(host: string, port: int, entries: seq<Entry>, reachable: seq<bool>)
    requires |entries| == |reachable|
    requires forall i :: 0 <= i < |entries| ==> Frame.Pack(host, port, entries[i].dataType, entries[i].data).Ok?
    requires forall i :: 0 <= i < |reachable| ==> reachable[i]
    ensures |DispatchAll(host, port, entries, reachable)| == |entries|
    ensures forall i :: 0 <= i < |entries| ==>
              DispatchAll(host, port, entries, reachable)[i] == Dispatch(host, port, entries[i], true).value
  {
    var outs := seq(|entries|, i requires 0 <= i < |entries| => Dispatch(host, port, entries[i], reachable[i]));
    DispatchAllPresent(host, port, entries, reachable, outs);
    Seqs.PresentAll(outs);
  }

  /** A run sends exactly the transmissions of the passes that send, in order. */
  lemma {:induction false} DispatchAllPresent(host: string, port: int, entries: seq<Entry>, reachable: seq<bool>, outs: seq<Option<Transmission>>)
    requires |entries| == |reachable| == |outs|
    requires forall i :: 0 <= i < |outs| ==> outs[i] == Dispatch(host, port, entries[i], reachable[i])
    ensures DispatchAll(host, port, entries, reachable) == Seqs.Present(outs)
    decreases |entries|
  {
    if entries != [] {
      var k := |entries| - 1;
      assert forall i :: 0 <= i < k ==>
        entries[..k][i] == entries[i] && reachable[..k][i] == reachable[i] && outs[..k][i] == outs[i];
      DispatchAllPresent(host, port, entries[..k], reachable[..k], outs[..k]);
      assert DispatchAll(host, port, entries, reachable) == Seqs.Present(outs[..k]) + Listed(outs[k]);
    }
  }

  /** One more pass at the end of a run of passes. */
  lemma DispatchAllSnoc(host: string, port: int, entries: seq<Entry>, reachable: seq<bool>, i: nat)
    requires i < |entries| && i < |reachable|
    ensures DispatchAll(host, port, entries[..i + 1], reachable[..i + 1])
            == DispatchAll(host, port, entries[..i], reachable[..i]) + Listed(Dispatch(host, port, entries[i], reachable[i]))
  {
    assert entries[..i + 1][..i] == entries[..i];
    assert reachable[..i + 1][..i] == reachable[..i];
  }

  /** One more connection at the end of a run of connections. */
  lemma ServedAllSnoc(cs: seq<Connection>, i: nat)
    requires i < |cs|
    ensures ServedAll(cs[..i + 1]) == ServedAll(cs[..i]) + Served(cs[i])
  {
    assert cs[..i + 1][..i] == cs[..i];
  }

  /** One more served connection extends the inbox by that connection's messages. */
  lemma PullStep(start: seq<Frame.Message>, cs: seq<Connection>, i: nat, before: seq<Frame.Message>, after: seq<Frame.Message>)
    requires i < |cs| && before == start + ServedAll(cs[..i]) && after == before + Served(cs[i])
    ensures after == start + ServedAll(cs[..i + 1])
  {
    ServedAllSnoc(cs, i);
    Seqs.Associative(start, ServedAll(cs[..i]), Served(cs[i]));
  }

  /** What one accepted connection adds to the inbox: nothing when the first
      read is empty, the announcement does not parse, the peer closes before
      the announced number of bytes arrived, or the frame does not decode.
      Since `unPack` rejects an empty payload, no message that arrives has one. */
  function Served(c: Connection): (r: seq<Frame.Message>)
    ensures |r| <= 1
    ensures r != [] ==> r[0].payload != []
  {
    var data := c.announcement[..Receive.Min(|c.announcement|, AnnouncementRead)];
    if data == [] then []
    else match Decimal.ParseAnnouncement(data)
      case None => []
      case Some(size) =>
        if size > |c.stream| then []
        else match Frame.UnPack(c.stream[..Receive.Max(size, 0)])
          case Err(_) => []
          case Ok(m) => [m]
  }

  /** What a run of accepted connections adds to the inbox, in order. */
  function ServedAll(cs: seq<Connection>): seq<Frame.Message>
    decreases |cs|
  {
    if cs == [] then [] else ServedAll(cs[..|cs| - 1]) + Served(cs[|cs| - 1])
  }

  /** A run of connections delivers at most one message per connection, and
      none with an empty payload. */
  lemma {:induction false} ServedAllBounds(cs: seq<Connection>)
    ensures |ServedAll(cs)| <= |cs|
    ensures forall i :: 0 <= i < |ServedAll(cs)| ==> ServedAll(cs)[i].payload != []
    decreases |cs|
  {
    if cs != [] {
      ServedAllBounds(cs[..|cs| - 1]);
    }
  }

  /** A message sent by `push` to a listening `pull` arrives intact: the
      receiver's inbox gains exactly the sender's host, port text, data type and
      non-empty payload, however the network cuts the frame into chunks. */
  lemma {:induction false} Delivery(host: string, port: int, e: Entry, grants: seq<nat>)
    requires Header.Separator !in host && Header.Separator !in e.dataType
    requires |e.data| > 0
    requires Dispatch(host, port, e, true).Some?
    ensures
      var t := Dispatch(host, port, e, true).value;
      Served(Connection(t.announcement, t.frame, grants))
        == [Frame.Message([host, Decimal.IntText(port), e.dataType], e.data)]
  {
    var t := Dispatch(host, port, e, true).value;
    var n := |t.frame|;
    Decimal.AnnouncementRoundTrip(n);
    AnnouncementFits(n);
    assert t.announcement[..Receive.Min(|t.announcement|, AnnouncementRead)] == t.announcement;
    assert t.frame[..Receive.Max(n, 0)] == t.frame;
    Frame.PackUnPack(host, port, e.dataType, e.data);
  }

  /** An entry with an empty payload is sent but never arrives: the receiver's
      `unPack` raises on its frame and the connection adds nothing. */
  lemma DeliveryDropsEmpty(host: string, port: int, e: Entry, grants: seq<nat>)
    requires e.data == []
    requires Dispatch(host, port, e, true).Some?
    ensures
      var t := Dispatch(host, port, e, true).value;
      Served(Connection(t.announcement, t.frame, grants)) == []
  {
    var t := Dispatch(host, port, e, true).value;
    var n := |t.frame|;
    Decimal.AnnouncementRoundTrip(n);
    AnnouncementFits(n);
    assert t.announcement[..Receive.Min(|t.announcement|, AnnouncementRead)] == t.announcement;
    assert t.frame[..Receive.Max(n, 0)] == t.frame;
    Frame.UnPackRejectsEmptyPayload(host, port, e.dataType);
  }

  /** The announcement of any frame `Pack` can build fits the first 1024-byte read. */
  lemma AnnouncementFits(n: nat)
    requires n <= 8 + 2 * Int32Max
    ensures 0 < |Decimal.Announcement(n)| <= AnnouncementRead
  {
    assert Decimal.Pow10(10) == 10_000_000_000;
    Decimal.AnnouncementLength(n, 10);
  }

  class Node {
    const comm: Communication

    constructor (host: string, port: int := DefaultPort)
      ensures fresh(comm) && comm.host == host && comm.port == port
      ensures !comm.killed && comm.inbox == [] && comm.outbox == [] && comm.threads == []
    {
      comm := new Communication(host, port);
    }

    /** `Start`: registers the inbound worker, then the outbound one. */
    method Start()
      modifies comm`threads
      ensures comm.threads == old(comm.threads) + [Inbound, Outbound]
    {
      comm.threads := comm.threads + [Inbound, Outbound];
    }

    /** One pass of the `push` loop. An empty outbox is a timeout and changes
        nothing; otherwise the head entry is taken off for good, whether it
        could be delivered or not. */
    method PushStep(reachable: bool) returns (sent: Option<Transmission>)
      modifies comm`outbox
      ensures old(comm.outbox) == [] ==> comm.outbox == [] && sent == None
      ensures old(comm.outbox) != [] ==>
        && comm.outbox == old(comm.outbox)[1..]
        && sent == Dispatch(comm.host, comm.port, old(comm.outbox)[0], reachable)
    {
      if comm.outbox == [] {
        return None;
      }
      var e := comm.outbox[0];
      comm.outbox := comm.outbox[1..];
      var frame := Frame.Pack(comm.host, comm.port, e.dataType, e.data);
      if frame.Err? {
        return None;
      }
      if !reachable {
        return None;
      }
      sent := Some(Transmission(e.destination, Decimal.Announcement(|frame.value|), frame.value));
    }

    /** `push`: passes until the node is killed, one reachability outcome per
        pass. Each entry is sent at most once, in outbox order. */
    method Push(reachable: seq<bool>) returns (sent: seq<Transmission>)
      modifies comm`outbox
      ensures
        var n := if comm.killed then 0 else Receive.Min(|reachable|, |old(comm.outbox)|);
        && comm.outbox == old(comm.outbox)[n..]
        && sent == DispatchAll(comm.host, comm.port, old(comm.outbox)[..n], reachable[..n])
    {
      ghost var queue := comm.outbox;
      sent := [];
      var i := 0;
      while i < |reachable| && !comm.killed
        invariant i <= |reachable|
        invariant comm.killed ==> i == 0
        invariant
          var n := Receive.Min(i, |queue|);
          && comm.outbox == queue[n..]
          && sent == DispatchAll(comm.host, comm.port, queue[..n], reachable[..n])
      {
        var t := PushStep(reachable[i]);
        if i < |queue| {
          Seqs.Advance(queue, i);
          DispatchAllSnoc(comm.host, comm.port, queue, reachable, i);
        } else {
          assert t == None && sent + Listed(t) == sent;
        }
        sent := sent + Listed(t);
        i := i + 1;
      }
    }

    /** One accepted connection of `pull`: read the announcement, receive the
        announced number of bytes, decode them and put the message in the inbox.
        Any failure drops the connection's message and nothing else changes. */
    method ServeConnection(c: Connection)
      modifies comm`inbox
      ensures comm.inbox == old(comm.inbox) + Served(c)
    {
      var data := c.announcement[..Receive.Min(|c.announcement|, AnnouncementRead)];
      if data == [] {
        return;
      }
      var size := Decimal.ParseAnnouncement(data);
      if size.None? {
        return;
      }
      var frame, _, _ := Receive.ReceiveFrame(size.value, c.stream, c.grants);
      if frame.Err? {
        return;
      }
      var message := Frame.UnPack(frame.value);
      if message.Ok? {
        comm.inbox := comm.inbox + [message.value];
      }
    }

    /** `pull`: nothing if the listening socket cannot be bound; otherwise serve
        the accepted connections in order until the node is killed. */
    method Pull(bound: bool, accepted: seq<Connection>)
      modifies comm`inbox
      ensures comm.inbox == old(comm.inbox) + if bound && !comm.killed then ServedAll(accepted) else []
    {
      if !bound {
        return;
      }
      var i := 0;
      while i < |accepted| && !comm.killed
        invariant i <= |accepted|
        invariant comm.killed ==> i == 0
        invariant comm.inbox == old(comm.inbox) + ServedAll(accepted[..i])
      {
        ghost var before := comm.inbox;
        ServeConnection(accepted[i]);
        PullStep(old(comm.inbox), accepted, i, before, comm.inbox);
        i := i + 1;
      }
      assert !comm.killed ==> accepted[..i] == accepted;
    }
  }
}
