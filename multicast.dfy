/** The multicast node (class `multicastNode`), in one of two roles chosen at
    construction: the broadcaster's `push` sends the outbox head as one datagram
    and puts the same entry back at the end of the outbox, so every entry is sent
    again and again; the receiver's `pull` keeps every message it decodes and
    stops after the first whose header has at least three fields. Sockets are
    replaced by what they deliver: whether each send succeeded, and the
    datagrams that arrived. */
module Multicast {
  import opened Wrappers
  import opened Bytes
  import Decimal
  import Header
  import Frame
  import Receive
  import Seqs
  import opened Communication

  const ReceiverMode: string := "R"
  const BroadcasterMode: string := "B"
  const DefaultGroup: Address := Address("127.0.0.1", 55588)

  /** The size of the receiver's read, `recv(1024)`; the rest of a longer
      datagram is discarded. */
  const DatagramRead: nat := 1024

  /** One datagram sent by the broadcaster: the frame, to the entry's destination. */
  datatype Datagram = Datagram(destination: Address, frame: seq<byte>)

  /** One pass of the broadcaster with the outbox `q`: on success the head goes
      to the back; an entry that does not pack or whose send fails is dropped. */
  function Step(host: string, port: int, q: seq<Entry>, sendOk: bool): (r: (seq<Entry>, Option<Datagram>))
    ensures q == [] ==> r == ([], None)
    ensures q != [] ==> r.0 == q[1..] + (if r.1.Some? then [q[0]] else [])
    ensures q != [] ==> (r.1.Some? <==> sendOk && Frame.Pack(host, port, q[0].dataType, q[0].data).Ok?)
    ensures r.1.Some? ==>
      q != [] && r.1.value == Datagram(q[0].destination, Frame.Pack(host, port, q[0].dataType, q[0].data).value)
  {
    if q == [] then ([], None)
    else match Frame.Pack(host, port, q[0].dataType, q[0].data)
      case Err(_) => (q[1..], None)
      case Ok(frame) =>
        if sendOk then (q[1..] + [q[0]], Some(Datagram(q[0].destination, frame))) else (q[1..], None)
  }

  /** Successive passes, one send outcome each: the final outbox and the
      datagrams sent, in order. */
  function Run(host: string, port: int, q: seq<Entry>, sendOk: seq<bool>): (seq<Entry>, seq<Datagram>)
    decreases |sendOk|
  {
    if sendOk == [] then (q, [])
    else
      var before := Run(host, port, q, sendOk[..|sendOk| - 1]);
      var step := Step(host, port, before.0, sendOk[|sendOk| - 1]);
      (step.0, before.1 + Listed(step.1))
  }

  /** The broadcaster never invents entries or datagrams: its outbox only
      keeps or loses entries, and each pass sends at most one datagram. */
  lemma {:induction false} RunBounds(host: string, port: int, q: seq<Entry>, sendOk: seq<bool>)
    ensures multiset(Run(host, port, q, sendOk).0) <= multiset(q)
    ensures |Run(host, port, q, sendOk).1| <= |sendOk|
    decreases |sendOk|
  {
    if sendOk != [] {
      var before := Run(host, port, q, sendOk[..|sendOk| - 1]);
      RunBounds(host, port, q, sendOk[..|sendOk| - 1]);
      StepBounds(host, port, before.0, sendOk[|sendOk| - 1]);
    }
  }

  /** One pass keeps or loses entries and sends at most one datagram. */
  lemma StepBounds(host: string, port: int, q: seq<Entry>, sendOk: bool)
    ensures multiset(Step(host, port, q, sendOk).0) <= multiset(q)
    ensures |Listed(Step(host, port, q, sendOk).1)| <= 1
  {
    if q != [] {
      assert q == [q[0]] + q[1..];
    }
  }

  /** The datagram the broadcaster sends for an entry that packs. */
  function DatagramOf(host: string, port: int, e: Entry): Datagram
    requires Frame.Pack(host, port, e.dataType, e.data).Ok?
  {
    Datagram(e.destination, Frame.Pack(host, port, e.dataType, e.data).value)
  }

  /** A successful pass sends the head and moves it to the back. */
  lemma StepSent(host: string, port: int, q: seq<Entry>)
    requires q != [] && Frame.Pack(host, port, q[0].dataType, q[0].data).Ok?
    ensures Step(host, port, q, true) == (q[1..] + [q[0]], Some(DatagramOf(host, port, q[0])))
  {
  }

  /** One more pass at the end of a run. */
  lemma RunSnoc(host: string, port: int, q: seq<Entry>, s: seq<bool>, b: bool)
    ensures
      var before := Run(host, port, q, s);
      var step := Step(host, port, before.0, b);
      Run(host, port, q, s + [b]) == (step.0, before.1 + Listed(step.1))
  {
    assert (s + [b])[..|s|] == s;
  }

  /** The queue `q` turned `k` places: its first `k` entries moved to the back. */
  function Rotated<T>(q: seq<T>, k: nat): (r: seq<T>)
    requires k <= |q|
    ensures |r| == |q| && multiset(r) == multiset(q)
  {
    assert q == q[..k] + q[k..];
    q[k..] + q[..k]
  }

  predicate AllPack(host: string, port: int, q: seq<Entry>) {
    forall i :: 0 <= i < |q| ==> Frame.Pack(host, port, q[i].dataType, q[i].data).Ok?
  }

  predicate AllSucceed(sendOk: seq<bool>) {
    forall i :: 0 <= i < |sendOk| ==> sendOk[i]
  }

  /** The datagram of each entry, in order. */
  function Datagrams(host: string, port: int, q: seq<Entry>): (ds: seq<Datagram>)
    requires AllPack(host, port, q)
    ensures |ds| == |q|
    decreases |q|
  {
    if q == [] then [] else Datagrams(host, port, q[..|q| - 1]) + [DatagramOf(host, port, q[|q| - 1])]
  }

  /** `n` copies of `s` one after the other. */
  function Repeat<T>(s: seq<T>, n: nat): seq<T> {
    if n == 0 then [] else Repeat(s, n - 1) + s
  }

  /** Passes run one after the other: the second run starts from the outbox the first left. */
  lemma {:induction false} RunAppend(host: string, port: int, q: seq<Entry>, a: seq<bool>, b: seq<bool>)
    ensures
      var first := Run(host, port, q, a);
      var second := Run(host, port, first.0, b);
      Run(host, port, q, a + b) == (second.0, first.1 + second.1)
    decreases |b|
  {
    if b == [] {
      assert a + b == a;
      assert Run(host, port, q, a).1 + [] == Run(host, port, q, a).1;
    } else {
      RunAppend(host, port, q, a, b[..|b| - 1]);
      RunAppendStep(host, port, q, a, b[..|b| - 1], b[|b| - 1]);
      Seqs.SplitLast(a, b);
    }
  }

  /** The step of RunAppend: one more pass at the end of the second run. */
  lemma RunAppendStep(host: string, port: int, q: seq<Entry>, a: seq<bool>, b: seq<bool>, x: bool)
    requires
      var first := Run(host, port, q, a);
      var second := Run(host, port, first.0, b);
      Run(host, port, q, a + b) == (second.0, first.1 + second.1)
    ensures
      var first := Run(host, port, q, a);
      var second := Run(host, port, first.0, b + [x]);
      Run(host, port, q, (a + b) + [x]) == (second.0, first.1 + second.1)
  {
    var first := Run(host, port, q, a);
    var mid := Run(host, port, first.0, b);
    var step := Step(host, port, mid.0, x);
    RunSnoc(host, port, q, a + b, x);
    RunSnoc(host, port, first.0, b, x);
    var sent := Listed(step.1);
    assert Run(host, port, q, (a + b) + [x]) == (step.0, (first.1 + mid.1) + sent);
    assert Run(host, port, first.0, b + [x]) == (step.0, mid.1 + sent);
    Seqs.Associative(first.1, mid.1, sent);
  }

  /** Within the first round of successful passes, pass j sends entry j and
      the outbox is the original one turned as many places as there were passes. */
  lemma {:induction false} BroadcastPrefix(host: string, port: int, q: seq<Entry>, sendOk: seq<bool>)
    requires AllPack(host, port, q) && AllSucceed(sendOk) && |sendOk| <= |q|
    ensures Run(host, port, q, sendOk) == (Rotated(q, |sendOk|), Datagrams(host, port, q[..|sendOk|]))
    decreases |sendOk|
  {
    var k := |sendOk|;
    if k == 0 {
      assert q[0..] + q[..0] == q;
    } else {
      var init := sendOk[..k - 1];
      assert sendOk == init + [true];
      BroadcastPrefix(host, port, q, init);
      BroadcastPrefixStep(host, port, q, init);
    }
  }

  /** The step of BroadcastPrefix: one more successful pass sends the next entry. */
  lemma BroadcastPrefixStep(host: string, port: int, q: seq<Entry>, init: seq<bool>)
    requires AllPack(host, port, q) && |init| < |q|
    requires Run(host, port, q, init) == (Rotated(q, |init|), Datagrams(host, port, q[..|init|]))
    ensures Run(host, port, q, init + [true]) == (Rotated(q, |init| + 1), Datagrams(host, port, q[..|init| + 1]))
  {
    var k := |init| + 1;
    RunSnoc(host, port, q, init, true);
    RotatedOnce(q, k);
    StepSent(host, port, Rotated(q, k - 1));
    DatagramsSnoc(host, port, q, k);
  }

  /** Moving the head of a queue turned k - 1 places to its back turns it k places. */
  lemma RotatedOnce<T>(q: seq<T>, k: nat)
    requires 0 < k <= |q|
    ensures Rotated(q, k - 1) != [] && Rotated(q, k - 1)[0] == q[k - 1]
    ensures Rotated(q, k - 1)[1..] + [Rotated(q, k - 1)[0]] == Rotated(q, k)
  {
    var r := Rotated(q, k - 1);
    assert r == q[k - 1..] + q[..k - 1];
    assert r[1..] == q[k..] + q[..k - 1];
    assert q[..k - 1] + [q[k - 1]] == q[..k];
  }

  /** Datagrams of a longer prefix: one more datagram at the end. */
  lemma DatagramsSnoc(host: string, port: int, q: seq<Entry>, k: nat)
    requires AllPack(host, port, q) && 0 < k <= |q|
    ensures AllPack(host, port, q[..k]) && AllPack(host, port, q[..k - 1])
    ensures Datagrams(host, port, q[..k]) == Datagrams(host, port, q[..k - 1]) + [DatagramOf(host, port, q[k - 1])]
  {
    assert q[..k][..k - 1] == q[..k - 1];
  }

  /** `n` passes whose sends all succeed. */
  function Successes(n: nat): (s: seq<bool>)
    ensures |s| == n && AllSucceed(s)
  {
    if n == 0 then [] else Successes(n - 1) + [true]
  }

  /** The repeat-broadcast policy: when every entry packs and every send
      succeeds, `rounds` rounds of |q| passes send every entry once per round,
      in outbox order, and leave the outbox as it started. */
  lemma {:induction false} BroadcastRounds(host: string, port: int, q: seq<Entry>, rounds: nat)
    requires AllPack(host, port, q)
    ensures Run(host, port, q, Repeat(Successes(|q|), rounds)) == (q, Repeat(Datagrams(host, port, q), rounds))
  {
    if rounds > 0 {
      BroadcastRounds(host, port, q, rounds - 1);
      BroadcastRound(host, port, q, Repeat(Successes(|q|), rounds - 1));
    }
  }

  /** A round of |q| successful passes after a run that left the outbox as it
      found it sends every entry once and again leaves the outbox as it was. */
  lemma BroadcastRound(host: string, port: int, q: seq<Entry>, before: seq<bool>)
    requires AllPack(host, port, q) && Run(host, port, q, before).0 == q
    ensures Run(host, port, q, before + Successes(|q|)) == (q, Run(host, port, q, before).1 + Datagrams(host, port, q))
  {
    BroadcastPrefix(host, port, q, Successes(|q|));
    assert q[|q|..] + q[..|q|] == q;
    assert q[..|q|] == q;
    RunAppend(host, port, q, before, Successes(|q|));
  }

  /** What the receiver reads of one datagram: at most its first 1024 bytes. */
  function Received(datagram: seq<byte>): (r: seq<byte>)
    ensures |r| <= DatagramRead && |r| <= |datagram| && r == datagram[..|r|]
    ensures |datagram| <= DatagramRead ==> r == datagram
  {
    datagram[..Receive.Min(|datagram|, DatagramRead)]
  }

  /** The receiver's whole lifetime: the message of every datagram that
      decodes, in order, up to and including the first whose header has at
      least three fields. After `inbox.put`, the report formats the header's
      second and third fields; with fewer fields that raises, the handler
      skips the `break`, and the loop reads on. So every kept message but the
      last has fewer than three header fields, and no payload is empty. */
  function Kept(datagrams: seq<seq<byte>>): (r: seq<Frame.Message>)
    ensures forall j :: 0 <= j < |r| - 1 ==> |r[j].header| < 3
    ensures forall j :: 0 <= j < |r| ==> r[j].payload != []
    decreases |datagrams|
  {
    if datagrams == [] then []
    else match Frame.UnPack(Received(datagrams[0]))
      case Ok(m) => if |m.header| >= 3 then [m] else [m] + Kept(datagrams[1..])
      case Err(_) => Kept(datagrams[1..])
  }

  /** Whether a datagram ends the receiver's loop: it decodes and the report
      after it finds three header fields. */
  predicate Final(datagram: seq<byte>) {
    Frame.UnPack(Received(datagram)).Ok? && |Frame.UnPack(Received(datagram)).value.header| >= 3
  }

  /** The receiver gets nothing exactly when no datagram decodes. */
  lemma {:induction false} KeptEmpty(datagrams: seq<seq<byte>>)
    ensures Kept(datagrams) == [] <==>
            forall j :: 0 <= j < |datagrams| ==> Frame.UnPack(Received(datagrams[j])).Err?
    decreases |datagrams|
  {
    if datagrams != [] {
      KeptEmpty(datagrams[1..]);
      assert forall j :: 1 <= j < |datagrams| ==> datagrams[j] == datagrams[1..][j - 1];
    }
  }

  /** The datagram that ends the loop is the first final one: the messages of
      the decodable datagrams before it are kept too, and those after it are
      never read. */
  lemma {:induction false} KeptAt(datagrams: seq<seq<byte>>, i: nat)
    requires i < |datagrams| && Final(datagrams[i])
    requires forall j :: 0 <= j < i ==> !Final(datagrams[j])
    ensures Kept(datagrams) == Kept(datagrams[..i]) + [Frame.UnPack(Received(datagrams[i])).value]
    decreases i
  {
    if i > 0 {
      var rest := datagrams[1..];
      assert forall j :: 0 <= j < i - 1 ==> rest[j] == datagrams[j + 1];
      KeptAt(rest, i - 1);
      assert datagrams[..i][1..] == rest[..i - 1];
      assert datagrams[..i][0] == datagrams[0];
    }
  }

  /** Without a final datagram the receiver keeps the message of every
      datagram that decodes, in order, and reads on to the end. */
  lemma {:induction false} KeptAll(datagrams: seq<seq<byte>>)
    requires forall j :: 0 <= j < |datagrams| ==> !Final(datagrams[j])
    ensures |Kept(datagrams)| == |Decodable(datagrams)|
    ensures forall j :: 0 <= j < |Kept(datagrams)| ==>
              Kept(datagrams)[j] == Frame.UnPack(Received(Decodable(datagrams)[j])).value
    decreases |datagrams|
  {
    if datagrams != [] {
      var rest := datagrams[1..];
      assert forall j :: 0 <= j < |rest| ==> rest[j] == datagrams[j + 1];
      KeptAll(rest);
      assert !Final(datagrams[0]);
      if Frame.UnPack(Received(datagrams[0])).Ok? {
        assert Kept(datagrams) == [Frame.UnPack(Received(datagrams[0])).value] + Kept(rest);
        assert Decodable(datagrams) == [datagrams[0]] + Decodable(rest);
      } else {
        assert Kept(datagrams) == Kept(rest);
        assert Decodable(datagrams) == Decodable(rest);
      }
    }
  }

  /** The datagrams that decode. */
  function Decodable(datagrams: seq<seq<byte>>): (r: seq<seq<byte>>)
    ensures |r| <= |datagrams|
    ensures forall j :: 0 <= j < |r| ==> Frame.UnPack(Received(r[j])).Ok?
    ensures forall x :: x in r <==> x in datagrams && Frame.UnPack(Received(x)).Ok?
    decreases |datagrams|
  {
    if datagrams == [] then []
    else if Frame.UnPack(Received(datagrams[0])).Ok? then [datagrams[0]] + Decodable(datagrams[1..])
    else Decodable(datagrams[1..])
  }

  /** A broadcast frame with a non-empty payload that fits the 1024-byte read
      reaches a receiver intact and ends its loop. */
  lemma MulticastDelivery(host: string, port: int, e: Entry, later: seq<seq<byte>>)
    requires Header.Separator !in host && Header.Separator !in e.dataType
    requires |e.data| > 0
    requires Frame.Pack(host, port, e.dataType, e.data).Ok?
    requires |Frame.Pack(host, port, e.dataType, e.data).value| <= DatagramRead
    ensures Kept([Frame.Pack(host, port, e.dataType, e.data).value] + later)
            == [Frame.Message([host, Decimal.IntText(port), e.dataType], e.data)]
  {
    var f := Frame.Pack(host, port, e.dataType, e.data).value;
    Frame.PackUnPack(host, port, e.dataType, e.data);
    assert ([f] + later)[0] == f;
  }

  /** A broadcast frame with an empty payload is skipped: `unPack` raises on it
      and the receiver reads on. */
  lemma MulticastDropsEmpty(host: string, port: int, e: Entry, later: seq<seq<byte>>)
    requires e.data == []
    requires Frame.Pack(host, port, e.dataType, e.data).Ok?
    requires |Frame.Pack(host, port, e.dataType, e.data).value| <= DatagramRead
    ensures Kept([Frame.Pack(host, port, e.dataType, e.data).value] + later) == Kept(later)
  {
    var f := Frame.Pack(host, port, e.dataType, e.data).value;
    Frame.UnPackRejectsEmptyPayload(host, port, e.dataType);
    assert ([f] + later)[0] == f;
    assert ([f] + later)[1..] == later;
  }

  class MulticastNode {
    const comm: Communication
    const mode: string
    const group: Address

    constructor (host: string, port: int := DefaultPort, mode: string := ReceiverMode, group: Address := DefaultGroup)
      ensures fresh(comm) && comm.host == host && comm.port == port
      ensures !comm.killed && comm.inbox == [] && comm.outbox == [] && comm.threads == []
      ensures this.mode == mode && this.group == group
    {
      comm := new Communication(host, port);
      this.mode := mode;
      this.group := group;
    }

    /** `Start`: a receiver registers its inbound worker, a broadcaster its
        outbound one, and any other mode neither. */
    method Start()
      modifies comm`threads
      ensures comm.threads == old(comm.threads)
        + if mode == ReceiverMode then [Inbound] else if mode == BroadcasterMode then [Outbound] else []
    {
      if mode == ReceiverMode {
        comm.threads := comm.threads + [Inbound];
      } else if mode == BroadcasterMode {
        comm.threads := comm.threads + [Outbound];
      }
    }

    /** One pass of the broadcaster's `push`. A successful send leaves the
        outbox with the same entries, the head moved to the back. */
    method PushStep(sendOk: bool) returns (sent: Option<Datagram>)
      modifies comm`outbox
      ensures (comm.outbox, sent) == Step(comm.host, comm.port, old(comm.outbox), sendOk)
      ensures sent.Some? ==> multiset(comm.outbox) == multiset(old(comm.outbox))
    {
      if comm.outbox == [] {
        return None;
      }
      var e := comm.outbox[0];
      var frame := Frame.Pack(comm.host, comm.port, e.dataType, e.data);
      comm.outbox := comm.outbox[1..];
      if frame.Err? || !sendOk {
        return None;
      }
      comm.outbox := comm.outbox + [e];
      sent := Some(Datagram(e.destination, frame.value));
      assert old(comm.outbox) == [e] + old(comm.outbox)[1..];
    }

    /** The broadcaster's `push`: passes until the node is killed, one send
        outcome per pass. */
    method Push(sendOk: seq<bool>) returns (sent: seq<Datagram>)
      modifies comm`outbox
      ensures (comm.outbox, sent) == Run(comm.host, comm.port, old(comm.outbox), if comm.killed then [] else sendOk)
    {
      sent := [];
      var i := 0;
      while i < |sendOk| && !comm.killed
        invariant i <= |sendOk|
        invariant comm.killed ==> i == 0
        invariant (comm.outbox, sent) == Run(comm.host, comm.port, old(comm.outbox), sendOk[..i])
      {
        assert sendOk[..i + 1][..i] == sendOk[..i];
        ghost var prev := Run(comm.host, comm.port, old(comm.outbox), sendOk[..i]);
        var d := PushStep(sendOk[i]);
        assert (comm.outbox, d) == Step(comm.host, comm.port, prev.0, sendOk[..i + 1][i]);
        sent := sent + Listed(d);
        ghost var next := Run(comm.host, comm.port, old(comm.outbox), sendOk[..i + 1]);
        assert comm.outbox == next.0 && sent == next.1;
        i := i + 1;
      }
      assert !comm.killed ==> sendOk[..i] == sendOk;
    }

    /** The receiver's `pull`: if the socket could be set up, read datagrams
        until one decodes to a message whose header has three fields, putting
        every decoded message in the inbox, and stop. */
    method Pull(socketOk: bool, datagrams: seq<seq<byte>>)
      modifies comm`inbox
      ensures comm.inbox == old(comm.inbox) + if socketOk && !comm.killed then Kept(datagrams) else []
    {
      if !socketOk {
        return;
      }
      var i := 0;
      while i < |datagrams| && !comm.killed
        invariant i <= |datagrams|
        invariant comm.killed ==> i == 0
        invariant i == 0 ==> comm.inbox == old(comm.inbox)
        invariant old(comm.inbox) + Kept(datagrams) == comm.inbox + Kept(datagrams[i..])
      {
        Seqs.Advance(datagrams, i);
        var message := Frame.UnPack(Received(datagrams[i]));
        if message.Ok? {
          Seqs.Associative(comm.inbox, [message.value], Kept(datagrams[i + 1..]));
          comm.inbox := comm.inbox + [message.value];
          if |message.value.header| >= 3 {
            // the report after `inbox.put` succeeds and the loop breaks
            return;
          }
          // the report raises IndexError, which is caught, and the loop reads on
        }
        i := i + 1;
      }
      assert !comm.killed ==> datagrams[i..] == [];
    }
  }
}
