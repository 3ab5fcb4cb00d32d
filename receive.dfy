/** The receive loop of `Node.pull`: after the length announcement, the frame
    is read in chunks of at most 2048 bytes into a `bytearray` until it holds
    the announced number of bytes. The connection is a byte stream: `stream` is
    what the peer sends, and the network decides how much of what was asked
    for each `recv` hands over (`grants`). */
module Receive {
  import opened Wrappers
  import opened Bytes

  /** The largest chunk one `recv` asks for. */
  const MaxChunk: nat := 2048

  function Min(a: int, b: int): int { if a <= b then a else b }
  function Max(a: int, b: int): int { if a <= b then b else a }

  /** The peer closed the connection before the frame was complete; the loop
      then calls `recv` on the socket it has closed, which raises. */
  datatype ReceiveError = ConnectionClosed

  /** One `recv(n)` on a stream: a prefix of what the peer has sent and not yet
      been read, at most `n` bytes and at most `grant` of them, yet at least one
      byte unless the peer has closed with nothing left, when it is empty. */
  function Recv(pending: seq<byte>, n: nat, grant: nat): (chunk: seq<byte>)
    requires n >= 1
    ensures |chunk| <= n && |chunk| <= |pending| && chunk == pending[..|chunk|]
    ensures chunk == [] <==> pending == []
  {
    pending[..Min(Min(n, Max(grant, 1)), |pending|)]
  }

  /** The chunks laid end to end, as `frame.extend` builds them up. */
  function Concat(chunks: seq<seq<byte>>): seq<byte>
    decreases |chunks|
  {
    if chunks == [] then [] else Concat(chunks[..|chunks| - 1]) + chunks[|chunks| - 1]
  }

  lemma ConcatAppend(chunks: seq<seq<byte>>, c: seq<byte>)
    ensures Concat(chunks + [c]) == Concat(chunks) + c
  {
    assert (chunks + [c])[..|chunks|] == chunks;
  }

  /** The requests made so far, each against the chunks received before it:
      what is still missing, capped at 2048, and never less than one byte; and
      no chunk longer than its request. */
  ghost predicate RequestsSoFar(size: int, requests: seq<nat>, chunks: seq<seq<byte>>)
    requires |requests| == |chunks|
  {
    forall i :: 0 <= i < |requests| ==>
      && requests[i] == Min(size - |Concat(chunks[..i])|, MaxChunk)
      && 1 <= requests[i] <= MaxChunk
      && |chunks[i]| <= requests[i]
  }

  lemma RequestsExtend(size: int, requests: seq<nat>, chunks: seq<seq<byte>>, n: nat, c: seq<byte>)
    requires |requests| == |chunks| && RequestsSoFar(size, requests, chunks)
    requires n == Min(size - |Concat(chunks)|, MaxChunk) && 1 <= n <= MaxChunk && |c| <= n
    ensures RequestsSoFar(size, requests + [n], chunks + [c])
  {
    var rs, cs := requests + [n], chunks + [c];
    forall i | 0 <= i < |requests|
      ensures rs[i] == Min(size - |Concat(cs[..i])|, MaxChunk) && 1 <= rs[i] <= MaxChunk && |cs[i]| <= rs[i]
    {
      assert cs[..i] == chunks[..i];
    }
    assert cs[..|requests|] == chunks;
  }

  /** Moving what one `recv` returned from the unread part of the stream to the frame. */
  lemma MoveToFrame(stream: seq<byte>, frame: seq<byte>, pending: seq<byte>, packet: seq<byte>)
    requires stream == frame + pending && |packet| <= |pending| && packet == pending[..|packet|]
    ensures stream == (frame + packet) + pending[|packet|..]
  {
    assert pending == packet + pending[|packet|..];
  }

  /** Lines 166 to 172 of `Node.pull`. Each request asks for what is still
      missing, capped at 2048; the frame is the concatenation of the chunks, in
      order, and is exactly the first `size` bytes the peer sent, however the
      network cut them up. */
  method ReceiveFrame(size: int, stream: seq<byte>, grants: seq<nat>)
    returns (r: Result<seq<byte>, ReceiveError>, requests: seq<nat>, chunks: seq<seq<byte>>)
    ensures |requests| == |chunks| && RequestsSoFar(size, requests, chunks)
    ensures forall i :: 0 <= i < |chunks| ==> (chunks[i] == [] <==> r.Err? && i == |chunks| - 1)
    ensures r.Ok? <==> size <= |stream|
    ensures r.Ok? ==> r.value == Concat(chunks) == stream[..Max(size, 0)]
    ensures r.Err? ==> Concat(chunks) == stream
  {
    var frame: seq<byte> := [];
    var pending := stream;
    requests, chunks := [], [];
    while |frame| < size
      invariant |requests| == |chunks|
      invariant frame == Concat(chunks) && stream == frame + pending
      invariant |frame| <= Max(size, 0)
      invariant RequestsSoFar(size, requests, chunks)
      invariant [] !in chunks
      decreases size - |frame|
    {
      var n := Min(size - |frame|, MaxChunk);
      var grant := if |requests| < |grants| then grants[|requests|] else n;
      var packet := Recv(pending, n, grant);
      RequestsExtend(size, requests, chunks, n, packet);
      ConcatAppend(chunks, packet);
      requests, chunks := requests + [n], chunks + [packet];
      if packet == [] {
        // the socket is closed, and the next `recv` on it raises
        r := Err(ConnectionClosed);
        return;
      }
      MoveToFrame(stream, frame, pending, packet);
      frame := frame + packet;
      pending := pending[|packet|..];
    }
    assert frame == stream[..|frame|];
    r := Ok(frame);
  }
}
