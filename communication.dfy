/** The state every node shares (class `Communication`): its address, the
    shutdown flag, the inbox and outbox queues and the registry of worker
    threads. Threads, the queues' locking and the lazy lookup of the host
    address are outside the model; the queues are plain sequences. */
module Communication {
  import opened Bytes
  import Frame

  const DefaultPort: int := 55555

  /** A (host, port) pair. */
  datatype Address = Address(host: string, port: int)

  /** An outbox entry: `(destination, datatype, data)`. */
  datatype Entry = Entry(destination: Address, dataType: string, data: seq<byte>)

  /** The worker threads a node registers when it starts. */
  datatype Worker = Inbound | Outbound

  class Communication {
    const host: string
    const port: int
    var killed: bool
    var inbox: seq<Frame.Message>
    var outbox: seq<Entry>
    var threads: seq<Worker>

    constructor (host: string, port: int := DefaultPort)
      ensures this.host == host && this.port == port
      ensures !killed && inbox == [] && outbox == [] && threads == []
    {
      this.host := host;
      this.port := port;
      killed := false;
      inbox, outbox, threads := [], [], [];
    }

    /** The `kill` property: every evaluation flips the flag, and only a flip
        to true waits for (joins) the registered threads, which it returns. */
    method Kill() returns (joined: seq<Worker>)
      modifies this`killed
      ensures killed == !old(killed)
      ensures joined == if killed then threads else []
    {
      killed := !killed;
      joined := if killed then threads else [];
    }

    /** `Send`: one entry at the back of the outbox, nothing else changes. */
    method Send(destination: Address, dataType: string, data: seq<byte>)
      modifies this`outbox
      ensures outbox == old(outbox) + [Entry(destination, dataType, data)]
    {
      outbox := outbox + [Entry(destination, dataType, data)];
    }
  }

  /** Evaluating `kill` twice restores the flag; exactly one of the two
      evaluations joins the threads. */
  method KillTwice(node: Communication) returns (first: seq<Worker>, second: seq<Worker>)
    modifies node
    ensures node.killed == old(node.killed)
    ensures first == if old(node.killed) then [] else node.threads
    ensures second == if old(node.killed) then node.threads else []
    ensures node.inbox == old(node.inbox) && node.outbox == old(node.outbox) && node.threads == old(node.threads)
  {
    first := node.Kill();
    second := node.Kill();
  }
}
