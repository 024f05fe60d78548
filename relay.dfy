/** The relay core as a sequential state machine: a registry from peer
    address to connection, accepting a connection, one read-and-fan-out step
    of a session, the whole session loop, and deregistration. Each call is one
    atomic step; concurrent sessions are modelled by interleaving such calls. */
module Relay {
  import opened Trace

  /** Capacity of the buffer each read fills (`[0u8; 4096]`). */
  const BufferSize: nat := 4096

  /** A peer's socket address: IP address and port. */
  datatype Addr = Addr(ip: seq<byte>, port: nat)

  /** Concatenation of chunks, in order. */
  function Flatten(chunks: seq<seq<byte>>): seq<byte>
  {
    if chunks == [] then [] else Flatten(chunks[..|chunks| - 1]) + chunks[|chunks| - 1]
  }

  /** What the peers have received once `chunk` from `sender` has been fanned
      out: every address other than the sender's gets the chunk appended, the
      sender's own stream is left alone. */
  function Deliver(outs: map<Addr, seq<byte>>, sender: Addr, chunk: seq<byte>): map<Addr, seq<byte>>
  {
    map a | a in outs :: if a == sender then outs[a] else outs[a] + chunk
  }

  /** One accepted connection. The socket is split into a read half, modelled
      by the bytes the peer has sent and that have not been read yet (after
      them the peer has closed), and a write half, modelled by every byte
      written to it so far. */
  class Client {
    const addr: Addr
    var rx: seq<byte>
    var tx: seq<byte>
    /** Whether the peer has shut down its side: `rx` is then all it will
        ever send, and a read with nothing pending reports end of stream. */
    ghost var closed: bool

    /** `Client::new`: wraps a freshly accepted socket under its address. */
    constructor (addr: Addr, incoming: seq<byte>)
      ensures this.addr == addr && rx == incoming && tx == [] && !closed
    {
      this.addr := addr;
      rx := incoming;
      tx := [];
      closed := false;
    }

    /** The peer sends more bytes (an action of the environment). */
    method Send(bytes: seq<byte>)
      requires !closed
      modifies this`rx
      ensures rx == old(rx) + bytes
    {
      rx := rx + bytes;
    }

    /** The peer shuts down its side of the connection (an action of the
        environment); what it sent before stays readable. */
    method Close()
      modifies this`closed
      ensures closed
    {
      closed := true;
    }

    /** A read on the read half: some non-empty prefix of the pending bytes,
        as many as the buffer holds at most, or 0 bytes once the peer has
        closed and everything has been read. A read on an open peer with
        nothing pending waits for more, so it is only taken once there are
        bytes or the peer has closed. */
    method Read(buf: array<byte>) returns (size: nat)
      requires rx != [] || closed
      modifies this`rx, buf
      ensures size <= buf.Length && size <= |old(rx)|
      ensures size == 0 <==> old(rx) == [] || buf.Length == 0
      ensures buf[..size] == old(rx)[..size] && rx == old(rx)[size..]
      ensures size == 0 && buf.Length > 0 ==> closed && rx == []
    {
      if rx == [] || buf.Length == 0 {
        size := 0;
        return;
      }
      size :| 0 < size <= buf.Length && size <= |rx|;
      forall i | 0 <= i < size {
        buf[i] := rx[i];
      }
      rx := rx[size..];
    }

    /** `write_all` on the write half. */
    method WriteAll(bytes: seq<byte>)
      modifies this`tx
      ensures tx == old(tx) + bytes
    {
      tx := tx + bytes;
    }
  }

  /** The shared registry (`ClientMap`) with the operations the accept loop
      and the session loops perform on it. */
  class NetMgr {
    var clients: map<Addr, Client>

    /** Every entry is filed under its own address, so distinct addresses
        hold distinct connections. */
    ghost predicate Valid()
      reads this
    {
      forall a :: a in clients ==> clients[a].addr == a
    }

    ghost function Peers(): set<Client>
      reads this
    {
      set a | a in clients :: clients[a]
    }

    /** What each registered peer has received so far. */
    ghost function Outputs(): map<Addr, seq<byte>>
      reads this, Peers()
    {
      map a | a in clients :: clients[a].tx
    }

    /** The registry starts empty. */
    constructor ()
      ensures Valid() && clients == map[]
    {
      clients := map[];
    }

    /** One round of the accept loop: wrap the accepted socket and register
        it under its address (`insert` replaces an entry already there). */
    method Accept(addr: Addr, incoming: seq<byte>) returns (c: Client)
      requires Valid()
      modifies this`clients
      ensures Valid() && fresh(c)
      ensures c.addr == addr && c.rx == incoming && c.tx == [] && !c.closed
      ensures clients == old(clients)[addr := c]
      ensures forall a :: a != addr ==> (a in clients <==> a in old(clients))
      ensures forall a :: a != addr && a in clients ==> clients[a] == old(clients[a])
    {
      c := new Client(addr, incoming);
      clients := clients[addr := c];
    }

    /** The fan-out of one chunk read by `sender`'s session: write it to every
        registered address other than the sender's, leaving the registry
        itself and the sender's own stream as they were. */
    method Broadcast(sender: Client, chunk: seq<byte>)
      requires Valid()
      modifies Peers()`tx
      ensures clients == old(clients)
      ensures sender.tx == old(sender.tx)
      ensures forall a :: a in clients ==>
        clients[a].tx == old(clients[a].tx) + (if a != sender.addr then chunk else [])
      ensures Outputs() == Deliver(old(Outputs()), sender.addr, chunk)
    {
      var targets := clients.Keys;
      while targets != {}
        invariant targets <= clients.Keys
        invariant sender.tx == old(sender.tx)
        invariant forall a :: a in clients ==>
          clients[a].tx == old(clients[a].tx) + (if a !in targets && a != sender.addr then chunk else [])
        decreases targets
      {
        var a :| a in targets;
        if a != sender.addr {
          clients[a].WriteAll(chunk);
        }
        targets := targets - {a};
      }
      BroadcastDelivers(old(Outputs()), sender.addr, chunk);
    }

    /** A fan-out seen on the registered peers' streams together: the rule
        Deliver. */
    lemma BroadcastDelivers(before: map<Addr, seq<byte>>, sender: Addr, chunk: seq<byte>)
      requires before.Keys == clients.Keys
      requires forall a :: a in clients ==>
        clients[a].tx == before[a] + (if a != sender then chunk else [])
      ensures Outputs() == Deliver(before, sender, chunk)
    {
      var after, rule := Outputs(), Deliver(before, sender, chunk);
      forall a | a in clients ensures after[a] == rule[a] {
        if a == sender {
          assert before[a] + [] == before[a];
        }
      }
      assert after.Keys == rule.Keys;
    }

    /** One iteration of the session loop of `s`: read up to BufferSize bytes;
        a read of 0 bytes ends the session and writes nothing; otherwise the
        chunk read is fanned out to every other registered peer. */
    method Step(s: Client) returns (size: nat)
      requires Valid() && (s.rx != [] || s.closed)
      modifies s`rx, Peers()`tx
      ensures clients == old(clients)
      ensures size <= BufferSize && size <= |old(s.rx)|
      ensures size == 0 <==> old(s.rx) == []
      ensures size == 0 ==> s.closed
      ensures s.rx == old(s.rx)[size..]
      ensures s.tx == old(s.tx)
      ensures forall a :: a in clients ==>
        clients[a].tx == old(clients[a].tx) + (if a != s.addr then old(s.rx)[..size] else [])
    {
      var buf := new byte[BufferSize];
      size := s.Read(buf);
      if size == 0 {
        return;
      }
      Broadcast(s, buf[..size]);
    }

    /** The session loop of `s` (`Client::process`): step until a read returns
        0 bytes, which happens once the peer has closed (the loop is taken as
        one atomic step from that point). Every chunk read is non-empty and at
        most BufferSize long, the chunks together are everything the peer
        sent, and every other registered peer has received exactly those
        bytes, in order: the chunks fanned out one by one (`DeliverEach`)
        amount to one fan-out of all of them. */
    method Process(s: Client) returns (ghost chunks: seq<seq<byte>>)
      requires Valid() && s.closed
      modifies s`rx, Peers()`tx
      ensures clients == old(clients)
      ensures s.rx == [] && s.tx == old(s.tx)
      ensures Flatten(chunks) == old(s.rx)
      ensures forall i :: 0 <= i < |chunks| ==> 0 < |chunks[i]| <= BufferSize
      ensures forall a :: a in clients ==>
        clients[a].tx == old(clients[a].tx) + (if a != s.addr then old(s.rx) else [])
      ensures Outputs() == DeliverEach(old(Outputs()), s.addr, chunks)
      ensures Outputs() == Deliver(old(Outputs()), s.addr, old(s.rx))
    {
      chunks := [];
      while true
        invariant clients == old(clients)
        invariant Flatten(chunks) + s.rx == old(s.rx)
        invariant forall i :: 0 <= i < |chunks| ==> 0 < |chunks[i]| <= BufferSize
        invariant s.tx == old(s.tx)
        invariant forall a :: a in clients && a != s.addr ==>
          clients[a].tx == old(clients[a].tx) + Flatten(chunks)
        invariant s.addr in clients ==> clients[s.addr].tx == old(clients[s.addr].tx)
        decreases |s.rx|
      {
        ghost var pending := s.rx;
        var size := Step(s);
        if size == 0 {
          assert Flatten(chunks) + [] == Flatten(chunks);
          break;
        }
        ghost var chunk, sent := pending[..size], Flatten(chunks);
        assert (chunks + [chunk])[..|chunks|] == chunks;
        assert Flatten(chunks + [chunk]) == sent + chunk;
        assert pending == chunk + s.rx;
        forall a | a in clients && a != s.addr
          ensures clients[a].tx == old(clients[a].tx) + (sent + chunk)
        {
          assert clients[a].tx == (old(clients[a].tx) + sent) + chunk;
        }
        chunks := chunks + [chunk];
      }
      SessionDelivers(old(Outputs()), s.addr, chunks, old(s.rx));
    }

    /** A whole session seen on the registered peers' streams together: the
        chunks fanned out one by one, which is one fan-out of their
        concatenation. */
    lemma SessionDelivers(before: map<Addr, seq<byte>>, sender: Addr, chunks: seq<seq<byte>>, input: seq<byte>)
      requires before.Keys == clients.Keys && Flatten(chunks) == input
      requires forall a :: a in clients ==>
        clients[a].tx == before[a] + (if a != sender then input else [])
      ensures Outputs() == DeliverEach(before, sender, chunks)
      ensures Outputs() == Deliver(before, sender, input)
    {
      BroadcastDelivers(before, sender, input);
      DeliverEachInOrder(before, sender, chunks);
    }

    /** Deregistration (`remove`): the address is absent afterwards, every
        other entry is kept, and removing an absent address changes nothing. */
    method Remove(addr: Addr)
      requires Valid()
      modifies this`clients
      ensures Valid()
      ensures clients == old(clients) - {addr}
      ensures addr !in clients
      ensures forall a :: a != addr ==> (a in clients <==> a in old(clients))
      ensures forall a :: a != addr && a in clients ==> clients[a] == old(clients[a])
      ensures addr !in old(clients) ==> clients == old(clients)
    {
      clients := clients - {addr};
    }

    /** The task spawned for an accepted connection: look up its entry, run
        its session loop to the end, then deregister it. Afterwards the
        address is gone, the connection's own peer got nothing back, and
        every peer still registered received everything it sent. */
    method Session(addr: Addr) returns (ghost chunks: seq<seq<byte>>)
      requires Valid() && addr in clients && clients[addr].closed
      modifies this`clients, {clients[addr]}`rx, Peers()`tx
      ensures Valid()
      ensures clients == old(clients) - {addr}
      ensures old(clients[addr]).rx == [] && old(clients[addr]).tx == old(clients[addr].tx)
      ensures Flatten(chunks) == old(clients[addr].rx)
      ensures forall i :: 0 <= i < |chunks| ==> 0 < |chunks[i]| <= BufferSize
      ensures forall a :: a in clients ==> clients[a].tx == old(clients[a].tx) + old(clients[addr].rx)
    {
      var c := clients[addr];
      chunks := Process(c);
      ghost var outs := Outputs();
      Remove(addr);
      forall a | a in clients
        ensures clients[a].tx == old(clients[a].tx) + old(clients[addr].rx)
      {
        assert a in outs && outs[a] == clients[a].tx;
      }
    }
  }

  // -----------------------------------------------------------------------
  // The fan-out rule

  /** Fanning out nothing changes nothing. */
  lemma DeliverNothing(outs: map<Addr, seq<byte>>, sender: Addr)
    ensures Deliver(outs, sender, []) == outs
  {
    assert forall a :: a in outs ==> outs[a] + [] == outs[a];
  }

  /** Two chunks from the same sender arrive at every other peer one after the
      other, as if they had been sent as one. */
  lemma DeliverTwice(outs: map<Addr, seq<byte>>, sender: Addr, c1: seq<byte>, c2: seq<byte>)
    ensures Deliver(Deliver(outs, sender, c1), sender, c2) == Deliver(outs, sender, c1 + c2)
  {
    forall a | a in outs && a != sender
      ensures (outs[a] + c1) + c2 == outs[a] + (c1 + c2)
    {
      assert (outs[a] + c1) + c2 == outs[a] + (c1 + c2);
    }
  }

  /** A peer alone in the registry (or a registry without it) sees its chunks
      fanned out to nobody. */
  lemma DeliverAlone(outs: map<Addr, seq<byte>>, sender: Addr, chunk: seq<byte>)
    requires outs.Keys <= {sender}
    ensures Deliver(outs, sender, chunk) == outs
  {
  }

  /** Fan-out of a sequence of chunks, one after the other. */
  function DeliverEach(outs: map<Addr, seq<byte>>, sender: Addr, chunks: seq<seq<byte>>): map<Addr, seq<byte>>
  {
    if chunks == [] then outs
    else Deliver(DeliverEach(outs, sender, chunks[..|chunks| - 1]), sender, chunks[|chunks| - 1])
  }

  /** Per-sender order: fanning out chunks one by one gives every recipient
      their concatenation in read order, and the sender nothing. */
  lemma {:induction false} DeliverEachInOrder(outs: map<Addr, seq<byte>>, sender: Addr, chunks: seq<seq<byte>>)
    ensures DeliverEach(outs, sender, chunks) == Deliver(outs, sender, Flatten(chunks))
    ensures DeliverEach(outs, sender, chunks).Keys == outs.Keys
    ensures sender in outs ==> DeliverEach(outs, sender, chunks)[sender] == outs[sender]
  {
    if chunks == [] {
      DeliverNothing(outs, sender);
    } else {
      var init := chunks[..|chunks| - 1];
      DeliverEachInOrder(outs, sender, init);
      DeliverTwice(outs, sender, Flatten(init), chunks[|chunks| - 1]);
    }
  }
}
