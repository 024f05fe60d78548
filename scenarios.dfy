/** End-to-end runs of the relay model: peers are accepted, send bytes and
    disconnect, and what every peer receives is stated outright. */
module Scenarios {
  import opened Trace
  import opened Relay

  const Local: seq<byte> := [127, 0, 0, 1]
  const Hello: seq<byte> := [0x68, 0x65, 0x6c, 0x6c, 0x6f]
  const Ping: seq<byte> := [0x70, 0x69, 0x6e, 0x67]

  /** `process` of `s` seen before its closing read: the same loop as
      `NetMgr.Process`, run only while bytes are pending, so it stops at the
      point where the source's read would wait on an open peer. Everything
      the peer has sent so far is relayed and the session stays open. */
  method Drain(m: NetMgr, s: Client)
    requires m.Valid()
    modifies s`rx, m.Peers()`tx
    ensures m.clients == old(m.clients)
    ensures s.rx == [] && s.tx == old(s.tx)
    ensures forall a :: a in m.clients ==>
      m.clients[a].tx == old(m.clients[a].tx) + (if a != s.addr then old(s.rx) else [])
  {
    ghost var done: seq<byte> := [];
    while s.rx != []
      invariant m.clients == old(m.clients)
      invariant done + s.rx == old(s.rx)
      invariant s.tx == old(s.tx)
      invariant forall a :: a in m.clients && a != s.addr ==>
        m.clients[a].tx == old(m.clients[a].tx) + done
      invariant s.addr in m.clients ==> m.clients[s.addr].tx == old(m.clients[s.addr].tx)
      decreases |s.rx|
    {
      ghost var pending := s.rx;
      var size := m.Step(s);
      ghost var chunk := pending[..size];
      assert pending == chunk + s.rx;
      forall a | a in m.clients && a != s.addr
        ensures m.clients[a].tx == old(m.clients[a].tx) + (done + chunk)
      {
        assert m.clients[a].tx == (old(m.clients[a].tx) + done) + chunk;
      }
      done := done + chunk;
    }
    assert done == old(s.rx);
  }

  /** Three peers A, B, C: A sends 0x00 0x01 0x02, which B and C both receive;
      B disconnects; A sends "ping", which only C receives. A never receives
      its own bytes. */
  method ThreeClients() returns (atA: seq<byte>, atB: seq<byte>, atC: seq<byte>, registered: set<Addr>)
    ensures atA == [] && atB == [0, 1, 2] && atC == [0, 1, 2] + Ping
    ensures registered == {Addr(Local, 50001), Addr(Local, 50003)}
  {
    var m := new NetMgr();
    var a := m.Accept(Addr(Local, 50001), []);
    var b := m.Accept(Addr(Local, 50002), []);
    var c := m.Accept(Addr(Local, 50003), []);
    assert m.clients == map[a.addr := a][b.addr := b][c.addr := c];
    FirstRound(m, a, b, c);
    SecondRound(m, a, b, c);
    atA, atB, atC, registered := a.tx, b.tx, c.tx, m.clients.Keys;
  }

  /** A sends 0x00 0x01 0x02 to B and C. */
  method FirstRound(m: NetMgr, a: Client, b: Client, c: Client)
    requires m.Valid() && m.clients == map[a.addr := a][b.addr := b][c.addr := c]
    requires a.addr != b.addr && a.addr != c.addr && b.addr != c.addr
    requires a.rx == [] && b.rx == [] && a.tx == [] && b.tx == [] && c.tx == []
    requires !a.closed && !b.closed && !c.closed
    modifies a, b, c
    ensures m.clients == old(m.clients)
    ensures a.rx == [] && b.rx == [] && a.tx == [] && b.tx == [0, 1, 2] && c.tx == [0, 1, 2]
    ensures !a.closed && !b.closed && !c.closed
  {
    a.Send([0, 1, 2]);
    Drain(m, a);
    assert m.clients[b.addr] == b && m.clients[c.addr] == c;
    assert b.tx == [] + [0, 1, 2] == [0, 1, 2];
    assert c.tx == [] + [0, 1, 2] == [0, 1, 2];
  }

  /** B closes its connection, so its session reads 0 bytes and deregisters
      it; then A sends "ping", which reaches C alone. */
  method SecondRound(m: NetMgr, a: Client, b: Client, c: Client)
    requires m.Valid() && m.clients == map[a.addr := a][b.addr := b][c.addr := c]
    requires a.addr != b.addr && a.addr != c.addr && b.addr != c.addr
    requires a.rx == [] && b.rx == [] && a.tx == [] && b.tx == [0, 1, 2] && c.tx == [0, 1, 2]
    requires !a.closed && !c.closed
    modifies m, a, b, c
    ensures m.clients == map[a.addr := a][c.addr := c]
    ensures a.tx == [] && b.tx == [0, 1, 2] && c.tx == [0, 1, 2] + Ping
  {
    b.Close();
    ghost var closing := m.Session(b.addr);
    assert m.clients == map[a.addr := a][c.addr := c];
    assert c.tx == [0, 1, 2] + [] == [0, 1, 2];
    PingAfterLeave(m, a, b, c);
  }

  /** With B gone, A's "ping" reaches C and nobody else. */
  method PingAfterLeave(m: NetMgr, a: Client, b: Client, c: Client)
    requires m.Valid() && m.clients == map[a.addr := a][c.addr := c]
    requires a.addr != c.addr && b != a && b != c
    requires a.rx == [] && a.tx == [] && c.tx == [0, 1, 2] && !a.closed
    modifies a, c
    ensures a.tx == [] && b.tx == old(b.tx) && c.tx == [0, 1, 2] + Ping
  {
    a.Send(Ping);
    Drain(m, a);
    assert m.clients[c.addr] == c;
  }

  /** Two peers X and Y (accepted on different listeners, which share the one
      registry): X sends "hello", Y receives exactly that, X nothing. */
  method TwoPeers() returns (atX: seq<byte>, atY: seq<byte>)
    ensures atX == [] && atY == Hello
  {
    var m := new NetMgr();
    var x := m.Accept(Addr(Local, 40001), []);
    var y := m.Accept(Addr(Local, 40002), []);
    assert m.clients[x.addr] == x && m.clients[y.addr] == y;
    x.Send(Hello);
    Drain(m, x);
    assert y.tx == [] + Hello == Hello;
    atX, atY := x.tx, y.tx;
  }

  /** A peer alone in the registry sends data: nothing is written anywhere and
      its session carries on, still registered. */
  method LonePeer() returns (atA: seq<byte>, registered: bool)
    ensures atA == [] && registered
  {
    var m := new NetMgr();
    var a := m.Accept(Addr(Local, 40003), []);
    a.Send(Hello);
    Drain(m, a);
    atA, registered := a.tx, a.addr in m.clients;
  }
}
