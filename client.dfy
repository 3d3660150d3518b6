/** The entry hop (client/client.go): it answers the greeting, parses the
    request itself, writes the connect reply and dials the requested target.
    Each method reads the connection the way the Go code does, one call at a
    time, and is proved to do what the Socks functions state. */
module Client {
  import opened Wire
  import opened Stream
  import opened Socks

  /** `HandShake(r, conn)`: version byte, method count, the methods, then
      [5, 0] written to the peer. Read errors are not looked at. */
  method HandShake(r: Reader, conn: Conn) returns (err: Option<Error>)
    requires r.Valid()
    modifies r, conn
    ensures r.Valid()
    ensures var g := HandShakeOf(old(r.Unread()));
      err == g.err && r.pos == old(r.pos) + g.consumed && conn.sent == old(conn.sent) + g.written
  {
    ghost var s := r.Unread();
    var version, _ := r.ReadByte();
    if version != Version {
      return Some(NotSocks5);
    }
    var nmethods, _ := r.ReadByte();
    assert nmethods == At(s, 1);
    var buf := new byte[nmethods](_ => 0);
    var _, _ := r.ReadFull(buf);
    conn.Write(MethodReply);
    return None;
  }

  /** `ReadAddr(r)`: the request parser. Only the version, command and
      address type are checked; the domain and port are read with their
      errors dropped, and the target is formatted as "%s:%d". */
  method ReadAddr(r: Reader) returns (res: Result<seq<byte>>)
    requires r.Valid()
    modifies r
    ensures r.Valid()
    ensures var p := ReadAddrOf(old(r.Unread()));
      res == p.result && r.pos == old(r.pos) + p.consumed
  {
    ghost var d, p0 := r.data, r.pos;
    var version, _ := r.ReadByte();
    if version != Version {
      ReadAddrFailsFrom(d, p0);
      return Failure(NotSocks5);
    }
    var cmd, _ := r.ReadByte();
    assert r.pos == Min(p0 + 2, |d|) && cmd == At(d, p0 + 1);
    if cmd != CmdConnect {
      ReadAddrFailsFrom(d, p0);
      return Failure(UnsupportedCommand);
    }
    var _, _ := r.ReadByte();
    var addrtype, _ := r.ReadByte();
    assert r.pos == Min(p0 + 4, |d|) && addrtype == At(d, p0 + 3);
    if addrtype != AtypDomainName {
      ReadAddrFailsFrom(d, p0);
      return Failure(UnsupportedAddressType);
    }
    var addrlen, _ := r.ReadByte();
    ghost var p5 := r.pos;
    assert p5 == Min(p0 + 5, |d|) && addrlen == At(d, p0 + 4);
    var addr := new byte[addrlen](_ => 0);
    var n, _ := r.ReadFull(addr);
    FilledBufferIsField(d, p5, addr[..], n);
    assert r.pos == Min(p0 + 5 + addrlen, |d|);
    var port: int16 := 0;
    var short;
    port, short := r.ReadInt16(port);
    assert r.pos == Min(p0 + 7 + addrlen, |d|);
    assert port == if p0 + 7 + addrlen <= |d| then Int16BE(d[p0 + 5 + addrlen], d[p0 + 6 + addrlen]) else 0;
    ReadAddrSucceedsFrom(d, p0, addr[..], port, r.pos);
    return Success(FormatTarget(addr[..], port));
  }

  /** `handleConn(conn)` up to the dial: the greeting, the request, then the
      connect reply, each step taken whatever the previous one returned.
      The results are the dial target passed to `net.Dial` and the unread
      bytes that `io.Copy(remote, r)` would forward. */
  method HandleConn(conn: Conn) returns (target: seq<byte>, forwarded: seq<byte>)
    modifies conn
    ensures var d := ClientPreDial(conn.incoming);
      conn.sent == old(conn.sent) + d.written && target == d.target && forwarded == d.forwarded
  {
    var r := new Reader(conn);
    ghost var s, sent0 := r.data, conn.sent;
    assert r.Unread() == s;
    var _ := HandShake(r, conn);
    ghost var k, sent1 := r.pos, conn.sent;
    assert r.Unread() == s[k..];
    var res := ReadAddr(r);
    var addr := if res.Success? then res.value else [];
    conn.Write(ConnectReply);
    ClientPreDialSteps(s);
    assert conn.sent == sent0 + (HandShakeOf(s).written + ConnectReply);
    target, forwarded := addr, r.data[r.pos..];
  }
}
