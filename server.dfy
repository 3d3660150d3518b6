/** The terminal hop (server/server.go): it expects no greeting, parses the
    request, writes the connect reply and dials the requested target. */
module Server {
  import opened Wire
  import opened Stream
  import opened Socks

  /** `ReadAddr(r)`: the terminal hop's copy of the request parser, the same
      steps as Client.ReadAddr, proved against the same function. */
  method ReadAddr(r: Reader) returns (res: Result<seq<byte>>)
    requires r.Valid()
    modifies r
    ensures r.Valid()
    ensures var p := ReadAddrOf(old(r.Unread()));
      res == p.result && r.pos == old(r.pos) + p.consumed
  {
    ghost var d, p0 := r.data, r.pos;
    var version, _ := r.ReadByte();
    if version != Version {
      ReadAddrFailsFrom(d, p0);
      return Failure(NotSocks5);
    }
    var cmd, _ := r.ReadByte();
    assert r.pos == Min(p0 + 2, |d|) && cmd == At(d, p0 + 1);
    if cmd != CmdConnect {
      ReadAddrFailsFrom(d, p0);
      return Failure(UnsupportedCommand);
    }
    var _, _ := r.ReadByte();
    var addrtype, _ := r.ReadByte();
    assert r.pos == Min(p0 + 4, |d|) && addrtype == At(d, p0 + 3);
    if addrtype != AtypDomainName {
      ReadAddrFailsFrom(d, p0);
      return Failure(UnsupportedAddressType);
    }
    var addrlen, _ := r.ReadByte();
    ghost var p5 := r.pos;
    assert p5 == Min(p0 + 5, |d|) && addrlen == At(d, p0 + 4);
    var addr := new byte[addrlen](_ => 0);
    var n, _ := r.ReadFull(addr);
    FilledBufferIsField(d, p5, addr[..], n);
    assert r.pos == Min(p0 + 5 + addrlen, |d|);
    var port: int16 := 0;
    var short;
    port, short := r.ReadInt16(port);
    assert r.pos == Min(p0 + 7 + addrlen, |d|);
    assert port == if p0 + 7 + addrlen <= |d| then Int16BE(d[p0 + 5 + addrlen], d[p0 + 6 + addrlen]) else 0;
    ReadAddrSucceedsFrom(d, p0, addr[..], port, r.pos);
    return Success(FormatTarget(addr[..], port));
  }

  /** `handleConn(conn)` up to the dial: the request, then the connect reply
      written once whatever the parse returned. The results are the dial
      target passed to `net.Dial` and the unread bytes that
      `io.Copy(remote, r)` would forward. */
  method HandleConn(conn: Conn) returns (target: seq<byte>, forwarded: seq<byte>)
    modifies conn
    ensures var d := ServerPreDial(conn.incoming);
      conn.sent == old(conn.sent) + d.written && target == d.target && forwarded == d.forwarded
  {
    var r := new Reader(conn);
    var res := ReadAddr(r);
    var addr := if res.Success? then res.value else [];
    conn.Write(ConnectReply);
    target, forwarded := addr, r.data[r.pos..];
  }
}
