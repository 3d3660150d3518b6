/** The SOCKS5 exchange both hops carry out, stated as functions of the bytes
    the peer sends: the greeting and method selection (section 3 of RFC 1928),
    the CONNECT request with a DOMAINNAME address (sections 4 and 5), and
    what each hop has written, which target it dials and which bytes it
    leaves for the relay before it dials. The methods of the Client and
    Server modules are proved against these functions. */
module Socks {
  import opened Wire

  const Version: byte := 5
  const CmdConnect: byte := 1
  const AtypIPv4: byte := 1
  const AtypDomainName: byte := 3
  const AtypIPv6: byte := 4

  /** The method selection reply: version 5, method 0 (no authentication). */
  const MethodReply: seq<byte> := [5, 0]

  /** The reply to a request: succeeded, IPv4 address 0.0.0.0, port 0. */
  const ConnectReply: seq<byte> := [5, 0, 0, 1, 0, 0, 0, 0, 0, 0]

  datatype Error = NotSocks5 | UnsupportedCommand | UnsupportedAddressType

  datatype Result<T> = Success(value: T) | Failure(error: Error)

  // ---------------------------------------------------------------------
  // Greeting

  /** What the greeting exchange did: the error returned, how many bytes it
      consumed and what it wrote to the peer. */
  datatype Greeted = Greeted(err: Option<Error>, consumed: nat, written: seq<byte>)

  /** The greeting exchange on stream `s`. The version byte is checked; the
      method count and the methods are read and never looked at, and a short
      stream is not an error. */
  function HandShakeOf(s: seq<byte>): (g: Greeted)
    ensures g.consumed <= |s|
  {
    if At(s, 0) != Version then Greeted(Some(NotSocks5), Min(1, |s|), [])
    else Greeted(None, Min(2 + At(s, 1), |s|), MethodReply)
  }

  /** A greeting offering `methods`, as section 3 of RFC 1928 lays it out. */
  function EncodeGreeting(methods: seq<byte>): seq<byte>
    requires |methods| < 0x100
  {
    [Version, |methods| as byte] + methods
  }

  /** A wrong version byte fails at once: one byte consumed, nothing written. */
  lemma HandShakeVersionGate(s: seq<byte>)
    requires |s| > 0 && s[0] != Version
    ensures HandShakeOf(s) == Greeted(Some(NotSocks5), 1, [])
  {
  }

  /** After a version byte of 5 the exchange always succeeds and answers
      [5, 0] whatever was offered; it consumes the count and that many
      methods, or all there is when the stream is shorter. */
  lemma HandShakeAccepts(s: seq<byte>)
    requires |s| > 0 && s[0] == Version
    ensures HandShakeOf(s).err == None && HandShakeOf(s).written == MethodReply
    ensures |s| >= 2 + At(s, 1) ==> HandShakeOf(s).consumed == 2 + s[1] as int
    ensures |s| < 2 + At(s, 1) ==> HandShakeOf(s).consumed == |s|
  {
  }

  /** A well-formed greeting is consumed exactly, whatever follows it. */
  lemma GreetingRoundTrip(methods: seq<byte>, rest: seq<byte>)
    requires |methods| < 0x100
    ensures var s := EncodeGreeting(methods) + rest;
      HandShakeOf(s) == Greeted(None, 2 + |methods|, MethodReply) &&
      s[HandShakeOf(s).consumed..] == rest
  {
    var s := EncodeGreeting(methods) + rest;
    assert s[0] == Version && s[1] == |methods|;
    assert s[2 + |methods|..] == rest;
  }

  // ---------------------------------------------------------------------
  // Request

  /** What the request parser did: the dial target or the error, and how many
      bytes it consumed. */
  datatype Parsed = Parsed(result: Result<seq<byte>>, consumed: nat)

  /** The request parser on stream `s`: version, command, reserved byte,
      address type, length L, L domain bytes, two port bytes. A short stream
      is read as zeros and is not an error; two missing port bytes leave the
      port at 0. */
  function ReadAddrOf(s: seq<byte>): (p: Parsed)
    ensures p.consumed <= |s|
  {
    if At(s, 0) != Version then Parsed(Failure(NotSocks5), Min(1, |s|))
    else if At(s, 1) != CmdConnect then Parsed(Failure(UnsupportedCommand), Min(2, |s|))
    else if At(s, 3) != AtypDomainName then Parsed(Failure(UnsupportedAddressType), Min(4, |s|))
    else
      var len: nat := At(s, 4);
      var port := if 7 + len <= |s| then Int16BE(s[5 + len], s[6 + len]) else 0;
      Parsed(Success(FormatTarget(Field(s, 5, len), port)), Min(7 + len, |s|))
  }

  /** A parse of the unread part of `data` from position `p0` that fails a
      check, in terms of `data` itself: the error, and where a reader
      positioned at `p0` stops. */
  lemma ReadAddrFailsFrom(data: seq<byte>, p0: nat)
    requires p0 <= |data|
    requires !(At(data, p0) == Version && At(data, p0 + 1) == CmdConnect && At(data, p0 + 3) == AtypDomainName)
    ensures var p := ReadAddrOf(data[p0..]);
      if At(data, p0) != Version then p == Parsed(Failure(NotSocks5), Min(p0 + 1, |data|) - p0)
      else if At(data, p0 + 1) != CmdConnect then p == Parsed(Failure(UnsupportedCommand), Min(p0 + 2, |data|) - p0)
      else p == Parsed(Failure(UnsupportedAddressType), Min(p0 + 4, |data|) - p0)
  {
    AtAfter(data, p0, 0);
    AtAfter(data, p0, 1);
    AtAfter(data, p0, 3);
  }

  /** A parse of the unread part of `data` from position `p0` that passes the
      checks, in terms of `data` itself: a reader positioned at `p0` that has
      read the domain into `host` and the port into `port` has the parse's
      target, and stops at `pos`. */
  lemma ReadAddrSucceedsFrom(data: seq<byte>, p0: nat, host: seq<byte>, port: int, pos: nat)
    requires p0 <= |data|
    requires At(data, p0) == Version && At(data, p0 + 1) == CmdConnect && At(data, p0 + 3) == AtypDomainName
    requires host == Field(data, Min(p0 + 5, |data|), At(data, p0 + 4))
    requires pos == Min(p0 + 7 + At(data, p0 + 4), |data|)
    requires var len: nat := At(data, p0 + 4);
      port == if p0 + 7 + len <= |data| then Int16BE(data[p0 + 5 + len], data[p0 + 6 + len]) else 0
    ensures ReadAddrOf(data[p0..]) == Parsed(Success(FormatTarget(host, port)), pos - p0)
  {
    AtAfter(data, p0, 0);
    AtAfter(data, p0, 1);
    AtAfter(data, p0, 3);
    AtAfter(data, p0, 4);
    var len: nat := At(data, p0 + 4);
    var s := data[p0..];
    FieldAfter(data, p0, 5, len);
    assert Field(data, Min(p0 + 5, |data|), len) == Field(s, 5, len);
    if 7 + len <= |s| {
      assert s[5 + len] == data[p0 + 5 + len] && s[6 + len] == data[p0 + 6 + len];
    }
    assert Min(7 + len, |s|) == pos - p0;
  }

  /** A CONNECT request for `host` and the unsigned `port`, as sections 4
      and 5 of RFC 1928 lay it out. */
  function EncodeRequest(host: seq<byte>, port: nat): seq<byte>
    requires |host| < 0x100 && port < 0x10000
  {
    [Version, CmdConnect, 0, AtypDomainName, |host| as byte] + host + [port / 0x100, port % 0x100]
  }

  /** The port number the parser obtains for the unsigned `port` of a
      request: the two bytes read as an `int16`. */
  function SignedPort(port: nat): (p: int16)
    requires port < 0x10000
    ensures p == if port < 0x8000 then port else port - 0x10000
  {
    Int16BE(port / 0x100, port % 0x100)
  }

  /** The gates fire in order, each after consuming exactly the bytes up to
      the one it checks, and the request succeeds exactly when version,
      command and address type are 5, 1 and 3. */
  lemma ReadAddrGates(s: seq<byte>)
    ensures ReadAddrOf(s).result.Success? <==> At(s, 0) == Version && At(s, 1) == CmdConnect && At(s, 3) == AtypDomainName
    ensures |s| >= 1 && s[0] != Version ==> ReadAddrOf(s) == Parsed(Failure(NotSocks5), 1)
    ensures |s| >= 2 && s[0] == Version && s[1] != CmdConnect ==> ReadAddrOf(s) == Parsed(Failure(UnsupportedCommand), 2)
    ensures |s| >= 4 && s[0] == Version && s[1] == CmdConnect && s[3] != AtypDomainName ==>
      ReadAddrOf(s) == Parsed(Failure(UnsupportedAddressType), 4)
  {
  }

  /** IPv4 and IPv6 addresses are refused after four bytes. */
  lemma ReadAddrRefusesIp(s: seq<byte>)
    requires |s| >= 4 && s[0] == Version && s[1] == CmdConnect
    requires s[3] == AtypIPv4 || s[3] == AtypIPv6
    ensures ReadAddrOf(s) == Parsed(Failure(UnsupportedAddressType), 4)
  {
  }

  /** The reserved byte is consumed and its value plays no part. */
  lemma ReservedIgnored(s: seq<byte>, x: byte)
    requires |s| > 2
    ensures ReadAddrOf(s[2 := x]) == ReadAddrOf(s)
  {
    var t := s[2 := x];
    var len: nat := At(s, 4);
    assert At(t, 4) == len;
    assert Field(t, 5, len) == Field(s, 5, len);
  }

  /** A complete request is consumed to its last port byte and no further:
      7 + L bytes. The target is the L domain bytes, ':' and the port read as
      an `int16` in decimal. */
  lemma ReadAddrComplete(s: seq<byte>)
    requires |s| >= 5 && s[0] == Version && s[1] == CmdConnect && s[3] == AtypDomainName
    requires |s| >= 7 + s[4] as int
    ensures var len: nat := s[4];
      ReadAddrOf(s) == Parsed(Success(s[5..5 + len] + [Colon] + Decimal(Int16BE(s[5 + len], s[6 + len]))), 7 + len)
  {
    FieldInside(s, 5, s[4]);
  }

  /** A request cut short is not an error: missing domain bytes are zeros,
      the port is 0 unless both its bytes arrived, and all bytes are consumed. */
  lemma ReadAddrTruncated(s: seq<byte>)
    requires |s| >= 4 && s[0] == Version && s[1] == CmdConnect && s[3] == AtypDomainName
    requires |s| < 7 + At(s, 4)
    ensures var len: nat := At(s, 4); var m := Min(5 + len, |s|);
      m >= 5 ==> ReadAddrOf(s) == Parsed(Success(s[5..m] + Zeros(5 + len - m) + [Colon, Zero]), |s|)
    ensures |s| == 4 ==> ReadAddrOf(s) == Parsed(Success([Colon, Zero]), 4)
  {
    var len: nat := At(s, 4);
    assert Decimal(0) == [Zero];
    assert FormatTarget(Field(s, 5, len), 0) == Field(s, 5, len) + [Colon, Zero];
    if |s| >= 5 {
      FieldSplit(s, 5, len);
    } else {
      assert len == 0 && Field(s, 5, len) == [];
      assert [] + [Colon, Zero] == [Colon, Zero];
    }
  }

  /** A well-formed request is parsed into its host and its port read as an
      `int16`, and exactly its bytes are consumed, whatever follows. */
  lemma RequestRoundTrip(host: seq<byte>, port: nat, rest: seq<byte>)
    requires |host| < 0x100 && port < 0x10000
    ensures var s := EncodeRequest(host, port) + rest;
      ReadAddrOf(s) == Parsed(Success(FormatTarget(host, SignedPort(port))), 7 + |host|) &&
      s[ReadAddrOf(s).consumed..] == rest
  {
    var s := EncodeRequest(host, port) + rest;
    assert s[..5] == [Version, CmdConnect, 0, AtypDomainName, |host|];
    assert s[5..5 + |host|] == host;
    assert s[5 + |host|] == port / 0x100 && s[6 + |host|] == port % 0x100;
    ReadAddrComplete(s);
    assert s[7 + |host|..] == rest;
  }

  /** Unlike section 4 of RFC 1928, which reads DST.PORT as unsigned, the
      parser turns a port of 32768 or more into a negative number. */
  lemma HighPortIsNegative(host: seq<byte>, port: nat)
    requires |host| < 0x100 && 0x8000 <= port < 0x10000
    ensures var p := ReadAddrOf(EncodeRequest(host, port)).result;
      p == Success(host + [Colon, Minus] + Digits(0x10000 - port))
  {
    RequestRoundTrip(host, port, []);
    assert EncodeRequest(host, port) + [] == EncodeRequest(host, port);
    assert Decimal(SignedPort(port)) == [Minus] + Digits(0x10000 - port);
    assert FormatTarget(host, SignedPort(port)) == host + [Colon, Minus] + Digits(0x10000 - port);
  }

  // ---------------------------------------------------------------------
  // The part of a connection handler that runs before the dial

  /** What a handler has done when it reaches `net.Dial`: the bytes written
      to the peer, the dial target, and the unread bytes, which the relay
      forwards if the dial succeeds. */
  datatype PreDial = PreDial(written: seq<byte>, target: seq<byte>, forwarded: seq<byte>)

  /** The dial target: the parsed address, or "" after a parse error. */
  function TargetOf(r: Result<seq<byte>>): seq<byte> {
    if r.Success? then r.value else []
  }

  /** The entry hop: greeting exchange, then a request parse on what follows
      (whether or not the greeting was accepted), then the connect reply. */
  function ClientPreDial(s: seq<byte>): (d: PreDial)
    ensures |d.forwarded| <= |s|
  {
    var g := HandShakeOf(s);
    var s' := s[g.consumed..];
    var p := ReadAddrOf(s');
    PreDial(g.written + ConnectReply, TargetOf(p.result), s'[p.consumed..])
  }

  /** The terminal hop: a request parse on the stream as it arrives (no
      greeting), then the connect reply. */
  function ServerPreDial(s: seq<byte>): (d: PreDial)
    ensures |d.forwarded| <= |s| && d.forwarded == s[|s| - |d.forwarded|..]
    ensures d.written == ConnectReply
  {
    var p := ReadAddrOf(s);
    PreDial(ConnectReply, TargetOf(p.result), s[p.consumed..])
  }

  /** The entry hop's forwarded bytes are those after the greeting's and the
      request's consumed bytes, counted from the start of the stream. */
  lemma ClientPreDialSteps(s: seq<byte>)
    ensures var g := HandShakeOf(s);
      var p := ReadAddrOf(s[g.consumed..]);
      g.consumed + p.consumed <= |s| &&
      ClientPreDial(s) == PreDial(g.written + ConnectReply, TargetOf(p.result), s[g.consumed + p.consumed..])
  {
    var g := HandShakeOf(s);
    var p := ReadAddrOf(s[g.consumed..]);
    assert s[g.consumed..][p.consumed..] == s[g.consumed + p.consumed..];
  }

  /** The entry hop writes [5, 0] exactly when the first byte is 5, and then
      the connect reply whatever happened; its dial target is empty exactly
      when the request parse failed. */
  lemma ClientWrites(s: seq<byte>)
    ensures ClientPreDial(s).written == (if At(s, 0) == Version then MethodReply else []) + ConnectReply
    ensures var g := HandShakeOf(s);
      ClientPreDial(s).target == [] <==> ReadAddrOf(s[g.consumed..]).result.Failure?
  {
  }

  /** The terminal hop writes the connect reply once whatever it parsed; its
      dial target is empty exactly when the request parse failed. */
  lemma ServerWrites(s: seq<byte>)
    ensures ServerPreDial(s).written == ConnectReply
    ensures ServerPreDial(s).target == [] <==> ReadAddrOf(s).result.Failure?
  {
  }

  /** The stream is split with nothing lost: the bytes the parsers consumed,
      then the bytes left for the relay, every byte after them in order. */
  lemma PreDialSplits(s: seq<byte>)
    ensures var g := HandShakeOf(s);
      var c := g.consumed + ReadAddrOf(s[g.consumed..]).consumed;
      c <= |s| && s == s[..c] + ClientPreDial(s).forwarded
    ensures var c := ReadAddrOf(s).consumed;
      c <= |s| && s == s[..c] + ServerPreDial(s).forwarded
  {
    ClientPreDialSteps(s);
    var g := HandShakeOf(s);
    var c := g.consumed + ReadAddrOf(s[g.consumed..]).consumed;
    assert s == s[..c] + s[c..];
    var q := ReadAddrOf(s);
    assert s == s[..q.consumed] + s[q.consumed..];
  }

  /** After a greeting, the entry hop does what the terminal hop does on the
      rest of the stream, with [5, 0] written first. */
  lemma ClientIsGreetingThenServer(methods: seq<byte>, s: seq<byte>)
    requires |methods| < 0x100
    ensures var c, t := ClientPreDial(EncodeGreeting(methods) + s), ServerPreDial(s);
      c == PreDial(MethodReply + t.written, t.target, t.forwarded)
  {
    GreetingRoundTrip(methods, s);
  }

  /** A well-formed request: the terminal hop dials the host and port it
      names and forwards everything after it byte for byte. */
  lemma ServerEndToEnd(host: seq<byte>, port: nat, payload: seq<byte>)
    requires |host| < 0x100 && port < 0x10000
    ensures ServerPreDial(EncodeRequest(host, port) + payload) ==
      PreDial(ConnectReply, FormatTarget(host, SignedPort(port)), payload)
  {
    RequestRoundTrip(host, port, payload);
  }

  /** A greeting then a well-formed request: the entry hop answers [5, 0] and
      the connect reply, dials the host and port, and forwards the payload. */
  lemma ClientEndToEnd(methods: seq<byte>, host: seq<byte>, port: nat, payload: seq<byte>)
    requires |methods| < 0x100 && |host| < 0x100 && port < 0x10000
    ensures ClientPreDial(EncodeGreeting(methods) + EncodeRequest(host, port) + payload) ==
      PreDial(MethodReply + ConnectReply, FormatTarget(host, SignedPort(port)), payload)
  {
    var s := EncodeRequest(host, port) + payload;
    assert EncodeGreeting(methods) + EncodeRequest(host, port) + payload == EncodeGreeting(methods) + s;
    ClientIsGreetingThenServer(methods, s);
    ServerEndToEnd(host, port, payload);
  }

  /** The host name "localhost". */
  const Localhost: seq<byte> := [108, 111, 99, 97, 108, 104, 111, 115, 116]

  /** The bytes a browser sends for "localhost" port 80: the greeting
      offering no authentication, then the request. */
  lemma LocalhostBytes()
    ensures EncodeGreeting([0]) == [5, 1, 0]
    ensures EncodeRequest(Localhost, 80) == [5, 1, 0, 3, 9] + Localhost + [0, 80]
  {
  }

  /** The entry hop answers that session with [5, 0] and the connect reply,
      dials "localhost:80" and has nothing left to forward. */
  lemma LocalhostExample()
    ensures ClientPreDial(EncodeGreeting([0]) + EncodeRequest(Localhost, 80) + []) ==
      PreDial([5, 0] + ConnectReply, Localhost + [58, 56, 48], [])
  {
    ClientEndToEnd([0], Localhost, 80, []);
    assert Digits(80) == [56, 48];
    assert FormatTarget(Localhost, SignedPort(80)) == Localhost + [58, 56, 48];
  }
}
