# LittleSocks SOCKS5 parsing, modelled in Dafny

LittleSocks is a two-hop SOCKS5 proxy written in Go. The entry hop
(`client/client.go`) answers the client's greeting, parses the CONNECT
request, writes a fixed success reply and dials the requested host. The
terminal hop (`server/server.go`) expects no greeting: it parses the request,
writes the same reply and dials. After the dial both hops relay raw bytes.

This project models what each hop does with the bytes on the connection up
to the dial:

- the greeting and method selection (`HandShake`, section 3 of RFC 1928);
- the request parser for a CONNECT to a DOMAINNAME address (`ReadAddr`,
  sections 4 and 5 of RFC 1928), of which each hop has its own copy;
- the bytes written back to the peer, the `host:port` dial target, and the
  unread bytes left in the reader, which the relay forwards if the dial
  succeeds (after a failed parse the target is empty and the dial fails).

Layout:

- `wire.dfy`, module `Wire`: bytes, the big-endian `int16` port, `%d`
  decimal text, and the `"%s:%d"` dial target with its inverse.
- `stream.dfy`, module `Stream`: `net.Conn` as a class holding the bytes
  the peer sends and the bytes written to it. `bufio.Reader` as a class with
  a position, and the three reads the parsers use: `ReadByte`,
  `io.ReadFull` and `binary.Read` of an `int16`.
- `socks.dfy`, module `Socks`: the exchange as functions of the incoming
  bytes (`HandShakeOf`, `ReadAddrOf`, `ClientPreDial`, `ServerPreDial`),
  encoders for well-formed messages, and the lemmas.
- `client.dfy` and `server.dfy`, modules `Client` and `Server`: the Go
  functions as straight-line methods over the reader and the connection.
  Each is proved to do what the `Socks` functions state. Both copies of
  `ReadAddr` are proved against the one function `Socks.ReadAddrOf`, so they
  compute the same thing.

The model follows the code where it departs from RFC 1928 or from a
careful design:

- Read errors are dropped. A `ReadByte` past the end gives 0. A short
  `io.ReadFull` leaves zeros in the rest of the buffer. A `binary.Read` with
  fewer than two bytes left consumes them and leaves the port at 0. None of
  these is reported as an error.
- The port is decoded into a signed `int16`, so ports of 32768 or more come
  out negative in the dial target. RFC 1928 reads DST.PORT as unsigned.
  `Socks.HighPortIsNegative` states the effect; `Wire.Uint16BE` and
  `Wire.Int16OfUint16` give the unsigned reading and its relation to the
  signed one.
- The reserved byte is read and never checked.
- The entry hop does not forward the request unparsed to an upstream hop.
  It parses it with its own `ReadAddr` and dials the target itself. If the
  greeting's version byte is not 5, it goes on and parses a request from the
  second byte of the stream.
- Both hops write the connect reply whether or not the request parse
  succeeded. After a failed parse the dial target is the empty string.
- The comment at `client/client.go:69-73` numbers the address types wrongly.
  The code's test `addrtype != 3` matches DOMAINNAME in RFC 1928, and the
  model follows the code.

## Model

| member | source | states |
|---|---|---|
| `Client.HandShake` | client/client.go:22-46 | Returns the error, advances the reader and writes to the connection exactly as `Socks.HandShakeOf` states for the unread bytes: version other than 5 gives an error after at most one byte (none on an empty stream) and writes nothing; otherwise the count and that many methods are consumed (up to the end of the stream) and [5, 0] is written |
| `Client.ReadAddr` | client/client.go:48-90 | Returns the result and advances the reader exactly as `Socks.ReadAddrOf` states for the unread bytes |
| `Client.HandleConn` | client/client.go:92-109 | The bytes written to the client, the dial target and the bytes left for the relay are those of `Socks.ClientPreDial` on everything the client sends |
| `Server.ReadAddr` | server/server.go:14-45 | The terminal hop's copy of the parser returns the same result and consumes the same bytes as `Socks.ReadAddrOf`, the function the entry hop's copy is proved against |
| `Server.HandleConn` | server/server.go:47-64 | The bytes written, the dial target and the bytes left for the relay are those of `Socks.ServerPreDial` on everything the peer sends |
| `Stream.Conn.Write` | client/client.go:43-44 | The whole slice is appended to what the peer has received |
| `Stream.Reader.constructor` | client/client.go:94 | A new reader delivers exactly the bytes the connection's peer sends, from the first |
| `Stream.Reader.ReadByte` | client/client.go:23 | Gives the byte at the position and moves one on; at the end of the stream gives 0 and an end-of-stream flag and does not move |
| `Stream.Reader.ReadFull` | client/client.go:32-33 | Copies min(buffer length, bytes left) bytes into the start of the buffer and consumes exactly those; the rest of the buffer is unchanged; the short flag is set exactly when the buffer was not filled |
| `Stream.Reader.ReadInt16` | client/client.go:85-86 | With two bytes left, consumes them and gives their big-endian `int16` value; with fewer, consumes what is left and gives back the value passed in |
| `Socks.HandShakeOf` | client/client.go:22-46 | The greeting never consumes more bytes than the stream holds |
| `Socks.HandShakeVersionGate` | client/client.go:23-28 | A first byte other than 5 gives the version error after consuming exactly one byte, with nothing written |
| `Socks.HandShakeAccepts` | client/client.go:29-45 | After a version byte of 5 there is no error and [5, 0] is written whatever methods were offered; 2 + n bytes are consumed when the stream holds them, and the whole stream when it is shorter (missing count and methods read as zeros) |
| `Socks.GreetingRoundTrip` | client/client.go:22-46 | A well-formed greeting with any methods is consumed exactly (2 + n bytes) with [5, 0] written, and the bytes after it stay unread |
| `Socks.ReadAddrOf` | server/server.go:14-45 | The request parser never consumes more bytes than the stream holds |
| `Socks.ReadAddrGates` | server/server.go:15-34 | Success exactly when version, command and address type are 5, 1 and 3; otherwise the first failing check gives its error after exactly 1, 2 or 4 bytes |
| `Socks.ReadAddrRefusesIp` | server/server.go:29-34 | Address type 1 (IPv4) or 4 (IPv6) gives the address-type error after four bytes |
| `Socks.ReservedIgnored` | server/server.go:27 | Changing the reserved byte never changes the result or the bytes consumed |
| `Socks.ReadAddrComplete` | server/server.go:36-44 | When the stream holds 7 + L bytes, exactly 7 + L are consumed and the target is the L domain bytes, ':', and the decimal of the two port bytes read as a big-endian `int16` |
| `Socks.ReadAddrTruncated` | client/client.go:80-88 | A request cut short after a valid header is still a success: the domain bytes that arrived, zeros for the missing ones, then ":0", with the whole stream consumed |
| `Socks.RequestRoundTrip` | client/client.go:48-90 | An encoded request for any host and port is parsed back into that host and the port read as `int16`, consuming exactly its 7 + L bytes and leaving what follows unread |
| `Socks.SignedPort` | client/client.go:85-86 | The port obtained for an unsigned port p is p below 32768 and p - 65536 from there on |
| `Socks.HighPortIsNegative` | server/server.go:41-44 | A request for a port of 32768 or more yields a target with a '-' and the digits of 65536 - port after the ':' |
| `Socks.ClientPreDial` | client/client.go:95-102 | The entry hop's greeting exchange, request parse and reply as a function of the incoming bytes; it never leaves more bytes for the relay than arrived (`Socks.PreDialSplits` states which ones) |
| `Socks.ServerPreDial` | server/server.go:51-58 | The terminal hop's request parse and reply as a function of the incoming bytes: it writes exactly the 10-byte reply, and the bytes left for the relay are a suffix of the stream |
| `Socks.ClientWrites` | client/client.go:95-102 | The entry hop writes [5, 0] exactly when the first byte is 5, then the 10-byte reply in every case; its target is empty exactly when the parse failed |
| `Socks.ServerWrites` | server/server.go:51-58 | The terminal hop writes the 10-byte reply exactly once whatever it parsed; its target is empty exactly when the parse failed |
| `Socks.PreDialSplits` | server/server.go:49-76 | On both hops the incoming stream is exactly the bytes the parsers consumed (the greeting's and the request's on the entry hop, the request's on the terminal hop) followed by the bytes left for the relay: nothing after the consumed prefix is lost or altered |
| `Socks.ClientIsGreetingThenServer` | client/client.go:92-102 | After a well-formed greeting, the entry hop writes [5, 0] and then does exactly what the terminal hop does on the remaining bytes |
| `Socks.ServerEndToEnd` | server/server.go:47-64 | For a well-formed request followed by any payload, the terminal hop writes the reply, dials host:port (port as `int16`) and forwards the payload byte for byte |
| `Socks.ClientEndToEnd` | client/client.go:92-109 | For a greeting, a well-formed request and any payload, the entry hop writes [5, 0] and the reply, dials host:port and forwards the payload byte for byte |
| `Socks.LocalhostExample` | client/client.go:92-109 | Greeting [5, 1, 0] and a request for localhost port 80: the entry hop writes [5, 0] and the reply, dials "localhost:80" and has nothing left to forward |
| `Wire.Int16BE` | client/client.go:85-86 | `binary.Read` of the two port bytes into an `int16`: negative exactly when the high byte has its top bit set (`Wire.Int16OfUint16` gives the value) |
| `Wire.Int16OfUint16` | client/client.go:85-86 | The signed port equals the unsigned big-endian value below 32768 and that value minus 65536 otherwise; it is negative exactly when the unsigned value is 32768 or more |
| `Wire.Int16RoundTrip` | server/server.go:41-42 | Big-endian two's complement decoding and encoding of an `int16` are inverse to each other |
| `Wire.Field` | client/client.go:81-82 | The domain buffer after `io.ReadFull`: byte k is the stream's byte at the offset plus k where the stream has one, and 0 where it has ended |
| `Wire.FieldSplit` | client/client.go:81-82 | A length-L field read from the stream is the bytes that arrived followed by zeros up to L |
| `Wire.FieldInside` | server/server.go:37-38 | A field wholly inside the stream is exactly the slice it covers |
| `Wire.Digits` | client/client.go:88 | The decimal digits of a natural number are at least one digit, all in '0'..'9', with no leading zero unless the number is 0 |
| `Wire.Decimal` | client/client.go:88 | `%d` text is non-empty, starts with '-' exactly for a negative number, and never contains ':' |
| `Wire.DigitsRoundTrip` | client/client.go:88 | Reading the digits back gives the number |
| `Wire.DecimalRoundTrip` | server/server.go:44 | Reading the `%d` text back gives the number, negative ones included |
| `Wire.FormatTarget` | client/client.go:88 | `fmt.Sprintf("%s:%d", addr, port)`: the host bytes come first, a ':' follows them, and no ':' occurs after it, whatever the host holds |
| `Wire.TargetRoundTrip` | client/client.go:88 | Splitting the "%s:%d" target at its last ':' recovers the host bytes and the port, even when the host holds ':' |
| `Wire.FormatTargetInjective` | server/server.go:44 | Two targets are equal only when host and port are |

## Left out

- `main` in both files: flag parsing, binding the listener, the accept loops,
  and the commented-out echo loop. These are process and I/O plumbing.
- `net.Dial` and what happens on its success or failure. The model stops at
  the dial; the methods return the target string passed to it.
- The relay: the two goroutines running `io.Copy`, the `sync.WaitGroup` and
  the closes. It is concurrent. The model gives the unread bytes that the
  copy from the reader forwards. The second goroutine of the entry hop never
  calls `wg.Done`, so its `wg.Wait()` cannot return; that defect is in the
  concurrent part and is not modelled.
- `defer conn.Close()` and the other closes: teardown, after the modelled
  part.
- Logging (`log.Printf`, `log.Print`): diagnostics with no effect on the
  bytes.
- Timing and blocking: the incoming bytes are a finite sequence that ends
  where the peer stops sending. A read error other than end of stream
  behaves like end of stream.
- The error texts of `errors.New` are modelled as three error values.
- `Stream.Conn.Write`: every write is taken to send the whole slice; a
  failed write is not modelled, because the code ignores its result.
- `Stream.Reader.ReadFull`: reports a short read as one flag and does not
  tell `io.EOF` from `io.ErrUnexpectedEOF`, because no caller looks at the
  error.
