/** The connection and the buffered reader the two hops parse from: a
    `net.Conn` seen as the bytes its peer sends and the bytes written back,
    and a `bufio.Reader` over it with the three reads the parsers use. */
module Stream {
  import opened Wire

  /** A `net.Conn`: what the peer sends until it closes its side, and what has
      been written to the peer so far. */
  class Conn {
    const incoming: seq<byte>
    var sent: seq<byte>

    constructor (incoming: seq<byte>)
      ensures this.incoming == incoming && sent == []
    {
      this.incoming := incoming;
      sent := [];
    }

    /** `conn.Write(b)`: the whole slice goes out, in order. */
    method Write(b: seq<byte>)
      modifies this
      ensures sent == old(sent) + b
    {
      sent := sent + b;
    }
  }

  /** A `bufio.Reader` over a connection: the bytes it will deliver and how
      many of them have been consumed. */
  class Reader {
    const data: seq<byte>
    var pos: nat

    ghost predicate Valid()
      reads this
    {
      pos <= |data|
    }

    /** What is still unread: the bytes a later `io.Copy` from this reader
        forwards. */
    ghost function Unread(): seq<byte>
      reads this
      requires Valid()
    {
      data[pos..]
    }

    /** `bufio.NewReader(conn)`. */
    constructor (conn: Conn)
      ensures Valid() && data == conn.incoming && pos == 0
    {
      data := conn.incoming;
      pos := 0;
    }

    /** `r.ReadByte()`: the next byte, or 0 with an error and no progress at
        the end of the stream. */
    method ReadByte() returns (b: byte, eof: bool)
      requires Valid()
      modifies this
      ensures Valid()
      ensures eof <==> old(pos) == |data|
      ensures b == At(data, old(pos))
      ensures pos == Min(old(pos) + 1, |data|)
    {
      if pos == |data| {
        return 0, true;
      }
      b, eof := data[pos], false;
      pos := pos + 1;
    }

    /** `io.ReadFull(r, buf)`: copies bytes into `buf` from its start until it
        is full or the stream ends; what lies past the last byte copied is left
        as it was. */
    method ReadFull(buf: array<byte>) returns (n: nat, short: bool)
      requires Valid()
      modifies this, buf
      ensures Valid()
      ensures n == Min(buf.Length, |data| - old(pos)) && pos == old(pos) + n
      ensures short <==> n < buf.Length
      ensures buf[..n] == data[old(pos)..pos]
      ensures forall k :: n <= k < buf.Length ==> buf[k] == old(buf[k])
    {
      n := 0;
      while n < buf.Length && pos < |data|
        invariant Valid()
        invariant n <= buf.Length && pos == old(pos) + n
        invariant buf[..n] == data[old(pos)..pos]
        invariant forall k :: n <= k < buf.Length ==> buf[k] == old(buf[k])
      {
        buf[n] := data[pos];
        pos := pos + 1;
        n := n + 1;
      }
      short := n < buf.Length;
    }

    /** `binary.Read(r, binary.BigEndian, &v)` for an `int16` holding `v`:
        reads two bytes; if fewer are left it consumes them and leaves `v`
        unchanged. */
    method ReadInt16(v: int16) returns (v': int16, short: bool)
      requires Valid()
      modifies this
      ensures Valid()
      ensures pos == Min(old(pos) + 2, |data|)
      ensures short <==> old(pos) + 2 > |data|
      ensures v' == if short then v else Int16BE(data[old(pos)], data[old(pos) + 1])
    {
      var bs := new byte[2](_ => 0);
      var _, s := ReadFull(bs);
      if s {
        return v, true;
      }
      v', short := Int16BE(bs[0], bs[1]), false;
    }
  }
}
