/** Bytes as they travel on the wire, and the two encodings the proxy applies
    to them: the big-endian `int16` port and the `"%s:%d"` dial target. */
module Wire {

  /** An octet, as Go's `byte`. */
  type byte = x: int | 0 <= x < 0x100

  /** A value of Go's `int16`. */
  type int16 = x: int | -0x8000 <= x < 0x8000

  datatype Option<T> = None | Some(value: T)

  const Colon: byte := 58  // ':'
  const Minus: byte := 45  // '-'
  const Zero: byte := 48   // '0'

  predicate IsDigit(b: byte) { Zero <= b < Zero + 10 }

  function Min(a: int, b: int): int { if a <= b then a else b }

  /** The byte at index `i` of `s`, or 0 when `s` ends before `i`: a read past
      the end of the stream leaves the zero value in place. */
  function At(s: seq<byte>, i: nat): byte { if i < |s| then s[i] else 0 }

  /** `n` bytes of `s` from index `i`, zero-filled where `s` ends first. */
  function Field(s: seq<byte>, i: nat, n: nat): (f: seq<byte>)
    ensures |f| == n && forall k :: 0 <= k < n ==> f[k] == At(s, i + k)
  {
    seq<byte>(n, k requires 0 <= k < n => At(s, i + k))
  }

  function Zeros(n: nat): (z: seq<byte>)
    ensures |z| == n && forall k :: 0 <= k < n ==> z[k] == 0
  {
    if n == 0 then [] else Zeros(n - 1) + [0]
  }

  /** A field is the bytes of `s` that are there, followed by zeros. */
  lemma FieldSplit(s: seq<byte>, i: nat, n: nat)
    requires i <= |s|
    ensures var m := Min(i + n, |s|);
      Field(s, i, n) == s[i..m] + Zeros(i + n - m)
  {
    var m := Min(i + n, |s|);
    var f, g := Field(s, i, n), s[i..m] + Zeros(i + n - m);
    assert |f| == |g|;
    forall k | 0 <= k < n ensures f[k] == g[k] {
      if i + k < m { assert g[k] == s[i..m][k]; } else { assert g[k] == Zeros(i + n - m)[k - (m - i)]; }
    }
  }

  /** A field lying wholly inside `s` is the slice of `s` it covers. */
  lemma FieldInside(s: seq<byte>, i: nat, n: nat)
    requires i + n <= |s|
    ensures Field(s, i, n) == s[i..i + n]
  {
    FieldSplit(s, i, n);
    assert Zeros(0) == [];
  }

  /** Reading from index `p` on is reading `s` at `p` plus the offset. */
  lemma AtAfter(s: seq<byte>, p: nat, i: nat)
    requires p <= |s|
    ensures At(s[p..], i) == At(s, p + i)
  {
  }

  /** A buffer of zeros into which the `n` bytes of `s` from `i` were copied,
      where `n` is all the buffer takes or all `s` has left, is the field of
      `s` at `i` as long as the buffer. */
  lemma FilledBufferIsField(s: seq<byte>, i: nat, b: seq<byte>, n: nat)
    requires i <= |s| && n == Min(|b|, |s| - i)
    requires b[..n] == s[i..i + n]
    requires forall k :: n <= k < |b| ==> b[k] == 0
    ensures b == Field(s, i, |b|)
  {
    forall k | 0 <= k < |b| ensures b[k] == Field(s, i, |b|)[k] {
      if k < n { assert b[k] == b[..n][k]; }
    }
  }

  /** The field of `s[p..]` at `i` is the field of `s` at `p + i`. */
  lemma FieldAfter(s: seq<byte>, p: nat, i: nat, n: nat)
    requires p <= |s|
    ensures Field(s[p..], i, n) == Field(s, p + i, n)
  {
    forall k | 0 <= k < n ensures Field(s[p..], i, n)[k] == Field(s, p + i, n)[k] {
      AtAfter(s, p, i + k);
    }
  }

  // ---------------------------------------------------------------------
  // Two bytes, big-endian

  /** The two bytes as an unsigned big-endian 16-bit number, as section 4 of
      RFC 1928 reads DST.PORT. */
  function Uint16BE(hi: byte, lo: byte): nat { hi * 0x100 + lo }

  /** The two bytes as Go's `binary.BigEndian` decodes them into an `int16`:
      two's complement, so a high byte of 0x80 or more gives a negative value. */
  function Int16BE(hi: byte, lo: byte): (v: int16)
    ensures v < 0 <==> hi >= 0x80
  {
    if hi < 0x80 then hi * 0x100 + lo else hi * 0x100 + lo - 0x10000
  }

  /** The bytes an `int16` is written as, big-endian two's complement. */
  function Int16Bytes(v: int16): (byte, byte) {
    var u := if v < 0 then v + 0x10000 else v;
    (u / 0x100, u % 0x100)
  }

  /** The signed reading agrees with the unsigned one below 32768 and is
      65536 less from there on, so every port of 32768 or more comes out
      negative. */
  lemma Int16OfUint16(hi: byte, lo: byte)
    ensures Uint16BE(hi, lo) < 0x10000
    ensures Int16BE(hi, lo) == if Uint16BE(hi, lo) < 0x8000 then Uint16BE(hi, lo) else Uint16BE(hi, lo) - 0x10000
    ensures Int16BE(hi, lo) < 0 <==> Uint16BE(hi, lo) >= 0x8000
  {
  }

  /** Decoding and encoding an `int16` are inverse to each other. */
  lemma Int16RoundTrip(hi: byte, lo: byte, v: int16)
    ensures Int16Bytes(Int16BE(hi, lo)) == (hi, lo)
    ensures Int16BE(Int16Bytes(v).0, Int16Bytes(v).1) == v
  {
  }

  // ---------------------------------------------------------------------
  // Decimal text, as the `%d` verb writes an integer

  /** The decimal digits of `n`, most significant first, without padding. */
  function Digits(n: nat): (r: seq<byte>)
    ensures 1 <= |r|
    ensures forall i :: 0 <= i < |r| ==> IsDigit(r[i])
    ensures r[0] == Zero ==> n == 0
  {
    if n < 10 then [Zero + n] else Digits(n / 10) + [Zero + n % 10]
  }

  /** `%d` of `n`: a '-' for a negative number, then the digits of its size. */
  function Decimal(n: int): (r: seq<byte>)
    ensures 1 <= |r|
    ensures r[0] == Minus <==> n < 0
    ensures forall i :: 0 <= i < |r| ==> r[i] != Colon
  {
    if n < 0 then [Minus] + Digits(-n) else Digits(n)
  }

  /** The value of a string of decimal digits. */
  function ParseDigits(s: seq<byte>): int {
    if s == [] then 0 else ParseDigits(s[..|s| - 1]) * 10 + (s[|s| - 1] - Zero)
  }

  /** The value of decimal text with an optional leading '-'. */
  function ParseDecimal(s: seq<byte>): int {
    if |s| > 0 && s[0] == Minus then -ParseDigits(s[1..]) else ParseDigits(s)
  }

  lemma {:induction false} DigitsRoundTrip(n: nat)
    ensures ParseDigits(Digits(n)) == n
  {
    if n >= 10 {
      var d := Digits(n);
      assert d[..|d| - 1] == Digits(n / 10);
      DigitsRoundTrip(n / 10);
    }
  }

  /** Reading back what `%d` wrote gives the number again. */
  lemma DecimalRoundTrip(n: int)
    ensures ParseDecimal(Decimal(n)) == n
  {
    if n < 0 {
      assert Decimal(n)[1..] == Digits(-n);
      DigitsRoundTrip(-n);
    } else {
      DigitsRoundTrip(n);
    }
  }

  // ---------------------------------------------------------------------
  // The dial target

  /** The index of the last `c` in `s`, if any. */
  function LastIndex(s: seq<byte>, c: byte): (r: Option<nat>)
    ensures r.Some? ==> r.value < |s| && s[r.value] == c && forall j :: r.value < j < |s| ==> s[j] != c
    ensures r.None? ==> forall j :: 0 <= j < |s| ==> s[j] != c
  {
    if s == [] then None
    else if s[|s| - 1] == c then Some(|s| - 1)
    else LastIndex(s[..|s| - 1], c)
  }

  /** No ':' occurs in `t` from index `i` on. */
  predicate NoColonFrom(t: seq<byte>, i: nat)
    decreases |t| - i
  {
    i >= |t| || (t[i] != Colon && NoColonFrom(t, i + 1))
  }

  lemma {:induction false} NoColonFromAll(t: seq<byte>, i: nat)
    requires forall j :: i <= j < |t| ==> t[j] != Colon
    ensures NoColonFrom(t, i)
    decreases |t| - i
  {
    if i < |t| {
      NoColonFromAll(t, i + 1);
    }
  }

  /** `fmt.Sprintf("%s:%d", host, port)` with `host` a byte slice. The host
      comes first and the last ':' is the one after it, whatever the host
      holds, since `%d` never writes one. */
  function FormatTarget(host: seq<byte>, port: int): (t: seq<byte>)
    ensures |host| < |t| && t[|host|] == Colon && NoColonFrom(t, |host| + 1)
  {
    var t := host + [Colon] + Decimal(port);
    assert forall j :: |host| < j < |t| ==> t[j] == Decimal(port)[j - |host| - 1];
    NoColonFromAll(t, |host| + 1);
    t
  }

  /** Splits a dial target at its last ':' into host and port number. */
  function SplitTarget(t: seq<byte>): Option<(seq<byte>, int)> {
    match LastIndex(t, Colon)
    case None => None
    case Some(i) => Some((t[..i], ParseDecimal(t[i + 1..])))
  }

  /** The host and the port are recovered from the dial target, whatever bytes
      the host holds (a ':' included): the decimal part never contains one. */
  lemma TargetRoundTrip(host: seq<byte>, port: int)
    ensures SplitTarget(FormatTarget(host, port)) == Some((host, port))
  {
    var t := FormatTarget(host, port);
    var i := LastIndex(t, Colon);
    assert t[|host|] == Colon;
    assert forall j :: |host| < j < |t| ==> t[j] == Decimal(port)[j - |host| - 1];
    assert i == Some(|host|);
    assert t[..|host|] == host;
    assert t[|host| + 1..] == Decimal(port);
    DecimalRoundTrip(port);
  }

  /** Different hosts or ports never give the same dial target. */
  lemma FormatTargetInjective(h1: seq<byte>, p1: int, h2: seq<byte>, p2: int)
    requires FormatTarget(h1, p1) == FormatTarget(h2, p2)
    ensures h1 == h2 && p1 == p2
  {
    TargetRoundTrip(h1, p1);
    TargetRoundTrip(h2, p2);
  }
}
