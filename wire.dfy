/**
 * Byte-level building blocks shared by the client and the server script:
 * the `HEADER = struct.Struct('!I')` integer (four bytes, network byte
 * order, unsigned) and the ASCII codec used for image names.
 * Python exceptions raised by these calls become `Err` values.
 */
module Wire {

  /** One octet on the wire. */
  type byte = b: int | 0 <= b < 256

  /** `HEADER.size`: '!I' is a 4-byte unsigned integer. */
  const HeaderSize: nat := 4

  /** One more than the largest value '!I' can hold. */
  const Uint32Limit: int := 0x1_0000_0000

  /** The Python exceptions the modelled code can raise. */
  datatype Error =
    | StructError          // struct.pack of a value outside '!I'
    | UnicodeEncodeError   // str.encode('ascii') of a non-ASCII character
    | UnicodeDecodeError   // bytes.decode('ascii') of a byte >= 128
    | IndexError           // indexing past the end of a list

  datatype Result<T> = Ok(value: T) | Err(error: Error)

  datatype Option<T> = None | Some(value: T)

  /** Reference reading of a byte string as a big-endian (network order)
      unsigned number: the first byte is the most significant. */
  function BigEndian(s: seq<byte>): nat
  {
    if s == [] then 0 else BigEndian(s[..|s| - 1]) * 256 + s[|s| - 1]
  }

  /** `HEADER.unpack(s)`: struct demands exactly `HEADER.size` bytes. */
  function Unpack(s: seq<byte>): (n: nat)
    requires |s| == HeaderSize
    ensures n < Uint32Limit
  {
    var b0: int, b1: int, b2: int, b3: int := s[0], s[1], s[2], s[3];
    b0 * 0x100_0000 + b1 * 0x1_0000 + b2 * 0x100 + b3
  }

  /** `HEADER.pack(n)`: four bytes that unpack to `n`, or struct.error when
      `n` does not fit an unsigned 32-bit integer. */
  function Pack(n: int): (r: Result<seq<byte>>)
    ensures r.Ok? <==> 0 <= n < Uint32Limit
    ensures r.Err? ==> r.error == StructError
    ensures r.Ok? ==> |r.value| == HeaderSize && Unpack(r.value) == n
  {
    if 0 <= n < Uint32Limit then
      var s: seq<byte> := [n / 0x100_0000, n / 0x1_0000 % 0x100, n / 0x100 % 0x100, n % 0x100];
      DigitsOf(n);
      Ok(s)
    else
      Err(StructError)
  }

  /** The four base-256 digits of an unsigned 32-bit number recombine to it. */
  lemma DigitsOf(n: int)
    requires 0 <= n < Uint32Limit
    ensures 0 <= n / 0x100_0000 < 0x100
    ensures n == (n / 0x100_0000) * 0x100_0000 + (n / 0x1_0000 % 0x100) * 0x1_0000
                 + (n / 0x100 % 0x100) * 0x100 + n % 0x100
  {
    var q1, q2, q3 := n / 0x100, n / 0x1_0000, n / 0x100_0000;
    assert n == q1 * 0x100 + n % 0x100;
    assert q2 == q1 / 0x100;
    assert q1 == q2 * 0x100 + q1 % 0x100;
    assert q3 == q2 / 0x100;
    assert q2 == q3 * 0x100 + q2 % 0x100;
    assert q1 % 0x100 == n / 0x100 % 0x100;
  }

  /** Every 4-byte header is the packing of the number it unpacks to, so
      Pack and Unpack are inverse bijections between 0..2^32-1 and 4-byte
      strings. */
  lemma PackUnpack(s: seq<byte>)
    requires |s| == HeaderSize
    ensures Pack(Unpack(s)) == Ok(s)
  {
    var n := Unpack(s);
    var b0: int, b1: int, b2: int, b3: int := s[0], s[1], s[2], s[3];
    var h1, h2 := b0 * 0x100 + b1, (b0 * 0x100 + b1) * 0x100 + b2;
    assert n == h2 * 0x100 + b3;
    SplitLowByte(n, h2, b3);
    SplitLowByte(h2, h1, b2);
    SplitLowByte(h1, b0, b1);
    assert n / 0x1_0000 == h2 / 0x100 by { DivTwice(n); }
    assert n / 0x100_0000 == h1 / 0x100 by { DivTwice(n / 0x100); DivTwice(n); }
    assert Pack(n).value == s;
  }

  /** Splitting off the low byte of `x = q * 256 + r`. */
  lemma SplitLowByte(x: int, q: int, r: int)
    requires 0 <= r < 0x100 && x == q * 0x100 + r
    ensures x / 0x100 == q && x % 0x100 == r
  {
  }

  lemma DivTwice(x: nat)
    ensures x / 0x100 / 0x100 == x / 0x1_0000
    ensures x / 0x1_0000 / 0x100 == x / 0x100_0000
  {
  }

  /** Unpack reads the header in network byte order: it agrees with the
      reference big-endian reading. */
  lemma UnpackIsBigEndian(s: seq<byte>)
    requires |s| == HeaderSize
    ensures Unpack(s) == BigEndian(s)
  {
    var p1, p2, p3 := s[..1], s[..2], s[..3];
    assert p1[..0] == [] && p2[..1] == p1 && p3[..2] == p2 && s[..3] == p3;
    assert BigEndian(p1) == s[0];
    assert BigEndian(p2) == s[0] as int * 256 + s[1];
    assert BigEndian(p3) == (s[0] as int * 256 + s[1]) * 256 + s[2];
  }

  /** Two headers that unpack to the same number are the same bytes. */
  lemma UnpackInjective(s: seq<byte>, t: seq<byte>)
    requires |s| == HeaderSize && |t| == HeaderSize
    requires Unpack(s) == Unpack(t)
    ensures s == t
  {
    PackUnpack(s);
    PackUnpack(t);
  }

  predicate IsAscii(s: string)
  {
    forall i :: 0 <= i < |s| ==> s[i] as int < 128
  }

  /** `s.encode('ascii')`: one byte per character, or UnicodeEncodeError
      when some character is outside ASCII. */
  function EncodeAscii(s: string): (r: Result<seq<byte>>)
    ensures r.Ok? <==> IsAscii(s)
    ensures r.Err? ==> r.error == UnicodeEncodeError
    ensures r.Ok? ==> |r.value| == |s| && forall i :: 0 <= i < |s| ==> r.value[i] < 128 && r.value[i] == s[i] as int
  {
    if IsAscii(s) then Ok(seq(|s|, i requires 0 <= i < |s| => s[i] as int)) else Err(UnicodeEncodeError)
  }

  /** `b.decode('ascii')`: one character per byte, or UnicodeDecodeError
      when some byte is 128 or more. */
  function DecodeAscii(b: seq<byte>): (r: Result<string>)
    ensures r.Ok? <==> forall i :: 0 <= i < |b| ==> b[i] < 128
    ensures r.Err? ==> r.error == UnicodeDecodeError
    ensures r.Ok? ==> |r.value| == |b| && IsAscii(r.value) && forall i :: 0 <= i < |b| ==> r.value[i] as int == b[i]
  {
    if forall i :: 0 <= i < |b| ==> b[i] < 128 then
      Ok(seq(|b|, i requires 0 <= i < |b| => b[i] as char))
    else
      Err(UnicodeDecodeError)
  }

  /** Decoding undoes encoding. */
  lemma DecodeEncodeAscii(s: string)
    requires IsAscii(s)
    ensures DecodeAscii(EncodeAscii(s).value) == Ok(s)
  {
    var d := DecodeAscii(EncodeAscii(s).value);
    assert d.value == s;
  }

  /** Encoding undoes a successful decoding. */
  lemma EncodeDecodeAscii(b: seq<byte>)
    requires DecodeAscii(b).Ok?
    ensures EncodeAscii(DecodeAscii(b).value) == Ok(b)
  {
    var e := EncodeAscii(DecodeAscii(b).value);
    assert e.value == b;
  }
}
