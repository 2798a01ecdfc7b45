/**
 The wire formats of section 1.5 of MQTT Version 5.0 as functions: an encoder for each data
 type, a parser for each, and the lemmas that make them inverse on canonical encodings.
 */
module Wire {
  import opened Bytes
  import opened Utf8

  /** What a parser makes of the front of its input: a value and the bytes it took, or an error. */
  datatype Parse<+T> = Got(value: T, used: nat) | Bad(rc: Rc)

  function EncodeU16(w: uint16): bytes {
    [w / 0x100, w % 0x100]
  }

  function EncodeU32(w: uint32): bytes {
    [w / 0x100_0000, w / 0x1_0000 % 0x100, w / 0x100 % 0x100, w % 0x100]
  }

  /** Seven bits a byte, least significant first, the top bit set on all but the last. */
  function EncodeVarint(n: nat): (e: bytes)
    ensures e != []
  {
    if n < 0x80 then [n] else [0x80 + n % 0x80] + EncodeVarint(n / 0x80)
  }

  function EncodeBinary(data: bytes): bytes
    requires |data| <= 0xFFFF
  {
    EncodeU16(|data|) + data
  }

  /** Big-endian numbers. */
  /** What is written of a string when its length is cut to 16 bits. */
  function Cut16(s: bytes): (c: bytes)
    ensures |c| <= 0xFFFF && c <= s
  {
    s[..|s| % 0x1_0000]
  }

  /** The bytes of it that are counted but not written. */
  function Lost(s: bytes): nat { |s| - |s| % 0x1_0000 }

  /** Nothing is lost if and only if the length has 16 bits; otherwise it is a multiple of 65536. */
  lemma LostExactly(s: bytes)
    ensures Lost(s) == 0 <==> |s| <= 0xFFFF
    ensures |s| <= 0xFFFF ==> Cut16(s) == s
    ensures |Cut16(s)| + Lost(s) == |s| && Lost(s) % 0x1_0000 == 0 && (|s| > 0xFFFF ==> Lost(s) >= 0x1_0000)
  {
  }

  function Word16(a: int, b: int): int { a * 0x100 + b }
  function Word32(a: int, b: int, c: int, d: int): int { Word16(Word16(Word16(a, b), c), d) }

  function ParseByte(s: bytes): Parse<byte> {
    if |s| < 1 then Bad(MalformedPacket) else Got(s[0], 1)
  }

  function ParseU16(s: bytes): Parse<uint16> {
    if |s| < 2 then Bad(MalformedPacket) else Got(Word16(s[0], s[1]), 2)
  }

  function ParseU32(s: bytes): Parse<uint32> {
    if |s| < 4 then Bad(MalformedPacket)
    else Got(Word32(s[0], s[1], s[2], s[3]), 4)
  }

  /** At most four bytes; a last byte of zero after others is an overlong encoding. */
  function ParseVarintFrom(s: bytes, i: nat): Parse<nat>
    decreases 4 - i
  {
    if i >= 4 || s == [] then Bad(MalformedPacket)
    else if s[0] < 0x80 then
      if i > 0 && s[0] == 0 then Bad(MalformedPacket) else Got(s[0], 1)
    else match ParseVarintFrom(s[1..], i + 1)
      case Bad(rc) => Bad(rc)
      case Got(v, n) => Got(s[0] - 0x80 + 0x80 * v, n + 1)
  }

  lemma {:induction false} BadVarintIsMalformed(s: bytes, i: nat)
    requires ParseVarintFrom(s, i).Bad?
    ensures ParseVarintFrom(s, i) == Bad(MalformedPacket)
    decreases 4 - i
  {
    if i >= 4 || s == [] || s[0] < 0x80 {
    } else {
      BadVarintIsMalformed(s[1..], i + 1);
    }
  }

  function ParseVarint(s: bytes): Parse<nat> {
    ParseVarintFrom(s, 0)
  }

  function ParseBinary(s: bytes): Parse<bytes> {
    match ParseU16(s)
    case Bad(rc) => Bad(rc)
    case Got(n, _) => if |s| < 2 + n then Bad(MalformedPacket) else Got(s[2..2 + n], 2 + n)
  }

  ghost function ParseString(s: bytes): Parse<bytes> {
    match ParseBinary(s)
    case Bad(rc) => Bad(rc)
    case Got(data, n) => if |data| > 0 && !ValidText(data) then Bad(MalformedUtf8) else Got(data, n)
  }

  // ----- Varints -----

  /** 128 to the i-th power, as far as a varint needs it. */
  function Pow128(i: nat): nat {
    if i == 0 then 1 else 0x80 * Pow128(i - 1)
  }

  /** packet__varint_bytes: the fewest digits to the base 128, five only for what has no encoding in four. */
  function VarintBytes(word: uint32): (n: nat)
    ensures 1 <= n <= 5
    ensures (n == 1 || Pow128(n - 1) <= word) && (n == 5 || word < Pow128(n)) && (n == 5 <==> word >= VARINT_LIMIT)
  {
    PowLimit();
    if word < 128 then 1
    else if word < 16384 then 2
    else if word < 2097152 then 3
    else if word < VARINT_LIMIT then 4
    else 5
  }

  lemma VarintBytesIsLength(word: uint32)
    ensures VarintBytes(word) == |EncodeVarint(word)|
  {
    var a, b, c := word / 0x80, word / 0x80 / 0x80, word / 0x80 / 0x80 / 0x80;
    assert word >= 0x80 ==> |EncodeVarint(word)| == 1 + |EncodeVarint(a)|;
    assert a >= 0x80 ==> |EncodeVarint(a)| == 1 + |EncodeVarint(b)|;
    assert b >= 0x80 ==> |EncodeVarint(b)| == 1 + |EncodeVarint(c)|;
    assert c >= 0x80 ==> |EncodeVarint(c)| == 1 + |EncodeVarint(c / 0x80)|;
  }

  /** Reading back an encoded number: the value, and exactly the bytes of its encoding. */
  lemma {:induction false} ParseEncodedVarint(n: nat, i: nat, rest: bytes)
    requires i < 4 && n < Pow128(4 - i) && (i > 0 ==> n > 0)
    ensures ParseVarintFrom(EncodeVarint(n) + rest, i) == Got(n, |EncodeVarint(n)|)
    decreases 4 - i
  {
    var s := EncodeVarint(n) + rest;
    assert Pow128(4 - i) == 0x80 * Pow128(3 - i);
    if n >= 0x80 {
      ParseEncodedVarint(n / 0x80, i + 1, rest);
      assert s[1..] == EncodeVarint(n / 0x80) + rest;
      assert s[0] == 0x80 + n % 0x80;
    } else {
      assert s[0] == n;
    }
  }

  /** What parses is a canonical encoding: the parser accepts no other. */
  lemma {:induction false} ParsedVarintEncoded(s: bytes, i: nat)
    requires ParseVarintFrom(s, i).Got?
    ensures var Got(v, n) := ParseVarintFrom(s, i);
            n <= |s| && n <= 4 - i && s[..n] == EncodeVarint(v) && v < Pow128(4 - i) && (i > 0 ==> v > 0)
    decreases 4 - i
  {
    assert Pow128(4 - i) == 0x80 * Pow128(3 - i);
    if s[0] < 0x80 {
      PowPositive(3 - i);
      assert s[..1] == [s[0]];
    } else {
      ParsedVarintEncoded(s[1..], i + 1);
      var Got(v, n) := ParseVarintFrom(s[1..], i + 1);
      assert s[..n + 1] == [s[0]] + s[1..][..n];
      var w := s[0] - 0x80 + 0x80 * v;
      assert w / 0x80 == v && w % 0x80 == s[0] - 0x80;
    }
  }

  lemma {:induction false} PowPositive(i: nat)
    ensures Pow128(i) >= 1
  {
    if i == 0 {
    } else {
      PowPositive(i - 1);
    }
  }

  lemma PowLimit()
    ensures Pow128(4) == VARINT_LIMIT
  {
    assert Pow128(1) == 0x80 * Pow128(0);
    assert Pow128(2) == 0x80 * Pow128(1);
    assert Pow128(3) == 0x80 * Pow128(2);
  }

  /** The varint reader and writer are a bijection between numbers below 2^28 and encodings. */
  lemma VarintBijection(s: bytes, v: nat)
    ensures ParseVarint(s).Got? && ParseVarint(s).value == v <==> v < VARINT_LIMIT && EncodeVarint(v) <= s
    ensures ParseVarint(s).Got? ==> ParseVarint(s).used == |EncodeVarint(ParseVarint(s).value)|
  {
    PowLimit();
    if ParseVarint(s).Got? {
      ParsedVarintEncoded(s, 0);
    }
    if v < VARINT_LIMIT && EncodeVarint(v) <= s {
      var rest := s[|EncodeVarint(v)|..];
      ParseEncodedVarint(v, 0, rest);
      assert s == EncodeVarint(v) + rest;
    }
  }

  // ----- Fixed-width integers, binary data and strings -----

  lemma U16RoundTrip(w: uint16, s: bytes)
    ensures ParseU16(EncodeU16(w) + s) == Got(w, 2)
  {
    assert (EncodeU16(w) + s)[..2] == EncodeU16(w);
  }

  lemma ParsedU16Encoded(s: bytes)
    requires |s| >= 2
    ensures EncodeU16(Word16(s[0], s[1])) == s[..2]
  {
    assert s[..2] == [s[0], s[1]];
  }

  lemma SplitPrefix(s: bytes, i: nat, n: nat)
    requires i <= n <= |s|
    ensures s[..n] == s[..i] + s[i..n]
  {
  }

  lemma U32Digits(a: byte, b: byte, c: byte, d: byte)
    ensures EncodeU32(Word32(a, b, c, d)) == [a, b, c, d]
  {
    var w := Word32(a, b, c, d);
    assert w / 0x100 == Word16(Word16(a, b), c);
    assert w / 0x1_0000 == Word16(a, b);
  }

  lemma U32RoundTrip(w: uint32, s: bytes)
    ensures ParseU32(EncodeU32(w) + s) == Got(w, 4)
    ensures ParseU32(s).Got? ==> EncodeU32(ParseU32(s).value) == s[..4]
  {
    var e := EncodeU32(w);
    assert w / 0x1_0000 == w / 0x100 / 0x100 && w / 0x100_0000 == w / 0x1_0000 / 0x100;
    assert e + s == [e[0], e[1], e[2], e[3]] + s;
    if |s| >= 4 {
      U32Digits(s[0], s[1], s[2], s[3]);
      assert s[..4] == [s[0], s[1], s[2], s[3]];
    }
  }

  lemma BinaryRoundTrip(data: bytes, s: bytes)
    requires |data| <= 0xFFFF
    ensures ParseBinary(EncodeBinary(data) + s) == Got(data, |data| + 2)
  {
    assert EncodeBinary(data) + s == EncodeU16(|data|) + (data + s);
    U16RoundTrip(|data|, data + s);
    assert (EncodeBinary(data) + s)[2..2 + |data|] == data;
  }

  lemma ParsedBinaryEncoded(s: bytes)
    requires ParseBinary(s).Got?
    ensures var Got(data, n) := ParseBinary(s);
            n == |data| + 2 <= |s| && |data| <= 0xFFFF && s[..n] == EncodeBinary(data)
  {
    var data := ParseBinary(s).value;
    ParsedU16Encoded(s);
    SplitPrefix(s, 2, 2 + |data|);
  }

  /** The strings a packet can carry. */
  ghost predicate WireText(s: bytes) {
    |s| <= 0xFFFF && (s == [] || ValidText(s))
  }

  lemma StringRoundTrip(data: bytes, s: bytes)
    requires WireText(data)
    ensures ParseString(EncodeBinary(data) + s) == Got(data, |data| + 2)
  {
    BinaryRoundTrip(data, s);
  }

  lemma ParsedStringEncoded(s: bytes)
    requires ParseString(s).Got?
    ensures var Got(data, n) := ParseString(s);
            n == |data| + 2 <= |s| && WireText(data) && s[..n] == EncodeBinary(data)
  {
    ParsedBinaryEncoded(s);
  }
}
