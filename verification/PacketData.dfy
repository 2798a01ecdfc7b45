/**
 struct mosquitto__packet: a byte buffer with a cursor. The writers of packet_datatypes.c carry
 the code's own assertions as preconditions; the readers are proved against the parsers of Wire.
 */
module PacketData {
  import opened Bytes
  import opened Utf8
  import opened Wire

  class Packet {
    var payload: array<byte>
    var remainingMult: uint32
    var remainingLength: uint32
    var packetLength: uint32
    var toProcess: uint32
    var pos: uint32
    var mid: uint16
    var command: byte
    var remainingCount: int

    constructor (command: byte, remainingLength: uint32)
      ensures this.command == command && this.remainingLength == remainingLength
      ensures fresh(payload) && payload.Length == 0
      ensures packetLength == toProcess == pos == mid == remainingCount == 0 && remainingMult == 0
    {
      payload := new byte[0];
      remainingMult, this.remainingLength, packetLength, toProcess, pos := 0, remainingLength, 0, 0, 0;
      mid := 0;
      this.command := command;
      remainingCount := 0;
    }

    /** packet__cleanup: the remaining-length multiplier starts at 1 for the next packet. */
    method Cleanup()
      modifies this
      ensures command == 0 && remainingCount == 0 && remainingMult == 1 && remainingLength == 0
      ensures toProcess == pos == 0 && fresh(payload) && payload.Length == 0
    {
      command := 0;
      remainingCount := 0;
      remainingMult := 1;
      remainingLength := 0;
      payload := new byte[0];
      toProcess := 0;
      pos := 0;
    }

    // ----- Outgoing packets -----

    ghost predicate OutValid()
      reads this
    {
      pos <= packetLength == payload.Length
    }

    ghost function Written(): bytes
      requires OutValid()
      reads this, payload
    {
      payload[..pos]
    }

    /** The write-cursor assertion: room for n more bytes. */
    ghost predicate Room(n: nat)
      reads this
    {
      OutValid() && pos + n <= packetLength
    }

    /** packet__alloc: the fixed header, with the remaining length in at most four bytes. */
    method Alloc() returns (rc: Rc)
      modifies this
      ensures rc == if remainingLength < VARINT_LIMIT then Success else PayloadSize
      ensures command == old(command) && remainingLength == old(remainingLength) && mid == old(mid)
      ensures rc == Success ==> fresh(payload) && OutValid()
      ensures rc == Success ==> Written() == [command] + EncodeVarint(remainingLength)
      ensures rc == Success ==> packetLength == pos + remainingLength
    {
      var digits, count := Digits(remainingLength);
      VarintBytesIsLength(remainingLength);
      remainingCount := count;
      if remainingCount == 5 {
        return PayloadSize;
      }
      packetLength := remainingLength + 1 + remainingCount;
      payload := new byte[packetLength];
      payload[0] := command;
      forall i | 0 <= i < remainingCount {
        payload[i + 1] := digits[i];
      }
      pos := 1 + remainingCount;
      assert payload[..pos] == [command] + digits;
      return Success;
    }

    /** The loop that collects the bytes of the remaining length. */
    static method Digits(word: uint32) returns (digits: bytes, count: nat)
      ensures digits == EncodeVarint(word) && count == |digits|
    {
      ghost var e := EncodeVarint(word);
      VarintBytesIsLength(word);
      digits, count := [], 0;
      var rest := word;
      var more := true;
      while more && count < 5
        invariant count <= 5 && count <= |e| && digits == e[..count]
        invariant if more then e[count..] == EncodeVarint(rest) else count == |e|
        decreases more, rest
      {
        VarintDigit(e, count, rest);
        var b := rest % 0x80;
        rest := rest / 0x80;
        if rest > 0 {
          b := b + 0x80;
        }
        digits := digits + [b];
        count := count + 1;
        more := rest > 0;
      }
    }

    method WriteByte(b: byte)
      requires Room(1)
      modifies this`pos, payload
      ensures OutValid() && Written() == old(Written()) + [b]
    {
      payload[pos] := b;
      pos := pos + 1;
      assert payload[..pos] == payload[..pos - 1] + [b];
    }

    method WriteBytes(data: bytes, count: uint32)
      requires count <= |data| && Room(count)
      modifies this`pos, payload
      ensures OutValid() && Written() == old(Written()) + data[..count]
    {
      forall i | 0 <= i < count {
        payload[pos + i] := data[i];
      }
      pos := pos + count;
      assert payload[..pos] == payload[..pos - count] + data[..count];
    }

    method WriteUint16(word: uint16)
      requires Room(2)
      modifies this`pos, payload
      ensures OutValid() && Written() == old(Written()) + EncodeU16(word)
    {
      WriteByte(word / 0x100);
      WriteByte(word % 0x100);
    }

    method WriteUint32(word: uint32)
      requires Room(4)
      modifies this`pos, payload
      ensures OutValid() && Written() == old(Written()) + EncodeU32(word)
    {
      WriteByte(word / 0x100_0000);
      WriteByte(word / 0x1_0000 % 0x100);
      WriteByte(word / 0x100 % 0x100);
      WriteByte(word % 0x100);
    }

    method WriteString(str: bytes, length: uint16)
      requires length <= |str| && Room(2 + length)
      modifies this`pos, payload
      ensures OutValid() && Written() == old(Written()) + EncodeBinary(str[..length])
    {
      WriteUint16(length);
      WriteBytes(str, length);
    }

    /** packet__write_varint writes a fifth byte before it reports that there is one too many. */
    method WriteVarint(word: uint32) returns (rc: Rc)
      requires Room(VarintBytes(word))
      modifies this`pos, payload
      ensures OutValid() && Written() == old(Written()) + EncodeVarint(word)
      ensures rc == if word < VARINT_LIMIT then Success else MalformedPacket
    {
      ghost var e := EncodeVarint(word);
      VarintBytesIsLength(word);
      var rest := word;
      var count := 0;
      var more := true;
      while more && count < 5
        invariant OutValid() && count <= 5 && count <= |e| && Written() == old(Written()) + e[..count]
        invariant if more then e[count..] == EncodeVarint(rest) else count == |e|
        decreases more, rest
      {
        VarintDigit(e, count, rest);
        var b := rest % 0x80;
        rest := rest / 0x80;
        if rest > 0 {
          b := b + 0x80;
        }
        WriteByte(b);
        count := count + 1;
        more := rest > 0;
      }
      return if count == 5 then MalformedPacket else Success;
    }

    /** packet__write_varint when room may be lacking: the first byte without room fails the assertion. */
    method WriteVarintUntilFull(word: uint32) returns (stopped: bool)
      requires OutValid()
      modifies this`pos, payload
      ensures OutValid() && (stopped <==> old(packetLength - pos) < |EncodeVarint(word)|)
      ensures Written() == old(Written()) + if stopped then EncodeVarint(word)[..old(packetLength - pos)] else EncodeVarint(word)
    {
      ghost var e := EncodeVarint(word);
      VarintBytesIsLength(word);
      var rest := word;
      var count := 0;
      var more := true;
      while more && count < 5
        invariant OutValid() && count <= 5 && count <= |e| && Written() == old(Written()) + e[..count]
        invariant if more then e[count..] == EncodeVarint(rest) else count == |e|
        decreases more, rest
      {
        VarintDigit(e, count, rest);
        var b := rest % 0x80;
        rest := rest / 0x80;
        if rest > 0 {
          b := b + 0x80;
        }
        if pos == packetLength {
          return true;
        }
        WriteByte(b);
        count := count + 1;
        more := rest > 0;
      }
      return false;
    }

    /** packet__write_bytes when room may be lacking. */
    method WriteBytesUntilFull(data: bytes, count: uint32) returns (stopped: bool)
      requires count <= |data| && OutValid()
      modifies this`pos, payload
      ensures OutValid() && (stopped <==> old(packetLength - pos) < count)
      ensures Written() == if stopped then old(Written()) else old(Written()) + data[..count]
    {
      if pos + count > packetLength {
        return true;
      }
      WriteBytes(data, count);
      return false;
    }

    // ----- Incoming packets -----

    ghost predicate InValid()
      reads this
    {
      pos <= remainingLength <= payload.Length && remainingLength < VARINT_LIMIT
    }

    ghost function Unread(): bytes
      requires InValid()
      reads this, payload
    {
      payload[pos..remainingLength]
    }

    /** The cursor moved over n bytes. */
    twostate predicate Moved(n: nat)
      reads this
    {
      InValid() && pos == old(pos) + n
    }

    method ReadByte() returns (rc: Rc, b: byte)
      requires InValid()
      modifies this`pos
      ensures match ParseByte(old(Unread()))
              case Got(v, n) => rc == Success && b == v && Moved(n)
              case Bad(e) => rc == e && Moved(0)
    {
      if Add32(pos, 1) > remainingLength {
        return MalformedPacket, 0;
      }
      b := payload[pos];
      pos := pos + 1;
      rc := Success;
    }

    method ReadBytes(count: uint32) returns (rc: Rc, data: bytes)
      requires InValid() && pos + count < TWO_32
      modifies this`pos
      ensures if count <= |old(Unread())|
              then rc == Success && data == old(Unread())[..count] && Moved(count)
              else rc == MalformedPacket && Moved(0)
    {
      if Add32(pos, count) > remainingLength {
        return MalformedPacket, [];
      }
      data := payload[pos..pos + count];
      pos := pos + count;
      rc := Success;
    }

    method ReadUint16() returns (rc: Rc, word: uint16)
      requires InValid()
      modifies this`pos
      ensures match ParseU16(old(Unread()))
              case Got(v, n) => rc == Success && word == v && Moved(n)
              case Bad(e) => rc == e && Moved(0)
    {
      if Add32(pos, 2) > remainingLength {
        return MalformedPacket, 0;
      }
      var msb: int := payload[pos];
      pos := pos + 1;
      var lsb: int := payload[pos];
      pos := pos + 1;
      return Success, Word16(msb, lsb);
    }

    method ReadUint32() returns (rc: Rc, word: uint32)
      requires InValid()
      modifies this`pos
      ensures match ParseU32(old(Unread()))
              case Got(v, n) => rc == Success && word == v && Moved(n)
              case Bad(e) => rc == e && Moved(0)
    {
      if Add32(pos, 4) > remainingLength {
        return MalformedPacket, 0;
      }
      ghost var s := Unread();
      var val: int := 0;
      for i := 0 to 4
        invariant pos == old(pos) + i
        invariant val == if i == 0 then 0 else if i == 1 then s[0] else if i == 2 then Word16(s[0], s[1])
                         else if i == 3 then Word16(Word16(s[0], s[1]), s[2]) else Word32(s[0], s[1], s[2], s[3])
      {
        var b: int := payload[pos];
        val := val * 0x100 + b;
        pos := pos + 1;
      }
      return Success, val;
    }

    method ReadVarint() returns (rc: Rc, word: uint32, byteCount: byte)
      requires InValid()
      modifies this`pos
      ensures match ParseVarint(old(Unread()))
              case Got(v, n) => rc == Success && word == v && byteCount == n && Moved(n)
              case Bad(e) => rc == e && InValid()
    {
      ghost var s := Unread();
      PowLimit();
      var lword: uint32 := 0;
      var remainingMult: uint32 := 1;
      word := 0;
      byteCount := 0;
      for i := 0 to 4
        invariant i <= |s| && pos == old(pos) + i && byteCount == i
        invariant remainingMult == Pow128(i) && 0 <= lword < Pow128(i)
        invariant ParseVarint(s) == Combine(ParseVarintFrom(s[i..], i), lword, remainingMult, i)
      {
        PowBounds(i);
        if pos < remainingLength {
          byteCount := byteCount + 1;
          var b: int := payload[pos];
          assert b == s[i];
          VarintStep(s, i, lword);
          lword := lword + (b % 0x80) * remainingMult;
          remainingMult := remainingMult * 0x80;
          pos := pos + 1;
          if b < 0x80 {
            if byteCount > 1 && b == 0 {
              return MalformedPacket, word, byteCount;
            } else {
              word := lword;
              return Success, word, byteCount;
            }
          }
        } else {
          return MalformedPacket, word, byteCount;
        }
      }
      return MalformedPacket, word, byteCount;
    }

    /** The data and its length; the buffer has a NUL after it, or is null for length 0. */
    method ReadBinary() returns (rc: Rc, data: bytes, length: uint16)
      requires InValid()
      modifies this`pos
      ensures match ParseBinary(old(Unread()))
              case Got(v, n) => rc == Success && length == |v| && Moved(n) && data == (if v == [] then [] else v + [NUL])
              case Bad(e) => rc == e && InValid()
    {
      data, length := [], 0;
      var slen;
      rc, slen := ReadUint16();
      if rc != Success {
        return;
      }
      if slen == 0 {
        assert old(Unread())[2..2] == [];
        return;
      }
      if Add32(pos, slen) > remainingLength {
        return MalformedPacket, [], 0;
      }
      data := payload[pos..pos + slen] + [NUL];
      SliceOfSlice(payload[..], old(pos), remainingLength, 2, slen as int + 2);
      pos := pos + slen;
      length := slen;
    }

    method ReadString() returns (rc: Rc, str: bytes, length: uint16)
      requires InValid()
      modifies this`pos
      ensures match ParseString(old(Unread()))
              case Got(v, n) => rc == Success && length == |v| && Moved(n) && str == (if v == [] then [] else v + [NUL])
              case Bad(e) => rc == e && InValid()
    {
      rc, str, length := ReadBinary();
      if rc != Success || length == 0 {
        return;
      }
      var utf8 := ValidateUtf8(str, length);
      if utf8 != Success {
        return MalformedUtf8, [], 0;
      }
    }
  }

  lemma SliceOfSlice(s: bytes, from: nat, to: nat, i: nat, j: nat)
    requires from <= to <= |s| && i <= j <= to - from
    ensures s[from..to][i..j] == s[from + i..from + j]
  {
    var a, b := s[from..to][i..j], s[from + i..from + j];
    assert forall k :: 0 <= k < |a| ==> a[k] == s[from + i + k] == b[k];
  }

  /** The wrapping test in front of a read is right if and only if the wrapped sum does not come below the bound. */
  lemma BoundTestExactly(pos: uint32, count: uint32, remainingLength: uint32)
    requires pos <= remainingLength
    ensures (Add32(pos, count) > remainingLength <==> pos + count > remainingLength) <==>
            pos + count < TWO_32 || pos + count - TWO_32 > remainingLength
  {
  }

  lemma PowBounds(i: nat)
    requires i < 4
    ensures 1 <= Pow128(i) <= 0x20_0000
    ensures Pow128(i + 1) == 0x80 * Pow128(i) <= VARINT_LIMIT
  {
    assert Pow128(1) == 0x80 * Pow128(0);
    assert Pow128(2) == 0x80 * Pow128(1);
    assert Pow128(3) == 0x80 * Pow128(2);
    assert Pow128(4) == 0x80 * Pow128(3);
  }

  /** The step of both writing loops: the next byte of the encoding and what is left of it. */
  lemma VarintDigit(e: bytes, count: nat, rest: nat)
    requires count <= |e| && e[count..] == EncodeVarint(rest)
    ensures count < |e|
    ensures e[..count + 1] == e[..count] + [rest % 0x80 + if rest / 0x80 > 0 then 0x80 else 0]
    ensures if rest / 0x80 > 0 then e[count + 1..] == EncodeVarint(rest / 0x80) else count + 1 == |e|
  {
    assert e[count] == e[count..][0];
    assert e[count + 1..] == e[count..][1..];
  }

  lemma MulBound(p: nat, d: nat)
    requires d < 0x80
    ensures 0 <= d * p <= 0x7F * p
  {
  }

  lemma MulShift(p: nat, d: nat, v: nat)
    ensures p * (d + 0x80 * v) == d * p + (0x80 * p) * v
  {
    assert (0x80 * p) * v == p * (0x80 * v);
  }

  /** A parse of the remaining digits, with the value of the i digits before them put in. */
  function Combine(p: Parse<nat>, low: nat, mult: nat, i: nat): Parse<nat> {
    match p
    case Bad(e) => Bad(e)
    case Got(v, n) => Got(low + mult * v, n + i)
  }

  /** One turn of the reading loop: low is what the digits before i add up to. */
  lemma VarintStep(s: bytes, i: nat, low: nat)
    requires i < 4 && i < |s| && low < Pow128(i)
    ensures 0 <= low + s[i] % 0x80 * Pow128(i) < Pow128(i + 1)
    ensures Combine(ParseVarintFrom(s[i..], i), low, Pow128(i), i) ==
            if s[i] >= 0x80 then
              Combine(ParseVarintFrom(s[i + 1..], i + 1), low + s[i] % 0x80 * Pow128(i), Pow128(i + 1), i + 1)
            else if i > 0 && s[i] == 0 then Bad(MalformedPacket)
            else Got(low + s[i] % 0x80 * Pow128(i), i + 1)
  {
    PowBounds(i);
    var d, p := s[i] % 0x80, Pow128(i);
    MulBound(p, d);
    assert s[i..][1..] == s[i + 1..] && s[i..][0] == s[i];
    if s[i] >= 0x80 {
      match ParseVarintFrom(s[i + 1..], i + 1)
      case Bad(e) =>
      case Got(v, n) => MulShift(p, d, v);
    } else {
      MulShift(p, d, 0);
    }
  }
}
