/**
 mosquitto_validate_utf8 against UTF-8 as section 3 of RFC 3629 defines it, restricted to the
 code points section 1.5.4 of MQTT Version 5.0 lets a sender use and this library accepts.
 Bit masks are written as division and remainder by powers of two.
 */
module Utf8 {
  import opened Bytes

  /** Unicode scalar values that are no control characters and no non-characters. */
  predicate Allowed(c: int) {
    && 0x20 <= c <= 0x10FFFF
    && !(0x7F <= c <= 0x9F)
    && !(0xD800 <= c <= 0xDFFF)
    && !(0xFDD0 <= c <= 0xFDEF)
    && c % 0x1_0000 < 0xFFFE
  }

  type codepoint = c: int | 0 <= c <= 0x10FFFF

  /** The encoding table of section 3 of RFC 3629. */
  function Encode(c: codepoint): bytes {
    if c < 0x80 then [c]
    else if c < 0x800 then [0xC0 + c / 0x40, 0x80 + c % 0x40]
    else if c < 0x1_0000 then [0xE0 + c / 0x1000, 0x80 + c / 0x40 % 0x40, 0x80 + c % 0x40]
    else [0xF0 + c / 0x4_0000, 0x80 + c / 0x1000 % 0x40, 0x80 + c / 0x40 % 0x40, 0x80 + c % 0x40]
  }

  function EncodeAll(cs: seq<codepoint>): bytes {
    if cs == [] then [] else Encode(cs[0]) + EncodeAll(cs[1..])
  }

  predicate AllAllowed(cs: seq<codepoint>) {
    forall k :: 0 <= k < |cs| ==> Allowed(cs[k])
  }

  /** The strings MQTT may carry: encodings of allowed code points. */
  ghost predicate ValidText(s: bytes) {
    exists cs :: AllAllowed(cs) && EncodeAll(cs) == s
  }

  predicate Continuation(b: byte) { b / 0x40 == 2 }

  /** The length the lead byte announces; 0 for a byte that cannot lead. */
  function LeadLength(b: byte): nat {
    if b == 0 then 0
    else if b <= 0x7F then 1
    else if b / 0x20 == 6 then (if b == 0xC0 || b == 0xC1 then 0 else 2)
    else if b / 0x10 == 14 then 3
    else if b / 8 == 30 then (if b > 0xF4 then 0 else 4)
    else 0
  }

  function LeadBits(b: byte): int {
    if b <= 0x7F then b
    else if b / 0x20 == 6 then b % 0x20
    else if b / 0x10 == 14 then b % 0x10
    else b % 8
  }

  /** The code point that starts s, with its length, when the code accepts it. */
  datatype Char = Char(point: codepoint, length: nat) | NoChar

  function Gather(s: bytes, n: nat): int
    requires 1 <= n <= |s|
  {
    if n == 1 then LeadBits(s[0]) else Gather(s, n - 1) * 0x40 + s[n - 1] % 0x40
  }

  function FirstChar(s: bytes): Char {
    if s == [] || LeadLength(s[0]) == 0 then NoChar
    else
      var n := LeadLength(s[0]);
      if |s| < n || exists k :: 1 <= k < n && !Continuation(s[k]) then NoChar
      else
        var c := Gather(s, n);
        if Allowed(c) && (n == 3 ==> c >= 0x800) && (n == 4 ==> c >= 0x1_0000) then Char(c, n)
        else NoChar
  }

  datatype Text = Text(points: seq<codepoint>) | BadText

  function Decode(s: bytes): Text {
    if s == [] then Text([])
    else match FirstChar(s)
      case NoChar => BadText
      case Char(c, n) =>
        if n == 0 || n > |s| then BadText
        else match Decode(s[n..])
          case BadText => BadText
          case Text(rest) => Text([c] + rest)
  }

  // ----- The two tables are inverse -----

  /** Base-64 digits, most significant first. */
  function Join2(a: int, b: int): int { a * 0x40 + b }
  function Join3(a: int, b: int, c: int): int { Join2(a, b) * 0x40 + c }
  function Join4(a: int, b: int, c: int, d: int): int { Join3(a, b, c) * 0x40 + d }

  lemma Digits(c: nat)
    ensures c / 0x1000 == c / 0x40 / 0x40
    ensures c / 0x4_0000 == c / 0x1000 / 0x40
    ensures c == Join2(c / 0x40, c % 0x40)
    ensures c == Join3(c / 0x1000, c / 0x40 % 0x40, c % 0x40)
    ensures c == Join4(c / 0x4_0000, c / 0x1000 % 0x40, c / 0x40 % 0x40, c % 0x40)
  {
  }

  lemma Undigits(high: nat, d: nat)
    requires d < 0x40
    ensures Join2(high, d) / 0x40 == high && Join2(high, d) % 0x40 == d
  {
  }

  lemma GatherDigits(s: bytes)
    requires s != []
    ensures |s| >= 2 ==> Gather(s, 2) == Join2(LeadBits(s[0]), s[1] % 0x40)
    ensures |s| >= 3 ==> Gather(s, 3) == Join3(LeadBits(s[0]), s[1] % 0x40, s[2] % 0x40)
    ensures |s| >= 4 ==> Gather(s, 4) == Join4(LeadBits(s[0]), s[1] % 0x40, s[2] % 0x40, s[3] % 0x40)
  {
    assert Gather(s, 1) == LeadBits(s[0]);
    if |s| >= 2 { assert Gather(s, 2) == Gather(s, 1) * 0x40 + s[1] % 0x40; }
    if |s| >= 3 { assert Gather(s, 3) == Gather(s, 2) * 0x40 + s[2] % 0x40; }
    if |s| >= 4 { assert Gather(s, 4) == Gather(s, 3) * 0x40 + s[3] % 0x40; }
  }

  lemma EncodeShape(c: codepoint)
    requires Allowed(c)
    ensures 1 <= |Encode(c)| <= 4
    ensures LeadLength(Encode(c)[0]) == |Encode(c)|
    ensures forall k :: 1 <= k < |Encode(c)| ==> Continuation(Encode(c)[k])
  {
  }

  lemma LeadByteBits(a: nat)
    ensures 2 <= a < 0x20 ==> LeadLength(0xC0 + a) == 2 && LeadBits(0xC0 + a) == a
    ensures a < 0x10 ==> LeadLength(0xE0 + a) == 3 && LeadBits(0xE0 + a) == a
    ensures a < 5 ==> LeadLength(0xF0 + a) == 4 && LeadBits(0xF0 + a) == a
  {
  }

  lemma ContinuationBits(d: nat)
    requires d < 0x40
    ensures (0x80 + d) % 0x40 == d && Continuation(0x80 + d)
  {
  }

  lemma EncodeDigits(c: codepoint)
    requires Allowed(c)
    ensures Gather(Encode(c), |Encode(c)|) == c
  {
    var d0, d1, d2 := c % 0x40, c / 0x40 % 0x40, c / 0x1000 % 0x40;
    Digits(c);
    ContinuationBits(d0);
    if c < 0x80 {
      assert Encode(c) == [c];
    } else if c < 0x800 {
      LeadByteBits(c / 0x40);
      GatherDigits([0xC0 + c / 0x40, 0x80 + d0]);
    } else if c < 0x1_0000 {
      ContinuationBits(d1);
      LeadByteBits(c / 0x1000);
      GatherDigits([0xE0 + c / 0x1000, 0x80 + d1, 0x80 + d0]);
    } else {
      ContinuationBits(d1);
      ContinuationBits(d2);
      LeadByteBits(c / 0x4_0000);
      GatherDigits([0xF0 + c / 0x4_0000, 0x80 + d2, 0x80 + d1, 0x80 + d0]);
    }
  }

  lemma {:induction false} GatherPrefix(e: bytes, s: bytes, n: nat)
    requires 1 <= n <= |e| && e <= s
    ensures Gather(s, n) == Gather(e, n)
  {
    assert e[n - 1] == s[n - 1];
    if n == 1 {
    } else {
      GatherPrefix(e, s, n - 1);
    }
  }

  lemma EncodeFirst(c: codepoint, rest: bytes)
    requires Allowed(c)
    ensures FirstChar(Encode(c) + rest) == Char(c, |Encode(c)|)
  {
    var e := Encode(c);
    var s := e + rest;
    assert forall k :: 0 <= k < |e| ==> s[k] == e[k];
    EncodeShape(c);
    EncodeDigits(c);
    GatherPrefix(e, s, |e|);
  }

  lemma EncodeJoin3(a: nat, b: nat, d: nat)
    requires a < 0x10 && b < 0x40 && d < 0x40 && 0x800 <= Join3(a, b, d)
    ensures Encode(Join3(a, b, d)) == [0xE0 + a, 0x80 + b, 0x80 + d]
  {
    var high := Join2(a, b);
    Undigits(a, b);
    Undigits(high, d);
    Digits(Join2(high, d));
  }

  lemma EncodeJoin4(a: nat, b: nat, d: nat, e: nat)
    requires a < 8 && b < 0x40 && d < 0x40 && e < 0x40
    requires 0x1_0000 <= Join4(a, b, d, e) <= 0x10FFFF
    ensures Encode(Join4(a, b, d, e)) == [0xF0 + a, 0x80 + b, 0x80 + d, 0x80 + e]
  {
    var high := Join2(a, b);
    var mid := Join2(high, d);
    Undigits(a, b);
    Undigits(high, d);
    Undigits(mid, e);
    Digits(Join2(mid, e));
    Digits(mid);
  }

  lemma ContinuationByte(b: byte)
    requires Continuation(b)
    ensures b == 0x80 + b % 0x40
  {
  }

  /** The encoder puts the gathered digits back where they came from. */
  lemma EncodeGathered(s: bytes, n: nat)
    requires s != [] && n == LeadLength(s[0]) && 1 <= n <= |s|
    requires forall k :: 1 <= k < n ==> Continuation(s[k])
    requires n == 3 ==> 0x800 <= Gather(s, n)
    requires n == 4 ==> 0x1_0000 <= Gather(s, n) <= 0x10FFFF
    ensures 0 <= Gather(s, n) <= 0x10FFFF && Encode(Gather(s, n)) == s[..n]
  {
    var a := LeadBits(s[0]);
    forall k | 1 <= k < n
      ensures s[k] == 0x80 + s[k] % 0x40
    {
      ContinuationByte(s[k]);
    }
    GatherDigits(s);
    if n == 1 {
      assert s[..1] == [s[0]];
    } else if n == 2 {
      Undigits(a, s[1] % 0x40);
      assert s[..2] == [0xC0 + a, 0x80 + s[1] % 0x40];
    } else {
      EncodeLong(s, n);
    }
  }

  lemma EncodeLong(s: bytes, n: nat)
    requires s != [] && n == LeadLength(s[0]) && 3 <= n <= |s|
    requires forall k :: 1 <= k < n ==> s[k] == 0x80 + s[k] % 0x40
    requires n == 3 ==> 0x800 <= Gather(s, n)
    requires n == 4 ==> 0x1_0000 <= Gather(s, n) <= 0x10FFFF
    ensures 0 <= Gather(s, n) <= 0x10FFFF && Encode(Gather(s, n)) == s[..n]
  {
    var a, b, d := LeadBits(s[0]), s[1] % 0x40, s[2] % 0x40;
    GatherDigits(s);
    if n == 3 {
      EncodeJoin3(a, b, d);
      assert s[..3] == [0xE0 + a, 0x80 + b, 0x80 + d];
    } else {
      EncodeJoin4(a, b, d, s[3] % 0x40);
      assert s[..4] == [0xF0 + a, 0x80 + b, 0x80 + d, 0x80 + s[3] % 0x40];
    }
  }

  lemma FirstCharEncoded(s: bytes)
    requires FirstChar(s).Char?
    ensures 1 <= FirstChar(s).length <= |s| && Allowed(FirstChar(s).point)
    ensures Encode(FirstChar(s).point) == s[..FirstChar(s).length]
  {
    EncodeGathered(s, LeadLength(s[0]));
  }

  lemma EncodeCons(c: codepoint, rest: seq<codepoint>, s: bytes, n: nat)
    requires n <= |s| && Encode(c) == s[..n] && EncodeAll(rest) == s[n..]
    ensures EncodeAll([c] + rest) == s
  {
    assert ([c] + rest)[1..] == rest;
    assert s == s[..n] + s[n..];
  }

  lemma DecodeCons(c: codepoint, rest: bytes)
    requires Allowed(c) && Decode(rest).Text?
    ensures Decode(Encode(c) + rest) == Text([c] + Decode(rest).points)
  {
    EncodeFirst(c, rest);
    EncodeShape(c);
    assert (Encode(c) + rest)[|Encode(c)|..] == rest;
  }

  lemma {:induction false} DecodeEncode(cs: seq<codepoint>)
    requires AllAllowed(cs)
    ensures Decode(EncodeAll(cs)) == Text(cs)
  {
    if cs == [] {
    } else {
      DecodeEncode(cs[1..]);
      DecodeCons(cs[0], EncodeAll(cs[1..]));
      assert cs == [cs[0]] + cs[1..];
    }
  }

  lemma {:induction false} EncodeDecode(s: bytes)
    requires Decode(s).Text?
    ensures AllAllowed(Decode(s).points) && EncodeAll(Decode(s).points) == s
  {
    if s == [] {
    } else {
      FirstCharEncoded(s);
      var Char(c, n) := FirstChar(s);
      var rest := s[n..];
      EncodeDecode(rest);
      EncodeCons(c, Decode(rest).points, s, n);
    }
  }

  /** Decoding succeeds on exactly the valid strings, and a string has one decoding. */
  lemma DecodesExactlyValid(s: bytes)
    ensures Decode(s).Text? <==> ValidText(s)
    ensures forall cs :: AllAllowed(cs) && EncodeAll(cs) == s ==> Decode(s) == Text(cs)
  {
    if Decode(s).Text? { EncodeDecode(s); }
    forall cs | AllAllowed(cs) && EncodeAll(cs) == s
      ensures Decode(s) == Text(cs)
    {
      DecodeEncode(cs);
    }
  }

  /** The switch on the lead byte: the announced length and the bits it carries. */
  method LeadByte(b: byte) returns (codelen: nat, codepoint: int)
    ensures codelen == LeadLength(b)
    ensures codelen > 0 ==> codepoint == LeadBits(b)
  {
    if b == 0 {
      return 0, 0;
    } else if b <= 0x7F {
      return 1, b;
    } else if b / 0x20 == 6 {
      if b == 0xC0 || b == 0xC1 {
        return 0, 0;
      }
      return 2, b % 0x20;
    } else if b / 0x10 == 14 {
      return 3, b % 0x10;
    } else if b / 8 == 30 {
      if b > 0xF4 {
        return 0, 0;
      }
      return 4, b % 8;
    } else {
      return 0, 0;
    }
  }

  /** The checks on a gathered code point, in the order of the code. */
  method PointOk(codelen: nat, codepoint: int) returns (ok: bool)
    requires codelen == 2 ==> codepoint >= 0x80
    requires codelen <= 3 ==> 0 <= codepoint < 0x1_0000
    requires 1 <= codelen <= 4 && codepoint >= 0
    ensures ok <==>
              Allowed(codepoint) && (codelen == 3 ==> codepoint >= 0x800) && (codelen == 4 ==> codepoint >= 0x1_0000)
  {
    if 0xD800 <= codepoint <= 0xDFFF {
      return false;
    }
    if codelen == 3 && codepoint < 0x800 {
      return false;
    } else if codelen == 4 && (codepoint < 0x1_0000 || codepoint > 0x10FFFF) {
      return false;
    }
    if 0xFDD0 <= codepoint <= 0xFDEF {
      return false;
    }
    if codepoint % 0x1_0000 == 0xFFFE || codepoint % 0x1_0000 == 0xFFFF {
      return false;
    }
    if codepoint <= 0x1F || 0x7F <= codepoint <= 0x9F {
      return false;
    }
    return true;
  }

  lemma GatherBounds(s: bytes)
    requires s != [] && LeadLength(s[0]) > 0
    requires |s| >= LeadLength(s[0])
    ensures Gather(s, LeadLength(s[0])) >= 0
    ensures LeadLength(s[0]) == 2 ==> Gather(s, 2) >= 0x80
    ensures LeadLength(s[0]) <= 3 ==> Gather(s, LeadLength(s[0])) < 0x1_0000
  {
    GatherDigits(s);
  }

  /**
   mosquitto_validate_utf8. The buffer holds len bytes and a NUL after them; the code only
   compares i with len - codelen + 1, so a character cut short is caught by that NUL.
   */
  method ValidateUtf8(str: bytes, len: int) returns (rc: Rc)
    requires 0 <= len ==> |str| == len + 1 && str[len] == NUL
    ensures len < 0 || len > 65536 ==> rc == Inval
    ensures 0 <= len <= 65536 ==> rc == if ValidText(str[..len]) then Success else MalformedUtf8
  {
    if len < 0 || len > 65536 {
      return Inval;
    }
    ghost var s := str[..len];
    DecodesExactlyValid(s);
    var i := 0;
    while i < len
      invariant 0 <= i <= len
      invariant Decode(s).Text? <==> Decode(s[i..]).Text?
    {
      ghost var rest := s[i..];
      var codelen, codepoint := LeadByte(str[i]);
      if codelen == 0 {
        return MalformedUtf8;
      }
      if i == len - codelen + 1 {
        return MalformedUtf8;
      }
      var ok;
      ok, i, codepoint := Reconstruct(str, len, i, codelen, codepoint, rest);
      if !ok {
        return MalformedUtf8;
      }
      GatherBounds(rest);
      ok := PointOk(codelen, codepoint);
      if !ok {
        return MalformedUtf8;
      }
      i := i + 1;
      assert rest[codelen..] == s[i..];
    }
    return Success;
  }

  /** The loop over the continuation bytes. */
  method Reconstruct(str: bytes, len: nat, start: nat, codelen: nat, lead: int, ghost rest: bytes)
    returns (ok: bool, i: nat, codepoint: int)
    requires |str| == len + 1 && str[len] == NUL && start < len
    requires rest == str[start..len] && 1 <= codelen == LeadLength(rest[0]) && lead == LeadBits(rest[0])
    ensures ok <==> codelen <= |rest| && forall k :: 1 <= k < codelen ==> Continuation(rest[k])
    ensures ok ==> i == start + codelen - 1 && codepoint == Gather(rest, codelen)
  {
    i := start;
    codepoint := lead;
    for j := 0 to codelen - 1
      invariant i == start + j && i < len
      invariant codepoint == Gather(rest, j + 1)
      invariant forall k :: 1 <= k <= j ==> Continuation(rest[k])
    {
      i := i + 1;
      if str[i] / 0x40 != 2 {
        assert i < len ==> !Continuation(rest[j + 1]);
        return false, i, codepoint;
      }
      codepoint := codepoint * 0x40 + str[i] % 0x40;
    }
    ok := true;
  }
}
