/**
 MQTT 5 property lists (section 2.2.2 of MQTT Version 5.0): reading with a wrapping byte
 counter, writing, length computation and the validity checks.
 */
module Properties {
  import opened Bytes
  import opened Wire
  import opened PacketData

  const CMD_CONNECT: int := 0x10
  const CMD_CONNACK: int := 0x20
  const CMD_PUBLISH: int := 0x30
  const CMD_SUBSCRIBE: int := 0x80
  const CMD_UNSUBSCRIBE: int := 0xA0
  const CMD_DISCONNECT: int := 0xE0
  const CMD_AUTH: int := 0xF0
  const CMD_WILL: int := 0x100

  const PAYLOAD_FORMAT_INDICATOR: uint32 := 1
  const MESSAGE_EXPIRY_INTERVAL: uint32 := 2
  const CONTENT_TYPE: uint32 := 3
  const RESPONSE_TOPIC: uint32 := 8
  const CORRELATION_DATA: uint32 := 9
  const SUBSCRIPTION_IDENTIFIER: uint32 := 11
  const SESSION_EXPIRY_INTERVAL: uint32 := 17
  const ASSIGNED_CLIENT_IDENTIFIER: uint32 := 18
  const SERVER_KEEP_ALIVE: uint32 := 19
  const AUTHENTICATION_METHOD: uint32 := 21
  const AUTHENTICATION_DATA: uint32 := 22
  const REQUEST_PROBLEM_INFORMATION: uint32 := 23
  const WILL_DELAY_INTERVAL: uint32 := 24
  const REQUEST_RESPONSE_INFORMATION: uint32 := 25
  const RESPONSE_INFORMATION: uint32 := 26
  const SERVER_REFERENCE: uint32 := 28
  const REASON_STRING: uint32 := 31
  const RECEIVE_MAXIMUM: uint32 := 33
  const TOPIC_ALIAS_MAXIMUM: uint32 := 34
  const TOPIC_ALIAS: uint32 := 35
  const MAXIMUM_QOS: uint32 := 36
  const RETAIN_AVAILABLE: uint32 := 37
  const USER_PROPERTY: uint32 := 38
  const MAXIMUM_PACKET_SIZE: uint32 := 39
  const WILDCARD_SUB_AVAILABLE: uint32 := 40
  const SUBSCRIPTION_ID_AVAILABLE: uint32 := 41
  const SHARED_SUB_AVAILABLE: uint32 := 42

  datatype Kind = KByte | KInt16 | KInt32 | KVarint | KString | KBinary | KPair | KUnsupported

  function KindOf(id: uint32): Kind {
    if id in {PAYLOAD_FORMAT_INDICATOR, REQUEST_PROBLEM_INFORMATION, REQUEST_RESPONSE_INFORMATION, MAXIMUM_QOS,
              RETAIN_AVAILABLE, WILDCARD_SUB_AVAILABLE, SUBSCRIPTION_ID_AVAILABLE, SHARED_SUB_AVAILABLE} then KByte
    else if id in {SERVER_KEEP_ALIVE, RECEIVE_MAXIMUM, TOPIC_ALIAS_MAXIMUM, TOPIC_ALIAS} then KInt16
    else if id in {MESSAGE_EXPIRY_INTERVAL, SESSION_EXPIRY_INTERVAL, WILL_DELAY_INTERVAL, MAXIMUM_PACKET_SIZE} then KInt32
    else if id == SUBSCRIPTION_IDENTIFIER then KVarint
    else if id in {CONTENT_TYPE, RESPONSE_TOPIC, ASSIGNED_CLIENT_IDENTIFIER, AUTHENTICATION_METHOD,
                   RESPONSE_INFORMATION, SERVER_REFERENCE, REASON_STRING} then KString
    else if id in {AUTHENTICATION_DATA, CORRELATION_DATA} then KBinary
    else if id == USER_PROPERTY then KPair
    else KUnsupported
  }

  /** The union of the C struct; which member is used depends on the identifier. */
  datatype Value =
    | Int8(i8: byte)
    | Int16(i16: uint16)
    | Int32(i32: uint32)
    | Varint(varint: uint32)
    | Text(s: bytes)
    | Binary(bin: bytes)
    | Pair(name: bytes, text: bytes)

  function ValueKind(v: Value): Kind {
    match v
    case Int8(_) => KByte
    case Int16(_) => KInt16
    case Int32(_) => KInt32
    case Varint(_) => KVarint
    case Text(_) => KString
    case Binary(_) => KBinary
    case Pair(_, _) => KPair
  }

  datatype Property = Property(identifier: uint32, value: Value)

  /** The lengths are 16-bit fields in the struct. */
  predicate Sized(v: Value) {
    match v
    case Text(s) => |s| <= 0xFFFF
    case Binary(b) => |b| <= 0xFFFF
    case Pair(n, t) => |n| <= 0xFFFF && |t| <= 0xFFFF
    case _ => true
  }

  /** The member in use is the one the identifier selects, and it fits its length field. */
  predicate Typed(p: Property) {
    KindOf(p.identifier) == ValueKind(p.value) && Sized(p.value)
  }

  /** Strings are valid and a varint is below 2^28: what can go on the wire. */
  ghost predicate ReadyValue(v: Value) {
    Sized(v) &&
    match v
    case Varint(n) => n < VARINT_LIMIT
    case Text(s) => WireText(s)
    case Pair(n, t) => WireText(n) && WireText(t)
    case _ => true
  }

  ghost predicate WireReady(p: Property) {
    Typed(p) && ReadyValue(p.value)
  }

  ghost predicate AllWireReady(ps: seq<Property>) {
    forall k :: 0 <= k < |ps| ==> WireReady(ps[k])
  }

  predicate AllTyped(ps: seq<Property>) {
    forall k :: 0 <= k < |ps| ==> Typed(ps[k])
  }

  // ----- Encoding -----

  function EncodeValue(v: Value): bytes
    requires Sized(v)
  {
    match v
    case Int8(b) => [b]
    case Int16(w) => EncodeU16(w)
    case Int32(w) => EncodeU32(w)
    case Varint(n) => EncodeVarint(n)
    case Text(s) => EncodeBinary(s)
    case Binary(b) => EncodeBinary(b)
    case Pair(n, t) => EncodeBinary(n) + EncodeBinary(t)
  }

  function EncodeProperty(p: Property): bytes
    requires Typed(p)
  {
    EncodeVarint(p.identifier) + EncodeValue(p.value)
  }

  function EncodeProperties(ps: seq<Property>): bytes
    requires AllTyped(ps)
  {
    if ps == [] then [] else EncodeProperty(ps[0]) + EncodeProperties(ps[1..])
  }

  /** The list with its length in front. */
  function EncodeList(ps: seq<Property>): bytes
    requires AllTyped(ps)
  {
    EncodeVarint(|EncodeProperties(ps)|) + EncodeProperties(ps)
  }

  // ----- Parsing -----

  ghost function ParseValue(k: Kind, s: bytes): Parse<Value> {
    match k
    case KByte => (match ParseByte(s) case Bad(e) => Bad(e) case Got(b, n) => Got(Int8(b), n))
    case KInt16 => (match ParseU16(s) case Bad(e) => Bad(e) case Got(w, n) => Got(Int16(w), n))
    case KInt32 => (match ParseU32(s) case Bad(e) => Bad(e) case Got(w, n) => Got(Int32(w), n))
    case KVarint => (match ParseVarint(s) case Bad(e) => Bad(e)
                     case Got(v, n) => if v < TWO_32 then Got(Varint(v), n) else Bad(MalformedPacket))
    case KString => (match ParseString(s) case Bad(e) => Bad(e) case Got(t, n) => Got(Text(t), n))
    case KBinary => (match ParseBinary(s) case Bad(e) => Bad(e) case Got(b, n) => Got(Binary(b), n))
    case KPair => (match ParseString(s) case Bad(e) => Bad(e)
                   case Got(name, n) =>
                     if n > |s| then Bad(MalformedPacket)
                     else match ParseString(s[n..]) case Bad(e) => Bad(e)
                          case Got(t, m) => Got(Pair(name, t), n + m))
    case KUnsupported => Bad(MalformedPacket)
  }

  ghost function ParseProperty(s: bytes): Parse<Property> {
    match ParseVarint(s)
    case Bad(e) => Bad(e)
    case Got(id, n) =>
      if id >= TWO_32 || n > |s| then Bad(MalformedPacket)
      else match ParseValue(KindOf(id), s[n..])
        case Bad(e) => Bad(e)
        case Got(v, m) => Got(Property(id, v), n + m)
  }

  /** The loop of property__read_all: the counter is 32 bits wide and wraps when it goes below zero. */
  ghost function ParseCounted(s: bytes, len: uint32): Parse<seq<Property>>
    requires |s| < VARINT_LIMIT
    decreases |s|
  {
    if len == 0 then Got([], 0)
    else match ParseProperty(s)
      case Bad(e) => Bad(e)
      case Got(p, n) =>
        if n == 0 || n > |s| then Bad(MalformedPacket)
        else match ParseCounted(s[n..], Sub32(len, n))
          case Bad(e) => Bad(e)
          case Got(ps, m) => Got([p] + ps, n + m)
  }

  /** What property__read_all accepts, with its check of the list at the end. */
  ghost function ParseList(command: int, s: bytes): Parse<seq<Property>>
    requires |s| < VARINT_LIMIT
  {
    match ParseVarint(s)
    case Bad(e) => Bad(e)
    case Got(len, n) =>
      if len >= TWO_32 || n > |s| then Bad(MalformedPacket)
      else match ParseCounted(s[n..], len)
        case Bad(e) => Bad(e)
        case Got(ps, m) =>
          if CheckAll(command, ps) != Success then Bad(CheckAll(command, ps)) else Got(ps, n + m)
  }

  // ----- Checks -----

  /** mosquitto_property_check_command. */
  function CheckCommand(command: int, id: uint32): Rc {
    var ok :=
      if id in {PAYLOAD_FORMAT_INDICATOR, MESSAGE_EXPIRY_INTERVAL, CONTENT_TYPE, RESPONSE_TOPIC, CORRELATION_DATA} then
        command == CMD_PUBLISH || command == CMD_WILL
      else if id == SUBSCRIPTION_IDENTIFIER then
        command == CMD_PUBLISH || command == CMD_SUBSCRIBE
      else if id == SESSION_EXPIRY_INTERVAL then
        command == CMD_CONNECT || command == CMD_CONNACK || command == CMD_DISCONNECT
      else if id in {AUTHENTICATION_METHOD, AUTHENTICATION_DATA} then
        command == CMD_CONNECT || command == CMD_CONNACK || command == CMD_AUTH
      else if id in {ASSIGNED_CLIENT_IDENTIFIER, SERVER_KEEP_ALIVE, RESPONSE_INFORMATION, MAXIMUM_QOS, RETAIN_AVAILABLE,
                     WILDCARD_SUB_AVAILABLE, SUBSCRIPTION_ID_AVAILABLE, SHARED_SUB_AVAILABLE} then
        command == CMD_CONNACK
      else if id == WILL_DELAY_INTERVAL then command == CMD_WILL
      else if id in {REQUEST_PROBLEM_INFORMATION, REQUEST_RESPONSE_INFORMATION} then command == CMD_CONNECT
      else if id == SERVER_REFERENCE then command == CMD_CONNACK || command == CMD_DISCONNECT
      else if id == REASON_STRING then
        !(command == CMD_CONNECT || command == CMD_PUBLISH || command == CMD_SUBSCRIBE || command == CMD_UNSUBSCRIBE)
      else if id in {RECEIVE_MAXIMUM, TOPIC_ALIAS_MAXIMUM, MAXIMUM_PACKET_SIZE} then
        command == CMD_CONNECT || command == CMD_CONNACK
      else if id == TOPIC_ALIAS then command == CMD_PUBLISH
      else id == USER_PROPERTY;
    if ok then Success else Protocol
  }

  /** The value checks: flags are 0 or 1, three numbers must not be 0. */
  predicate ValueOk(p: Property) {
    match p.value
    case Int8(b) => b <= 1
    case Int16(w) => p.identifier == RECEIVE_MAXIMUM || p.identifier == TOPIC_ALIAS ==> w != 0
    case Int32(w) => p.identifier == MAXIMUM_PACKET_SIZE ==> w != 0
    case _ => true
  }

  predicate Repeated(p: Property, tail: seq<Property>) {
    p.identifier != USER_PROPERTY && exists k :: 0 <= k < |tail| && tail[k].identifier == p.identifier
  }

  function CheckAll(command: int, ps: seq<Property>): Rc {
    if ps == [] then Success
    else if !ValueOk(ps[0]) then Protocol
    else if CheckCommand(command, ps[0].identifier) != Success then CheckCommand(command, ps[0].identifier)
    else if Repeated(ps[0], ps[1..]) then DuplicateProperty
    else CheckAll(command, ps[1..])
  }

  /** The list is accepted when every member is, and only user properties occur twice. */
  lemma {:induction false} CheckAllAccepts(command: int, ps: seq<Property>)
    ensures CheckAll(command, ps) == Success <==>
            && (forall k :: 0 <= k < |ps| ==> ValueOk(ps[k]) && CheckCommand(command, ps[k].identifier) == Success)
            && (forall j, k :: 0 <= j < k < |ps| && ps[j].identifier == ps[k].identifier ==>
                 ps[j].identifier == USER_PROPERTY)
  {
    if ps == [] {
    } else {
      CheckAllAccepts(command, ps[1..]);
      assert forall k :: 1 <= k < |ps| ==> ps[1..][k - 1] == ps[k];
      if Repeated(ps[0], ps[1..]) {
        var k :| 0 <= k < |ps[1..]| && ps[1..][k].identifier == ps[0].identifier;
        assert ps[k + 1].identifier == ps[0].identifier;
      }
    }
  }

  // ----- Reading and writing are inverse -----

  lemma ValueRoundTrip(v: Value, s: bytes)
    requires ReadyValue(v)
    ensures ParseValue(ValueKind(v), EncodeValue(v) + s) == Got(v, |EncodeValue(v)|)
  {
    hide ParseU16, ParseU32, ParseVarint, EncodeVarint, ParseString, ParseBinary;
    match v
    case Int8(b) =>
    case Int16(w) => U16RoundTrip(w, s);
    case Int32(w) => U32RoundTrip(w, s);
    case Varint(n) => VarintBijection(EncodeVarint(n) + s, n);
    case Text(t) => StringRoundTrip(t, s);
    case Binary(b) => BinaryRoundTrip(b, s);
    case Pair(n, t) => PairRoundTrip(n, t, s);
  }

  lemma PairRoundTrip(n: bytes, t: bytes, s: bytes)
    requires WireText(n) && WireText(t)
    ensures ParseValue(KPair, EncodeBinary(n) + EncodeBinary(t) + s) ==
            Got(Pair(n, t), |EncodeBinary(n) + EncodeBinary(t)|)
  {
    hide ParseString;
    var rest := EncodeBinary(t) + s;
    assert EncodeBinary(n) + EncodeBinary(t) + s == EncodeBinary(n) + rest;
    StringRoundTrip(n, rest);
    StringRoundTrip(t, s);
    assert (EncodeBinary(n) + rest)[|EncodeBinary(n)|..] == rest;
  }

  lemma ParsedValueEncoded(k: Kind, s: bytes)
    requires ParseValue(k, s).Got?
    ensures var Got(v, n) := ParseValue(k, s);
            ValueKind(v) == k && ReadyValue(v) && 1 <= n <= |s| && s[..n] == EncodeValue(v)
  {
    hide ParseVarint, EncodeVarint, ParseString, ParseBinary, EncodeU32, WireText;
    match k
    case KByte => assert s[..1] == [s[0]];
    case KInt16 => ParsedU16Encoded(s);
    case KInt32 => U32RoundTrip(0, s);
    case KVarint => VarintBijection(s, ParseVarint(s).value);
    case KString => ParsedStringEncoded(s);
    case KBinary => ParsedBinaryEncoded(s);
    case KPair => ParsedPairEncoded(s);
  }

  lemma ParsedPairEncoded(s: bytes)
    requires ParseValue(KPair, s).Got?
    ensures var Got(v, n) := ParseValue(KPair, s);
            v.Pair? && ReadyValue(v) && 1 <= n <= |s| && s[..n] == EncodeValue(v)
  {
    hide ParseString, EncodeBinary;
    ParsedStringEncoded(s);
    var n := ParseString(s).used;
    ParsedStringEncoded(s[n..]);
    var m := ParseString(s[n..]).used;
    SplitPrefix(s, n, n + m);
    SliceOfSlice(s, n, |s|, 0, m);
    assert s[n..] == s[n..|s|] && s[n..n + m] == s[n..|s|][0..m];
  }

  /** A known identifier takes one byte, which is what the counter is charged for it. */
  lemma KnownIdIsOneByte(id: uint32)
    requires KindOf(id) != KUnsupported
    ensures EncodeVarint(id) == [id]
  {
  }

  lemma PropertyRoundTrip(p: Property, s: bytes)
    requires WireReady(p)
    ensures ParseProperty(EncodeProperty(p) + s) == Got(p, |EncodeProperty(p)|)
  {
    hide ParseVarint, EncodeVarint, ParseValue, EncodeValue;
    var e, v := EncodeVarint(p.identifier), EncodeValue(p.value);
    KnownIdIsOneByte(p.identifier);
    assert EncodeProperty(p) + s == e + (v + s);
    VarintBijection(e + (v + s), p.identifier);
    ValueRoundTrip(p.value, s);
    assert (e + (v + s))[1..] == v + s;
  }

  lemma ParsedPropertyEncoded(s: bytes)
    requires ParseProperty(s).Got?
    ensures var Got(p, n) := ParseProperty(s);
            WireReady(p) && 2 <= n <= |s| && s[..n] == EncodeProperty(p)
  {
    hide ParseVarint, EncodeVarint, ParseValue, EncodeValue, KindOf;
    var Got(id, n) := ParseVarint(s);
    VarintBijection(s, id);
    ParsedValueEncoded(KindOf(id), s[n..]);
    KnownIdIsOneByte(id);
    var m := ParseValue(KindOf(id), s[n..]).used;
    SplitPrefix(s, n, n + m);
    assert s[n..][..m] == s[n..n + m];
  }

  lemma {:induction false} CountedRoundTrip(ps: seq<Property>, rest: bytes)
    requires AllWireReady(ps) && |EncodeProperties(ps) + rest| < VARINT_LIMIT
    ensures ParseCounted(EncodeProperties(ps) + rest, |EncodeProperties(ps)|) == Got(ps, |EncodeProperties(ps)|)
  {
    hide ParseProperty, EncodeProperty;
    if ps != [] {
      var e, tail := EncodeProperty(ps[0]), EncodeProperties(ps[1..]);
      var s := EncodeProperties(ps) + rest;
      assert s == e + (tail + rest);
      PropertyRoundTrip(ps[0], tail + rest);
      ParsedPropertyEncoded(s);
      assert s[|e|..] == tail + rest;
      CountedRoundTrip(ps[1..], rest);
      assert [ps[0]] + ps[1..] == ps;
    } else {
      assert EncodeProperties(ps) == [];
    }
  }

  /**
   Success means that exactly the declared number of bytes was consumed, and that they are the
   encoding of the list: a counter that wrapped cannot reach 0 again within a packet.
   */
  lemma {:induction false} CountedIsExact(s: bytes, len: uint32)
    requires |s| < VARINT_LIMIT
    requires ParseCounted(s, len).Got?
    ensures var Got(ps, n) := ParseCounted(s, len);
            n == len <= |s| && AllWireReady(ps) && s[..n] == EncodeProperties(ps)
    decreases |s|
  {
    hide ParseProperty, EncodeProperty;
    if len == 0 {
    } else {
      ParsedPropertyEncoded(s);
      var Got(p, n) := ParseProperty(s);
      CountedIsExact(s[n..], Sub32(len, n));
      var Got(ps, m) := ParseCounted(s[n..], Sub32(len, n));
      assert ([p] + ps)[1..] == ps;
      SplitPrefix(s, n, n + m);
      assert s[n..][..m] == s[n..n + m];
    }
  }

  /**
   Reading a property list is the inverse of writing one: a list is read from s if and only if
   s starts with its encoding, the list passes the checks and its strings and numbers are fit
   for the wire. Nothing but the encoding is consumed.
   */
  lemma ListBijection(command: int, s: bytes, ps: seq<Property>)
    requires |s| < VARINT_LIMIT
    ensures ParseList(command, s).Got? && ParseList(command, s).value == ps <==>
            AllWireReady(ps) && CheckAll(command, ps) == Success && EncodeList(ps) <= s
    ensures ParseList(command, s).Got? ==>
              AllWireReady(ParseList(command, s).value) &&
              ParseList(command, s).used == |EncodeList(ParseList(command, s).value)|
  {
    hide ParseVarint, EncodeVarint, ParseCounted, EncodeProperties, CheckAll, ReadyValue;
    if ParseList(command, s).Got? {
      var Got(len, n) := ParseVarint(s);
      VarintBijection(s, len);
      CountedIsExact(s[n..], len);
      var m := ParseCounted(s[n..], len).used;
      SplitPrefix(s, n, n + m);
      assert s[n..][..m] == s[n..n + m];
    }
    if AllWireReady(ps) && CheckAll(command, ps) == Success && EncodeList(ps) <= s {
      var body := EncodeProperties(ps);
      var rest := s[|EncodeList(ps)|..];
      assert s == EncodeVarint(|body|) + (body + rest);
      VarintBijection(s, |body|);
      assert s[|EncodeVarint(|body|)|..] == body + rest;
      CountedRoundTrip(ps, rest);
    }
  }

  // ----- Lengths -----

  /** The writer needs less than the wire: the lengths fit, a varint has at most four bytes. */
  predicate Fits(p: Property) {
    Typed(p) && (p.value.Varint? ==> p.value.varint < VARINT_LIMIT)
  }

  predicate AllFit(ps: seq<Property>) {
    forall k :: 0 <= k < |ps| ==> Fits(ps[k])
  }

  /** property__get_length. */
  function PropertyLength(p: Property): uint32
    requires Typed(p)
  {
    match p.value
    case Int8(_) => 2
    case Int16(_) => 3
    case Int32(_) => 5
    case Varint(n) =>
      if n < 128 then 2 else if n < 16384 then 3 else if n < 2097152 then 4 else if n < VARINT_LIMIT then 5 else 0
    case Binary(b) => 3 + |b|
    case Text(s) => 3 + |s|
    case Pair(n, t) => 5 + |t| + |n|
  }

  lemma PropertyLengthIsExact(p: Property)
    requires Fits(p)
    ensures PropertyLength(p) == |EncodeProperty(p)|
  {
    KnownIdIsOneByte(p.identifier);
    if p.value.Varint? { VarintBytesIsLength(p.value.varint); }
  }

  lemma {:induction false} EncodeConcat(ps: seq<Property>, qs: seq<Property>)
    requires AllTyped(ps) && AllTyped(qs)
    ensures EncodeProperties(ps + qs) == EncodeProperties(ps) + EncodeProperties(qs)
  {
    hide EncodeProperty;
    if ps == [] {
      assert ps + qs == qs;
    } else {
      EncodeConcat(ps[1..], qs);
      assert (ps + qs)[1..] == ps[1..] + qs && (ps + qs)[0] == ps[0];
      Regroup(EncodeProperty(ps[0]), EncodeProperties(ps[1..]), EncodeProperties(qs));
    }
  }

  lemma Regroup(a: bytes, b: bytes, c: bytes)
    ensures a + (b + c) == a + b + c
  {
  }

  lemma EncodeNext(ps: seq<Property>, i: nat)
    requires AllTyped(ps) && i < |ps|
    ensures EncodeProperties(ps[..i + 1]) == EncodeProperties(ps[..i]) + EncodeProperty(ps[i])
  {
    hide EncodeProperty;
    assert ps[..i + 1] == ps[..i] + [ps[i]];
    EncodeConcat(ps[..i], [ps[i]]);
    assert [ps[i]][1..] == [];
    assert EncodeProperties([ps[i]]) == EncodeProperty(ps[i]);
  }

  lemma NoProperties()
    ensures EncodeProperties([]) == []
  {
  }

  lemma EncodeRest(ps: seq<Property>, i: nat)
    requires AllTyped(ps) && i < |ps|
    ensures EncodeProperties(ps[i..]) == EncodeProperty(ps[i]) + EncodeProperties(ps[i + 1..])
  {
    hide EncodeProperty;
    assert ps[i..][1..] == ps[i + 1..];
  }

  /** property__get_length_all: a 32-bit sum. */
  method GetLengthAll(ps: seq<Property>) returns (len: uint32)
    requires AllFit(ps)
    ensures len == |EncodeProperties(ps)| % TWO_32
  {
    hide EncodeProperty, EncodeProperties;
    NoProperties();
    len := 0;
    assert ps[..0] == [];
    for i := 0 to |ps|
      invariant len == |EncodeProperties(ps[..i])| % TWO_32
    {
      EncodeNext(ps, i);
      PropertyLengthIsExact(ps[i]);
      len := Add32(len, PropertyLength(ps[i]));
    }
    assert ps[..|ps|] == ps;
  }

  /** property__get_remaining_length. */
  method GetRemainingLength(ps: seq<Property>) returns (len: uint32)
    requires AllFit(ps)
    ensures |EncodeList(ps)| < TWO_32 ==> len == |EncodeList(ps)|
    ensures var sum := |EncodeProperties(ps)| % TWO_32; len == Add32(sum, VarintBytes(sum))
  {
    hide EncodeProperties, EncodeVarint;
    var proplen := GetLengthAll(ps);
    var varbytes := VarintBytes(proplen);
    VarintBytesIsLength(proplen);
    len := Add32(proplen, varbytes);
  }

  // ----- The methods that move a packet cursor -----

  method WriteText(packet: Packet, s: bytes)
    requires |s| <= 0xFFFF && packet.Room(|EncodeBinary(s)|)
    modifies packet`pos, packet.payload
    ensures packet.OutValid() && packet.Written() == old(packet.Written()) + EncodeBinary(s)
  {
    assert s[..|s|] == s;
    packet.WriteString(s, |s|);
  }

  method WriteBinary(packet: Packet, b: bytes)
    requires |b| <= 0xFFFF && packet.Room(|EncodeBinary(b)|)
    modifies packet`pos, packet.payload
    ensures packet.OutValid() && packet.Written() == old(packet.Written()) + EncodeBinary(b)
  {
    assert b[..|b|] == b;
    packet.WriteUint16(|b|);
    packet.WriteBytes(b, |b|);
  }

  method WritePair(packet: Packet, name: bytes, text: bytes)
    requires |name| <= 0xFFFF && |text| <= 0xFFFF && packet.Room(|EncodeBinary(name) + EncodeBinary(text)|)
    modifies packet`pos, packet.payload
    ensures packet.OutValid() && packet.Written() == old(packet.Written()) + (EncodeBinary(name) + EncodeBinary(text))
  {
    hide EncodeBinary;
    WriteText(packet, name);
    WriteText(packet, text);
  }

  method WriteNumber(packet: Packet, n: uint32) returns (rc: Rc)
    requires packet.Room(|EncodeVarint(n)|)
    modifies packet`pos, packet.payload
    ensures rc == if n < VARINT_LIMIT then Success else MalformedPacket
    ensures packet.OutValid() && packet.Written() == old(packet.Written()) + EncodeVarint(n)
  {
    hide EncodeVarint;
    VarintBytesIsLength(n);
    rc := packet.WriteVarint(n);
  }

  /** A number too big for a varint is written all the same, and then reported. */
  method WriteValue(packet: Packet, v: Value) returns (rc: Rc)
    requires Sized(v) && packet.Room(|EncodeValue(v)|)
    modifies packet`pos, packet.payload
    ensures rc == if v.Varint? && v.varint >= VARINT_LIMIT then MalformedPacket else Success
    ensures packet.OutValid() && packet.Written() == old(packet.Written()) + EncodeValue(v)
  {
    hide EncodeVarint, EncodeBinary, EncodeU16, EncodeU32;
    FixedSizes();
    rc := Success;
    match v
    case Int8(b) => packet.WriteByte(b);
    case Int16(w) => packet.WriteUint16(w);
    case Int32(w) => packet.WriteUint32(w);
    case Varint(n) => rc := WriteNumber(packet, n);
    case Text(s) => WriteText(packet, s);
    case Binary(b) => WriteBinary(packet, b);
    case Pair(n, t) => WritePair(packet, n, t);
  }

  lemma FixedSizes()
    ensures forall w: uint16 {:trigger EncodeU16(w)} :: |EncodeU16(w)| == 2
    ensures forall w: uint32 {:trigger EncodeU32(w)} :: |EncodeU32(w)| == 4
  {
  }

  /** property__write. */
  method WriteProperty(packet: Packet, p: Property) returns (rc: Rc)
    requires Typed(p) && packet.Room(|EncodeProperty(p)|)
    modifies packet`pos, packet.payload
    ensures rc == if Fits(p) then Success else MalformedPacket
    ensures packet.OutValid() && packet.Written() == old(packet.Written()) + EncodeProperty(p)
  {
    KnownId(p);
    hide EncodeVarint, EncodeValue, KindOf, packet.Written;
    ghost var before := packet.Written();
    rc := WriteNumber(packet, p.identifier);
    if rc != Success {
      return;
    }
    rc := WriteValue(packet, p.value);
    Regroup(before, EncodeVarint(p.identifier), EncodeValue(p.value));
  }

  lemma KnownId(p: Property)
    requires Typed(p)
    ensures p.identifier < VARINT_LIMIT
  {
  }

  /** The loop of property__write_all. */
  method WriteEach(packet: Packet, ps: seq<Property>) returns (rc: Rc)
    requires AllFit(ps) && packet.Room(|EncodeProperties(ps)|)
    modifies packet`pos, packet.payload
    ensures rc == Success
    ensures packet.OutValid() && packet.Written() == old(packet.Written()) + EncodeProperties(ps)
  {
    hide EncodeProperty, EncodeProperties;
    NoProperties();
    assert ps[..0] == [] && ps[0..] == ps;
    for i := 0 to |ps|
      invariant packet.Room(|EncodeProperties(ps[i..])|)
      invariant packet.Written() == old(packet.Written()) + EncodeProperties(ps[..i])
    {
      EncodeNext(ps, i);
      EncodeRest(ps, i);
      rc := WriteProperty(packet, ps[i]);
      if rc != Success {
        return;
      }
    }
    assert ps[..|ps|] == ps;
    rc := Success;
  }

  /** What property__write_all writes: of a list whose length has no encoding only five bytes for it. */
  function WrittenList(ps: seq<Property>, writeLen: bool): bytes
    requires AllTyped(ps)
  {
    var sum := |EncodeProperties(ps)| % TWO_32;
    if !writeLen then EncodeProperties(ps)
    else if sum < VARINT_LIMIT then EncodeVarint(sum) + EncodeProperties(ps)
    else EncodeVarint(sum)
  }

  /** property__write_all, with or without the length in front. */
  method WriteAll(packet: Packet, ps: seq<Property>, writeLen: bool) returns (rc: Rc)
    requires AllFit(ps) && packet.Room(|WrittenList(ps, writeLen)|)
    modifies packet`pos, packet.payload
    ensures rc == if writeLen && |EncodeProperties(ps)| % TWO_32 >= VARINT_LIMIT then MalformedPacket else Success
    ensures packet.OutValid() && packet.Written() == old(packet.Written()) + WrittenList(ps, writeLen)
  {
    hide EncodeProperties, EncodeVarint;
    ghost var before := packet.Written();
    if writeLen {
      var len := GetLengthAll(ps);
      rc := WriteNumber(packet, len);
      if rc != Success {
        return;
      }
      Regroup(before, EncodeVarint(len), EncodeProperties(ps));
    }
    rc := WriteEach(packet, ps);
  }

  /** property__write_all for a list whose length has an encoding, with that in front. */
  method WriteList(packet: Packet, ps: seq<Property>)
    requires AllFit(ps) && |EncodeProperties(ps)| < VARINT_LIMIT && packet.Room(|EncodeList(ps)|)
    modifies packet`pos, packet.payload
    ensures packet.OutValid() && packet.Written() == old(packet.Written()) + EncodeList(ps)
  {
    hide EncodeProperties, EncodeVarint;
    var rc := WriteAll(packet, ps, true);
  }

  /** property__write_all without a length in front. */
  method WriteMembers(packet: Packet, ps: seq<Property>)
    requires AllFit(ps) && packet.Room(|EncodeProperties(ps)|)
    modifies packet`pos, packet.payload
    ensures packet.OutValid() && packet.Written() == old(packet.Written()) + EncodeProperties(ps)
  {
    hide EncodeProperties, EncodeVarint;
    var rc := WriteAll(packet, ps, false);
  }

  /** mosquitto_property_check_all. */
  method PropertyCheckAll(command: int, ps: seq<Property>) returns (rc: Rc)
    ensures rc == CheckAll(command, ps)
  {
    hide CheckCommand;
    for i := 0 to |ps|
      invariant CheckAll(command, ps) == CheckAll(command, ps[i..])
    {
      var p := ps[i];
      assert ps[i..][0] == p && ps[i..][1..] == ps[i + 1..];
      if !ValueOk(p) {
        return Protocol;
      }
      rc := CheckCommand(command, p.identifier);
      if rc != Success {
        return;
      }
      if p.identifier != USER_PROPERTY {
        for j := i + 1 to |ps|
          invariant forall k :: i < k < j ==> ps[k].identifier != p.identifier
        {
          if p.identifier == ps[j].identifier {
            assert ps[i + 1..][j - i - 1].identifier == p.identifier;
            return DuplicateProperty;
          }
        }
      }
    }
    return Success;
  }

  lemma Sub32Twice(len: uint32, a: nat, b: nat)
    requires a + b < TWO_32
    ensures Sub32(Sub32(len, a), b) == Sub32(len, a + b)
  {
  }

  /** How many bytes each kind of field takes; a parser that fails never reports success. */
  lemma FieldSizes(s: bytes)
    ensures match ParseByte(s) case Got(_, n) => n == 1 <= |s| case Bad(e) => e != Success
    ensures match ParseU16(s) case Got(_, n) => n == 2 <= |s| case Bad(e) => e != Success
    ensures match ParseU32(s) case Got(_, n) => n == 4 <= |s| case Bad(e) => e != Success
    ensures match ParseVarint(s)
            case Got(v, n) => 1 <= n <= 4 && n <= |s| && v < VARINT_LIMIT
            case Bad(e) => e != Success
    ensures match ParseBinary(s)
            case Got(b, n) => n == 2 + |b| <= |s| && |b| <= 0xFFFF
            case Bad(e) => e != Success
    ensures match ParseString(s)
            case Got(b, n) => n == 2 + |b| <= |s| && |b| <= 0xFFFF
            case Bad(e) => e != Success
  {
    if ParseVarint(s).Got? {
      ParsedVarintEncoded(s, 0);
      PowLimit();
    } else {
      BadVarintIsMalformed(s, 0);
    }
  }

  lemma UnreadAfter(packet: Packet, s: bytes, n: nat)
    requires packet.InValid() && n <= |s| && packet.pos >= n
    requires packet.remainingLength - packet.pos == |s| - n
    requires s == packet.payload[packet.pos - n..packet.remainingLength]
    ensures packet.Unread() == s[n..]
  {
  }

  /** One string, charged with its length and the two bytes in front of it. */
  method ReadText(packet: Packet, len: uint32) returns (rc: Rc, text: bytes, left: uint32)
    requires packet.InValid()
    modifies packet`pos
    ensures match ParseString(old(packet.Unread()))
            case Got(v, n) => rc == Success && text == v && packet.Moved(n) && n < TWO_32 && left == Sub32(len, n)
            case Bad(e) => rc == e && packet.InValid()
  {
    hide ParseString;
    FieldSizes(packet.Unread());
    var str, slen;
    rc, str, slen := packet.ReadString();
    if rc != Success { return rc, [], len; }
    Sub32Twice(len, 2, slen);
    left := Sub32(Sub32(len, 2), slen);
    text := str[..slen];
  }

  /** Two strings, one after the other. */
  lemma PairSizes(s: bytes)
    ensures match ParseString(s)
            case Bad(e) => e != Success && ParseValue(KPair, s) == Bad(e)
            case Got(name, n) =>
              && n == 2 + |name| <= |s| && |name| <= 0xFFFF
              && match ParseString(s[n..])
                 case Bad(e) => e != Success && ParseValue(KPair, s) == Bad(e)
                 case Got(text, m) => |text| <= 0xFFFF && m == 2 + |text| && ParseValue(KPair, s) == Got(Pair(name, text), n + m)
  {
    hide ParseString;
    FieldSizes(s);
    if ParseString(s).Got? { FieldSizes(s[ParseString(s).used..]); }
  }

  method ReadPair(packet: Packet, len: uint32) returns (rc: Rc, value: Value, left: uint32)
    requires packet.InValid()
    modifies packet`pos
    ensures match ParseValue(KPair, old(packet.Unread()))
            case Got(v, n) => rc == Success && value == v && packet.Moved(n) && n < TWO_32 && left == Sub32(len, n)
            case Bad(e) => rc == e && packet.InValid()
  {
    hide ParseString, ParseValue;
    ghost var s := packet.Unread();
    PairSizes(s);
    value, left := Int8(0), len;
    var name, text;
    rc, name, left := ReadText(packet, left);
    if rc != Success { return; }
    UnreadAfter(packet, s, |name| + 2);
    rc, text, left := ReadText(packet, left);
    if rc != Success { return; }
    Sub32Twice(len, 2 + |name|, 2 + |text|);
    value := Pair(name, text);
  }

  /** The switch of property__read: the value, with the counter charged as the code charges it. */
  method ReadValue(packet: Packet, id: uint32, len: uint32) returns (rc: Rc, value: Value, left: uint32)
    requires packet.InValid()
    modifies packet`pos
    ensures match ParseValue(KindOf(id), old(packet.Unread()))
            case Got(v, n) => rc == Success && value == v && packet.Moved(n) && n < TWO_32 && left == Sub32(len, n)
            case Bad(e) => rc == e && packet.InValid()
  {
    hide ParseByte, ParseU16, ParseU32, ParseVarint, ParseString, ParseBinary, KindOf;
    ghost var s := packet.Unread();
    FieldSizes(s);
    value, left := Int8(0), len;
    match KindOf(id)
    case KByte =>
      var b;
      rc, b := packet.ReadByte();
      if rc != Success { return; }
      left := Sub32(left, 1);
      value := Int8(b);
    case KInt16 =>
      var w;
      rc, w := packet.ReadUint16();
      if rc != Success { return; }
      left := Sub32(left, 2);
      value := Int16(w);
    case KInt32 =>
      var w;
      rc, w := packet.ReadUint32();
      if rc != Success { return; }
      left := Sub32(left, 4);
      value := Int32(w);
    case KVarint =>
      var n, byteCount;
      rc, n, byteCount := packet.ReadVarint();
      if rc != Success { return; }
      left := Sub32(left, byteCount);
      value := Varint(n);
    case KString =>
      var text;
      rc, text, left := ReadText(packet, left);
      value := Text(text);
    case KBinary =>
      var str, slen;
      rc, str, slen := packet.ReadBinary();
      if rc != Success { return; }
      Sub32Twice(left, 2, slen);
      left := Sub32(Sub32(left, 2), slen);
      value := Binary(str[..slen]);
    case KPair =>
      rc, value, left := ReadPair(packet, left);
    case KUnsupported =>
      rc := MalformedPacket;
  }

  /** property__read: the identifier is charged one byte, whatever it took. */
  method ReadProperty(packet: Packet, len: uint32) returns (rc: Rc, property: Property, left: uint32)
    requires packet.InValid()
    modifies packet`pos
    ensures match ParseProperty(old(packet.Unread()))
            case Got(p, n) => rc == Success && property == p && packet.Moved(n) && n < TWO_32 && left == Sub32(len, n)
            case Bad(e) => rc == e && packet.InValid()
  {
    hide ParseVarint, ParseValue, EncodeVarint, KindOf;
    ghost var s := packet.Unread();
    FieldSizes(s);
    property, left := Property(0, Int8(0)), len;
    var id, byteCount;
    rc, id, byteCount := packet.ReadVarint();
    if rc != Success {
      return;
    }
    left := Sub32(left, 1);
    UnreadAfter(packet, s, byteCount);
    ValueFailure(KindOf(id), s[byteCount..]);
    if KindOf(id) != KUnsupported {
      VarintBijection(s, id);
      KnownIdIsOneByte(id);
    }
    var value;
    rc, value, left := ReadValue(packet, id, left);
    if rc != Success {
      return;
    }
    Sub32Twice(len, 1, ParseValue(KindOf(id), s[byteCount..]).used);
    property := Property(id, value);
  }

  lemma ValueFailure(k: Kind, s: bytes)
    ensures ParseValue(k, s).Bad? ==> ParseValue(k, s).rc != Success
    ensures k == KUnsupported ==> ParseValue(k, s).Bad?
    ensures ParseValue(k, s).Got? ==> ParseValue(k, s).used <= |s|
  {
    hide ParseByte, ParseU16, ParseU32, ParseVarint, ParseString, ParseBinary;
    FieldSizes(s);
    if ParseString(s).Got? { FieldSizes(s[ParseString(s).used..]); }
  }

  lemma PropertyFailure(s: bytes)
    ensures ParseProperty(s).Bad? ==> ParseProperty(s).rc != Success
  {
    hide ParseVarint, ParseValue, KindOf;
    FieldSizes(s);
    if ParseVarint(s).Got? {
      var Got(id, n) := ParseVarint(s);
      ValueFailure(KindOf(id), s[n..]);
    }
  }

  /** The parse of the whole list, given what is in hand and the parse of the rest. */
  function Prepend(ps: seq<Property>, n: nat, p: Parse<seq<Property>>): Parse<seq<Property>> {
    match p
    case Bad(e) => Bad(e)
    case Got(qs, m) => Got(ps + qs, n + m)
  }

  lemma PrependOne(ps: seq<Property>, n: nat, p: Property, m: nat, x: Parse<seq<Property>>)
    ensures Prepend(ps, n, Prepend([p], m, x)) == Prepend(ps + [p], n + m, x)
    ensures Prepend([], 0, x) == x
  {
    if x.Got? {
      assert ps + ([p] + x.value) == ps + [p] + x.value;
      assert [] + x.value == x.value;
    }
  }

  lemma CountedStep(s: bytes, len: uint32)
    requires |s| < VARINT_LIMIT && len > 0 && ParseProperty(s).Got?
    ensures var Got(p, n) := ParseProperty(s);
            1 <= n <= |s| && ParseCounted(s, len) == Prepend([p], n, ParseCounted(s[n..], Sub32(len, n)))
  {
    ParsedPropertyEncoded(s);
  }

  /** The loop of property__read_all. Every turn shrinks the unread input. */
  method ReadCounted(packet: Packet, len: uint32) returns (rc: Rc, properties: seq<Property>)
    requires packet.InValid()
    modifies packet`pos
    ensures match ParseCounted(old(packet.Unread()), len)
            case Got(ps, n) => rc == Success && properties == ps && packet.Moved(n)
            case Bad(e) => rc == e && packet.InValid()
  {
    hide ParseProperty, EncodeProperty;
    ghost var s := packet.Unread();
    var proplen := len;
    properties := [];
    ghost var n := 0;
    assert s[0..] == s;
    PrependOne([], 0, Property(0, Int8(0)), 0, ParseCounted(s, len));
    while proplen > 0
      invariant packet.Moved(n) && n <= |s|
      invariant ParseCounted(s, len) == Prepend(properties, n, ParseCounted(s[n..], proplen))
      decreases |s| - n
    {
      UnreadAfter(packet, s, n);
      PropertyFailure(s[n..]);
      if ParseProperty(s[n..]).Got? { CountedStep(s[n..], proplen); }
      var p;
      rc, p, proplen := ReadProperty(packet, proplen);
      if rc != Success {
        return rc, [];
      }
      ghost var m := ParseProperty(s[n..]).used;
      assert s[n..][m..] == s[n + m..];
      PrependOne(properties, n, p, m, ParseCounted(s[n + m..], proplen));
      properties := properties + [p];
      n := n + m;
    }
    rc := Success;
  }

  lemma CountedFailure(s: bytes, len: uint32)
    requires |s| < VARINT_LIMIT
    ensures ParseCounted(s, len).Bad? ==> ParseCounted(s, len).rc != Success
    ensures ParseCounted(s, len).Got? ==> ParseCounted(s, len).used <= |s|
    decreases |s|
  {
    hide ParseProperty;
    PropertyFailure(s);
  }

  /** property__read_all. */
  method ReadAll(command: int, packet: Packet) returns (rc: Rc, properties: seq<Property>)
    requires packet.InValid()
    modifies packet`pos
    ensures match ParseList(command, old(packet.Unread()))
            case Got(ps, n) => rc == Success && properties == ps && packet.Moved(n)
            case Bad(e) => rc == e && packet.InValid()
  {
    hide ParseVarint, ParseCounted, CheckAll;
    ghost var s := packet.Unread();
    FieldSizes(s);
    properties := [];
    var proplen, byteCount;
    rc, proplen, byteCount := packet.ReadVarint();
    if rc != Success {
      return;
    }
    UnreadAfter(packet, s, byteCount);
    CountedFailure(s[byteCount..], proplen);
    rc, properties := ReadCounted(packet, proplen);
    if rc != Success {
      return rc, [];
    }
    rc := PropertyCheckAll(command, properties);
    if rc != Success {
      properties := [];
    }
  }
}
