/**
 The other encoders: CONNECT, SUBSCRIBE, UNSUBSCRIBE and the acknowledgements (sections 3.1,
 3.4 to 3.8 and 3.10 of MQTT Version 5.0). Each computes a length first and then writes; the
 proofs show that the two agree, so the cursor assertions hold and the buffer ends full, in
 CONNECT exactly when every string has a 16-bit length.
 */
module Encoders {
  import opened Bytes
  import opened Wire
  import opened PacketData
  import opened Properties
  import opened Publish

  datatype Protocol = Mqtt31 | Mqtt311 | Mqtt5 | OtherProtocol

  // ----- PUBACK, PUBREC, PUBREL, PUBCOMP -----

  /** A null property list is the empty one; a list that is not null has a member. */
  function AckBody(v5: bool, mid: uint16, reasonCode: byte, ps: seq<Property>): bytes
    requires AllTyped(ps)
  {
    EncodeU16(mid)
    + (if v5 && (reasonCode != 0 || ps != []) then [reasonCode] else [])
    + (if v5 && ps != [] then EncodeList(ps) else [])
  }

  /** The command byte with its duplicate bit set. */
  function WithDup(command: byte, dup: bool): (c: byte)
    ensures c / 8 % 2 == (if dup then 1 else command / 8 % 2) && c / 16 == command / 16 && c % 8 == command % 8
  {
    if dup && command / 8 % 2 == 0 then command + 8 else command
  }

  /** send__command_with_mid. */
  method SendCommandWithMid(v5: bool, command: byte, mid: uint16, dup: bool, reasonCode: byte, ps: seq<Property>)
    returns (rc: Rc, packet: Packet?)
    requires AllFit(ps) && |EncodeProperties(ps)| < TWO_32 - 8
    ensures rc == if |AckBody(v5, mid, reasonCode, ps)| < VARINT_LIMIT then Success else PayloadSize
    ensures rc == Success ==>
              packet != null && fresh(packet) && fresh(packet.payload)
              && Holds(packet, WithDup(command, dup), AckBody(v5, mid, reasonCode, ps))
  {
    hide EncodeProperties, EncodeVarint;
    var remaining: uint32 := 2;
    if v5 {
      if reasonCode != 0 || ps != [] {
        remaining := remaining + 1;
      }
      if ps != [] {
        VarintBytesIsLength(|EncodeProperties(ps)|);
        var proplen := GetRemainingLength(ps);
        remaining := Add32(remaining, proplen);
      }
    }
    assert remaining == |AckBody(v5, mid, reasonCode, ps)|;
    packet := new Packet(WithDup(command, dup), remaining);
    rc := packet.Alloc();
    if rc != Success {
      return rc, null;
    }
    assert v5 && ps != [] ==> |EncodeProperties(ps)| < VARINT_LIMIT;
    hide EncodeList, AckBody;
    WriteAck(packet, v5, mid, reasonCode, ps);
  }

  method WriteAck(packet: Packet, v5: bool, mid: uint16, reasonCode: byte, ps: seq<Property>)
    requires AllFit(ps) && (v5 && ps != [] ==> |EncodeProperties(ps)| < VARINT_LIMIT)
    requires packet.Room(|AckBody(v5, mid, reasonCode, ps)|)
    modifies packet`pos, packet.payload
    ensures packet.OutValid() && packet.Written() == old(packet.Written()) + AckBody(v5, mid, reasonCode, ps)
  {
    hide EncodeProperties, EncodeList, Fits;
    packet.WriteUint16(mid);
    if v5 {
      if reasonCode != 0 || ps != [] {
        packet.WriteByte(reasonCode);
      }
      if ps != [] {
        WriteList(packet, ps);
      }
    }
  }

  // ----- SUBSCRIBE and UNSUBSCRIBE -----

  predicate TopicsFit(topics: seq<bytes>) {
    forall k :: 0 <= k < |topics| ==> |topics[k]| <= 0xFFFF
  }

  /** The payload: each topic filter with what follows it, the options byte or nothing. */
  function TopicList(topics: seq<bytes>, suffix: bytes): bytes
    requires TopicsFit(topics)
  {
    if topics == [] then [] else EncodeBinary(topics[0]) + suffix + TopicList(topics[1..], suffix)
  }

  lemma {:induction false} TopicListConcat(a: seq<bytes>, b: seq<bytes>, suffix: bytes)
    requires TopicsFit(a) && TopicsFit(b)
    ensures TopicList(a + b, suffix) == TopicList(a, suffix) + TopicList(b, suffix)
  {
    hide EncodeBinary;
    if a == [] {
      assert a + b == b;
    } else {
      TopicListConcat(a[1..], b, suffix);
      assert (a + b)[1..] == a[1..] + b;
    }
  }

  lemma TopicListNext(topics: seq<bytes>, i: nat, suffix: bytes)
    requires TopicsFit(topics) && i < |topics|
    ensures TopicList(topics[..i + 1], suffix) == TopicList(topics[..i], suffix) + (EncodeBinary(topics[i]) + suffix)
    ensures TopicList(topics[i..], suffix) == EncodeBinary(topics[i]) + suffix + TopicList(topics[i + 1..], suffix)
  {
    hide EncodeBinary;
    assert topics[..i + 1] == topics[..i] + [topics[i]];
    assert topics[i..][1..] == topics[i + 1..];
    TopicListConcat(topics[..i], [topics[i]], suffix);
    var none: seq<bytes> := [topics[i]][1..];
    assert none == [];
  }

  function SubscribeBody(v5: bool, mid: uint16, ps: seq<Property>, topics: seq<bytes>, suffix: bytes): bytes
    requires AllTyped(ps) && TopicsFit(topics)
  {
    EncodeU16(mid) + (if v5 then EncodeList(ps) else []) + TopicList(topics, suffix)
  }

  /** The loop that adds up the topics, and refuses one whose length does not fit in 16 bits. */
  method TopicListLength(topics: seq<bytes>, suffix: bytes, start: uint32) returns (rc: Rc, len: uint32)
    requires TopicsFit(topics) ==> start + |TopicList(topics, suffix)| < TWO_32
    requires |suffix| <= 1
    ensures rc == if TopicsFit(topics) then Success else Inval
    ensures TopicsFit(topics) ==> len == start + |TopicList(topics, suffix)|
  {
    hide TopicList;
    len := start;
    EmptyTopicList(suffix);
    assert topics[..0] == [];
    for i := 0 to |topics|
      invariant TopicsFit(topics[..i])
      invariant TopicsFit(topics) ==> len == start + |TopicList(topics[..i], suffix)|
    {
      if |topics[i]| > 0xFFFF {
        return Inval, len;
      }
      assert topics[..i + 1] == topics[..i] + [topics[i]];
      if TopicsFit(topics) {
        TopicListGrows(topics, i, suffix);
      }
      len := Add32(Add32(len, 2 + |topics[i]|), |suffix|);
    }
    assert topics[..|topics|] == topics;
    rc := Success;
  }

  lemma TopicListGrows(topics: seq<bytes>, i: nat, suffix: bytes)
    requires TopicsFit(topics) && i < |topics|
    ensures |TopicList(topics[..i + 1], suffix)| == |TopicList(topics[..i], suffix)| + 2 + |topics[i]| + |suffix|
    ensures |TopicList(topics[..i + 1], suffix)| <= |TopicList(topics, suffix)|
  {
    hide TopicList;
    TopicListNext(topics, i, suffix);
    TopicListConcat(topics[..i + 1], topics[i + 1..], suffix);
    assert topics[..i + 1] + topics[i + 1..] == topics;
  }

  lemma EmptyTopicList(suffix: bytes)
    ensures TopicList([], suffix) == []
  {
  }

  /** The loop that writes the topics. */
  method WriteTopicList(packet: Packet, topics: seq<bytes>, suffix: bytes)
    requires TopicsFit(topics) && |suffix| <= 1 && packet.Room(|TopicList(topics, suffix)|)
    modifies packet`pos, packet.payload
    ensures packet.OutValid() && packet.Written() == old(packet.Written()) + TopicList(topics, suffix)
  {
    hide TopicList;
    EmptyTopicList(suffix);
    assert topics[..0] == [] && topics[0..] == topics;
    for i := 0 to |topics|
      invariant packet.Room(|TopicList(topics[i..], suffix)|)
      invariant packet.Written() == old(packet.Written()) + TopicList(topics[..i], suffix)
    {
      TopicListNext(topics, i, suffix);
      assert topics[i][..|topics[i]|] == topics[i];
      packet.WriteString(topics[i], |topics[i]|);
      if |suffix| == 1 {
        packet.WriteByte(suffix[0]);
        assert suffix == [suffix[0]];
      }
    }
    assert topics[..|topics|] == topics;
  }

  /** send__subscribe with the options byte as suffix, send__unsubscribe without one. */
  method SendSubscribe(v5: bool, command: byte, mid: uint16, ps: seq<Property>, topics: seq<bytes>, suffix: bytes)
    returns (rc: Rc, packet: Packet?)
    requires AllFit(ps) && |suffix| <= 1
    requires TopicsFit(topics) ==> |SubscribeBody(v5, mid, ps, topics, suffix)| < TWO_32
    ensures rc == if !TopicsFit(topics) then Inval
                  else if |SubscribeBody(v5, mid, ps, topics, suffix)| < VARINT_LIMIT then Success else PayloadSize
    ensures rc == Success ==>
              packet != null && fresh(packet) && fresh(packet.payload)
              && Holds(packet, command, SubscribeBody(v5, mid, ps, topics, suffix))
  {
    hide EncodeProperties, EncodeVarint, TopicList;
    packet := null;
    var packetlen: uint32 := 2;
    if v5 {
      var proplen := GetRemainingLength(ps);
      packetlen := Add32(packetlen, proplen);
    }
    rc, packetlen := TopicListLength(topics, suffix, packetlen);
    if rc != Success {
      return;
    }
    assert packetlen == |SubscribeBody(v5, mid, ps, topics, suffix)|;
    assert packetlen < VARINT_LIMIT && v5 ==> |EncodeProperties(ps)| < VARINT_LIMIT;
    hide SubscribeBody, EncodeList;
    packet := new Packet(command, packetlen);
    rc := packet.Alloc();
    if rc != Success {
      return rc, null;
    }
    WriteSubscribe(packet, v5, mid, ps, topics, suffix);
  }

  method WriteSubscribe(packet: Packet, v5: bool, mid: uint16, ps: seq<Property>, topics: seq<bytes>, suffix: bytes)
    requires AllFit(ps) && (v5 ==> |EncodeProperties(ps)| < VARINT_LIMIT) && |suffix| <= 1 && TopicsFit(topics)
    requires packet.Room(|SubscribeBody(v5, mid, ps, topics, suffix)|)
    modifies packet`pos, packet.payload
    ensures packet.OutValid()
    ensures packet.Written() == old(packet.Written()) + SubscribeBody(v5, mid, ps, topics, suffix)
  {
    hide EncodeProperties, EncodeList, Fits, TopicList, TopicsFit;
    packet.WriteUint16(mid);
    if v5 {
      WriteList(packet, ps);
    }
    WriteTopicList(packet, topics, suffix);
  }

  // ----- CONNECT -----

  datatype Will = Will(topic: bytes, payload: bytes, qos: nat, retain: bool, properties: seq<Property>)

  /**
   Who connects: a client, or the broker as a bridge with what its configuration says. A bridge
   sends its remote identifier, user name and password; whether it has an identifier and a
   password of its own is kept apart.
   */
  datatype Peer =
    | Client
    | Bridge(mqtt5: bool, tryPrivate: bool, privateAccepted: bool, localOnly: bool, ownId: bool, ownPassword: bool)

  datatype Connect = Connect(
    peer: Peer, protocol: Protocol, cleanSession: bool, keepalive: uint16, properties: seq<Property>,
    clientId: Option<bytes>, will: Option<Will>, retainAvailable: bool,
    username: Option<bytes>, password: Option<bytes>)

  predicate ShortOption(o: Option<bytes>) { o.Some? ==> |o.value| <= 0xFFFF }

  /** Every string and the will payload fit their 16-bit length. */
  predicate AllShort(c: Connect) {
    && ShortOption(c.clientId) && ShortOption(c.username) && ShortOption(c.password)
    && (c.will.Some? ==> |c.will.value.topic| <= 0xFFFF && |c.will.value.payload| <= 0xFFFF)
  }

  predicate ConnectTyped(c: Connect) {
    AllFit(c.properties) && (c.will.Some? ==> c.will.value.qos <= 3 && AllFit(c.will.value.properties))
  }

  predicate ConnectFits(c: Connect) { ConnectTyped(c) && AllShort(c) }

  function CutOption(o: Option<bytes>): Option<bytes> { if o.Some? then Some(Cut16(o.value)) else None }

  /** The CONNECT as it is written: of every string that is too long only a beginning. */
  function Shortened(c: Connect): (s: Connect)
    ensures AllShort(s)
  {
    c.(clientId := CutOption(c.clientId), username := CutOption(c.username), password := CutOption(c.password),
       will := if c.will.None? then None
               else Some(c.will.value.(topic := Cut16(c.will.value.topic), payload := Cut16(c.will.value.payload))))
  }

  function LostOption(o: Option<bytes>): nat { if o.Some? then Lost(o.value) else 0 }

  function LostWill(c: Connect): nat {
    if c.will.None? then 0 else Lost(c.will.value.topic) + Lost(c.will.value.payload)
  }

  /** The bytes that are counted but not written. */
  function LostBytes(c: Connect): nat {
    LostOption(c.clientId) + LostWill(c) + LostOption(c.username) + LostOption(c.password)
  }

  /** Nothing is lost if and only if every string is short enough. */
  lemma LostBytesExactly(c: Connect)
    ensures LostBytes(c) == 0 <==> AllShort(c)
    ensures AllShort(c) ==> Shortened(c) == c
  {
    hide Cut16, Lost;
    if c.clientId.Some? { LostExactly(c.clientId.value); }
    if c.username.Some? { LostExactly(c.username.value); }
    if c.password.Some? { LostExactly(c.password.value); }
    if c.will.Some? {
      LostExactly(c.will.value.topic);
      LostExactly(c.will.value.payload);
    }
  }

  /** "MQIsdp" with level 3 in MQTT 3.1, "MQTT" with 4 or 5 after it. */
  function ProtocolName(p: Protocol): bytes {
    if p == Mqtt31 then [0x4D, 0x51, 0x49, 0x73, 0x64, 0x70] else [0x4D, 0x51, 0x54, 0x54]
  }

  function ProtocolVersion(p: Protocol): byte {
    if p == Mqtt31 then 3 else if p == Mqtt311 then 4 else 5
  }

  /** A bridge that announces itself sets the top bit of the version. */
  function VersionByte(c: Connect): byte {
    if c.peer.Bridge? && !c.peer.mqtt5 && c.peer.tryPrivate && c.peer.privateAccepted then ProtocolVersion(c.protocol) + 0x80
    else ProtocolVersion(c.protocol)
  }

  function WillBits(c: Connect): nat
    requires c.will.Some? ==> c.will.value.qos <= 3
  {
    if c.will.None? then 0
    else 4 + 8 * c.will.value.qos + 32 * Bit(c.retainAvailable && c.will.value.retain)
  }

  predicate HasId(c: Connect) { if c.peer.Bridge? then c.peer.ownId else c.clientId.Some? }

  predicate HasPassword(c: Connect) { if c.peer.Bridge? then c.peer.ownPassword else c.password.Some? }

  function ConnectFlags(c: Connect): byte
    requires c.will.Some? ==> c.will.value.qos <= 3
  {
    2 * Bit(c.cleanSession) + WillBits(c) + 128 * Bit(c.username.Some?) + 64 * Bit(HasPassword(c))
  }

  /**
   The bits of user name and will announce exactly what follows; the bit of the password does so
   if and only if, for a bridge, it has a password of its own just when it sends one.
   */
  lemma FlagsTellExactly(c: Connect)
    requires c.will.Some? ==> c.will.value.qos <= 3
    ensures var f := ConnectFlags(c);
            && (f / 128 == 1 <==> c.username.Some?) && (f / 4 % 2 == 1 <==> c.will.Some?)
            && ((f / 64 % 2 == 1 <==> c.password.Some?) <==> (c.peer.Bridge? ==> c.peer.ownPassword == c.password.Some?))
  {
  }

  /** Protocol name and level, flags and keep alive. */
  function ConnectIntro(c: Connect): bytes
    requires ConnectFits(c)
  {
    EncodeBinary(ProtocolName(c.protocol)) + [VersionByte(c), ConnectFlags(c)] + EncodeU16(c.keepalive)
  }

  function ConnectHeader(c: Connect): bytes
    requires ConnectFits(c)
  {
    ConnectIntro(c) + (if c.protocol == Mqtt5 then EncodeList(c.properties) else [])
  }

  function OptionalString(o: Option<bytes>): bytes
    requires ShortOption(o)
  {
    if o.Some? then EncodeBinary(o.value) else []
  }

  function WillPart(c: Connect): bytes
    requires ConnectFits(c)
  {
    if c.will.None? then []
    else (if c.protocol == Mqtt5 then EncodeList(c.will.value.properties) else [])
         + (EncodeBinary(c.will.value.topic) + EncodeBinary(c.will.value.payload))
  }

  /** A missing client identifier is sent as an empty one. */
  function ClientIdPart(c: Connect): bytes
    requires ConnectFits(c)
  {
    if c.clientId.Some? then EncodeBinary(c.clientId.value) else EncodeU16(0)
  }

  predicate HasReceiveMaximum(ps: seq<Property>) {
    exists k :: 0 <= k < |ps| && ps[k].identifier == RECEIVE_MAXIMUM
  }

  /** The properties that go out: a receive maximum is added when the caller gave none. */
  function ConnectProperties(ps: seq<Property>, inflightMaximum: uint16): seq<Property> {
    if HasReceiveMaximum(ps) then ps else ps + [Property(RECEIVE_MAXIMUM, Int16(inflightMaximum))]
  }

  /** The CONNECT with the will and the properties that really go out. */
  function SentConnect(c: Connect, inflightMaximum: uint16): Connect {
    c.(will := if c.peer.Bridge? && c.peer.localOnly then None else c.will,
       properties := if c.protocol == Mqtt5 then ConnectProperties(c.properties, inflightMaximum) else c.properties)
  }

  lemma ReceiveMaximumFits(inflightMaximum: uint16)
    ensures AllFit([Property(RECEIVE_MAXIMUM, Int16(inflightMaximum))])
    ensures |EncodeProperties([Property(RECEIVE_MAXIMUM, Int16(inflightMaximum))])| == 3
    ensures EncodeProperties([]) == []
  {
    var p := Property(RECEIVE_MAXIMUM, Int16(inflightMaximum));
    PropertyLengthIsExact(p);
    var none: seq<Property> := [p][1..];
    assert none == [];
  }

  lemma TwoLists(a: seq<Property>, b: seq<Property>)
    requires AllFit(a) && AllFit(b)
    ensures AllFit(a + b) && AllTyped(a) && AllTyped(b) && AllTyped(a + b)
    ensures EncodeProperties(a + b) == EncodeProperties(a) + EncodeProperties(b)
  {
    hide EncodeProperties;
    EncodeConcat(a, b);
  }

  /** mosquitto_property_read_int16 for the receive maximum: the first one in the list. */
  method ReadReceiveMaximum(ps: seq<Property>) returns (found: bool, value: uint16)
    requires AllTyped(ps)
    ensures found <==> HasReceiveMaximum(ps)
    ensures found ==> exists k :: 0 <= k < |ps| && ps[k] == Property(RECEIVE_MAXIMUM, Int16(value))
  {
    for i := 0 to |ps|
      invariant forall k :: 0 <= k < i ==> ps[k].identifier != RECEIVE_MAXIMUM
    {
      if ps[i].identifier == RECEIVE_MAXIMUM {
        return true, ps[i].value.i16;
      }
    }
    return false, 0;
  }

  lemma ConnectSizes(c: Connect)
    requires ConnectFits(c)
    ensures |ConnectHeader(c)| == (if c.protocol == Mqtt31 then 12 else 10)
                                  + if c.protocol == Mqtt5 then |EncodeList(c.properties)| else 0
    ensures |ClientIdPart(c)| == 2 + if c.clientId.Some? then |c.clientId.value| else 0
    ensures |WillPart(c)| ==
            if c.will.None? then 0
            else 2 + |c.will.value.topic| + 2 + |c.will.value.payload|
                 + if c.protocol == Mqtt5 then |EncodeList(c.will.value.properties)| else 0
    ensures |OptionalString(c.username)| == if c.username.Some? then 2 + |c.username.value| else 0
    ensures |OptionalString(c.password)| == if c.password.Some? then 2 + |c.password.value| else 0
  {
    hide EncodeList;
  }

  /** The remaining length as computed: all strings are counted in full. */
  function CountedConnect(c: Connect): nat
    requires ConnectTyped(c)
  {
    |ConnectBody(Shortened(c))| + LostBytes(c)
  }

  /** The property lists can be written. */
  predicate ShortLists(c: Connect)
    requires ConnectFits(c)
  {
    c.protocol == Mqtt5 ==>
      && |EncodeProperties(c.properties)| < VARINT_LIMIT
      && (c.will.Some? ==> |EncodeProperties(c.will.value.properties)| < VARINT_LIMIT)
  }

  lemma BodyBoundsLists(c: Connect)
    requires ConnectFits(c)
    ensures |ConnectBody(c)| == |ConnectHeader(c)| + |ConnectPayload(c)|
    ensures |ConnectBody(c)| < VARINT_LIMIT ==> ShortLists(c)
    ensures c.protocol == Mqtt5 ==> |EncodeProperties(c.properties)| + 11 <= |ConnectHeader(c)|
  {
    hide EncodeProperties, EncodeVarint;
    ConnectSizes(c);
    VarintBytesIsLength(0);
  }

  /** The payload of a CONNECT packet. */
  function ConnectPayload(c: Connect): bytes
    requires ConnectFits(c)
  {
    ClientIdPart(c) + WillPart(c) + OptionalString(c.username) + OptionalString(c.password)
  }

  function ConnectBody(c: Connect): bytes
    requires ConnectFits(c)
  {
    ConnectHeader(c) + ConnectPayload(c)
  }

  lemma FullSizes(c: Connect)
    requires ConnectTyped(c)
    ensures var s := Shortened(c);
            |ConnectPayload(s)| + LostBytes(c) ==
            2 + (if c.clientId.Some? then |c.clientId.value| else 0)
            + (if c.will.None? then 0
               else 2 + |c.will.value.topic| + 2 + |c.will.value.payload|
                    + if c.protocol == Mqtt5 then |EncodeList(c.will.value.properties)| else 0)
            + (if c.username.Some? then 2 + |c.username.value| else 0)
            + (if c.password.Some? then 2 + |c.password.value| else 0)
  {
    hide EncodeList, ClientIdPart, WillPart, OptionalString, Lost, Cut16;
    ConnectSizes(Shortened(c));
    if c.clientId.Some? { LostExactly(c.clientId.value); }
    if c.username.Some? { LostExactly(c.username.value); }
    if c.password.Some? { LostExactly(c.password.value); }
    if c.will.Some? {
      LostExactly(c.will.value.topic);
      LostExactly(c.will.value.payload);
    }
  }

  /** The sum of payloadlen in send__connect. */
  method ConnectPayloadLength(c: Connect) returns (payloadlen: uint32)
    requires ConnectTyped(c) && |ConnectPayload(Shortened(c))| + LostBytes(c) < TWO_32
    ensures payloadlen == |ConnectPayload(Shortened(c))| + LostBytes(c)
  {
    FullSizes(c);
    hide EncodeProperties, EncodeList, Fits, ConnectPayload, LostBytes;
    payloadlen := if c.clientId.Some? then 2 + |c.clientId.value| else 2;
    if c.will.Some? {
      payloadlen := payloadlen + 2 + |c.will.value.topic| + 2 + |c.will.value.payload|;
      if c.protocol == Mqtt5 {
        var proplen := GetRemainingLength(c.will.value.properties);
        payloadlen := payloadlen + proplen;
      }
    }
    if c.username.Some? {
      payloadlen := payloadlen + 2 + |c.username.value|;
    }
    if c.password.Some? {
      payloadlen := payloadlen + 2 + |c.password.value|;
    }
  }

  /** A string with its length cut to 16 bits. */
  method WriteCut(packet: Packet, s: bytes)
    requires packet.Room(|EncodeBinary(Cut16(s))|)
    modifies packet`pos, packet.payload
    ensures packet.OutValid() && packet.Written() == old(packet.Written()) + EncodeBinary(Cut16(s))
  {
    packet.WriteString(s, |s| % 0x1_0000);
  }

  method WriteOptional(packet: Packet, o: Option<bytes>)
    requires packet.Room(|OptionalString(CutOption(o))|)
    modifies packet`pos, packet.payload
    ensures packet.OutValid() && packet.Written() == old(packet.Written()) + OptionalString(CutOption(o))
  {
    if o.Some? {
      WriteCut(packet, o.value);
    }
  }

  lemma WillIs(c: Connect)
    requires ConnectFits(c) && c.will.Some?
    ensures var strings := EncodeBinary(c.will.value.topic) + EncodeBinary(c.will.value.payload);
            WillPart(c) == if c.protocol == Mqtt5 then EncodeList(c.will.value.properties) + strings else strings
  {
    hide EncodeList, EncodeBinary;
  }

  method WriteWill(packet: Packet, c: Connect)
    requires ConnectTyped(c) && ShortLists(Shortened(c)) && packet.Room(|WillPart(Shortened(c))|)
    modifies packet`pos, packet.payload
    ensures packet.OutValid() && packet.Written() == old(packet.Written()) + WillPart(Shortened(c))
  {
    hide EncodeProperties, EncodeList, EncodeBinary, Cut16;
    if c.will.Some? {
      var will := c.will.value;
      ghost var before, strings := packet.Written(), EncodeBinary(Cut16(will.topic)) + EncodeBinary(Cut16(will.payload));
      WillIs(Shortened(c));
      hide WillPart;
      if c.protocol == Mqtt5 {
        WriteList(packet, will.properties);
        Regroup(before, EncodeList(will.properties), strings);
      }
      WriteWillStrings(packet, will);
    } else {
      assert WillPart(Shortened(c)) == [] && packet.Written() + [] == packet.Written();
    }
  }

  method WriteWillStrings(packet: Packet, will: Will)
    requires packet.Room(|EncodeBinary(Cut16(will.topic)) + EncodeBinary(Cut16(will.payload))|)
    modifies packet`pos, packet.payload
    ensures packet.OutValid()
    ensures packet.Written() == old(packet.Written()) + (EncodeBinary(Cut16(will.topic)) + EncodeBinary(Cut16(will.payload)))
  {
    hide EncodeBinary, Cut16;
    ghost var before := packet.Written();
    WriteCut(packet, will.topic);
    WriteCut(packet, will.payload);
    Regroup(before, EncodeBinary(Cut16(will.topic)), EncodeBinary(Cut16(will.payload)));
  }

  method WriteClientId(packet: Packet, c: Connect)
    requires ConnectTyped(c) && packet.Room(|ClientIdPart(Shortened(c))|)
    modifies packet`pos, packet.payload
    ensures packet.OutValid() && packet.Written() == old(packet.Written()) + ClientIdPart(Shortened(c))
  {
    hide EncodeBinary, Cut16;
    if c.clientId.Some? {
      WriteCut(packet, c.clientId.value);
    } else {
      packet.WriteUint16(0);
    }
  }

  method WriteConnectPayload(packet: Packet, c: Connect)
    requires ConnectTyped(c) && ShortLists(Shortened(c)) && packet.Room(|ConnectPayload(Shortened(c))|)
    modifies packet`pos, packet.payload
    ensures packet.OutValid()
    ensures packet.Written() == old(packet.Written()) + ConnectPayload(Shortened(c))
  {
    hide ClientIdPart, WillPart, OptionalString, ShortLists, CutOption;
    WriteClientId(packet, c);
    WriteWill(packet, c);
    WriteOptional(packet, c.username);
    WriteOptional(packet, c.password);
  }

  method WriteConnectIntro(packet: Packet, c: Connect)
    requires ConnectFits(c) && packet.Room(|ConnectIntro(c)|)
    modifies packet`pos, packet.payload
    ensures packet.OutValid() && packet.Written() == old(packet.Written()) + ConnectIntro(c)
  {
    hide ConnectFlags;
    var name := ProtocolName(c.protocol);
    assert name[..|name|] == name;
    packet.WriteString(name, |name|);
    packet.WriteByte(VersionByte(c));
    packet.WriteByte(ConnectFlags(c));
    packet.WriteUint16(c.keepalive);
  }

  /** The variable header: c carries all properties, given first and local after them. */
  method WriteConnectHeader(packet: Packet, c: Connect, given: seq<Property>, local: seq<Property>)
    requires ConnectFits(c) && ShortLists(c) && AllFit(given) && AllFit(local)
    requires c.protocol == Mqtt5 ==> c.properties == given + local
    requires packet.Room(|ConnectHeader(c)|)
    modifies packet`pos, packet.payload
    ensures packet.OutValid() && packet.Written() == old(packet.Written()) + ConnectHeader(c)
  {
    hide EncodeProperties, EncodeList, Fits, ConnectIntro;
    WriteConnectIntro(packet, c);
    if c.protocol == Mqtt5 {
      WriteTwo(packet, c.properties, given, local);
    }
  }

  method WriteTwo(packet: Packet, ghost all: seq<Property>, given: seq<Property>, local: seq<Property>)
    requires AllFit(given) && AllFit(local) && AllFit(all) && all == given + local
    requires |EncodeProperties(all)| < VARINT_LIMIT && packet.Room(|EncodeList(all)|)
    modifies packet`pos, packet.payload
    ensures packet.OutValid() && packet.Written() == old(packet.Written()) + EncodeList(all)
  {
    hide EncodeProperties, EncodeVarint, Fits;
    ghost var before := packet.Written();
    TwoLists(given, local);
    var givenLen := GetLengthAll(given);
    var localLen := GetLengthAll(local);
    var proplen := Add32(givenLen, localLen);
    VarintBytesIsLength(proplen);
    var rc := packet.WriteVarint(proplen);
    WriteBoth(packet, given, local);
    Regroup(before, EncodeVarint(proplen), EncodeProperties(all));
  }

  method WriteBoth(packet: Packet, given: seq<Property>, local: seq<Property>)
    requires AllFit(given) && AllFit(local) && packet.Room(|EncodeProperties(given) + EncodeProperties(local)|)
    modifies packet`pos, packet.payload
    ensures packet.OutValid()
    ensures packet.Written() == old(packet.Written()) + (EncodeProperties(given) + EncodeProperties(local))
  {
    hide EncodeProperties;
    ghost var before := packet.Written();
    WriteMembers(packet, given);
    WriteMembers(packet, local);
    Regroup(before, EncodeProperties(given), EncodeProperties(local));
  }

  /**
   send__connect. In MQTT 5 a receive maximum among the caller's properties becomes the client's
   own limit and refills its quota; otherwise the client's limit is added to the packet. No
   assertion on the cursor fails; the packet is full if and only if every string is short
   enough, and otherwise what was cut off is missing at its end.
   */
  method SendConnect(c: Connect, inflightMaximum: uint16, inflightQuota: int)
    returns (rc: Rc, packet: Packet?, maximum: uint16, quota: int)
    requires ConnectTyped(c) && ConnectTyped(SentConnect(c, inflightMaximum))
    requires CountedConnect(SentConnect(c, inflightMaximum)) < TWO_32
    ensures rc == if c.protocol == Mqtt31 && !HasId(c) then Rc.Protocol
                  else if c.protocol == OtherProtocol then Inval
                  else if c.protocol != Mqtt5 && c.password.Some? && c.username.None? then Inval
                  else if CountedConnect(SentConnect(c, inflightMaximum)) < VARINT_LIMIT then Success else PayloadSize
    ensures rc == Success ==>
              packet != null && fresh(packet) && fresh(packet.payload) && ConnectWritten(packet, SentConnect(c, inflightMaximum))
    ensures rc == Success ==> (packet.pos == packet.packetLength <==> AllShort(SentConnect(c, inflightMaximum)))
    ensures c.protocol == Mqtt5 && HasReceiveMaximum(c.properties) ==>
              maximum == quota && exists k :: 0 <= k < |c.properties| &&
                                    c.properties[k] == Property(RECEIVE_MAXIMUM, Int16(maximum))
    ensures !(c.protocol == Mqtt5 && HasReceiveMaximum(c.properties)) ==>
              maximum == inflightMaximum && quota == inflightQuota
  {
    hide EncodeProperties, EncodeVarint, ConnectHeader, ConnectPayload, LostBytes, AllShort, Shortened;
    packet, maximum, quota := null, inflightMaximum, inflightQuota;
    var sent := SentConnect(c, inflightMaximum);
    LostBytesExactly(sent);
    if c.protocol == Mqtt31 && !HasId(c) {
      return Rc.Protocol, null, maximum, quota;
    }
    var local: seq<Property> := [];
    var headerlen: uint32 := 10;
    HeaderSizes(sent);
    if c.protocol == Mqtt5 {
      var found, value := ReadReceiveMaximum(c.properties);
      ReceiveMaximumFits(inflightMaximum);
      if !found {
        local := [Property(RECEIVE_MAXIMUM, Int16(inflightMaximum))];
      } else {
        maximum, quota := value, value;
        assert c.properties + [] == c.properties;
      }
      headerlen := HeaderLength(sent.properties, c.properties, local);
    } else if c.protocol == Mqtt311 {
    } else if c.protocol == Mqtt31 {
      headerlen := 12;
    } else {
      return Inval, null, maximum, quota;
    }
    if c.protocol == Mqtt31 || c.protocol == Mqtt311 {
      if c.password.Some? && c.username.None? {
        return Inval, null, maximum, quota;
      }
    }
    rc, packet := BuildConnect(sent, headerlen, c.properties, local);
  }

  /** The packet: its length counts everything, what is written has the beginnings, and the rest is unwritten. */
  ghost predicate ConnectWritten(packet: Packet, c: Connect)
    requires ConnectTyped(c)
    reads packet, packet.payload
  {
    && packet.OutValid() && packet.packetLength - packet.pos == LostBytes(c)
    && packet.Written() == [0x10] + EncodeVarint(CountedConnect(c)) + ConnectBody(Shortened(c))
  }

  lemma HeaderSizes(c: Connect)
    requires ConnectTyped(c)
    ensures |ConnectHeader(Shortened(c))| == (if c.protocol == Mqtt31 then 12 else 10)
                                             + if c.protocol == Mqtt5 then |EncodeList(c.properties)| else 0
    ensures CountedConnect(c) == |ConnectHeader(Shortened(c))| + |ConnectPayload(Shortened(c))| + LostBytes(c)
  {
    hide EncodeList, ConnectPayload, LostBytes;
    ConnectSizes(Shortened(c));
  }

  /** With short strings the packet holds the whole CONNECT. */
  lemma ShortConnectHolds(packet: Packet, c: Connect)
    requires ConnectFits(c) && ConnectWritten(packet, c)
    ensures Holds(packet, 0x10, ConnectBody(c))
  {
    hide ConnectBody, LostBytes, EncodeVarint;
    LostBytesExactly(c);
  }

  /** From the header length on: the payload length, the allocation and the writing. */
  method BuildConnect(c: Connect, headerlen: uint32, given: seq<Property>, local: seq<Property>)
    returns (rc: Rc, packet: Packet?)
    requires ConnectTyped(c) && CountedConnect(c) < TWO_32 && AllFit(given) && AllFit(local)
    requires c.protocol == Mqtt5 ==> c.properties == given + local
    requires headerlen == |ConnectHeader(Shortened(c))|
    ensures rc == if CountedConnect(c) < VARINT_LIMIT then Success else PayloadSize
    ensures rc == Success ==>
              packet != null && fresh(packet) && fresh(packet.payload) && ConnectWritten(packet, c)
  {
    HeaderSizes(c);
    BodyBoundsLists(Shortened(c));
    hide EncodeVarint, ConnectTyped, ShortLists, ConnectBody, ConnectHeader, ConnectPayload, LostBytes, Shortened;
    var payloadlen := ConnectPayloadLength(c);
    packet := new Packet(0x10, headerlen + payloadlen);
    rc := packet.Alloc();
    if rc != Success {
      return rc, null;
    }
    FillConnect(packet, c, given, local);
  }

  method FillConnect(packet: Packet, c: Connect, given: seq<Property>, local: seq<Property>)
    requires ConnectTyped(c) && ShortLists(Shortened(c)) && AllFit(given) && AllFit(local)
    requires c.protocol == Mqtt5 ==> c.properties == given + local
    requires packet.Room(|ConnectBody(Shortened(c))|)
    modifies packet`pos, packet.payload
    ensures packet.OutValid() && packet.Written() == old(packet.Written()) + ConnectBody(Shortened(c))
  {
    hide ShortLists, ConnectHeader, ConnectPayload;
    ghost var before := packet.Written();
    WriteConnectHeader(packet, Shortened(c), given, local);
    WriteConnectPayload(packet, c);
    Regroup(before, ConnectHeader(Shortened(c)), ConnectPayload(Shortened(c)));
  }

  /**
   A will payload of 65536 bytes: of 65554 bytes counted 65536 are missing at the end of the packet,
   and the will that is written is empty.
   */
  lemma LongWillExample(payload: bytes)
    requires |payload| == 0x1_0000
    ensures var will := Will([0x61], payload, 0, false, []);
            var c := Connect(Client, Mqtt311, true, 60, [], Some([0x62]), Some(will), true, None, None);
            && ConnectTyped(c) && SentConnect(c, 20) == c && CountedConnect(c) == 65554 && LostBytes(c) == 65536
            && Shortened(c).will.value.payload == [] && !AllShort(c)
  {
    var will := Will([0x61], payload, 0, false, []);
    var c := Connect(Client, Mqtt311, true, 60, [], Some([0x62]), Some(will), true, None, None);
    HeaderSizes(c);
    FullSizes(c);
  }

  method HeaderLength(ghost all: seq<Property>, given: seq<Property>, local: seq<Property>) returns (headerlen: uint32)
    requires AllFit(given) && AllFit(local) && AllFit(all) && all == given + local
    requires 10 + |EncodeList(all)| < TWO_32
    ensures headerlen == 10 + |EncodeList(all)|
  {
    hide EncodeProperties, EncodeVarint, Fits;
    TwoLists(given, local);
    var givenLen := GetLengthAll(given);
    var localLen := GetLengthAll(local);
    var proplen := Add32(givenLen, localLen);
    VarintBytesIsLength(proplen);
    headerlen := 10 + proplen + VarintBytes(proplen);
  }
}
