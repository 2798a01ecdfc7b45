/**
 PUBLISH packets (section 3.3 of MQTT Version 5.0): the encoder send__real_publish, the decoder
 in handle__publish, and the proof that each undoes the other.
 */
module Publish {
  import opened Bytes
  import opened Wire
  import opened PacketData
  import opened Properties

  /** The whole packet: command byte, remaining length, then everything the length counts. */
  function Frame(command: byte, body: bytes): bytes {
    [command] + EncodeVarint(|body|) + body
  }

  datatype Message = Message(
    dup: bool, qos: nat, retain: bool, mid: uint16, topic: bytes, properties: seq<Property>, payload: bytes)

  function Bit(b: bool): nat { if b then 1 else 0 }

  function PublishCommand(m: Message): byte
    requires m.qos <= 3
  {
    0x30 + 8 * Bit(m.dup) + 2 * m.qos + Bit(m.retain)
  }

  function PublishBody(v5: bool, m: Message): bytes
    requires |m.topic| <= 0xFFFF && AllTyped(m.properties)
  {
    EncodeBinary(m.topic)
    + (if m.qos > 0 then EncodeU16(m.mid) else [])
    + (if v5 then EncodeList(m.properties) else [])
    + m.payload
  }

  /** The messages the decoder can produce. */
  ghost predicate Sound(v5: bool, quota: nat, m: Message) {
    && m.qos <= 2
    && m.topic != [] && WireText(m.topic)
    && (if m.qos > 0 then m.mid != 0 && (v5 ==> quota > 0) else m.mid == 0)
    && AllWireReady(m.properties)
    && (if v5 then CheckAll(CMD_PUBLISH, m.properties) == Success else m.properties == [])
  }

  datatype Decoded = Decoded(m: Message) | Refused(rc: Rc)

  /** The decoding half of handle__publish, up to the switch on the QoS. */
  ghost function DecodePublish(v5: bool, quota: nat, command: byte, body: bytes): Decoded
    requires |body| < VARINT_LIMIT
  {
    match ParseString(body)
    case Bad(e) => Refused(e)
    case Got(topic, n) =>
      if topic == [] || n > |body| then Refused(Protocol)
      else DecodeIdentified(v5, quota, HeaderOf(command, topic), body[n..])
  }

  /** What the command byte and the topic say about the message. */
  function HeaderOf(command: byte, topic: bytes): Message {
    Message(command / 8 % 2 == 1, command / 2 % 4, command % 2 == 1, 0, topic, [], [])
  }

  /** A QoS 1 or 2 message has a packet identifier and needs receive quota in MQTT 5. */
  ghost function DecodeIdentified(v5: bool, quota: nat, head: Message, rest: bytes): Decoded
    requires |rest| < VARINT_LIMIT
  {
    if head.qos == 0 then DecodeRest(v5, head, rest)
    else if v5 && quota == 0 then Refused(Protocol)
    else match ParseU16(rest)
      case Bad(e) => Refused(e)
      case Got(mid, _) =>
        if mid == 0 then Refused(Protocol) else DecodeRest(v5, head.(mid := mid), rest[2..])
  }

  /** Properties in MQTT 5, then the payload; a QoS of 3 is refused at the very end. */
  ghost function DecodeRest(v5: bool, m: Message, rest: bytes): Decoded
    requires |rest| < VARINT_LIMIT
  {
    if !v5 then
      if m.qos == 3 then Refused(Protocol) else Decoded(m.(payload := rest))
    else match ParseList(CMD_PUBLISH, rest)
      case Bad(e) => Refused(e)
      case Got(ps, n) =>
        if n > |rest| || m.qos == 3 then Refused(Protocol)
        else Decoded(m.(properties := ps, payload := rest[n..]))
  }

  // ----- Encoder and decoder are inverse -----

  lemma CommandBits(m: Message)
    requires m.qos <= 3
    ensures var c := PublishCommand(m);
            c / 0x10 == 3 && (c / 8 % 2 == 1 <==> m.dup) && c / 2 % 4 == m.qos && (c % 2 == 1 <==> m.retain)
  {
  }

  lemma CommandFromBits(c: byte, m: Message)
    requires c / 0x10 == 3 && m.dup == (c / 8 % 2 == 1) && m.qos == c / 2 % 4 && m.retain == (c % 2 == 1)
    ensures PublishCommand(m) == c
  {
  }

  /** The tail of the body, after topic and packet identifier. */
  function Tail(v5: bool, m: Message): bytes
    requires AllTyped(m.properties)
  {
    (if v5 then EncodeList(m.properties) else []) + m.payload
  }

  lemma DecodeTail(v5: bool, m: Message, head: Message)
    requires AllWireReady(m.properties) && m.qos <= 2
    requires if v5 then CheckAll(CMD_PUBLISH, m.properties) == Success else m.properties == []
    requires |Tail(v5, m)| < VARINT_LIMIT
    requires head == m.(properties := [], payload := [])
    ensures DecodeRest(v5, head, Tail(v5, m)) == Decoded(m)
  {
    hide ParseList, EncodeList, CheckAll;
    var rest := Tail(v5, m);
    if v5 {
      var e := EncodeList(m.properties);
      assert e <= rest && rest[|e|..] == m.payload;
      ListBijection(CMD_PUBLISH, rest, m.properties);
    } else {
      assert rest == m.payload;
    }
  }

  lemma TailDecoded(v5: bool, head: Message, rest: bytes)
    requires |rest| < VARINT_LIMIT && head.properties == [] && head.payload == []
    requires DecodeRest(v5, head, rest).Decoded?
    ensures var m := DecodeRest(v5, head, rest).m;
            && m.(properties := [], payload := []) == head && m.qos != 3
            && AllWireReady(m.properties) && rest == Tail(v5, m)
            && (if v5 then CheckAll(CMD_PUBLISH, m.properties) == Success else m.properties == [])
  {
    hide ParseList, EncodeList, CheckAll;
    var m := DecodeRest(v5, head, rest).m;
    if v5 {
      ListBijection(CMD_PUBLISH, rest, m.properties);
      var e := EncodeList(m.properties);
      assert rest == e + rest[|e|..];
    }
  }

  lemma BodySplit(v5: bool, m: Message)
    requires |m.topic| <= 0xFFFF && AllTyped(m.properties)
    ensures m.qos > 0 ==> PublishBody(v5, m) == EncodeBinary(m.topic) + (EncodeU16(m.mid) + Tail(v5, m))
    ensures m.qos == 0 ==> PublishBody(v5, m) == EncodeBinary(m.topic) + Tail(v5, m)
  {
    hide EncodeBinary, EncodeU16, EncodeList;
  }

  /** Every message in a legal state survives encoding and decoding unchanged. */
  lemma PublishRoundTrip(v5: bool, quota: nat, m: Message)
    requires Sound(v5, quota, m) && |PublishBody(v5, m)| < VARINT_LIMIT
    ensures DecodePublish(v5, quota, PublishCommand(m), PublishBody(v5, m)) == Decoded(m)
  {
    hide DecodeRest, ParseString, EncodeBinary, ParseU16, EncodeU16, PublishBody, Tail, CheckAll;
    CommandBits(m);
    BodySplit(v5, m);
    var head := m.(properties := [], payload := []);
    var e, body := EncodeBinary(m.topic), PublishBody(v5, m);
    BinarySize(m.topic);
    DecodeTail(v5, m, head);
    if m.qos > 0 {
      var rest := EncodeU16(m.mid) + Tail(v5, m);
      StringRoundTrip(m.topic, rest);
      U16RoundTrip(m.mid, Tail(v5, m));
      assert body[|e|..] == rest && rest[2..] == Tail(v5, m);
    } else {
      StringRoundTrip(m.topic, Tail(v5, m));
      assert body[|e|..] == Tail(v5, m);
    }
  }

  lemma BinarySize(data: bytes)
    requires |data| <= 0xFFFF
    ensures |EncodeBinary(data)| == |data| + 2
    ensures forall w: uint16 {:trigger EncodeU16(w)} :: |EncodeU16(w)| == 2
  {
  }

  /**
   The decoder accepts nothing but encodings: it produces m exactly when m is sound and the
   packet is the one the encoder makes of it.
   */
  lemma DecodesExactlyEncodings(v5: bool, quota: nat, command: byte, body: bytes, m: Message)
    requires command / 0x10 == 3 && |body| < VARINT_LIMIT
    ensures DecodePublish(v5, quota, command, body) == Decoded(m) <==>
            Sound(v5, quota, m) && command == PublishCommand(m) && body == PublishBody(v5, m)
  {
    if DecodePublish(v5, quota, command, body) == Decoded(m) {
      DecodedIsSound(v5, quota, command, body);
    }
    if Sound(v5, quota, m) && command == PublishCommand(m) && body == PublishBody(v5, m) {
      PublishRoundTrip(v5, quota, m);
    }
  }

  lemma DecodedIsSound(v5: bool, quota: nat, command: byte, body: bytes)
    requires command / 0x10 == 3 && |body| < VARINT_LIMIT
    requires DecodePublish(v5, quota, command, body).Decoded?
    ensures var m := DecodePublish(v5, quota, command, body).m;
            Sound(v5, quota, m) && command == PublishCommand(m) && body == PublishBody(v5, m)
  {
    hide DecodeRest, ParseString, EncodeBinary, EncodeU16, PublishBody, Tail, CheckAll, PublishCommand;
    var m := DecodePublish(v5, quota, command, body).m;
    ParsedStringEncoded(body);
    var Got(topic, n) := ParseString(body);
    assert body == body[..n] + body[n..];
    var head := HeaderOf(command, topic);
    if head.qos == 0 {
      TailDecoded(v5, head, body[n..]);
    } else {
      ParsedU16Encoded(body[n..]);
      TailDecoded(v5, head.(mid := ParseU16(body[n..]).value), body[n..][2..]);
      assert body[n..] == body[n..][..2] + body[n..][2..];
    }
    CommandFromBits(command, m);
    BodySplit(v5, m);
  }

  // ----- The encoder -----

  /** packet__check_oversize. */
  function CheckOversize(maximumPacketSize: uint32, remainingLength: uint32): Rc {
    if maximumPacketSize == 0 then Success
    else if Add32(remainingLength, VarintBytes(remainingLength)) > maximumPacketSize then OversizePacket
    else Success
  }

  /**
   The check leaves the command byte out of the count: it lets a packet through exactly when it
   is at most one byte longer than the limit the peer set (section 3.1.2.11.4 counts all bytes).
   */
  lemma OversizeCheckOffByOne(maximumPacketSize: uint32, command: byte, body: bytes)
    requires |body| < VARINT_LIMIT
    ensures CheckOversize(maximumPacketSize, |body|) == Success <==>
            maximumPacketSize == 0 || |Frame(command, body)| <= maximumPacketSize + 1
    ensures CheckOversize(maximumPacketSize, |body|) == Success && 0 < maximumPacketSize < |Frame(command, body)| <==>
            0 < maximumPacketSize && |Frame(command, body)| == maximumPacketSize + 1
  {
    VarintBytesIsLength(|body|);
  }

  /** A QoS 0 message "a" without payload makes five bytes; a peer that wants at most four gets it. */
  lemma OversizeExample()
    ensures var m := Message(false, 0, false, 0, [0x61], [], []);
            && CheckOversize(4, |PublishBody(false, m)|) == Success
            && |Frame(PublishCommand(m), PublishBody(false, m))| == 5
  {
    var m := Message(false, 0, false, 0, [0x61], [], []);
    BinarySize(m.topic);
    VarintBytesIsLength(3);
    OversizeCheckOffByOne(4, PublishCommand(m), PublishBody(false, m));
  }

  function ExpiryProperties(expiryInterval: uint32): seq<Property> {
    if expiryInterval > 0 then [Property(MESSAGE_EXPIRY_INTERVAL, Int32(expiryInterval))] else []
  }

  /** A finished outgoing packet: the buffer is full and holds one frame. */
  ghost predicate Holds(packet: Packet, command: byte, body: bytes)
    reads packet, packet.payload
  {
    packet.OutValid() && packet.pos == packet.packetLength && packet.Written() == Frame(command, body)
  }

  lemma AllSizes(v5: bool, m: Message)
    requires |m.topic| <= 0xFFFF && AllTyped(m.properties)
    ensures |PublishBody(v5, m)| ==
            2 + |m.topic| + (if m.qos > 0 then 2 else 0) + (if v5 then |EncodeList(m.properties)| else 0) + |m.payload|
  {
    hide EncodeList;
  }

  lemma ThreeLists(c: seq<Property>, s: seq<Property>, e: seq<Property>, all: seq<Property>)
    requires AllFit(c) && AllFit(s) && AllFit(e) && all == c + s + e
    ensures AllTyped(c) && AllTyped(s) && AllTyped(e) && AllTyped(all)
    ensures EncodeProperties(all) == EncodeProperties(c) + EncodeProperties(s) + EncodeProperties(e)
    ensures |EncodeProperties(all)| == |EncodeProperties(c)| + |EncodeProperties(s)| + |EncodeProperties(e)|
  {
    hide EncodeProperties;
    EncodeConcat(c + s, e);
    EncodeConcat(c, s);
  }

  lemma ExpiryFits(expiryInterval: uint32)
    ensures AllFit(ExpiryProperties(expiryInterval))
    ensures EncodeProperties([]) == []
  {
  }

  /** The message as it is written: of a topic over 65535 bytes only a beginning. */
  function OnWire(m: Message): Message { m.(topic := Cut16(m.topic)) }

  /** Topic and packet identifier. */
  function Head(m: Message): bytes
    requires |m.topic| <= 0xFFFF
  {
    EncodeBinary(m.topic) + if m.qos > 0 then EncodeU16(m.mid) else []
  }

  /** The properties need a fifth length byte, so the encoder means to leave them out. */
  ghost predicate TooMany(v5: bool, m: Message)
    requires AllTyped(m.properties)
  {
    v5 && |EncodeProperties(m.properties)| >= VARINT_LIMIT
  }

  /** The remaining length: without the properties, and without a length for them, when there are too many. */
  ghost function SentLength(v5: bool, m: Message): nat
    requires |m.topic| <= 0xFFFF && AllTyped(m.properties)
  {
    if TooMany(v5, m) then |Head(m)| + |m.payload| else |PublishBody(v5, m)|
  }

  /** The remaining length as computed: the whole topic is counted. */
  ghost function CountedLength(v5: bool, m: Message): nat
    requires AllTyped(m.properties)
  {
    SentLength(v5, OnWire(m)) + Lost(m.topic)
  }

  /** The length computation of send__real_publish; a null topic counts as an empty one. */
  method PublishLength(v5: bool, m: Message, cmsgProps: seq<Property>, storeProps: seq<Property>, expiryInterval: uint32)
    returns (packetlen: uint32, proplen: uint32)
    requires AllFit(cmsgProps) && AllFit(storeProps) && AllTyped(m.properties)
    requires m.properties == cmsgProps + storeProps + ExpiryProperties(expiryInterval)
    requires |EncodeProperties(m.properties)| < TWO_32 && CountedLength(v5, m) < TWO_32
    ensures packetlen == CountedLength(v5, m)
    ensures v5 ==> proplen == |EncodeProperties(m.properties)|
  {
    ghost var expiryProps := ExpiryProperties(expiryInterval);
    ExpiryFits(expiryInterval);
    ThreeLists(cmsgProps, storeProps, expiryProps, m.properties);
    AllSizes(v5, OnWire(m));
    LostExactly(m.topic);
    hide EncodeProperties, EncodeVarint, PublishBody, Fits;
    packetlen := 2 + |m.topic| + |m.payload|;
    if m.qos > 0 {
      packetlen := packetlen + 2;
    }
    proplen := 0;
    if v5 {
      proplen := SumLengths(cmsgProps, storeProps, expiryInterval);
      var varbytes := VarintBytes(proplen);
      VarintBytesIsLength(proplen);
      if varbytes <= 4 {
        packetlen := packetlen + proplen + varbytes;
      }
    }
  }

  method SumLengths(cmsgProps: seq<Property>, storeProps: seq<Property>, expiryInterval: uint32)
    returns (proplen: uint32)
    requires AllFit(cmsgProps) && AllFit(storeProps) && AllFit(ExpiryProperties(expiryInterval))
    requires |EncodeProperties(cmsgProps)| + |EncodeProperties(storeProps)|
             + |EncodeProperties(ExpiryProperties(expiryInterval))| < TWO_32
    ensures proplen == |EncodeProperties(cmsgProps)| + |EncodeProperties(storeProps)|
                       + |EncodeProperties(ExpiryProperties(expiryInterval))|
  {
    hide EncodeProperties, Fits;
    ExpiryFits(expiryInterval);
    var cmsgLen := GetLengthAll(cmsgProps);
    var storeLen := GetLengthAll(storeProps);
    proplen := Add32(cmsgLen, storeLen);
    if expiryInterval > 0 {
      var expiryLen := GetLengthAll(ExpiryProperties(expiryInterval));
      proplen := Add32(proplen, expiryLen);
    }
  }

  lemma BodyIsHeadAndTail(v5: bool, m: Message)
    requires |m.topic| <= 0xFFFF && AllTyped(m.properties)
    ensures PublishBody(v5, m) == Head(m) + Tail(v5, m)
  {
    hide EncodeBinary, EncodeU16, EncodeList;
  }

  lemma TailWithoutTopic(v5: bool, m: Message)
    requires AllTyped(m.properties)
    ensures Tail(v5, m) == Tail(v5, OnWire(m)) && TooMany(v5, m) == TooMany(v5, OnWire(m))
  {
  }

  method WriteHead(packet: Packet, m: Message)
    requires packet.Room(|Head(OnWire(m))|)
    modifies packet`pos, packet.payload
    ensures packet.OutValid() && packet.Written() == old(packet.Written()) + Head(OnWire(m))
  {
    packet.WriteString(m.topic, |m.topic| % 0x1_0000);
    if m.qos > 0 {
      packet.WriteUint16(m.mid);
    }
  }

  method WriteTail(packet: Packet, v5: bool, m: Message, proplen: uint32,
                   cmsgProps: seq<Property>, storeProps: seq<Property>, expiryInterval: uint32)
    requires |m.payload| < VARINT_LIMIT && AllFit(cmsgProps) && AllFit(storeProps) && AllTyped(m.properties)
    requires m.properties == cmsgProps + storeProps + ExpiryProperties(expiryInterval)
    requires v5 ==> |EncodeProperties(m.properties)| < VARINT_LIMIT
    requires v5 ==> proplen == |EncodeProperties(m.properties)|
    requires packet.Room(|Tail(v5, m)|)
    modifies packet`pos, packet.payload
    ensures packet.OutValid() && packet.Written() == old(packet.Written()) + Tail(v5, m)
  {
    hide EncodeProperties, EncodeList, AllTyped;
    if v5 {
      WritePublishProperties(packet, proplen, cmsgProps, storeProps, expiryInterval, m.properties);
    }
    assert m.payload[..|m.payload|] == m.payload;
    if |m.payload| > 0 {
      packet.WriteBytes(m.payload, |m.payload|);
    }
  }

  method WritePublishProperties(packet: Packet, proplen: uint32, cmsgProps: seq<Property>, storeProps: seq<Property>,
                                expiryInterval: uint32, ghost all: seq<Property>)
    requires AllFit(cmsgProps) && AllFit(storeProps) && AllTyped(all)
    requires all == cmsgProps + storeProps + ExpiryProperties(expiryInterval)
    requires proplen == |EncodeProperties(all)| < VARINT_LIMIT
    requires packet.Room(|EncodeList(all)|)
    modifies packet`pos, packet.payload
    ensures packet.OutValid() && packet.Written() == old(packet.Written()) + EncodeList(all)
  {
    hide EncodeProperties, EncodeVarint, Fits;
    var expiryProps := ExpiryProperties(expiryInterval);
    ExpiryFits(expiryInterval);
    ThreeLists(cmsgProps, storeProps, expiryProps, all);
    VarintBytesIsLength(proplen);
    var rc := packet.WriteVarint(proplen);
    WriteThree(packet, cmsgProps, storeProps, expiryProps);
  }

  method WriteThree(packet: Packet, c: seq<Property>, s: seq<Property>, e: seq<Property>)
    requires AllFit(c) && AllFit(s) && AllFit(e)
    requires |EncodeProperties(c)| + |EncodeProperties(s)| + |EncodeProperties(e)| < VARINT_LIMIT
    requires packet.Room(|EncodeProperties(c)| + |EncodeProperties(s)| + |EncodeProperties(e)|)
    modifies packet`pos, packet.payload
    ensures packet.OutValid()
    ensures packet.Written() ==
            old(packet.Written()) + (EncodeProperties(c) + EncodeProperties(s) + EncodeProperties(e))
  {
    hide EncodeProperties, Fits, EncodeList;
    NoProperties();
    WriteMembers(packet, c);
    WriteMembers(packet, s);
    if e != [] {
      WriteMembers(packet, e);
    }
  }

  /**
   What follows the head when the properties are left out: their length is written all the same.
   If there is only room for the payload, one of the two assertions on the cursor fails; with
   room for five bytes more, as a topic that is cut leaves it, none does.
   */
  method WriteTailWithout(packet: Packet, proplen: uint32, payload: bytes, ghost extra: nat) returns (stopped: bool)
    requires proplen >= VARINT_LIMIT && |payload| < VARINT_LIMIT && (extra == 0 || extra >= 5)
    requires packet.OutValid() && packet.packetLength - packet.pos == |payload| + extra
    modifies packet`pos, packet.payload
    ensures packet.OutValid() && |EncodeVarint(proplen)| == 5 && (stopped <==> extra == 0)
    ensures stopped ==>
              packet.Written() == old(packet.Written()) + EncodeVarint(proplen)[..if |payload| < 5 then |payload| else 5]
    ensures !stopped ==> packet.Written() == old(packet.Written()) + (EncodeVarint(proplen) + payload)
    ensures !stopped ==> packet.packetLength - packet.pos == extra - 5
  {
    VarintBytesIsLength(proplen);
    hide EncodeVarint;
    assert EncodeVarint(proplen)[..5] == EncodeVarint(proplen);
    assert payload[..|payload|] == payload;
    ghost var before := packet.Written();
    stopped := packet.WriteVarintUntilFull(proplen);
    if !stopped && |payload| > 0 {
      stopped := packet.WriteBytesUntilFull(payload, |payload|);
    }
    Regroup(before, EncodeVarint(proplen), payload);
    assert before + EncodeVarint(proplen) + [] == before + EncodeVarint(proplen);
  }

  /** The topic fits its length and the properties can be counted. */
  ghost predicate Writable(v5: bool, m: Message)
    requires AllTyped(m.properties)
  {
    |m.topic| <= 0xFFFF && !TooMany(v5, m)
  }

  /**
   send__real_publish. The assertions on the write cursor hold throughout and the buffer ends
   full, so that the packet handed to the queue is the frame of the message, if and only if the
   topic is not too long and the properties are not too many. With too many properties an
   assertion stops the program, unless the topic is too long as well; with a topic that is too
   long what was cut off it is missing at the end of the packet.
   */
  method SendRealPublish(v5: bool, maximumPacketSize: uint32, m: Message,
                         cmsgProps: seq<Property>, storeProps: seq<Property>, expiryInterval: uint32)
    returns (rc: Rc, packet: Packet?, stopped: bool)
    requires m.qos <= 2 && |m.payload| < VARINT_LIMIT
    requires AllFit(cmsgProps) && AllFit(storeProps) && AllTyped(m.properties)
    requires m.properties == cmsgProps + storeProps + ExpiryProperties(expiryInterval)
    requires |EncodeProperties(m.properties)| < TWO_32 && CountedLength(v5, m) < TWO_32
    ensures rc == if CheckOversize(maximumPacketSize, CountedLength(v5, m)) != Success then OversizePacket
                  else if CountedLength(v5, m) >= VARINT_LIMIT then PayloadSize else Success
    ensures rc == Success ==>
              packet != null && fresh(packet) && fresh(packet.payload) && packet.mid == m.mid && packet.OutValid()
              && (stopped <==> TooMany(v5, m) && |m.topic| <= 0xFFFF)
              && (!stopped && packet.pos == packet.packetLength <==> Writable(v5, m))
    ensures rc == Success && Writable(v5, m) ==> Holds(packet, PublishCommand(m), PublishBody(v5, m))
    ensures rc == Success && stopped ==> CutShort(packet, m)
    ensures rc == Success && |m.topic| > 0xFFFF ==> TailMissing(packet, v5, m)
  {
    hide EncodeProperties, EncodeVarint, PublishBody;
    packet, stopped := null, false;
    var packetlen, proplen := PublishLength(v5, m, cmsgProps, storeProps, expiryInterval);
    rc := CheckOversize(maximumPacketSize, packetlen);
    if rc != Success {
      return;
    }
    packet := new Packet(PublishCommand(m), packetlen);
    packet.mid := m.mid;
    rc := packet.Alloc();
    if rc != Success {
      return rc, null, false;
    }
    stopped := FillPacket(packet, v5, m, proplen, cmsgProps, storeProps, expiryInterval);
  }

  /** Everything behind the fixed header. */
  method FillPacket(packet: Packet, v5: bool, m: Message, proplen: uint32,
                    cmsgProps: seq<Property>, storeProps: seq<Property>, expiryInterval: uint32)
    returns (stopped: bool)
    requires m.qos <= 2 && |m.payload| < VARINT_LIMIT
    requires AllFit(cmsgProps) && AllFit(storeProps) && AllTyped(m.properties)
    requires m.properties == cmsgProps + storeProps + ExpiryProperties(expiryInterval)
    requires v5 ==> proplen == |EncodeProperties(m.properties)|
    requires packet.OutValid() && packet.packetLength == packet.pos + CountedLength(v5, m)
    requires packet.Written() == [PublishCommand(m)] + EncodeVarint(CountedLength(v5, m))
    modifies packet`pos, packet.payload
    ensures packet.OutValid() && (stopped <==> TooMany(v5, m) && |m.topic| <= 0xFFFF)
    ensures !stopped && packet.pos == packet.packetLength <==> Writable(v5, m)
    ensures Writable(v5, m) ==> Holds(packet, PublishCommand(m), PublishBody(v5, m))
    ensures stopped ==> CutShort(packet, m)
    ensures |m.topic| > 0xFFFF ==> TailMissing(packet, v5, m)
  {
    hide EncodeProperties, EncodeVarint, PublishBody, Head, Tail, AllTyped, Cut16, Lost;
    LostExactly(m.topic);
    BodyIsHeadAndTail(v5, OnWire(m));
    TailWithoutTopic(v5, m);
    ghost var start := packet.Written();
    WriteHead(packet, m);
    if v5 && VarintBytes(proplen) > 4 {
      stopped := WriteTailWithout(packet, proplen, m.payload, Lost(m.topic));
      Regroup(start, Head(OnWire(m)), EncodeVarint(proplen) + m.payload);
    } else {
      WriteTail(packet, v5, m, proplen, cmsgProps, storeProps, expiryInterval);
      Regroup(start, Head(OnWire(m)), Tail(v5, OnWire(m)));
      stopped := false;
    }
  }

  /** How far the encoder gets with too many properties: the head and at most five bytes of their length. */
  ghost predicate CutShort(packet: Packet, m: Message)
    requires m.qos <= 3 && AllTyped(m.properties)
    reads packet, packet.payload
  {
    var length := EncodeVarint(|EncodeProperties(m.properties)|);
    && packet.OutValid() && |length| == 5 && |m.topic| <= 0xFFFF
    && packet.Written() == [PublishCommand(m)] + EncodeVarint(|Head(m)| + |m.payload|) + Head(m)
                           + length[..if |m.payload| < 5 then |m.payload| else 5]
  }

  /**
   The packet for a topic that is too long: its length counts the whole topic, what is written
   has only the beginning, and as much as was cut off is unwritten at the end; five bytes less
   with too many properties, whose length is in the packet although they are not.
   */
  ghost predicate TailMissing(packet: Packet, v5: bool, m: Message)
    requires m.qos <= 3 && AllTyped(m.properties)
    reads packet, packet.payload
  {
    var body := if TooMany(v5, m) then Head(OnWire(m)) + (EncodeVarint(|EncodeProperties(m.properties)|) + m.payload)
                else PublishBody(v5, OnWire(m));
    && packet.OutValid()
    && packet.Written() == [PublishCommand(m)] + EncodeVarint(CountedLength(v5, m)) + body
    && packet.packetLength - packet.pos == Lost(m.topic) - (if TooMany(v5, m) then 5 else 0)
  }

  function UserProperty(name: bytes, text: bytes): Property { Property(USER_PROPERTY, Pair(name, text)) }

  lemma {:induction false} ManyUserProperties(p: Property, n: nat)
    requires Typed(p) && p.identifier == USER_PROPERTY
    ensures AllFit(seq(n, _ => p)) && CheckAll(CMD_PUBLISH, seq(n, _ => p)) == Success
    ensures |EncodeProperties(seq(n, _ => p))| == n * |EncodeProperty(p)|
  {
    hide EncodeProperty;
    var ps := seq(n, _ => p);
    if n == 0 {
    } else {
      ManyUserProperties(p, n - 1);
      assert ps[1..] == seq(n - 1, _ => p);
    }
  }

  /**
   An input that stops the encoder: an MQTT 5 message on topic "a" without payload, with 2048
   user properties whose name and value have 65535 bytes each. The list is legal, and without a
   limit on the packet size the message passes every check made before the writing.
   */
  lemma TooManyExample(text: bytes)
    requires |text| == 0xFFFF
    ensures var ps := seq(2048, _ => UserProperty(text, text));
            var m := Message(false, 0, false, 0, [0x61], ps, []);
            && AllFit(ps) && CheckAll(CMD_PUBLISH, ps) == Success && |EncodeProperties(ps)| < TWO_32
            && TooMany(true, m) && CountedLength(true, m) == 3
            && CheckOversize(0, CountedLength(true, m)) == Success
  {
    var p := UserProperty(text, text);
    KnownIdIsOneByte(USER_PROPERTY);
    ManyUserProperties(p, 2048);
  }

  // ----- The decoder -----

  /** handle__publish up to the switch on the QoS, whose default branch refuses QoS 3. */
  method HandlePublish(packet: Packet, v5: bool, quota: nat) returns (rc: Rc, message: Message)
    requires packet.InValid() && packet.pos == 0
    modifies packet`pos
    ensures match DecodePublish(v5, quota, packet.command, old(packet.Unread()))
            case Decoded(m) => rc == Success && message == m
            case Refused(e) => rc == e && rc != Success
  {
    hide ParseString, DecodeIdentified;
    ghost var body := packet.Unread();
    FieldSizes(body);
    var str, slen;
    rc, str, slen := packet.ReadString();
    message := HeaderOf(packet.command, []);
    if rc != Success {
      return;
    }
    if slen == 0 {
      return Protocol, message;
    }
    message := HeaderOf(packet.command, str[..slen]);
    UnreadAfter(packet, body, 2 + |message.topic|);
    rc, message := ReadIdentified(packet, v5, quota, message);
  }

  method ReadIdentified(packet: Packet, v5: bool, quota: nat, head: Message) returns (rc: Rc, message: Message)
    requires packet.InValid() && head.properties == [] && head.payload == []
    modifies packet`pos
    ensures match DecodeIdentified(v5, quota, head, old(packet.Unread()))
            case Decoded(m) => rc == Success && message == m
            case Refused(e) => rc == e && rc != Success
  {
    hide DecodeRest;
    ghost var rest := packet.Unread();
    message := head;
    if message.qos > 0 {
      var mid;
      rc, mid := ReadIdentifier(packet, v5, quota);
      if rc != Success {
        return;
      }
      message := message.(mid := mid);
      UnreadAfter(packet, rest, 2);
    }
    rc, message := ReadPublishRest(packet, v5, message);
  }

  /** The packet identifier of a QoS 1 or 2 message, refused when the receive quota is used up. */
  method ReadIdentifier(packet: Packet, v5: bool, quota: nat) returns (rc: Rc, mid: uint16)
    requires packet.InValid()
    modifies packet`pos
    ensures if v5 && quota == 0 then rc == Protocol
            else match ParseU16(old(packet.Unread()))
              case Bad(e) => rc == e && e != Success
              case Got(v, _) => if v == 0 then rc == Protocol
                                else rc == Success && mid == v && packet.Moved(2) && |old(packet.Unread())| >= 2
  {
    FieldSizes(packet.Unread());
    if v5 && quota == 0 {
      return Protocol, 0;
    }
    rc, mid := packet.ReadUint16();
    if rc == Success && mid == 0 {
      rc := Protocol;
    }
  }

  method ReadPublishRest(packet: Packet, v5: bool, head: Message) returns (rc: Rc, message: Message)
    requires packet.InValid() && head.properties == [] && head.payload == []
    modifies packet`pos
    ensures match DecodeRest(v5, head, old(packet.Unread()))
            case Decoded(m) => rc == Success && message == m
            case Refused(e) => rc == e && rc != Success
  {
    hide ParseList;
    ghost var rest := packet.Unread();
    ListSizes(CMD_PUBLISH, rest);
    message := head;
    if v5 {
      var properties;
      rc, properties := ReadAll(CMD_PUBLISH, packet);
      if rc != Success {
        return;
      }
      message := message.(properties := properties);
      UnreadAfter(packet, rest, ParseList(CMD_PUBLISH, rest).used);
    }
    var payloadlen := packet.remainingLength - packet.pos;
    if payloadlen > 0 {
      var payload;
      rc, payload := packet.ReadBytes(payloadlen);
      if rc != Success {
        return;
      }
      message := message.(payload := payload);
    }
    return if message.qos == 3 then Protocol else Success, message;
  }

  lemma ListSizes(command: int, s: bytes)
    requires |s| < VARINT_LIMIT
    ensures match ParseList(command, s) case Got(_, n) => n <= |s| case Bad(e) => e != Success
  {
    hide ParseVarint, ParseCounted, CheckAll;
    FieldSizes(s);
    if ParseVarint(s).Got? {
      var Got(len, n) := ParseVarint(s);
      CountedFailure(s[n..], len);
    }
  }
}
