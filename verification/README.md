# Verified models of the plant gateway's messaging

The gateway talks MQTT through the vendored mosquitto code under `lib/mosquitto` (client library and
broker, MQTT 3.1.1 and 5.0) and a small framing of its own on a serial line. This project models the
parts of both that carry logic, and proves what they promise. Code that changes state in place is
modelled by classes and loops with the fields of the source, each proved against a specification
function; the theorems about every input, every stream and every run are lemmas about those
specifications.

`dafny verify dfyconfig.toml` checks everything.

## Components

| file | what it models |
|---|---|
| `TopicLevels.dfy`, `TopicMatch.dfy` | topic names and filters by levels; the checks, the tokeniser and the two hand-written matchers |
| `Utf8.dfy` | validation of UTF-8 strings |
| `Wire.dfy`, `PacketData.dfy` | numbers, strings and varints; the packet buffer with its two cursors |
| `Properties.dfy` | MQTT 5 property lists: lengths, writing, reading, checks |
| `Publish.dfy`, `Encoders.dfy` | PUBLISH in both directions; acknowledgements, SUBSCRIBE, UNSUBSCRIBE, CONNECT |
| `PacketReader.dfy`, `PacketWriter.dfy` | the resumable reader and the queue with partial writes |
| `ClientQos.dfy`, `ClientReceive.dfy`, `ClientEngine.dfy` | the client's QoS 1 and 2 flow: two state machines and the class that takes their steps |
| `BrokerMsgs.dfy`, `BrokerLists.dfy`, `BrokerStore.dfy`, `BrokerDb.dfy`, `BrokerRuns.dfy` | the broker's message database: list operations as values, lists with counters, reference-counted store, one client, all clients |
| `BridgeTopic.dfy` | topic mapping of bridges |
| `SerialFrame.dfy` | the gateway's serial frames |
| `Bytes.dfy` | bytes, 32-bit wrap-around, result codes |

Main results, in the order of the files: the matcher is the level-wise match of section 4.7 of MQTT
Version 5.0 and both matchers agree on everything; UTF-8 validation accepts exactly the encodings of
allowed code points; property lists and PUBLISH packets are read back exactly, and nothing but an
encoding is accepted; every encoder fills its packet exactly, PUBLISH and CONNECT under exact
conditions on the lengths of their strings and properties; what the reader delivers does not depend on how the stream is cut if and only if no packet
in it starts with a zero, so published messages arrive unchanged and in order; the writer sends what
was queued, in order; the client never has more in flight than allowed, keeps its account exact and
its order, and delivers each received message once; the broker's reference counts are right and its
queues within their limits after any sequence of operations, with clients joining, leaving and taking
over sessions, and its counters are right too unless a permission check at a login deletes a message;
bridge mapping can be undone under an exact condition; serial frames are received exactly, and a
single altered byte is noticed.

## Where the code does not do what it is meant to do

For each there is the exact condition under which the code meets its purpose, and an input, from a
state the program can be in, for which it does not.

- `packet__check_oversize` leaves the command byte out, so a packet may be one byte over the limit
  (`Publish.OversizeCheckOffByOne`, `Publish.OversizeExample`).
- With 2^28 bytes of properties and more, `send__real_publish` computes its length without them but
  still writes their length, so an assertion fails (`Publish.SendRealPublish`, `Publish.TooManyExample`).
- `send__real_publish` and `send__connect` count strings in full but write 16 bits of their length: a
  topic that the bridge mapping made longer than 65535 bytes, or such a client identifier, will payload
  or password, leaves the end of the packet unwritten (`Publish.SendRealPublish`,
  `BridgeTopic.LongTopicExample`, `Encoders.SendConnect`, `Encoders.LongWillExample`).
- A packet whose command byte is 0 is read differently when the reader is interrupted in it
  (`PacketReader.CutsMatterExactly`, which gives the two ways to cut).
- PUBACK and PUBCOMP return quota before looking for the message, so an unknown identifier lets one
  message too many in flight (`ClientQos.AckKeepsAccountExactly`, `ClientQos.UnknownAckExample`);
  PUBREC with an error reason does the same (`ClientQos.PubrecKeepsAccountExactly`,
  `ClientQos.UnknownPubrecExample`), and so does PUBREL on the receiving side
  (`ClientReceive.PubrelKeepsQuotaExactly`, `ClientReceive.UnknownPubrelExample`).
- A changed Receive Maximum is charged for waiting messages too, which are then not sent
  (`ClientQos.ConnackKeepsAccountExactly`, `ClientQos.RaisedLimitExample`). A lowered one makes messages
  beyond it go out again as new, even past their PUBREC (`ClientQos.SentAgainExactly`,
  `ClientQos.PublishedAgainExample`), and after a raised one a message can be sent for the first time as
  a duplicate (`ClientQos.FirstSentAsDuplicateExactly`, `ClientQos.FirstSentAsDuplicateExample`).
- The client holds a retransmitted QoS 2 PUBLISH a second time and delivers it again
  (`ClientReceive.RetransmissionIsHeldTwice`, `ClientReceive.DeliveredTwiceExample`). The broker does
  not (`BrokerMsgs.RetransmissionAddsNothing`), but it does not clear away a message whose identifier
  is reused while that is only queued (`BrokerMsgs.ReusedIsClearedExactly`).
- The broker's reconnect loop marks the message it looks at but moves the head of the queue; the
  comment there wants every moved message to be sent, but one can stay in flight unsent
  (`BrokerMsgs.ResetStrandsExactly`, `BrokerMsgs.StrandedExample`).
- `db__message_release_incoming` tests for room the wrong way round
  (`BrokerMsgs.ReleasesOnlyWhenFull`, `BrokerMsgs.ReleasesTooManyExample`).
- `db__message_dequeue_first` charges the quota for QoS 0 messages too
  (`BrokerMsgs.DequeueBalancedExactly`, `BrokerMsgs.Qos0TakesQuotaExample`), a message dropped as
  oversize keeps its quota (`BrokerMsgs.WriteBalancedExactly`, `BrokerMsgs.OversizeTakesQuotaExample`),
  and so does one that a PUBREC refuses (`BrokerMsgs.RefusedTakesQuotaExactly`,
  `BrokerMsgs.RefusedTakesQuotaExample`).
- `db__message_write_inflight_out_latest` can miss messages to be published
  (`BrokerMsgs.LatestFindsAllExactly`, `BrokerMsgs.LatestMissesExample`).
- QoS 0 messages queued for an offline client are not counted, so no limit holds them
  (`BrokerMsgs.Qos0QueueIsUnbounded`).
- `connection_check_acl` deletes messages without uncounting them or returning their quota
  (`BrokerMsgs.CheckKeepsCountersExactly`, `BrokerMsgs.DeniedStaysCountedExample`); the next reset puts
  the counters right.
- A bridge line that is refused for a prefix and its pattern together leaves a half-filled entry behind
  (`BridgeTopic.RefusalKeepsListExactly`, `BridgeTopic.HalfFilledExample`).
- Bridge mapping cannot be undone for the parent of a mapped subtree, nor without a local prefix for
  an empty rest or one starting with '$' (`BridgeTopic.RoundTripExactly`,
  `BridgeTopic.RoundTripFailsExample`).
- `mosquitto_sub_topic_check2` takes a NUL inside the string for the start of a level
  (`TopicMatch.LooseIsFilterExactly`, `TopicMatch.WildAfterNulExample`).
- `ReceivePacket` accepts a body length of 1, for which the packet constructor reads behind the body
  (`SerialFrame.OutOfBoundsExactly`, `SerialFrame.OutOfBoundsExample`); `GetSlaveCount` reads data
  that a short frame does not have (`SerialFrame.SlaveCountExactly`,
  `SerialFrame.UndefinedCountExample`); and the end byte of a frame is never looked at
  (`SerialFrame.OneByteAltered`, `SerialFrame.AlteredEndExample`).
- `Serial::readline` goes beyond its buffer for a size of 0 or below the length of the end mark
  (`SerialFrame.StaysInBufferExactly`); the gateway passes neither.

## How the environment enters

The network, sockets, clocks and calls into other code are arbitrary. A read or write of the network
may take any number of bytes or fail in any way. The result of a send in the broker, the number of
queued packets, the time, the subscribers a message is routed to, each with its own identifier, QoS
and retain flag, what a permission check denies, and what reading a packet gives are parameters, new
for every single attempt. Message contents are numbered in the client engine, which never looks at
them; its logs of packets sent and messages delivered stand for the calls that the source makes there.
Where the source stops at a failed assertion, or reads memory it does not have, the model says so in
its result and goes no further.

## Model

| member | source | states |
|---|---|---|
| TopicLevels.SplitJoin | lib/mosquitto/lib/mosquitto.c:350-404 | Splitting a topic at '/' loses nothing: joining the levels gives it back |
| TopicLevels.JoinSplit | lib/mosquitto/lib/mosquitto.c:350-404 | Every list of levels without '/' is the split of exactly one topic, empty levels included |
| TopicMatch.CountLevels | lib/mosquitto/lib/mosquitto.c:361-371 | The number of '/' plus one is the number of levels, also with a '/' at the end |
| TopicMatch.Tokenise | lib/mosquitto/lib/mosquitto.c:350-404 | The array holds exactly the levels of the topic in order; an empty level is a null pointer |
| TopicMatch.PubTopicCheck | lib/mosquitto/lib/util_topic.c:51-80 | Accepts exactly the topics without wildcard, of at most 65535 bytes and, in the broker, at most 200 separators |
| TopicMatch.PubTopicCheck2 | lib/mosquitto/lib/util_topic.c:82-108 | The same for a topic given by its length |
| TopicMatch.SubTopicCheck | lib/mosquitto/lib/util_topic.c:117-154 | Accepts exactly the filters in which '+' fills a level and '#' fills the last one, within the size limits |
| TopicMatch.SubTopicCheck2 | lib/mosquitto/lib/util_topic.c:156-190 | For any string, NUL bytes included: accepts exactly those within the size limits in which a wildcard stands at the start, behind '/' or behind a NUL, and fills the rest as in the other check |
| TopicMatch.LooseIsFilterExactly | lib/mosquitto/lib/util_topic.c:156-190 | What this check accepts is a filter if and only if no wildcard stands behind a NUL; every filter is accepted |
| TopicMatch.WildAfterNulExample | lib/mosquitto/lib/util_topic.c:158-176 | The three bytes 'a', NUL, '+' are accepted and are no filter |
| TopicMatch.WildPlacedIsWellFormed | lib/mosquitto/lib/util_topic.c:117-154 | The check of neighbouring characters is equivalent to the rule on whole levels |
| TopicMatch.SlashesAreLevels | lib/mosquitto/lib/util_topic.c:51-80 | The number of '/' counted by the checks is the number of levels less one |
| TopicMatch.SkipLevel | lib/mosquitto/lib/util_topic.c:228-233 | The loop for '+' ends at the next '/' or at the end, and fails on a wildcard in the topic |
| TopicMatch.MatchesSub | lib/mosquitto/lib/util_topic.c:193-319 | The two-cursor loop on NUL-terminated strings computes one step function, error results included |
| TopicMatch.MatchesSub2 | lib/mosquitto/lib/util_topic.c:322-446 | The length-delimited loop computes the same step function, so also on invalid filters and topics |
| TopicMatch.MatchersAgree | lib/mosquitto/lib/util_topic.c:193-446 | Both matchers return the same code and the same result on every pair of NUL-free strings |
| TopicMatch.MatchAfterEqual | lib/mosquitto/lib/util_topic.c:280-306 | Dropping one equal literal character on both sides does not change the level-wise match |
| TopicMatch.MatchAfterPlus | lib/mosquitto/lib/util_topic.c:226-237 | '+' stands for the rest of the current level, whatever it is |
| TopicMatch.MatchAtDifference | lib/mosquitto/lib/util_topic.c:256-279 | At a difference the match fails, unless the filter goes on with '/#' after the whole topic |
| TopicMatch.WalkIsLevelMatch | lib/mosquitto/lib/util_topic.c:193-319 | From every pair of cursors the loop can reach, the step function is the level-wise match of what is left |
| TopicMatch.MatcherIsLevelMatch | lib/mosquitto/lib/util_topic.c:193-319 | For every accepted non-empty filter and topic the matcher reports no error and answers exactly the level-wise match of section 4.7 of MQTT Version 5.0, '$' rule included |
| Utf8.ValidateUtf8 | lib/mosquitto/lib/utf8_mosq.c:24-110 | Accepts exactly the encodings of allowed code points, for every buffer of at most 65536 bytes with a NUL behind; never reads past the NUL |
| Utf8.LeadByte | lib/mosquitto/lib/utf8_mosq.c:36-64 | The lead byte decides the length and the first bits; the bytes that cannot lead are refused |
| Utf8.Reconstruct | lib/mosquitto/lib/utf8_mosq.c:66-77 | The inner loop succeeds exactly when all continuation bytes are there, although its own test for missing data covers one case only |
| Utf8.PointOk | lib/mosquitto/lib/utf8_mosq.c:79-107 | The range checks accept exactly the allowed code points in their shortest form |
| Utf8.DecodeEncode | lib/mosquitto/lib/utf8_mosq.c:24-110 | Decoding the encoding of a list of code points gives the list back |
| Utf8.EncodeDecode | lib/mosquitto/lib/utf8_mosq.c:24-110 | What decodes is the encoding of allowed code points: no overlong form gets through |
| Utf8.DecodesExactlyValid | lib/mosquitto/lib/utf8_mosq.c:24-110 | A string decodes if and only if it is valid, and it has one decoding |
| Wire.VarintBytes | lib/mosquitto/lib/packet_datatypes.c:260-273 | The fewest digits to the base 128 that hold the number, and five exactly from 2^28, for which there is no encoding |
| Wire.VarintBytesIsLength | lib/mosquitto/lib/packet_datatypes.c:260-273 | The number is the length of the encoding that packet__write_varint writes |
| Wire.LostExactly | lib/mosquitto/lib/packet_datatypes.c:143-148 | A length cut to 16 bits loses nothing if and only if it is at most 65535; otherwise a multiple of 65536 bytes is lost and the rest, from the start, is kept |
| Wire.BadVarintIsMalformed | lib/mosquitto/lib/packet_datatypes.c:204-234 | Every refusal of a varint, overlong ones included, is the malformed-packet code |
| Wire.VarintBijection | lib/mosquitto/lib/packet_datatypes.c:204-257 | A number is read from a string if and only if it is below 2^28 and the string starts with its canonical encoding; exactly those bytes are used |
| Wire.U32RoundTrip | lib/mosquitto/lib/packet_datatypes.c:176-201 | A 32-bit number is read back, and only its encoding reads as it |
| Wire.StringRoundTrip | lib/mosquitto/lib/packet_datatypes.c:124-148 | A valid string is read back with its length |
| Wire.ParsedStringEncoded | lib/mosquitto/lib/packet_datatypes.c:124-148 | What reads as a string is the encoding of a valid string |
| PacketData.Packet.Cleanup | lib/mosquitto/lib/packet_mosq.c:89-102 | The packet is empty and its remaining-length multiplier is 1, ready for the next packet |
| PacketData.Packet.Alloc | lib/mosquitto/lib/packet_mosq.c:50-87 | Writes the fixed header and reserves the rest; refuses a remaining length that needs a fifth byte |
| PacketData.Packet.Digits | lib/mosquitto/lib/packet_mosq.c:59-72 | The digit loop produces the varint encoding of the remaining length |
| PacketData.Packet.WriteByte | lib/mosquitto/lib/packet_datatypes.c:61-68 | With room for the byte the assertion holds and the written part grows by it |
| PacketData.Packet.WriteBytes | lib/mosquitto/lib/packet_datatypes.c:83-90 | With room for the bytes the assertion holds and the written part grows by them |
| PacketData.Packet.WriteUint16 | lib/mosquitto/lib/packet_datatypes.c:169-173 | The written part grows by the two bytes, high byte first |
| PacketData.Packet.WriteUint32 | lib/mosquitto/lib/packet_datatypes.c:195-201 | The written part grows by the four bytes, high byte first |
| PacketData.Packet.WriteString | lib/mosquitto/lib/packet_datatypes.c:143-148 | The written part grows by the length and the string |
| PacketData.Packet.WriteVarint | lib/mosquitto/lib/packet_datatypes.c:237-257 | The written part grows by the encoding; a fifth byte is written before the error is reported |
| PacketData.Packet.WriteVarintUntilFull | lib/mosquitto/lib/packet_datatypes.c:237-257 | With less room than the encoding needs the assertion fails at the first byte without room, and only then |
| PacketData.Packet.WriteBytesUntilFull | lib/mosquitto/lib/packet_datatypes.c:83-90 | The assertion fails if and only if there is less room than bytes, and nothing is written then |
| PacketData.Packet.ReadByte | lib/mosquitto/lib/packet_datatypes.c:49-58 | Reads the byte at the cursor or reports a malformed packet without moving |
| PacketData.Packet.ReadBytes | lib/mosquitto/lib/packet_datatypes.c:71-80 | Reads count bytes, or reports a malformed packet without moving, for every count up to where the 32-bit sum of position and count would wrap |
| PacketData.BoundTestExactly | lib/mosquitto/lib/packet_datatypes.c:71-80 | The wrapping test in front of a read is right if and only if the sum does not wrap, or what it wraps to is above the bound |
| PacketData.Packet.ReadUint16 | lib/mosquitto/lib/packet_datatypes.c:151-166 | Refines the parser of 16-bit numbers on the unread part |
| PacketData.Packet.ReadUint32 | lib/mosquitto/lib/packet_datatypes.c:176-192 | Refines the parser of 32-bit numbers on the unread part |
| PacketData.Packet.ReadVarint | lib/mosquitto/lib/packet_datatypes.c:204-234 | Refines the varint parser: same value, same count, same refusals; the cursor stays in the packet |
| PacketData.Packet.ReadBinary | lib/mosquitto/lib/packet_datatypes.c:93-121 | Refines the parser of length-prefixed data and puts a NUL behind it |
| PacketData.Packet.ReadString | lib/mosquitto/lib/packet_datatypes.c:124-140 | Refines the parser of strings: refused exactly when too long for the packet or not valid |
| Properties.CheckAllAccepts | lib/mosquitto/lib/property_mosq.c:927-979 | The list is accepted exactly when each property is allowed in the command, its value is legal, and only user properties repeat |
| Properties.PropertyCheckAll | lib/mosquitto/lib/property_mosq.c:927-979 | The nested loop computes that check, with the error code of the first failing property |
| Properties.PropertyLengthIsExact | lib/mosquitto/lib/property_mosq.c:264-331 | The switch gives the length of the encoding for every identifier and value |
| Properties.GetLengthAll | lib/mosquitto/lib/property_mosq.c:334-345 | The 32-bit sum is the encoded length modulo 2^32 |
| Properties.GetRemainingLength | lib/mosquitto/lib/property_mosq.c:350-357 | The length of the list with its own length in front, as far as 32 bits hold it, and what the wrapping sum is beyond |
| Properties.WriteValue | lib/mosquitto/lib/property_mosq.c:360-423 | Each kind of value is written in its encoding; a number of 2^28 and more is written and then reported as malformed |
| Properties.WriteProperty | lib/mosquitto/lib/property_mosq.c:360-423 | Identifier and value are written and the cursor stays in bounds; malformed exactly for a number without an encoding in four bytes |
| Properties.WriteAll | lib/mosquitto/lib/property_mosq.c:426-444 | The list is written in order, with or without its length, filling exactly the encoded length; when the length has no encoding in four bytes only its five are written, and the packet is reported as malformed |
| Properties.ReadValue | lib/mosquitto/lib/property_mosq.c:56-149 | Each kind of value is read from its encoding and the counter is charged what the code charges |
| Properties.ReadProperty | lib/mosquitto/lib/property_mosq.c:36-149 | One property is read; the identifier costs one byte on the counter |
| Properties.KnownIdIsOneByte | lib/mosquitto/lib/property_mosq.c:50-54 | A known identifier takes one byte, so the charge is right whenever reading goes on |
| Properties.ReadCounted | lib/mosquitto/lib/property_mosq.c:163-186 | The loop on a wrapping 32-bit counter refines the recursive parser; every turn shrinks the unread input |
| Properties.CountedIsExact | lib/mosquitto/lib/property_mosq.c:152-194 | Success means that exactly the declared number of bytes was consumed and that they encode the list: a wrapped counter cannot come back to 0 |
| Properties.CountedRoundTrip | lib/mosquitto/lib/property_mosq.c:163-186 | The encoding of a list with its length is read back as the list |
| Properties.PropertyRoundTrip | lib/mosquitto/lib/property_mosq.c:36-149 | One encoded property is read back, for every kind of value |
| Properties.ReadAll | lib/mosquitto/lib/property_mosq.c:152-194 | Refines the parser of property lists, checks at the end included |
| Properties.ListBijection | lib/mosquitto/lib/property_mosq.c:152-194 | A list is read if and only if the input starts with its encoding, it passes the checks, and its strings and numbers are fit for the wire |
| Publish.SendRealPublish | lib/mosquitto/lib/send_publish.c:137-221 | For topics of any length: refused as oversize or too long by the computed length; otherwise no assertion on the cursor fails and the packet is full, one frame with header, topic, identifier, property lists and expiry, payload, if and only if the topic has at most 65535 bytes and the properties less than 2^28; an assertion fails exactly for a short topic with more, and with a long topic as much as was cut off it is missing at the end, less five bytes if the properties are too many |
| Publish.PublishLength | lib/mosquitto/lib/send_publish.c:147-176 | The computed length counts the whole topic, and properties with their length unless they are too many, although of a topic over 65535 bytes less is written |
| Publish.WriteTailWithout | lib/mosquitto/lib/send_publish.c:206-218 | With too many properties their length takes five bytes for which no room was counted: without other room one of the two assertions fails, with the room a cut topic leaves none does |
| Publish.TooManyExample | lib/mosquitto/lib/send_publish.c:167-171 | 2048 user properties of twice 65535 bytes are a legal list, pass the size checks of a connection without limit, and are too many |
| Publish.OversizeCheckOffByOne | lib/mosquitto/lib/packet_mosq.c:196-208 | The check lets a packet through exactly when it is at most one byte longer than the limit, because the command byte is not counted |
| Publish.OversizeExample | lib/mosquitto/lib/packet_mosq.c:196-208 | A packet of five bytes passes the check for a peer that accepts four |
| Publish.HandlePublish | lib/mosquitto/lib/handle_publish.c:56-115 | Refines the decoder: flags, topic, quota test, identifier, properties, payload, with the error codes in order |
| Publish.PublishRoundTrip | lib/mosquitto/lib/handle_publish.c:56-115 | Every legal message is decoded to itself: dup, QoS, retain, topic, identifier, properties and payload |
| Publish.DecodesExactlyEncodings | lib/mosquitto/lib/handle_publish.c:56-115 | The decoder produces a message exactly when it is legal and the input is its encoding |
| Encoders.SendCommandWithMid | lib/mosquitto/lib/send_mosq.c:121-164 | Acknowledgements fill their packet exactly, or are refused as too long; reason and properties are written only in MQTT 5; dup sets the duplicate bit and no other |
| Encoders.TopicListLength | lib/mosquitto/lib/send_subscribe.c:51-63 | The summed length is the length of the list, and a topic over 65535 bytes is refused |
| Encoders.SendSubscribe | lib/mosquitto/lib/send_subscribe.c:39-101 | SUBSCRIBE fills its packet exactly with identifier, properties and topics with their options |
| Encoders.WriteTopicList | lib/mosquitto/lib/send_unsubscribe.c:50-87 | Topics are written one after the other; UNSUBSCRIBE has no option byte |
| Encoders.ConnectPayloadLength | lib/mosquitto/lib/send_connect.c:101-135 | The payload length is that of identifier, will, user name and password, each counted in full although at most 65535 bytes of it are written |
| Encoders.SendConnect | lib/mosquitto/lib/send_connect.c:37-213 | For strings of any length no assertion on the cursor fails; the packet holds, in the order of section 3.1 of MQTT Version 5.0, of each string what 16 bits of its length give, and is full if and only if identifier, will topic and payload, user name and password have at most 65535 bytes each; otherwise exactly the bytes cut off are missing at its end. A Receive Maximum is added when there is none; a bridge sets its private version bit and leaves out a will that is only for local clients |
| Encoders.LostBytesExactly | lib/mosquitto/lib/send_connect.c:184-202 | Nothing is cut off if and only if every string is short enough, and then what is written is the whole CONNECT |
| Encoders.ShortConnectHolds | lib/mosquitto/lib/send_connect.c:137-204 | With short strings the packet is the frame of the CONNECT |
| Encoders.LongWillExample | lib/mosquitto/lib/send_connect.c:114-114 | A will payload of 65536 bytes is accepted and counted, and the will that goes out is empty, with 65536 bytes unwritten behind the rest |
| Encoders.FlagsTellExactly | lib/mosquitto/lib/send_connect.c:158-171 | The flags announce user name and will exactly when they follow; the password exactly when a bridge has a password of its own just when it sends one |
| PacketReader.FeedConcat | lib/mosquitto/lib/packet_mosq.c:343-566 | The reader without interruptions is an automaton fed byte by byte: feeding two pieces is feeding them joined |
| PacketReader.PausesDoNotMatter | lib/mosquitto/lib/packet_mosq.c:343-566 | As long as no packet with a zero command is under way while bytes are still to come, the ends of the calls change neither what is delivered nor what is in progress |
| PacketReader.CutsMatterExactly | lib/mosquitto/lib/packet_mosq.c:376-391 | What the reader makes of a stream and of its beginnings does not depend on how it is cut if and only if no packet in it starts with a command byte of 0 that something follows |
| PacketReader.FeedLength | lib/mosquitto/lib/packet_mosq.c:417-455 | The bytes of an encoded remaining length accumulate to its value |
| PacketReader.FrameIsDelivered | lib/mosquitto/lib/packet_mosq.c:343-566 | A frame is delivered as it is by an uninterrupted reader; with a non-zero command byte interruptions do not matter either |
| PacketReader.FramesAreDelivered | lib/mosquitto/lib/packet_mosq.c:343-566 | A stream of frames is delivered frame by frame in order, with nothing left over |
| PacketReader.PrefixIsDelivered | lib/mosquitto/lib/packet_mosq.c:343-566 | What has been delivered at any moment is a prefix of the frames sent, and the stream is one whose cuts do not matter |
| PacketReader.PublishedMessagesArrive | lib/mosquitto/lib/send_publish.c:137-221 | Messages encoded, read in any number of calls that end anywhere, and reassembled, are decoded to the same messages in the same order |
| PacketReader.Reader.AddLengthByte | lib/mosquitto/lib/packet_mosq.c:420-431 | One byte of the remaining length: the sum stays below 2^28, a fifth byte is refused |
| PacketReader.Reader.ReadLength | lib/mosquitto/lib/packet_mosq.c:417-455 | The length loop can stop at any byte and be resumed, whatever the command byte |
| PacketReader.Reader.ReadBody | lib/mosquitto/lib/packet_mosq.c:505-548 | The body loop can stop at any byte and be resumed |
| PacketReader.Reader.PacketRead | lib/mosquitto/lib/packet_mosq.c:343-566 | One call moves the reader exactly as far as the bytes it got and its own end move the automaton, zero command bytes included, and hands over at most one packet |
| PacketReader.Reader.PacketReads | lib/mosquitto/lib/packet_mosq.c:343-566 | Any number of calls on any network keep the reader in step with the automaton; on a stream whose cuts do not matter they deliver what one uninterrupted walk would |
| PacketWriter.Writer.Queue | lib/mosquitto/lib/packet_mosq.c:142-193 | The packet is behind all others; what is sent stays a prefix of what was queued |
| PacketWriter.Writer.WriteCurrent | lib/mosquitto/lib/packet_mosq.c:251-280 | Partial writes keep cursor and rest in step: the bytes sent and the bytes left are the packet |
| PacketWriter.Writer.Finish | lib/mosquitto/lib/packet_mosq.c:282-323 | The next packet becomes current, the count goes down, a DISCONNECT closes the link |
| PacketWriter.Writer.Write | lib/mosquitto/lib/packet_mosq.c:211-340 | For any results of the socket, sent bytes, bytes left and waiting packets together are what was queued, in order; the count is that of the waiting list |
| PacketWriter.Writer.Drained | lib/mosquitto/lib/packet_mosq.c:211-340 | With nothing left to write everything queued has been sent |
| ClientQos.ReleaseBalance | lib/mosquitto/lib/messages_mosq.c:192-220 | Releasing turns quota into messages in flight one for one |
| ClientQos.ReleaseTail | lib/mosquitto/lib/messages_mosq.c:192-220 | When the waiting messages are the tail of the list, releasing sends exactly the first of them that the quota allows, in order |
| ClientQos.ResetBalance | lib/mosquitto/lib/messages_mosq.c:164-187 | After a reset no more messages are in flight than the maximum has been charged for |
| ClientQos.NeverOverMaximum | lib/mosquitto/lib/messages_mosq.c:122-220 | In every run with acknowledgements for sent messages, messages in flight plus quota never exceed the maximum, across reconnects and changed limits |
| ClientQos.AlwaysOrderly | lib/mosquitto/lib/messages_mosq.c:140-220 | With a fixed maximum the sum equals it, waiting messages are the tail of the list and wait only at quota 0, and first transmissions are in publish order without gaps |
| ClientQos.RetryInOrder | lib/mosquitto/lib/messages_mosq.c:278-314 | A resend covers exactly the interrupted messages, each once, in publish order |
| ClientQos.RetrySendsNoFirst | lib/mosquitto/lib/messages_mosq.c:278-314 | Nothing a resend puts on the wire counts as a first transmission |
| ClientQos.AckKeepsAccountExactly | lib/mosquitto/lib/handle_pubackcomp.c:60-158 | The account stays exact if and only if the acknowledgement names a sent message with an accepted reason or the quota is full; otherwise it is one too high |
| ClientQos.UnknownAckExample | lib/mosquitto/lib/handle_pubackcomp.c:60-62 | Two publishes and a PUBACK for an identifier never used: two messages in flight where one is allowed |
| ClientQos.PubrecKeepsAccountExactly | lib/mosquitto/lib/handle_pubrec.c:104-132 | A PUBREC keeps the account exact if and only if it is refused, names a sent message, or meets one of two further conditions; otherwise it is one too high |
| ClientQos.UnknownPubrecExample | lib/mosquitto/lib/handle_pubrec.c:104-122 | The same with QoS 2 and a PUBREC that carries an error reason |
| ClientQos.ConnackKeepsAccountExactly | lib/mosquitto/lib/handle_connack.c:106-125 | After CONNACK the account is exact if and only if none of the messages within the new maximum waits |
| ClientQos.RaisedLimitExample | lib/mosquitto/lib/handle_connack.c:106-125 | A CONNACK raises the limit to two: one message is in flight, one waits, and no quota is left |
| ClientQos.ReleaseSendsWaiting | lib/mosquitto/lib/messages_mosq.c:192-220 | A release sends the waiting messages from the first on, in order, as many as there is quota for |
| ClientQos.SentAgainExactly | lib/mosquitto/lib/handle_connack.c:106-125 | After a CONNACK a message that has been sent is published once more by the next releases, as it was the first time and even past its PUBREC, if and only if its index reaches the new maximum |
| ClientQos.PublishedAgainExample | lib/mosquitto/lib/handle_connack.c:106-125 | Two QoS 2 messages past their PUBREC, a limit lowered to one and a PUBCOMP: the second is published again as new, behind its PUBREL |
| ClientQos.FirstSentAsDuplicateExactly | lib/mosquitto/lib/messages_mosq.c:163-188 | A message that has never been sent goes out as a duplicate after a reconnect if and only if it has QoS 1 and its index is below the maximum then and the one the CONNACK sets |
| ClientQos.FirstSentAsDuplicateExample | lib/mosquitto/lib/messages_mosq.c:163-188 | A message that waits when the limit is raised is sent for the first time after the next reconnect, marked as a duplicate |
| ClientQos.OrderlyWaitsBeyond | lib/mosquitto/lib/messages_mosq.c:163-188 | With a fixed maximum a waiting message has an index beyond it, so that does not happen |
| ClientQos.MidsRepeatAfter65535 | lib/mosquitto/lib/util_mosq.c:136-155 | Packet identifiers are never 0 and repeat exactly after 65535 calls |
| ClientQos.AckOrderly | lib/mosquitto/lib/handle_pubackcomp.c:60-158 | An acknowledgement removes its message and sends the next waiting one, keeping order and account |
| ClientQos.PubrecOrderly | lib/mosquitto/lib/handle_pubrec.c:104-132 | Both branches of PUBREC keep order and account |
| ClientQos.PublishOrderly | lib/mosquitto/lib/actions.c:123-162 | A publish appends, and sends only if nothing waits before it |
| ClientQos.ResetOrderly | lib/mosquitto/lib/messages_mosq.c:140-189 | Both kinds of reset keep order and account |
| ClientReceive.NothingLostOrRepeated | lib/mosquitto/lib/handle_pubrel.c:109-135 | Over every run with any identifiers, duplicates and reconnects, accepted messages are exactly those delivered and those held, none delivered twice; queue_len is the number held |
| ClientReceive.PubrelDelivers | lib/mosquitto/lib/handle_pubrel.c:109-135 | A PUBREL delivers the oldest message held under its identifier, and nothing when there is none |
| ClientReceive.DirectInOrder | lib/mosquitto/lib/handle_publish.c:123-156 | QoS 0 and 1 messages are delivered in the order of their arrival |
| ClientReceive.QuotaIsExact | lib/mosquitto/lib/handle_publish.c:72-79 | On MQTT 5, with PUBRELs for held messages, receive quota plus held messages equals the maximum in every run |
| ClientReceive.PubrelKeepsQuotaExactly | lib/mosquitto/lib/send_mosq.c:82-92 | A PUBREL keeps that account if and only if it names a held message or the quota is full |
| ClientReceive.UnknownPubrelExample | lib/mosquitto/lib/send_mosq.c:82-92 | After a PUBREL for an identifier that is not held a message is held and the quota is full |
| ClientReceive.OldProtocolChargesWhileQuotaLasts | lib/mosquitto/lib/handle_publish.c:139-166 | Before MQTT 5 the account breaks exactly at a QoS 1 or 2 message that finds no quota |
| ClientReceive.RetransmissionIsHeldTwice | lib/mosquitto/lib/handle_publish.c:158-166 | Held identifiers stay distinct if and only if the arriving one was not held: a retransmission is held again |
| ClientReceive.PubrelEndsExchange | lib/mosquitto/lib/handle_pubrel.c:109-135 | With distinct identifiers a PUBREL ends the exchange; of a message held twice one stays behind |
| ClientReceive.DeliveredTwiceExample | lib/mosquitto/lib/handle_publish.c:158-166 | A QoS 2 message, its retransmission and two PUBRELs: the application gets it twice |
| ClientReceive.KeepsAllHeld | lib/mosquitto/lib/messages_mosq.c:145-160 | A reset keeps every held message and charges each once |
| ClientEngine.Client.constructor | lib/mosquitto/lib/mosquitto.c:179-185 | A new client: empty lists, full quotas |
| ClientEngine.Client.IncrementSendQuota | lib/mosquitto/lib/util_mosq.c:217-222 | Saturates at the maximum |
| ClientEngine.Client.DecrementReceiveQuota | lib/mosquitto/lib/util_mosq.c:225-230 | Saturates at 0 |
| ClientEngine.Client.GenerateMid | lib/mosquitto/lib/util_mosq.c:136-155 | The next identifier, skipping 0 |
| ClientEngine.Client.QueueOutgoing | lib/mosquitto/lib/messages_mosq.c:122-138 | Append, count and release |
| ClientEngine.Client.ReleaseToInflight | lib/mosquitto/lib/messages_mosq.c:192-220 | The loop over the list takes the release step: states, quota and packets sent |
| ClientEngine.Client.RemoveOutgoing | lib/mosquitto/lib/messages_mosq.c:223-251 | Finds the first message with the identifier; a wrong QoS is a protocol error |
| ClientEngine.Client.RemoveIncoming | lib/mosquitto/lib/messages_mosq.c:252-275 | The same for held messages, returning the message |
| ClientEngine.Client.UpdateOutgoing | lib/mosquitto/lib/messages_mosq.c:323-343 | Changes the state of the first message with the identifier |
| ClientEngine.Client.ResetIncoming | lib/mosquitto/lib/messages_mosq.c:145-160 | The loop that deletes while it walks: messages below QoS 2 go, the quota is charged for the rest, all visited are counted |
| ClientEngine.Client.ResetOutgoing | lib/mosquitto/lib/messages_mosq.c:163-188 | The loop that charges the quota message by message and sets the states |
| ClientEngine.Client.RetryCheck | lib/mosquitto/lib/messages_mosq.c:278-314 | The loop sends each message what its state calls for and marks it as duplicate |
| ClientEngine.Client.Publish | lib/mosquitto/lib/actions.c:111-162 | Identifier, append as waiting, release |
| ClientEngine.Client.HandlePubackcomp | lib/mosquitto/lib/handle_pubackcomp.c:41-162 | Quota first, then the checks, the removal and the release; a packet that cannot be read returns quota like one with identifier 0 |
| ClientEngine.Client.HandlePubrec | lib/mosquitto/lib/handle_pubrec.c:40-133 | PUBREL on success, end of the exchange on an MQTT 5 error, and nothing for a packet that cannot be read |
| ClientEngine.Client.HandlePubrel | lib/mosquitto/lib/handle_pubrel.c:41-141 | PUBCOMP and quota first, then the delivery of the held message; nothing for a packet that cannot be read |
| ClientEngine.Client.HandlePublish | lib/mosquitto/lib/handle_publish.c:72-172 | The QoS branches: deliver, acknowledge and deliver, or hold |
| ClientEngine.Client.HandleConnack | lib/mosquitto/lib/handle_connack.c:106-136 | New limit, second reset, resend unless refused |
| ClientEngine.Client.Reconnect | lib/mosquitto/lib/connect.c:192-192 | The reset of both directions before a new connection |
| ClientEngine.Client.HandleAll | lib/mosquitto/lib/messages_mosq.c:122-343 | Every run of the class, whatever the events, is a run of the two state machines |
| ClientEngine.EveryRunIsSafe | lib/mosquitto/lib/messages_mosq.c:122-343 | The safety of all runs of a new client, both directions together |
| BrokerMsgs.RecountConcat | lib/mosquitto/src/database.c:141-180 | Counting a list is additive, so moving a message moves its share of the counters |
| BrokerMsgs.WalkKeepsOrder | lib/mosquitto/src/database.c:851-867 | A reconnect moves messages from queue to flight and loses, repeats or reorders none |
| BrokerMsgs.PromoteKeepsOrder | lib/mosquitto/src/database.c:398-417 | The same for the loop after an acknowledgement |
| BrokerMsgs.ReleaseKeepsOrder | lib/mosquitto/src/database.c:1003-1016 | The same for the loop after a PUBREL |
| BrokerMsgs.ReconnectStrandsExactly | lib/mosquitto/src/database.c:851-867 | The loop marks one message and moves another: it leaves a message in flight that is never sent if and only if a message behind the first one without room has room |
| BrokerMsgs.ResetStrandsExactly | lib/mosquitto/src/database.c:809-870 | The whole reset, for any lists a client can have, leaves a message in flight that is never sent if and only if a message behind the first one without room has room |
| BrokerMsgs.NoQos0NoneStranded | lib/mosquitto/src/database.c:851-867 | With no QoS 0 message in the queue that cannot happen |
| BrokerMsgs.StrandedExample | lib/mosquitto/src/database.c:809-870 | A reset with one message in flight and a limit of one: a queued QoS 1 message goes in flight unmarked because a QoS 0 message behind it has room |
| BrokerMsgs.ReleasesOnlyWhenFull | lib/mosquitto/src/database.c:1003-1016 | The room test is the wrong way round: queued QoS 2 messages go in flight if and only if there is no room, and then all of them |
| BrokerMsgs.ReleasesTooManyExample | lib/mosquitto/src/database.c:1003-1016 | With a limit of one, a QoS 2 message, a reconnect and two more messages, one PUBREL puts both of these in flight |
| BrokerMsgs.TakesEveryMatch | lib/mosquitto/src/database.c:974-1001 | Unless an error stops it, a PUBREL takes out every message with its identifier and keeps the others in order |
| BrokerMsgs.DequeueBalancedExactly | lib/mosquitto/src/database.c:359-374 | Quota and messages in flight stay in balance if and only if the head has QoS above 0 exactly when quota is left |
| BrokerMsgs.Qos0TakesQuotaExample | lib/mosquitto/src/database.c:359-374 | A QoS 0 message queued while its client was away takes the only quota, which nobody returns |
| BrokerMsgs.ChargedIs | lib/mosquitto/src/database.c:823-827 | The quota after a reset is the maximum less the messages with QoS above 0, or 0 |
| BrokerMsgs.WriteBalancedExactly | lib/mosquitto/src/database.c:1024-1116 | The balance breaks exactly when a QoS 1 or 2 message is dropped as oversize: its quota is not returned |
| BrokerMsgs.OversizeTakesQuotaExample | lib/mosquitto/src/database.c:1024-1116 | A message too big for the client takes the only quota with it |
| BrokerMsgs.WriteSendsAll | lib/mosquitto/src/database.c:1119-1133 | Unless a send fails, everything due from a position on goes out and nothing before it changes |
| BrokerMsgs.LatestFindsAllExactly | lib/mosquitto/src/database.c:1148-1169 | Looking back from the end finds every message to be published if and only if none stands before a published one |
| BrokerMsgs.LatestMissesExample | lib/mosquitto/src/database.c:1136-1178 | After a reset whose first send fails, a message to be published stands where the search from the end does not come |
| BrokerMsgs.AckBalancedExactly | lib/mosquitto/lib/handle_pubackcomp.c:60-141 | A PUBACK or PUBCOMP keeps quota and messages in flight in balance if and only if it names a message it may end, or the quota was full |
| BrokerMsgs.RefusedTakesQuotaExactly | lib/mosquitto/lib/handle_pubrec.c:98-102 | In the broker a PUBREC with an error reason takes a message out of flight without returning its quota: the balance is kept if and only if no message is found |
| BrokerMsgs.RefusedTakesQuotaExample | lib/mosquitto/lib/handle_pubrec.c:98-102 | The only message a client may have in flight is refused: nothing is in flight, and no quota is left |
| BrokerMsgs.QueueReadyExactly | lib/mosquitto/src/database.c:100-138 | A message may be queued if and only if every limit that is set still has room, the in-flight maximum added for a connected client, and a QoS 0 message may be queued at all |
| BrokerMsgs.AppendKeepsBound | lib/mosquitto/src/database.c:100-138 | The test keeps the queue within its limit: at most the configured number and the in-flight maximum of messages with QoS above 0 |
| BrokerMsgs.Qos0QueueIsUnbounded | lib/mosquitto/src/database.c:116-117 | QoS 0 messages for an offline client are not counted: whatever the limit, any number of them can be queued one after the other |
| BrokerMsgs.DecisionIs | lib/mosquitto/src/database.c:436-533 | A wanted message that is no duplicate goes in flight exactly when the client is there and has room; with QoS above 0 it is queued exactly when not in flight and every limit has room, and dropped exactly otherwise; nothing else is dropped or queued |
| BrokerMsgs.CheckKeepsCountersExactly | lib/mosquitto/src/handle_connect.c:86-107 | The permission check at a login deletes messages without uncounting them: the counters stay as they are, so they stay right if and only if it deletes none |
| BrokerMsgs.DeniedStaysCountedExample | lib/mosquitto/src/handle_connect.c:251-254 | A takeover with one message in flight that is no longer permitted: no message is left, one is counted, and its quota stays taken |
| BrokerMsgs.RetransmissionAddsNothing | lib/mosquitto/src/handle_publish.c:289-347 | A QoS 2 message that comes again while its first copy is stored adds nothing to the lists |
| BrokerMsgs.StoredIsRecognised | lib/mosquitto/src/handle_publish.c:289-302 | A message in either list is recognised when it comes again, if what is stored under its identifier has its content |
| BrokerMsgs.ReusedIsClearedExactly | lib/mosquitto/src/handle_publish.c:293-302 | A reused identifier clears the old message away if and only if that is in flight with QoS 2; one that is only queued stays beside the new one |
| BrokerLists.MsgData.AddToInflightStats | lib/mosquitto/src/database.c:141-149 | Four counters up by the message's share |
| BrokerLists.MsgData.RemoveFromQueuedStats | lib/mosquitto/src/database.c:172-180 | Four counters down by the message's share |
| BrokerLists.MsgData.ReadyForFlight | lib/mosquitto/src/database.c:38-89 | Whether there is room, from the counters, case by case |
| BrokerLists.MsgData.DequeueFirst | lib/mosquitto/src/database.c:359-374 | The head of the queue goes in flight with its share of counters and quota; counters stay right, references stay the same |
| BrokerLists.MsgData.Unlink | lib/mosquitto/src/database.c:342-351 | A message leaves the list and the counters |
| BrokerLists.MsgData.PromoteQueued | lib/mosquitto/src/database.c:398-417 | The loop puts messages in flight while there is room |
| BrokerLists.MsgData.RestartInflight | lib/mosquitto/src/database.c:823-844 | The loop rebuilds counters, quota and states from zero |
| BrokerLists.MsgData.WalkQueued | lib/mosquitto/src/database.c:851-867 | The loop counts the queue while its head moves away; in the end all counters are right |
| BrokerLists.MsgData.ReconnectResetOutgoing | lib/mosquitto/src/database.c:809-870 | Whatever the counters were, all eight agree with a recount afterwards, and no reference changes |
| BrokerLists.MsgData.ReleaseQueued | lib/mosquitto/src/database.c:1003-1016 | The loop after a PUBREL, counters kept right |
| BrokerLists.MsgData.WriteQueuedIn | lib/mosquitto/src/database.c:1190-1205 | The loop that answers queued messages, counters kept right |
| BrokerLists.MsgData.ForgetInflight | lib/mosquitto/src/handle_connect.c:86-107 | A message leaves the list but not the counters |
| BrokerLists.MsgData.TakeFrom | lib/mosquitto/src/handle_connect.c:140-157 | Lists and counters of another session move here, quota and maximum stay, and the other is blank |
| BrokerStore.Store.MessageStore | lib/mosquitto/src/database.c:734-781 | A new message at the front of the list, counted, with no reference and its own id |
| BrokerStore.Store.Remove | lib/mosquitto/src/database.c:280-297 | Unlinked, uncounted and gone; the others stay in order |
| BrokerStore.Store.RefInc | lib/mosquitto/src/database.c:312-315 | One reference more for one holder more |
| BrokerStore.Store.RefDec | lib/mosquitto/src/database.c:317-324 | The message is freed exactly with its last reference |
| BrokerStore.Store.Compact | lib/mosquitto/src/database.c:327-339 | Exactly the messages somebody holds stay, in order |
| BrokerDb.Context.MessageRemove | lib/mosquitto/src/database.c:342-356 | Out of the list, out of the counters, one reference less; nobody else's references change |
| BrokerDb.Context.WriteInflightOutSingle | lib/mosquitto/src/database.c:1024-1116 | Expiry, send, wait or leave, by state and result of the send |
| BrokerDb.Context.WriteInflightOutFrom | lib/mosquitto/src/database.c:1171-1177 | The loop over a list from which messages disappear |
| BrokerDb.Context.WriteInflightOutAll | lib/mosquitto/src/database.c:1119-1133 | Everything in flight is written, if the client is there |
| BrokerDb.Context.WriteInflightOutLatest | lib/mosquitto/src/database.c:1136-1178 | The part of the list behind the last published message is written |
| BrokerDb.Context.WriteQueuedOut | lib/mosquitto/src/database.c:1210-1237 | Queued messages go in flight while there is room |
| BrokerDb.Context.MessageDeleteOutgoing | lib/mosquitto/src/database.c:377-423 | The acknowledged message goes, queued ones follow, the new ones are written; or the acknowledgement is refused and nothing changes |
| BrokerDb.Context.MessageUpdateOutgoing | lib/mosquitto/src/database.c:612-627 | The state of the first message with the identifier changes |
| BrokerDb.Context.HandlePubackcomp | lib/mosquitto/lib/handle_pubackcomp.c:41-141 | Quota first, also for a packet that cannot be read, then the removal, the promotion of queued messages and the writing; another state refuses all |
| BrokerDb.Context.HandlePubrec | lib/mosquitto/lib/handle_pubrec.c:40-133 | The message waits for PUBCOMP, or an error reason ends it and no quota is returned |
| BrokerDb.Context.ReturnReceiveQuota | lib/mosquitto/lib/send_mosq.c:70-106 | What an acknowledgement to a client does to its receive quota |
| BrokerDb.Context.LimitOutgoing | lib/mosquitto/src/property_broker.c:40-46 | The Receive Maximum of a CONNECT sets limit and quota; 0 is a protocol error |
| BrokerDb.Context.LimitBridge | lib/mosquitto/src/handle_connack.c:86-92 | A changed Receive Maximum in a CONNACK to a bridge resets both directions under the new limit |
| BrokerDb.Context.CheckAcl | lib/mosquitto/src/handle_connect.c:251-254 | In all four lists exactly the messages no longer permitted go, in order, with their references but not their counters |
| BrokerDb.Context.MoveFrom | lib/mosquitto/src/handle_connect.c:140-157 | A session moves with counters and references; the old context points at nothing |
| BrokerDb.Context.MayTake | lib/mosquitto/src/handle_publish.c:305-307 | Whether one more message is taken from this client, from the counters |
| BrokerDb.Context.CountersAreRight | lib/mosquitto/src/database.c:141-180 | When no deleted message is still counted, all sixteen counters agree with a recount of the four lists |
| BrokerDb.Context.MessageInsert | lib/mosquitto/src/database.c:425-610 | Ignored, dropped, queued or in flight, with reference, counters, quota and destination noted; then written |
| BrokerDb.Context.WakeBridge | lib/mosquitto/src/database.c:589-596 | A bridge that connects on demand is woken when enough messages wait |
| BrokerDb.Context.MessagesDelete | lib/mosquitto/src/database.c:644-677 | Both lists of a direction are emptied, counters and references with them, under the clean-start conditions |
| BrokerDb.Context.KeepIncoming | lib/mosquitto/src/database.c:888-902 | The loop that counts a message and may remove it at once |
| BrokerDb.Context.ReconnectReset | lib/mosquitto/src/database.c:932-939 | Both directions: counters right afterwards whatever they were, references kept, queues within their limits |
| BrokerDb.Context.MessageRemoveIncoming | lib/mosquitto/src/database.c:942-959 | The first message with the identifier goes, unless it is not QoS 2 |
| BrokerDb.Context.MessageStoreFind | lib/mosquitto/src/database.c:783-805 | The first message with the source identifier, in flight before queued, or none |
| BrokerDb.Context.MessageWriteQueuedIn | lib/mosquitto/src/database.c:1181-1207 | Queued incoming messages are answered while the client is active |
| BrokerRuns.Broker.ReferenceCountIs | lib/mosquitto/src/database.c:312-324 | A reference count is the number of client messages pointing at the message plus its outside holders |
| BrokerRuns.Broker.StepClient | lib/mosquitto/src/database.c:342-677 | No operation on one client disturbs the counters of another or anybody's references |
| BrokerRuns.Broker.Deliver | lib/mosquitto/src/database.c:425-610 | An insertion for one of several clients, seen from the whole broker |
| BrokerRuns.Broker.RouteTo | lib/mosquitto/src/database.c:730-730 | Routing to any subscribers, each with its own identifier, QoS, retain flag and result of sending, takes and drops one reference and touches no incoming list and no limit |
| BrokerRuns.Broker.ReleaseIncoming | lib/mosquitto/src/database.c:962-1022 | Every held message with the identifier is routed and removed, then the queue loop runs |
| BrokerRuns.Broker.FreeClient | lib/mosquitto/src/database.c:644-677 | A client that goes takes its references with it, and the others stay |
| BrokerRuns.Broker.ClientInvariants | lib/mosquitto/src/database.c:38-180 | In every state a run reaches, for every client: its queues are within their limits, and its sixteen counters agree with a recount if no permission check has deleted a message |
| BrokerRuns.Broker.HandlePubrel | lib/mosquitto/lib/handle_pubrel.c:41-107 | Every held message with the identifier is routed and removed, then PUBCOMP returns quota, also for an unknown identifier |
| BrokerRuns.Broker.HandlePublish | lib/mosquitto/src/handle_publish.c:289-359 | A message from a client: recognised, or stored if there is room, or refused; then routed, or held with QoS 2; and the queue is answered |
| BrokerRuns.Broker.Join | lib/mosquitto/src/context.c:35-102 | A new client, with the configured limits and nothing in its lists |
| BrokerRuns.Broker.TakeOver | lib/mosquitto/src/handle_connect.c:140-160 | A session with messages moves to a new connection, which is reset under its own limits; without messages nothing happens |
| BrokerRuns.Broker.Login | lib/mosquitto/src/handle_connect.c:110-254 | A new connection with its own Receive Maximum takes over a session; all clients and lists are those from before and the new ones |
| BrokerRuns.Broker.Run | lib/mosquitto/src/database.c:251-1237 | After any sequence of operations, clients joining, leaving and taking over included, every reference count is right, nothing points at a freed message and every queue is within its limit; all counters are right too if no permission check in it denies anything |
| BrokerRuns.Rebalance | lib/mosquitto/src/database.c:312-324 | If one client's references change and the others' do not, the total follows |
| BridgeTopic.Bridge.CreatePrefix | lib/mosquitto/src/bridge_topic.c:58-97 | A prefix is accepted exactly when it is a topic name and with the pattern a filter; a refused one leaves prefix and pattern in its field |
| BridgeTopic.Bridge.AddTopic | lib/mosquitto/src/bridge_topic.c:101-185 | A line is added complete, or refused with the list as it was, or refused with a half-filled entry at its end, by the tests in their order |
| BridgeTopic.RefusalKeepsListExactly | lib/mosquitto/src/bridge_topic.c:107-127 | A refused line leaves the list as it was if and only if one of the tests before line 130 refuses it; otherwise both prefixes are valid on their own and a half-filled entry is left |
| BridgeTopic.HalfFilledExample | lib/mosquitto/src/bridge_topic.c:156-169 | The pattern '#' with the local prefix 'a': the prefix is fine, the two together are no filter, and an entry is left |
| BridgeTopic.Bridge.FullTopic | lib/mosquitto/src/bridge_topic.c:26-55 | Prefix and pattern joined, a missing part read as empty |
| BridgeTopic.Bridge.RemapTopicIn | lib/mosquitto/src/bridge_topic.c:188-245 | On any list the loop maps by the first matching line, or reports the matcher's error, or comes to a half-filled entry and reads a pattern that was never set |
| BridgeTopic.Bridge.RemapTopicOut | lib/mosquitto/lib/send_publish.c:78-122 | The same on the way out |
| BridgeTopic.CompleteRemap | lib/mosquitto/src/bridge_topic.c:188-245 | On a list of complete entries both loops are the maps of the round-trip results |
| BridgeTopic.UndefinedExactly | lib/mosquitto/src/bridge_topic.c:194-203 | An unset pattern is read if and only if a half-filled entry of the direction comes before any line that matches or fails |
| BridgeTopic.Bridge.SentTopic | lib/mosquitto/lib/send_publish.c:68-122 | A mount point is taken off by its length, a topic not longer than it is swallowed, and the rest is mapped |
| BridgeTopic.MountComesOffExactly | lib/mosquitto/lib/send_publish.c:68-76 | A mount point comes off as it was put on if and only if the topic behind it is not empty |
| BridgeTopic.LongTopicExample | lib/mosquitto/lib/send_publish.c:106-119 | A legal topic of 65535 bytes under the remote prefix 'r/' goes out with 65537 bytes, of which one is written |
| BridgeTopic.PrefixIsIrrelevant | lib/mosquitto/src/bridge_topic.c:188-245 | A literal prefix on pattern and topic changes nothing in the level-wise match |
| BridgeTopic.PrefixSwap | lib/mosquitto/src/bridge_topic.c:188-245 | Swapping one non-empty literal prefix for another keeps the matcher's outcome, for every pattern and rest |
| BridgeTopic.MatchWithoutPrefix | lib/mosquitto/src/bridge_topic.c:210-222 | A topic without the prefix matches only as the parent of a final '#' |
| BridgeTopic.BackWithPrefix | lib/mosquitto/src/bridge_topic.c:188-245 | With the prefix, the local topic is local prefix plus rest, matches the local pattern and comes back under the stated condition |
| BridgeTopic.BackWithoutPrefix | lib/mosquitto/src/bridge_topic.c:188-245 | Without the prefix the topic comes back only by accident, when it starts with '$' and there is no local prefix |
| BridgeTopic.RoundTripExactly | lib/mosquitto/lib/send_publish.c:78-122 | For one line in both directions, a matching topic comes back unchanged if and only if a condition on prefixes and first characters holds |
| BridgeTopic.RoundTripFailsExample | lib/mosquitto/lib/send_publish.c:78-122 | The pattern '#' with prefixes 'l/' and 'r/': the topic 'r' arrives as 'l/r' and would go out as 'r/r' |
| SerialFrame.ResponsePacket.constructor | src/packet/response_packet.cpp:6-15 | The body is taken apart; for a body of one byte, and no other, a byte behind it is read |
| SerialFrame.ResponsePacket.Packet | src/packet/response_packet.cpp:18-41 | The serialised frame, built once and kept |
| SerialFrame.ResponsePacket.Checksum | src/packet/response_packet.cpp:55-74 | The wrapping 8-bit sum is the sum of everything before the tail modulo 256 |
| SerialFrame.ResponsePacket.HasValidChecksum | src/packet/response_packet.cpp:47-53 | True exactly when the tail carries that sum |
| SerialFrame.RequestPacket.constructor | src/packet/request_packet.cpp:7-10 | The stored checksum is that of header and body |
| SerialFrame.RequestPacket.HeaderOnly | src/packet/request_packet.cpp:78-79 | The checksum of the header alone is the checksum a receiver computes |
| SerialFrame.RequestPacket.Packet | src/packet/request_packet.cpp:56-76 | The serialised request, with a valid checksum |
| SerialFrame.HeaderChecksumSuffices | src/packet/request_packet.cpp:32-42 | Leaving out an all-zero body does not change the sum: the three checksum functions agree |
| SerialFrame.ReceivePacket | src/gateway/gateway_manager.cpp:244-293 | The loop over the port returns what the specification says of the pending bytes and leaves the rest |
| SerialFrame.SerialPort.ReadLine | lib/serial/src/serial.cc:177-202 | Bytes are read up to the first end mark or the size, looked at once there are as many bytes as the mark has, or to the end of input, for any size and mark |
| SerialFrame.LineEndsAtFirstStop | lib/serial/src/serial.cc:183-199 | The read ends at the first place where mark or size stops it, or with the input |
| SerialFrame.StaysInBufferExactly | lib/serial/src/serial.cc:180-199 | No input makes the read leave its buffer if and only if the size is positive and not below the length of the end mark |
| SerialFrame.ShortLine | src/gateway/gateway_manager.cpp:278-279 | An end mark as long as the size never stops a read: two bytes are read or as many as there are |
| SerialFrame.FrameAfterNoise | src/gateway/gateway_manager.cpp:244-293 | Noise is skipped, the frame comes back with every field, and the next call starts behind it |
| SerialFrame.FramesInOrder | src/gateway/gateway_manager.cpp:244-293 | Successive calls return the frames of a stream in order, whatever noise is between them |
| SerialFrame.ReceivedExactly | src/gateway/gateway_manager.cpp:244-293 | A frame is returned if and only if the input is noise, the frame and the rest, or stops just before an end byte that reads as 0 |
| SerialFrame.NoHeaderExactly | src/gateway/gateway_manager.cpp:247-292 | The header failure means exactly that no start byte has anything behind it |
| SerialFrame.OutOfBoundsExactly | src/gateway/gateway_manager.cpp:244-293 | Receiving reads behind the body if and only if the input is noise, a start byte, four bytes, a length of 1, one byte and at least one more; of what follows the body at most two bytes are used up |
| SerialFrame.OutOfBoundsExample | src/packet/response_packet.cpp:10-14 | Eight bytes for which it happens |
| SerialFrame.CopySlaveIds | src/gateway/gateway_manager.cpp:619-620 | The data of every received frame fits the array of slave ids |
| SerialFrame.GetSlaveCount | src/gateway/gateway_manager.cpp:592-605 | The first data byte of a received frame with a valid checksum, or a read of data that is not there |
| SerialFrame.SlaveCountExactly | src/gateway/gateway_manager.cpp:603-603 | For a frame that arrives whole with a valid checksum there is a count to read if and only if its length is at least 3, and then it is the ninth byte |
| SerialFrame.UndefinedCountExample | src/gateway/gateway_manager.cpp:603-603 | Eight bytes that pass every check and have no count |
| SerialFrame.FrameOfBytes | src/packet/response_packet.cpp:18-41 | The bytes of a frame determine it and it serialises to them |
| SerialFrame.OneByteAltered | src/packet/response_packet.cpp:47-74 | With one byte other than start and length altered, the frame is still received, and its checksum is valid if and only if the altered byte is the last |
| SerialFrame.AlteredEndExample | src/packet/response_packet.cpp:47-53 | A frame whose end byte is 0 instead of a carriage return passes as valid |

## Left out

- Sockets, TLS, OCSP, SOCKS, SRV lookup, select, locking, threads and time: the network is an arbitrary byte source and sink, each handler one step.
- Failing memory allocation, null arguments and freeing, except for the reference counts of the broker's store.
- Configuration, plugins, access control lists, authentication, websockets and the connection logic of bridges.
- Subscription trees and retained messages: `sub__messages_queue` is any insertion into any clients between taking and dropping one reference.
- Loading stored messages at start, which gives messages identifiers of their own, and emptying the store at the end.
- Lookup tables from codes to strings, and the functions that add, copy and search properties.
- Linked lists are sequences in the model: pointers to the last element are not modelled, and the order of pointer updates is not visible.
- The gateway's commands, address dispatch, temperature decoding, topics, JSON and logging.
- Publish.HandlePublish: the delivery after the decoding is in ClientReceive and ClientEngine, where a message is a number, and in BrokerRuns for the broker.
- Encoders.SendConnect: lists and strings whose lengths add up to 2^32 and more.
- Encoders.SendSubscribe: the same.
- Encoders.SendCommandWithMid: the same.
- Publish.SendRealPublish: the same, and property lists of 2^32 bytes and more.
- PacketReader.Reader.PacketRead: the broker's refusals by packet type, length and state, which close the connection, and the time stamp updated while a long body is incomplete.
- PacketWriter.Writer.Write: callbacks for QoS 0 messages that have been sent, and statistics.
- ClientEngine.Client.Publish: QoS 0 messages, which go straight to the encoder, and the argument checks before them.
- ClientEngine.Client.ReleaseToInflight: a send that fails in the middle of the list.
- ClientEngine.Client.HandleConnack: the assigned client identifier, the other limits and a disconnect in progress.
- BrokerStore.Store.MessageStore: source identifier, user name, listener and origin of a message, which nothing modelled looks at.
- BrokerDb.Context.MessageInsert: time stamps, properties and the count of dropped messages.
- BrokerRuns.Broker.HandlePublish: the decoding before it, topic aliases and mount points, the permission checks, and which code it returns.
- BrokerRuns.Broker.Login: the will and the subscriptions of the old session, and the CONNACK; the permission check after it is an operation of its own.
- SerialFrame.ReceivePacket: input that arrives while a frame is being read, and the read behind an empty tail, whose value is not used.
