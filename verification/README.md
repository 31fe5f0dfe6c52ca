# Verified model of FEmbed-Lwip's protocol cores

This project models, in Dafny, the parts of FEmbed-Lwip that cut byte streams into messages and keep
state about them, and proves what they are for:

- the MQTT 3.1.1 packet codec: the remaining-length field, the serializers and deserializers, and the
  two packet readers, the resumable one and the blocking one;
- the MQTT client: QoS 2 deduplication, the publish kept for resending, keep-alive, answers to incoming
  packets, and its calls `connect`, `publish`, `subscribe`, `unsubscribe`, `yield` and `disconnect`;
- topic matching, and the handler table of the C client;
- copying an HTTP body, plain or chunked, to a stream;
- the FTP control connection: lines, replies, and text written with CRLF line ends.

`dafny verify dfyconfig.toml` checks the whole project.

## How it is built

Buffers are arrays and the stateful objects are classes, as in the source. A writer states that the
buffer afterwards is `Put(old contents, index, bytes)`, so it also states what it leaves alone; `bytes`
is a specification function (`PublishBytes`, `ConnectBytes`, ...). A reader is proved equal to a parsing
function on the buffer contents. The round trips are lemmas that connect the two families, for packets
of any size followed by anything.

The outside world is arbitrary. A network read yields any number of the bytes asked for, a write takes
any number, `available` reports anything, and a timer may expire at any moment: these are nondeterministic
choices inside `Readers.Channel`, `Readers.Source`, `MqttClient.Wire`, `MqttClient.Clock`,
`HttpBody.Connection`, `HttpBody.Sink` and `FtpLines.Socket`. A loop that polls such a thing draws an arbitrary number of polls
first, so every finite behaviour is covered. A network and timers can also be made eager, so that they never
fall short: then the contracts say what a call achieves, and not only what it does not do
(`MqttClient.Client.Served`, `Readers.Begins`).

What the packets are is said twice: by the serializers' specification functions, and in the numbers of the
protocol. `WireBytes` spells every packet out in bytes, `WireHistory` says what the predicates of histories mean
for packets that are spelled out, and `Sessions` runs the client from `connect` on against brokers whose packets
are written out, up to the bytes it sends.

The MQTT client carries a ghost history of what it read, sent, delivered, released, kept and dropped. The
functions of `History` compute from a history which identifiers are held, how many pings are
unanswered, which publish is in flight, whether the connection is up, and what went out on the wire and
came in; `Client.Valid` says that the fields are exactly these values and that what came in is the front
of what the network delivers. It also says that the history is orderly (`History.Orderly`: no event
without its cause, a delivery only right after its PUBLISH was read, a release only right after its PUBREL
was read and its PUBCOMP sent in full, an acknowledgement or a ping answer only when it was read, a
connection only after its CONNECT went out and for a reason that is in the history) and settled
(`History.Settled`: every packet that arrived whole was read, and every packet that was read had its effect
next). Every call preserves this, and the properties of whole runs are proved on histories. The predicates of
`Calls` say for each call exactly which stretch of history it adds, so that what a call returns is tied to
the packets it read.

| module | what it holds |
|---|---|
| Bytes, RemainingLength, Fields | bytes and buffers; the length field; headers, integers, strings, packets |
| Framing, Readers, Streams | what a frame is; the two readers; whole streams and the agreement of the readers |
| PublishCodec, SubscribeCodec, ConnectCodec, WireBytes | the packet types, and their bytes spelled out |
| Exchange | from the arguments of the serializers, through a fragmented stream, to the deserializers |
| IdTable, History, Receive, Calls, MqttClient, Runs, Cases | the client, from its identifier table to single calls and whole runs, and histories that show where it fails |
| WireHistory, Sessions | what histories mean for packets spelled out, and sessions from beginning to end |
| Topics, Handlers | topic filters and the handler table |
| ChunkFormat, HttpBody | chunked coding and the copy loops |
| FtpLines | lines, replies and line ends |

## Where the code does not do what it says

The model follows the code. These are the places where that matters; each is stated by the member named.

- A length field longer than four bytes is an error for the resumable reader, and one that is cut off makes
  it ask to be called again; but the blocking `MQTTPacket_read` ignores that its decoder failed and returns
  a packet built from the digits it has (`Streams.ReadersAgree`, `Streams.FiveLengthBytes`). `readPacket` of the
  client does the same: a header byte with nothing behind it is a packet to it (`Receive.HeaderAlone`).
- `MQTTPacket_len` is one too large at exactly four lengths (`RemainingLength.PacketLenExact`).
- Several deserializers leave the number of length bytes in their result. When the packet is cut short and
  its length field is one byte, the result is 1, the code for success, with outputs that were never set
  (`PublishCodec.DeserializePublish`, `PublishCodec.DeserializeAck`; the packets are in
  `PublishCodec.PublishWithoutTopic` and `PublishCodec.AckWithoutId`). The client then goes on with an
  arbitrary identifier; its invariants hold all the same.
- `MQTTDeserialize_suback` accepts one entry more than its caller's array has
  (`SubscribeCodec.DeserializeSuback`, and a packet in `SubscribeCodec.SubackOneTooMany`).
- The version check of CONNECT compares the protocol name only as far as it goes, so a name that is cut short, even
  an empty one, passes, and so does one that goes on (`WireBytes.Versions`).
- The size check of the SUBACK serializer is short by the header and length bytes: two with at most 125
  entries, three from 126 on, up to five (`SubscribeCodec.SubackCheckShort`); that of the CONNACK serializer
  is two bytes short (`ConnectCodec.ConnackCheckShort`).
- `subscribe` compares the granted QoS with 0x80, but a signed char has made that -128: a refused
  subscription is taken for a granted one exactly where char is signed (`Calls.RefusalGranted`).
- `cycle` has no case for UNSUBACK, so an `unsubscribe` that succeeds has closed the session
  (`MqttClient.Client.Request`, and a history in `Cases.UnsubscribedAndClosed`).
- Nothing compares the identifier of an answer with the one that was sent. `publish` succeeds with any
  acknowledgement of the right type, and so does `connect` with a publish in flight; the publish itself was
  acknowledged, and is no longer in flight, exactly if that acknowledgement has its identifier
  (`MqttClient.Client.Publish`, `Calls.TransferMeans`, `Calls.ConnectKeeps`; `Cases.PublishedUnacked` and
  `Cases.RefusedYetConnected` are histories). `subscribe` and `unsubscribe` take any SUBACK and UNSUBACK
  (`Cases.SubscribedByAny`, `Cases.UnsubscribedAndClosed`).
- A topic or string of 65536 bytes or more does not come back (`Fields.StringRoundTrip`,
  `PublishCodec.PublishRoundTrip`).
- `isTopicMatched` does not match the parent level of `#`, and a wildcard fails where the level it starts
  at is empty (`Topics.ScanExactly`; `Topics.ParentLevelMissed` and `Topics.EmptyLevelMissed` are inputs). The rule
  about names that start with `$` (section 4.7.2) is not implemented, so the client also matches too much, on
  exactly the pairs of that rule (`Topics.ScanAgainstFull`; `Topics.DollarMatched` is an input).
- A full QoS 2 table drops a message but still answers it, so QoS 2 is at most once, and exactly once only
  while there is room (`Runs.SettledMeans`).
- With a publish in flight, `connect` returns the result of sending that again, whatever the CONNACK says, and
  even if none came: success is exactly that an acknowledgement of its type was taken (QoS 1 or 2), or that
  it went out (QoS 0). Only with nothing in flight is it a CONNACK with code 0 (`Calls.ConnectMeans`). A
  refusal with code 5 and a successful connect: `Cases.RefusedYetConnected`.
- A pause longer than the timeout inside a chunk-size line cuts it, and a success may then be wrong: the
  client can return one byte of a chunk of 26 (`ChunkFormat.CutSizeLine`, `HttpBody.DownloadCut`). It is
  right when no such line is cut (`HttpBody.DownloadChunked`).
- `writeLine` forgets the last character between calls, so cutting a text between CR and LF adds a CR
  (`FtpLines.CrlfSplit`); `readLine` blanks a last line that fills the buffer
  (`FtpLines.FtpBase.ReadLine`, and a stream of two characters in `FtpLines.LastLineBlanked`).

## Model

| member | source | states |
|---|---|---|
| RemainingLength.EncodeTo | paho/MQTTPacket/src/MQTTPacket.c:29-45 | the loop writes exactly the digits of the length and nothing else |
| RemainingLength.DecodeBuf | paho/MQTTPacket/src/MQTTPacket.c:54-81 | on any bytes the value is that of the digits taken, and the count is one too large when four digits do not end the field |
| RemainingLength.LengthRoundTrip | paho/MQTTPacket/src/MQTTPacket.c:29-81 | for every length up to 268435455 and any following bytes, decoding the encoding gives the length and takes exactly the encoding |
| RemainingLength.EncodeMinimal | paho/MQTTPacket/src/MQTTPacket.c:29-45 | no field for the same number is shorter, and no other one is as short |
| RemainingLength.EncodeSize | paho/MQTTPacket/src/MQTTPacket.c:29-45 | one to four bytes, with the limits of the protocol's table |
| WireBytes.TwoDigits | paho/MQTTPacket/src/MQTTPacket.c:29-45 | the two bytes of a length from 128 on, by quotient and remainder |
| WireBytes.FourDigits | paho/MQTTPacket/src/MQTTPacket.c:29-45 | the four bytes of a length from 2097152 to 268435455 |
| RemainingLength.FieldOfField | paho/MQTTPacket/src/MQTTPacket.c:54-81 | length fields are prefix-free: whatever follows one, exactly it is taken |
| RemainingLength.PacketLenExact | paho/MQTTPacket/src/MQTTPacket.c:84-98 | the computed packet size is the true one, or exactly one more at 127, 16383, 2097150 and 2097151 |
| Framing.PrefixFree | paho/MQTTPacket/src/MQTTPacket.c:290-411 | no packet is a proper prefix of another, and every proper prefix of one is unfinished, never overlong |
| Framing.InProgressMeaning | paho/MQTTPacket/src/MQTTPacket.c:362-411 | "call again" means exactly: a proper prefix of some packet |
| Readers.Transport.DecodeNb | paho/MQTTPacket/src/MQTTPacket.c:324-352 | the length digits are collected over any number of calls; the only failures are a channel error and a fifth digit |
| Readers.Transport.ReadNb | paho/MQTTPacket/src/MQTTPacket.c:362-411 | a packet is returned the moment it is complete, with its bytes in the buffer and none of the next taken; an unfinished one is remembered; each failure has its cause |
| Readers.Source.Decode | paho/MQTTPacket/src/MQTTPacket.c:54-81 | the decoder over a transport, and decodePacket of the client: the value of the digits taken, however reading ended |
| Readers.Source.Front | paho/MQTTPacket/src/MQTTPacket.c:297-304 | the first two steps of both blocking readers: header and length digits are taken, and their value is in the buffer in minimal form |
| Readers.ReadBlocking | paho/MQTTPacket/src/MQTTPacket.c:290-316 | for every stream, exactly when it fails on a source that gives what is asked for, and otherwise the packet, the buffer and the bytes left; on any source, a result other than an error means a packet made of the bytes taken is in the buffer |
| Readers.FrameAhead | paho/MQTTPacket/src/MQTTPacket.c:290-316 | a packet with a minimal length field at the front of a stream is cut off as it is, whatever follows |
| Streams.Pump | paho/MQTTPacket/src/MQTTPacket.c:362-411 | for every list of packets and every fragmentation, repeated calls return the types in order with each packet in the buffer and exactly the later packets left |
| Streams.Progress | paho/MQTTPacket/src/MQTTPacket.c:362-411 | in a stream of deliverable packets nothing taken is a reason to fail, and a complete frame is the first packet |
| Streams.VerdictOnStream | paho/MQTTPacket/src/MQTTPacket.c:290-411 | a verdict on the bytes taken is the verdict on the whole stream |
| Streams.ReadersAgree | paho/MQTTPacket/src/MQTTPacket.c:290-411 | when the length field ends within four bytes both readers give the same result, buffer and rest; otherwise exactly when the blocking one still returns a packet, while the resumable one asks to be called again, or fails once it has four digits |
| Streams.FiveLengthBytes | paho/MQTTPacket/src/MQTTPacket.c:301-313 | a stream on which they differ |
| Framing.StoredIsSame | paho/MQTTPacket/src/MQTTPacket.c:304-310 | putting the length back into the buffer leaves a packet with a minimal length field as it was |
| Fields.HeaderFields | paho/MQTTPacket/src/MQTTPacket.h:53-73 | type, dup, QoS and retain come back out of the header byte |
| WireBytes.PacketTypes | paho/MQTTPacket/src/MQTTPacket.h:36-48 | the numbers of the packet types and the limits of the length field |
| WireBytes.FirstByte | paho/MQTTPacket/src/MQTTPacket.h:53-73 | where type, dup, QoS and retain are in the first byte |
| WireBytes.FirstByteOf | paho/MQTTPacket/src/MQTTPacket.h:53-73 | the value of the first byte |
| Fields.IntRoundTrip | paho/MQTTPacket/src/MQTTPacket.c:125-170 | a written two-byte integer is read back |
| WireBytes.TwoBytes | paho/MQTTPacket/src/MQTTPacket.c:164-170 | the high byte of an integer comes first |
| Fields.MQTTString.StrLenIsTextLen | paho/MQTTPacket/src/MQTTPacket.c:194-251 | the announced length is the written one exactly for well-formed strings, or two texts of one length |
| Fields.StringRoundTrip | paho/MQTTPacket/src/MQTTPacket.c:178-234 | a string is read back, with the index behind it, if and only if it has at most 65535 bytes |
| Fields.WriteString | paho/MQTTPacket/src/MQTTPacket.c:194-206 | writes the length and text of the string and nothing else |
| Fields.ReadStringFrom | paho/MQTTPacket/src/MQTTPacket.c:215-234 | agrees with the parsing function, including when it refuses, and then where the index is left |
| Fields.PacketParts | paho/MQTTPacket/src/MQTTPacket.c:113-117 | the body of a packet is found again in a buffer, whatever follows it |
| PublishCodec.PublishLength | paho/MQTTPacket/src/MQTTSerializePublish.c:31-39 | the length of the body to be written, whatever the identifier and the payload |
| PublishCodec.SerializePublish | paho/MQTTPacket/src/MQTTSerializePublish.c:55-91 | the packet in a prefix of the buffer and its size, or "too short" and an untouched buffer |
| PublishCodec.DeserializePublish | paho/MQTTPacket/src/MQTTDeserializePublish.c:36-69 | all fields, or the number of length bytes when the topic is cut short |
| PublishCodec.PublishWithoutTopic | paho/MQTTPacket/src/MQTTDeserializePublish.c:53-68 | a packet for which the result is success though nothing but flags was set |
| PublishCodec.PublishRoundTrip | paho/MQTTPacket/src/MQTTDeserializePublish.c:36-69 | every message with flags and identifier in range comes back, if and only if its topic has at most 65535 bytes |
| PublishCodec.SerializeAck | paho/MQTTPacket/src/MQTTSerializePublish.c:104-127 | the four bytes of an acknowledgement |
| PublishCodec.AckOnWire | paho/MQTTPacket/src/MQTTSerializePublish.c:104-127 | type, flags and identifier in these four bytes, for any type; PUBREL carries flag bits 0010 |
| WireBytes.Acknowledgements | paho/MQTTPacket/src/MQTTSerializePublish.c:104-127 | PUBACK is `64 2 hi lo`, PUBREC `80 2 hi lo`, PUBREL `98 2 hi lo`, PUBCOMP `112 2 hi lo` |
| WireBytes.PublishPacket | paho/MQTTPacket/src/MQTTSerializePublish.c:55-91 | a PUBLISH is 48 and its flags, the length, the topic, for QoS 1 and 2 the identifier, and the payload |
| WireBytes.PublishRead | paho/MQTTPacket/src/MQTTDeserializePublish.c:36-69 | what is found in such bytes |
| WireBytes.TopicCut | paho/MQTTPacket/src/MQTTDeserializePublish.c:53-55 | a topic that is announced longer than the packet is not read |
| WireBytes.AckRead | paho/MQTTPacket/src/MQTTDeserializePublish.c:82-106 | type, dup and identifier in four bytes |
| PublishCodec.DeserializeAck | paho/MQTTPacket/src/MQTTDeserializePublish.c:82-106 | type, dup and identifier, or the number of length bytes when there is no identifier |
| PublishCodec.AckWithoutId | paho/MQTTPacket/src/MQTTDeserializePublish.c:96-104 | acknowledgements for which the result is success though no identifier was set |
| PublishCodec.AckRoundTrip | paho/MQTTPacket/src/MQTTDeserializePublish.c:82-106 | an acknowledgement keeps its type, dup flag and identifier |
| SubscribeCodec.RequestLength | paho/MQTTPacket/src/MQTTSubscribeClient.c:28-36 | for a list of any length, the length of the body to be written |
| SubscribeCodec.SerializeRequest | paho/MQTTPacket/src/MQTTSubscribeClient.c:50-86 | SUBSCRIBE and, without QoS bytes, UNSUBSCRIBE: the packet in a prefix of the buffer, or "too short" |
| SubscribeCodec.WriteEntries | paho/MQTTPacket/src/MQTTUnsubscribeClient.c:75-76 | the loop over the topics writes the entries in order |
| SubscribeCodec.DeserializeRequest | paho/MQTTPacket/src/MQTTSubscribeServer.c:35-70 | dup, identifier and the entries up to the end or to one cut short |
| SubscribeCodec.ReadEntries | paho/MQTTPacket/src/MQTTSubscribeServer.c:55-64 | the loop reads the entries up to the end or to one cut short |
| SubscribeCodec.EntriesRoundTrip | paho/MQTTPacket/src/MQTTSubscribeServer.c:55-64 | a list of any length is read back in order, ending exactly at the end of the packet |
| SubscribeCodec.EntriesCut | paho/MQTTPacket/src/MQTTSubscribeServer.c:55-64 | exactly the entries before one that is cut short are read, and the result says that one was |
| SubscribeCodec.RequestRoundTrip | paho/MQTTPacket/src/MQTTUnsubscribeServer.c:34-66 | SUBSCRIBE and UNSUBSCRIBE round trip, whether or not char is signed |
| SubscribeCodec.SerializeSuback | paho/MQTTPacket/src/MQTTSubscribeServer.c:82-110 | the SUBACK packet |
| SubscribeCodec.SubackCheckShort | paho/MQTTPacket/src/MQTTSubscribeServer.c:90-95 | for exactly which buffer lengths the size check lets a packet through that does not fit |
| SubscribeCodec.DeserializeSuback | paho/MQTTPacket/src/MQTTSubscribeClient.c:100-135 | the granted QoS values; accepted exactly up to one entry more than the caller's bound |
| SubscribeCodec.SubackOneTooMany | paho/MQTTPacket/src/MQTTSubscribeClient.c:120-129 | two entries are accepted for an array of one |
| SubscribeCodec.SubackRoundTrip | paho/MQTTPacket/src/MQTTSubscribeClient.c:100-135 | identifier and QoS values come back |
| WireBytes.RequestPacket | paho/MQTTPacket/src/MQTTSubscribeClient.c:50-86 | SUBSCRIBE starts with 130, UNSUBSCRIBE with 162; then the length, the identifier and the entries |
| WireBytes.RequestEntry | paho/MQTTPacket/src/MQTTSubscribeClient.c:76-80 | an entry is the topic filter and, in a SUBSCRIBE, the QoS |
| WireBytes.SubackPacket | paho/MQTTPacket/src/MQTTSubscribeServer.c:82-110 | SUBACK starts with 144; then the length, the identifier and the values |
| WireBytes.SubackRead | paho/MQTTPacket/src/MQTTSubscribeClient.c:100-135 | identifier and value in five bytes |
| ConnectCodec.ConnectLength | paho/MQTTPacket/src/MQTTConnectClient.c:27-48 | the length of the body to be written, for both versions |
| ConnectCodec.SerializeConnect | paho/MQTTPacket/src/MQTTConnectClient.c:58-121 | the packet in a prefix of the buffer, or "too short" |
| ConnectCodec.FlagBits | paho/MQTTPacket/src/MQTTConnect.h:30-56 | clean session, will, will QoS, will retain, password and user name come back out of the flag byte |
| ConnectCodec.ReadCredentials | paho/MQTTPacket/src/MQTTConnectServer.c:93-102 | user name and password as the flags announce them |
| ConnectCodec.DeserializeConnect | paho/MQTTPacket/src/MQTTConnectServer.c:51-108 | all fields, or 0 |
| ConnectCodec.ConnectRoundTrip | paho/MQTTPacket/src/MQTTConnectServer.c:51-108 | for versions 3 and 4 and every will and credentials: everything comes back if and only if a password comes with a user name, is not empty, and a user name alone is not empty |
| ConnectCodec.CredentialsRoundTrip | paho/MQTTPacket/src/MQTTConnectServer.c:93-102 | exactly which credentials come back |
| ConnectCodec.SerializeConnack | paho/MQTTPacket/src/MQTTConnectServer.c:119-147 | the CONNACK packet |
| ConnectCodec.ConnackCheckShort | paho/MQTTPacket/src/MQTTConnectServer.c:127-131 | the size check lets a packet through that does not fit for two and three bytes |
| ConnectCodec.DeserializeConnack | paho/MQTTPacket/src/MQTTConnectClient.c:132-159 | session-present flag and return code |
| ConnectCodec.ConnackRoundTrip | paho/MQTTPacket/src/MQTTConnectClient.c:132-159 | both come back |
| ConnectCodec.SerializeZero | paho/MQTTPacket/src/MQTTConnectClient.c:169-190 | the two bytes of a packet without a body |
| WireBytes.ConnectHeader | paho/MQTTPacket/src/MQTTConnectClient.c:78-105 | the ten bytes a CONNECT body of version 4 begins with, and the twelve of version 3: name, level, flags, keep-alive |
| WireBytes.ConnectPayload | paho/MQTTPacket/src/MQTTConnectClient.c:106-116 | client identifier, will topic and message, user name and password, in this order |
| WireBytes.FlagsByte | paho/MQTTPacket/src/MQTTConnect.h:30-56 | the value of the flag byte |
| WireBytes.ConnectPacket | paho/MQTTPacket/src/MQTTConnectClient.c:58-121 | CONNECT starts with 16 |
| WireBytes.ConnectRead | paho/MQTTPacket/src/MQTTConnectServer.c:51-108 | every field that is found in a CONNECT, and exactly which credentials are refused |
| WireBytes.Versions | paho/MQTTPacket/src/MQTTConnectServer.c:30-41 | exactly the names and levels that are accepted; a name cut short, and one that goes on, pass for the whole |
| WireBytes.OtherVersions | paho/MQTTPacket/src/MQTTConnectServer.c:51-108 | a CONNECT with any other name or level is refused |
| WireBytes.ConnackPacket | paho/MQTTPacket/src/MQTTConnectServer.c:119-147 | CONNACK is `32 2 present code` |
| WireBytes.ConnackRead | paho/MQTTPacket/src/MQTTConnectClient.c:132-159 | session-present flag and return code in four bytes |
| WireBytes.EmptyPackets | paho/MQTTPacket/src/MQTTConnectClient.c:169-190 | PINGREQ is `192 0`, PINGRESP `208 0`, DISCONNECT `224 0` |
| Exchange.PacketDelivered | paho/MQTTPacket/src/MQTTPacket.c:362-411 | every serialized packet is one the readers deliver, byte for byte and under its type |
| Exchange.PacketReadsBack | paho/MQTTPacket/src/MQTTDeserializePublish.c:36-106 | every serialized packet of every kind reads back as its arguments, whatever follows it; a CONNECT exactly with accepted credentials |
| Exchange.Transmit | paho/MQTTPacket/src/MQTTSerializePublish.c:55-127 | serializing a list of packets through one buffer makes the stream of exactly these packets |
| Exchange.Deserialize | paho/MQTTPacket/src/MQTTDeserializePublish.c:36-106 | the deserializer for the type of the packet finds its content |
| Exchange.Exchange | paho/MQTTPacket/src/MQTTPacket.c:362-411 | the whole way: any list of packets, serialized, cut out of the stream under any fragmentation and deserialized, gives the arguments back in order |
| IdTable.IdsSize | paho/MQTTClient/src/MQTTClient.h:308-311 | the table is full exactly when it holds as many identifiers as it has slots |
| IdTable.Table.IsFree | paho/MQTTClient/src/MQTTClient.h:366-374 | whether the identifier is held; for 0, whether no slot is free |
| IdTable.Table.Use | paho/MQTTClient/src/MQTTClient.h:378-389 | takes the identifier in exactly when there is room |
| IdTable.Table.Free | paho/MQTTClient/src/MQTTClient.h:393-403 | removes exactly that identifier |
| IdTable.Table.Clear | paho/MQTTClient/src/MQTTClient.h:334-338 | removes all of them |
| History.Conservation | paho/MQTTClient/src/MQTTClient.h:647-713 | for each identifier, QoS 2 deliveries are releases plus discards plus one if it is still held |
| History.AtMostOnce | paho/MQTTClient/src/MQTTClient.h:647-713 | between two deliveries with one identifier a PUBREL with it was read, or the session was discarded |
| History.ReleasedAfter | paho/MQTTClient/src/MQTTClient.h:688-713 | in every run, an identifier is freed only right after its PUBCOMP went out in full, for a PUBREL with it read right before |
| History.DeliveredAfter | paho/MQTTClient/src/MQTTClient.h:629-659 | in every run, a message is delivered only right after its PUBLISH was read, and only once |
| History.PingsFall | paho/MQTTClient/src/MQTTClient.h:718-720 | in every run, the ping count falls only when a PINGRESP was just read, or the connection begins or ends |
| History.ConnectedAfter | paho/MQTTClient/src/MQTTClient.h:801-873 | in every run, a connection begins only after its CONNECT went out in full, and with nothing in flight only when a CONNACK was read at most one event before whose second body byte is 0 or missing; with a publish in flight when an acknowledgement of the type it waits for, of any identifier, was just taken, or the publish, with QoS 0, just sent |
| History.KeptUntil | paho/MQTTClient/src/MQTTClient.h:1215-1228 | in every run, a kept publish is dropped only by a newer publish, the discarding of the session, or a PUBACK or PUBCOMP read at most one event before in whose first two body bytes its identifier stands |
| History.GrewKeeps | paho/MQTTClient/src/MQTTClient.h:609-743 | receiving leaves the kept publish alone while the session is not discarded |
| Calls.PassedGrew | paho/MQTTClient/src/MQTTClient.h:609-743 | a call of cycle keeps, acknowledges and connects nothing, discards the session only when it closes a clean one, and leaves no packet unanswered |
| Calls.ClosingMeans | paho/MQTTClient/src/MQTTClient.h:320-352 | the end of a session: no connection and no pings outstanding, and a clean one holds no identifiers and keeps no publish |
| History.TracksOn | paho/MQTTClient/src/MQTTClient.h:284-308 | the step every change of the fields is checked against |
| Receive.FrameParts | paho/MQTTClient/src/MQTTClient.h:443-509 | though the decoder may stop anywhere, what was taken is a packet only if nothing was cut short |
| Receive.ArrivedFrame | paho/MQTTClient/src/MQTTClient.h:478-509 | when the bytes taken are a packet, that packet is in the buffer |
| Receive.HeaderAlone | paho/MQTTClient/src/MQTTClient.h:443-469 | a header byte with nothing behind it is taken for a packet without a body |
| MqttClient.Client.SendPacket | paho/MQTTClient/src/MQTTClient.h:408-439 | under any partial writes, all of the packet on success and a prefix of it on failure; success when the network takes what it is given and the timer has not expired |
| MqttClient.Client.ReadPacket | paho/MQTTClient/src/MQTTClient.h:478-520 | on any network a packet that arrives whole is in the buffer with its type, and any result from 2 on means a packet of that type, made of the bytes taken; a network that delivers what it holds gives exactly the packet at the front of the stream, or the results for one that is cut off or too large |
| MqttClient.Client.DeliverOrDrop | paho/MQTTClient/src/MQTTClient.h:647-659 | delivered, unless it is QoS 2 with an identifier that is 0 or held, or the table is full |
| MqttClient.Client.HandlePublish | paho/MQTTClient/src/MQTTClient.h:629-686 | exactly a delivery or drop and the answer with the identifier of the packet, PUBACK or PUBREC, the whole answer on success; on failure the delivery has happened all the same |
| MqttClient.Client.HandleAck | paho/MQTTClient/src/MQTTClient.h:688-713 | exactly the PUBREL for a PUBREC and the PUBCOMP for a PUBREL, with the identifier of the packet, and only after a whole PUBCOMP the release |
| MqttClient.Client.KeepAlive | paho/MQTTClient/src/MQTTClient.h:747-779 | the timer is asked exactly when there is an interval; then nothing, a `192 0`, or failure with six outstanding; the count is that of unanswered pings and never exceeds six |
| MqttClient.Client.CloseSession | paho/MQTTClient/src/MQTTClient.h:320-352 | no pings outstanding, not connected, and the session discarded if it is a clean one |
| MqttClient.Client.Dispatch | paho/MQTTClient/src/MQTTClient.h:617-721 | each packet type has exactly its events and the other types none; success exactly for a handled type whose answer went out in full; types without a case are returned |
| MqttClient.Client.Cycle | paho/MQTTClient/src/MQTTClient.h:609-743 | the history tells exactly what was done: the packet read from the network, its effect and answer, the keep-alive step, and the closing of the session exactly on failure; the result is the type of the packet read unless a step failed; when bytes were taken and no packet came of them, or a read failed first, the session is closed; the timer is asked unless the packet failed; when a whole packet is at the front of the stream it is the one that is read, and its type the result, unless it cannot be answered |
| MqttClient.Client.WaitFor | paho/MQTTClient/src/MQTTClient.h:784-797 | cycles that return another type, then one that reads the packet waited for, which is in the buffer; or the timer or a failure ends it; one cycle when the packet is already there |
| MqttClient.NextPacketId | paho/MQTTClient/src/MQTTClient.h:95-98 | the next one in the cycle from 1 to 65535 |
| MqttClient.PacketIdsCycle | paho/MQTTClient/src/MQTTClient.h:95-98 | the identifiers of 65535 calls in a row are all different, and then they repeat |
| MqttClient.Client.TakeAck | paho/MQTTClient/src/MQTTClient.h:1126-1136 | the acknowledgement just read ends the keeping of the publish whose identifier is in its first two body bytes, and of no other; refused exactly when it has none and its length field is longer than one byte |
| MqttClient.Client.AwaitAck | paho/MQTTClient/src/MQTTClient.h:1117-1136 | an acknowledgement of the type is waited for and taken; with one already there success is exactly that it can be taken |
| MqttClient.Client.PublishPacket | paho/MQTTClient/src/MQTTClient.h:1109-1178 | the packet is handed over once; for QoS 1 and 2 an acknowledgement of the right type, of any identifier, is waited for and taken; success is exactly that all of this was done, and nothing else happens; the publish is no longer in flight exactly if the identifiers agree |
| MqttClient.Client.Publish | paho/MQTTClient/src/MQTTClient.h:1183-1231 | kept before it is sent unless the session is clean, then transferred as above; after a success with QoS 1 or 2 it is no longer in flight exactly if the acknowledgement that was taken has its identifier; refused without effect when not connected or too large |
| MqttClient.Client.Handshake | paho/MQTTClient/src/MQTTClient.h:810-842 | the CONNECT packet is handed over once, then a CONNACK is waited for; the result is the second body byte of the CONNACK that was read, or failure |
| MqttClient.Client.AwaitConnack | paho/MQTTClient/src/MQTTClient.h:826-842 | the wait for the CONNACK; with one already there, its code is the result |
| MqttClient.Client.Resend | paho/MQTTClient/src/MQTTClient.h:856-860 | exactly the kept bytes are handed over, and an acknowledgement of their type is waited for and taken; success is exactly that, and the publish stays in flight unless it was its own |
| MqttClient.Client.Connect | paho/MQTTClient/src/MQTTClient.h:801-873 | connected exactly on success; with nothing in flight the result is that of the handshake, and with a CONNACK already there its code; with a publish in flight that of transferring it again, which stays in flight unless its own acknowledgement was taken |
| Calls.ConnectMeans | paho/MQTTClient/src/MQTTClient.h:825-872 | exactly when connect succeeds: a CONNACK with code 0 that was read if nothing is in flight; otherwise an acknowledgement of the type the publish in flight waits for, of any identifier, or with QoS 0 its sending |
| Calls.ConnectKeeps | paho/MQTTClient/src/MQTTClient.h:1117-1168 | after a successful connect the publish is no longer in flight exactly when the acknowledgement has its identifier; with QoS 0 it always stays |
| Calls.TransferMeans | paho/MQTTClient/src/MQTTClient.h:1109-1178 | what success of the private publish means, and that it leaves a publish in flight whose acknowledgement it is not |
| Cases.PublishedUnacked | paho/MQTTClient/src/MQTTClient.h:1117-1136 | publish succeeds with a PUBACK for another message, and the message stays in flight |
| Cases.RefusedYetConnected | paho/MQTTClient/src/MQTTClient.h:856-872 | a CONNACK with code 5, the resend, a PUBACK of any identifier, and the connection begins; the publish stays in flight unless the PUBACK is its own |
| MqttClient.Client.Disconnect | paho/MQTTClient/src/MQTTClient.h:1250-1259 | DISCONNECT is handed over, then the session is closed |
| MqttClient.Client.Request | paho/MQTTClient/src/MQTTClient.h:983-1105 | the packet with the next identifier, then its answer, and nothing else; subscribe calls setMessageHandler exactly for a granted subscription that was read, unsubscribe exactly for an UNSUBACK that was read, and has lost the connection then |
| Calls.RefusalGranted | paho/MQTTClient/src/MQTTClient.h:1006-1010 | the failure code 0x80 counts as granted exactly where char is signed |
| Cases.SubscribedByAny | paho/MQTTClient/src/MQTTClient.h:1000-1010 | subscribe registers its handler for a SUBACK of any identifier |
| Cases.UnsubscribedAndClosed | paho/MQTTClient/src/MQTTClient.h:617-743 | an UNSUBACK of any identifier makes unsubscribe succeed and closes the session |
| MqttClient.Client.Yield | paho/MQTTClient/src/MQTTClient.h:589-605 | cycles until the timer expires, or until one fails |
| Runs.Run | paho/MQTTClient/src/MQTTClient.h:356-1259 | after any sequence of calls on any network: the invariant, QoS 2 at most once, connections only for their reasons, every packet that arrived read and answered, everything read is the front of what the network delivered, and everything sent is in the history |
| Runs.OrderlyMeans | paho/MQTTClient/src/MQTTClient.h:647-713 | at most once between PUBRELs that were read, conservation, and the causes of deliveries, releases and connections, for a whole history |
| Runs.KeptDeserializes | paho/MQTTClient/src/MQTTClient.h:1215-1228 | in every reachable state the kept bytes are the publish in flight, under the identifier and QoS in the fields, and deserialize to it if and only if its topic has at most 65535 bytes |
| Runs.SettledMeans | paho/MQTTClient/src/MQTTClient.h:629-720 | in a whole history every packet that arrived whole was read, and every packet read has its effect and its answer next: a QoS 2 message is delivered exactly when its identifier is not 0, not held, and fewer than ten are; the answers are `64`, `80`, `98` and `112`, each with 2 and the identifier of the packet |
| WireHistory.ClientNumbers | paho/MQTTClient/src/MQTTClient.h:50-101 | the results, limits and table size of the client, and exactly the packet types cycle accepts |
| WireHistory.AckNamed | paho/MQTTClient/src/MQTTClient.h:1122-1129 | an acknowledgement of four bytes is of the type in its first byte and of the identifier in its last two, and of no other |
| WireHistory.Welcome | paho/MQTTClient/src/MQTTClient.h:829-838 | `32 2 f c` welcomes exactly when c is 0, and c is the result |
| WireHistory.Grants | paho/MQTTClient/src/MQTTClient.h:1000-1010 | `144 3 hi lo q` grants exactly when q is not 128 or char is signed |
| WireHistory.PingsSince | paho/MQTTClient/src/MQTTClient.h:747-779 | the ping count is the number of whole `192 0` since the last PINGRESP, or the last beginning or end of a connection |
| WireHistory.TakenIsRead | paho/MQTTClient/src/MQTTClient.h:478-520 | in every run a packet that was taken whole, and fits, is the one in the buffer |
| WireHistory.AckAnswers | paho/MQTTClient/src/MQTTClient.h:688-713 | in every run a PUBREC with two bytes of identifier is answered by `98 2` and these, a PUBREL by `112 2` and these, and then the identifier is freed |
| WireHistory.PublishAnswers | paho/MQTTClient/src/MQTTClient.h:629-686 | in every run a PUBLISH of any flags, topic, identifier and payload is delivered or dropped as it should be, and answered by `64 2` or `80 2` and the bytes of its identifier |
| WireHistory.DeliveredIsRead | paho/MQTTClient/src/MQTTClient.h:629-659 | in every run what is delivered has the topic, payload, flags and identifier of the PUBLISH right before |
| Sessions.ConnectAnswered | paho/MQTTClient/src/MQTTClient.h:801-873 | for every return code: that is the result, the client is connected exactly with 0, and has sent exactly its CONNECT |
| Sessions.PublishAnswered | paho/MQTTClient/src/MQTTClient.h:1183-1231 | for every identifier in the acknowledgement: success, the bytes sent, and the message is kept exactly when the identifier is another one |
| Sessions.SubscribeAnswered | paho/MQTTClient/src/MQTTClient.h:983-1021 | for every value in the SUBACK: the bytes sent, and whether the handler is registered |
| Sessions.UnsubscribeAnswered | paho/MQTTClient/src/MQTTClient.h:1075-1105 | success, and the connection is lost |
| Sessions.MessageComesTwice | paho/MQTTClient/src/MQTTClient.h:609-743 | a QoS 2 message that is sent twice is delivered once, each packet is answered in bytes, and in the end its identifier is free |
| Topics.IsTopicMatched | paho/MQTTClient/src/MQTTClient.h:527-552 | the pointer loop computes the scan |
| Topics.ScanIsMatchLevels | paho/MQTTClient/src/MQTTClient.h:527-552 | for every well-formed filter and every name, the scan is a level-by-level matcher |
| Topics.MatchIsStandard | paho/MQTTClient/src/MQTTClient.h:523-552 | what the client accepts is a match by section 4.7.1 of MQTT 3.1.1 |
| Topics.MatchExactly | paho/MQTTClient/src/MQTTClient.h:523-552 | level by level, the exact relation to the standard for every well-formed filter and every name |
| Topics.StandardMeans | paho/MQTTClient/src/MQTTClient.h:523-552 | the matching of section 4.7.1 by places: `+` takes any level, `#` at the end any rest |
| Topics.LevelsTogether | paho/MQTTClient/src/MQTTClient.h:523-525 | the levels have no separator, and put together with separators they are the text |
| Topics.LevelsUnique | paho/MQTTClient/src/MQTTClient.h:523-525 | no other parts do |
| Topics.TopicCharacters | paho/MQTTClient/src/MQTTClient.h:532-546 | the separator and the wildcards |
| Topics.ScanExactly | paho/MQTTClient/src/MQTTClient.h:523-552 | for every well-formed filter and every name it is the standard's match, if and only if the filter has no more levels than the name and no wildcard meets an empty level |
| Topics.ParentLevelMissed | paho/MQTTClient/src/MQTTClient.h:545-551 | the filter `a/#` and the name `a` |
| Topics.EmptyLevelMissed | paho/MQTTClient/src/MQTTClient.h:536-544 | the filter `a/+` and the name `a/` |
| Topics.ScanAgainstFull | paho/MQTTClient/src/MQTTClient.h:523-552 | against the whole of section 4.7: exactly where the client matches too much and where too little |
| Topics.DollarMatched | paho/MQTTClient/src/MQTTClient.h:545-551 | the filter `#` and the name `$S` |
| Handlers.Client.SetMessageHandler | paho/MQTTClient-C/src/MQTTClient.c:470-509 | refines setting, replacing and removing in a map of bounded size; fails exactly when removing what is not there or adding to a full table |
| Handlers.Client.DeliverMessage | paho/MQTTClient-C/src/MQTTClient.c:179-209 | calls the matching handlers in slot order, and the default one only if there is none |
| Handlers.MatchingIsView | paho/MQTTClient-C/src/MQTTClient.c:184-198 | every matching filter of the map gets the message exactly once, and nobody else |
| Handlers.MatchesExactly | paho/MQTTClient-C/src/MQTTClient.c:184-190 | a filter takes a message if it is its topic, or matches it by section 4.7.1, has no more levels and no wildcard at an empty one |
| Handlers.ViewSize | paho/MQTTClient-C/src/MQTTClient.c:493-502 | the map is full exactly when no slot is free |
| Handlers.Run | paho/MQTTClient-C/src/MQTTClient.c:470-509 | any sequence of requests leaves the map it should |
| ChunkFormat.DecodeEncode | src/HTTPClient.cpp:790-839 | every partition of a body into chunks, with sizes spelled in any allowed way, decodes to the body (section 4.1 of RFC 7230) |
| ChunkFormat.LineOfHeader | src/HTTPClient.cpp:796-806 | a chunk-size line with extension is read as the number its digits stand for |
| ChunkFormat.HexDigits | src/HTTPClient.cpp:805 | the i-th character of `0123456789abcdef`, and of `0123456789ABCDEF`, has the value i |
| ChunkFormat.HexAndSpace | src/HTTPClient.cpp:802-805 | no other character is a digit, and exactly which ones are spaces |
| ChunkFormat.ToHexNumber | src/HTTPClient.cpp:805 | a number written in hexadecimal, in either case, is read back |
| ChunkFormat.StrToLReads | src/HTTPClient.cpp:805 | spaces, a sign and `0x` before the digits, and the limits of 32 bits |
| ChunkFormat.StrToLNone | src/HTTPClient.cpp:805 | without a digit the size is 0 |
| ChunkFormat.DecodePlain | src/HTTPClient.cpp:790-839 | every partition of a body into chunks, with the sizes written in hexadecimal, decodes to the body |
| ChunkFormat.BadChunk | src/HTTPClient.cpp:797-839 | a chunk cut short or not followed by CRLF is refused, and so is an empty line |
| ChunkFormat.DecodeUncut | src/HTTPClient.cpp:790-839 | when no chunk-size line is cut by the timeout, the schedule does not matter |
| ChunkFormat.CutSizeLine | src/HTTPClient.cpp:796-806 | a pause inside the size line `1A` turns a chunk of 26 bytes into one of one byte |
| HttpBody.HttpNumbers | src/HTTPClient.h:42-55 | the error codes and the size of the buffer |
| HttpBody.HttpClient.WritePiece | src/HTTPClient.cpp:1251-1289 | one piece is written whole, or with one retry, or an error is reported |
| HttpBody.HttpClient.WriteDataBlock | src/HTTPClient.cpp:1209-1317 | the result is the number of bytes moved, and without a size it means that the connection has ended; on failure a prefix of what was read was written |
| HttpBody.HttpClient.CopyChunk | src/HTTPClient.cpp:809-836 | one chunk and its CRLF |
| HttpBody.HttpClient.WriteToStream | src/HTTPClient.cpp:768-847 | for every schedule, also with pauses inside chunk-size lines: a result that is not negative means exactly the body decoded from the lines as they arrived was written and agrees with Content-Length; a failure, also of a plain body, has its cause, and its code |
| HttpBody.DownloadChunked | src/HTTPClient.cpp:768-847 | for every body, partition and schedule, exactly what the lines as they arrived announce; when none was cut, success delivers exactly the body, and it fails only if memory, connection or sink do |
| HttpBody.DownloadHex | src/HTTPClient.cpp:768-847 | the same for a sender that writes the sizes in hexadecimal digits |
| HttpBody.DownloadCut | src/HTTPClient.cpp:790-839 | a cut line with a wrong success: one byte of 26 |
| FtpLines.MemCCpy | src/FTPClient.cpp:37-52 | copies up to and including the first occurrence |
| FtpLines.MovePiece | src/FTPClient.cpp:86-109 | one piece of a line is copied up to its LF, with a NUL behind it |
| FtpLines.FtpBase.Refill | src/FTPClient.cpp:115-138 | the next fragment is buffered and nothing pending is lost |
| FtpLines.FtpBase.NextPiece | src/FTPClient.cpp:86-109 | the buffered part of the line moves to the caller's buffer |
| FtpLines.FtpBase.ReadLine | src/FTPClient.cpp:74-146 | however the stream is fragmented, the next line with CRLF turned into LF, and exactly that line is gone |
| FtpLines.LastLineBlanked | src/FTPClient.cpp:110-114 | a last line of two characters in a buffer of three is counted, and blanked |
| FtpLines.FtpBase.ReadResp | src/FTPClient.cpp:209-235 | exactly one single- or multi-line reply is consumed and what follows is untouched (section 4.2 of RFC 959) |
| FtpLines.FtpBase.SkipToClosing | src/FTPClient.cpp:217-231 | the lines of a multi-line reply up to the closing one |
| FtpLines.EndsTest | src/FTPClient.cpp:219-230 | the comparison of four characters finds exactly the closing line |
| FtpLines.ReplyShapes | src/FTPClient.cpp:215-231 | a code and a space make a reply of one line; a code and a dash open one that ends at the first line with the code and a space |
| FtpLines.FtpNumbers | src/FTPClient.cpp:22-24 | the characters, sizes and directions |
| FtpLines.FtpBase.WriteLine | src/FTPClient.cpp:153-206 | wherever the buffer is flushed, exactly the converted text is sent |
| FtpLines.CrlfIsClean | src/FTPClient.cpp:168-195 | the output has no bare LF |
| FtpLines.CrlfFixed | src/FTPClient.cpp:168-195 | a text is left alone exactly when it has no bare LF |
| FtpLines.CrlfIdempotent | src/FTPClient.cpp:168-195 | converting twice is converting once |
| FtpLines.CrlfKeepsText | src/FTPClient.cpp:168-195 | nothing but line ends is changed |
| FtpLines.CrlfSplit | src/FTPClient.cpp:153-206 | writing in two calls sends the same bytes exactly when the cut is not between CR and LF |

## Left out

- Sockets, DNS, TLS, PPP, SNTP, UDP and TCP wrappers: they pass data to and from lwIP and mbedTLS without deciding anything; here the network is an arbitrary source and sink.
- Timers, mutexes and threads: a timer is an arbitrary answer; callbacks do not call the client again.
- MQTTFormat.c, logging, samples and test drivers: printing only.
- Reads past the end of a packet: MQTTDeserialize_publish, _subscribe, _unsubscribe and _connect may read a few bytes behind a packet cut short. The model asks for that many spare bytes in the buffer instead of treating them as errors.
- Output arrays of the list deserializers are sequences; the bound `maxcount` of subscribe and unsubscribe, which the code never tests, is not modelled.
- Int overflow in sums of lengths: lengths and totals are unbounded, buffers at most one MQTT packet of 268435460 bytes.
- SubscribeCodec.SerializeSuback: requires a large enough buffer, because the size check of the code does not ensure one.
- ConnectCodec.SerializeConnack: requires a large enough buffer, for the same reason.
- The PUBREL branch of connect: `pubrel` is never set to true.
- The handler table of the C++ client: whether subscribe and unsubscribe call setMessageHandler is modelled, its result is arbitrary; the table itself is modelled for the C client.
- MQTTSerialize_unsuback and MQTTDeserialize_unsuback: an acknowledgement of another type, four bytes without flags; the codec of acknowledgements covers their format.
- Whether handlers run in the C++ client: a delivery is an event in the history.
- Handlers.Client.SetMessageHandler: the C client keeps the caller's pointer to a filter; the model keeps its contents, so later changes of that memory are not captured.
- Header parsing and URL handling before the HTTP body.
- FtpLines.FtpBase.ReadLine: asks that the next line fits the caller's buffer and has a character before its LF, because the code looks two characters back; the buffer has the one extra cell its terminator needs.
- FTP data connections, login and PORT mode: sequences of commands over the same lines.
