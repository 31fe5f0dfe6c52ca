/**
 PUBLISH and the acknowledgements (sections 3.3 to 3.7 of MQTT 3.1.1): serializers, deserializers
 and their round trips.
 */
module PublishCodec {
  import opened Bytes
  import opened RemainingLength
  import opened Framing
  import opened Fields

  /** A message on its way: the arguments of MQTTSerialize_publish. */
  datatype Message = Message(dup: nat, qos: nat, retained: nat, id: nat, topic: bytes, payload: bytes) {
    /** Flags and identifier in their ranges. */
    predicate WellFormed() {
      dup < 2 && qos < 3 && retained < 2 && id < 65536
    }
  }

  /** What MQTTDeserialize_publish finds. The identifier is left alone for QoS 0; the payload
      length is what is left of the packet, and negative if the identifier was not in it. */
  datatype Found = Found(dup: nat, qos: nat, retained: nat, id: Option<nat>, topic: bytes,
                         payload: bytes, payloadLen: int)

  function PublishBody(m: Message): bytes {
    Str(m.topic) + (if m.qos > 0 then U16(m.id) else []) + m.payload
  }

  function PublishBytes(m: Message): bytes {
    Packet(Header(PUBLISH, m.dup, m.qos, m.retained), PublishBody(m))
  }

  /** MQTTDeserialize_publish on a buffer holding a packet; None when the topic is cut short. */
  function ParsePublish(s: bytes): Option<Found>
    requires Framed(s, 2)
  {
    var end := BodyEnd(s);
    match ReadString(s, BodyStart(s), end)
    case None => None
    case Some((topic, at)) =>
      var qos := QosOf(s[0]);
      var from := if qos > 0 then at + 2 else at;
      Some(Found(DupOf(s[0]), qos, RetainOf(s[0]),
                 if qos > 0 then Some(ReadInt(s, at)) else None,
                 topic,
                 if from <= end then s[from..end] else [],
                 end - from))
  }

  function FoundOf(m: Message): Found {
    Found(m.dup, m.qos, m.retained, if m.qos > 0 then Some(m.id) else None, m.topic, m.payload, |m.payload|)
  }

  /** Every well-formed message comes back, whatever follows the packet in the buffer, exactly when
      two bytes can hold the length of its topic. */
  lemma PublishRoundTrip(s: bytes, m: Message)
    requires m.WellFormed() && |PublishBody(m)| <= MAX_VALUE
    requires Holds(s, 0, PublishBytes(m)) && |PublishBytes(m)| + 2 <= |s|
    ensures Framed(s, 2) && TypeOf(s[0]) == PUBLISH
    ensures ParsePublish(s) == Some(FoundOf(m)) <==> |m.topic| < 65536
  {
    hide Encode, Field, Value, IsField, Packet, Holds, Str, U16, ReadString, ReadInt, Header;
    hide TypeOf, DupOf, QosOf, RetainOf;
    HeaderFields(PUBLISH, m.dup, m.qos, m.retained);
    PacketParts(s, Header(PUBLISH, m.dup, m.qos, m.retained), PublishBody(m));
    var id := if m.qos > 0 then U16(m.id) else [];
    HoldsSplit(s, BodyStart(s), Str(m.topic) + id, m.payload);
    HoldsSplit(s, BodyStart(s), Str(m.topic), id);
    StringRoundTrip(s, BodyStart(s), BodyEnd(s), m.topic);
    ReadStringBound(s, BodyStart(s), BodyEnd(s));
    if m.qos > 0 {
      IntRoundTrip(s, BodyStart(s) + |Str(m.topic)|, m.id);
    }
    assert |U16(m.id)| == 2 by { U16Size(m.id); }
    HoldsSlice(s, BodyStart(s) + |Str(m.topic) + id|, m.payload);
  }

  /** MQTTSerialize_publishLength: for a well-formed topic exactly the length of the body that will be
      written, whatever the identifier and the payload of that length. */
  method PublishLength(qos: nat, topic: MQTTString, payloadLen: nat, ghost m: Message) returns (len: nat)
    requires topic.WellFormed()
    requires m.qos == qos && m.topic == topic.Text() && |m.payload| == payloadLen
    ensures len == |PublishBody(m)|
  {
    hide U16;
    topic.StrLenIsTextLen();
    StrSize(topic.Text());
    U16Size(m.id);
    len := 2 + topic.StrLen() + payloadLen;
    if qos > 0 {
      len := len + 2;
    }
  }

  /** MQTTSerialize_publish: the packet, or an untouched buffer that is too short for it. */
  method SerializePublish(buf: array<byte>, buflen: nat, dup: nat, qos: nat, retained: nat, id: nat,
                          topic: MQTTString, payload: bytes)
    returns (rc: int)
    requires buflen <= buf.Length && buflen <= MAX_PACKET
    requires topic.WellFormed()
    modifies buf
    ensures var m := Message(dup, qos, retained, id, topic.Text(), payload);
            if PacketLen(|PublishBody(m)|) > buflen then
              rc == BUFFER_TOO_SHORT && buf[..] == old(buf[..])
            else
              && rc == |PublishBytes(m)| && 0 < rc <= buflen && |PublishBody(m)| <= MAX_VALUE
              && buf[..] == Put(old(buf[..]), 0, PublishBytes(m))
  {
    hide Put, Encode, PacketLen;
    ghost var before := buf[..];
    ghost var m := Message(dup, qos, retained, id, topic.Text(), payload);
    var remLen := PublishLength(qos, topic, |payload|, m);
    if PacketLen(remLen) > buflen {
      return BUFFER_TOO_SHORT;
    }
    ghost var h := Header(PUBLISH, dup, qos, retained);
    PacketSize(h, PublishBody(m));
    var ptr := WriteHeader(buf, Header(PUBLISH, dup, qos, retained), remLen);
    ghost var done := [h] + Encode(remLen);
    PutPut(before, 0, done, Str(topic.Text()));
    ptr := WriteString(buf, ptr, topic);
    done := done + Str(topic.Text());
    if qos > 0 {
      PutPut(before, 0, done, U16(id));
      ptr := WriteInt(buf, ptr, id);
      done := done + U16(id);
    }
    PutPut(before, 0, done, payload);
    Copy(buf, ptr, payload);
    ptr := ptr + |payload|;
    assert done + payload == PublishBytes(m);
    rc := ptr;
  }

  /** MQTTDeserialize_publish. A topic cut short makes the result the number of length bytes,
      which is 1, the code for success, when there is one of them; only the flags are set then. (What is
      not set is None or empty here.) */
  method DeserializePublish(buf: array<byte>) returns (rc: int, found: Found)
    requires Framed(buf[..], 2)
    ensures TypeOf(buf[0]) != PUBLISH ==> rc == 0
    ensures TypeOf(buf[0]) == PUBLISH ==>
              && found.dup == DupOf(buf[0]) && found.qos == QosOf(buf[0]) && found.retained == RetainOf(buf[0])
              && match ParsePublish(buf[..])
                 case Some(f) => rc == 1 && found == f
                 case None => rc == |Field(buf[1..])| && found.id.None? && found.topic == found.payload == []
  {
    hide Field, Value, IsField;
    rc := 0;
    found := Found(0, 0, 0, None, [], [], 0);
    if TypeOf(buf[0]) != PUBLISH {
      return;
    }
    found := found.(dup := DupOf(buf[0]), qos := QosOf(buf[0]), retained := RetainOf(buf[0]));
    var start, end;
    rc, start, end := ReadHeader(buf);
    var ok, topic, at := ReadStringFrom(buf, start, end);
    if !ok {
      return;
    }
    found := found.(topic := topic);
    if found.qos > 0 {
      found := found.(id := Some(256 * (buf[at] as int) + buf[at + 1]));
      at := at + 2;
    }
    found := found.(payloadLen := end - at, payload := if at <= end then buf[at..end] else []);
    rc := 1;
  }

  /** A PUBLISH without a topic, and with one length byte: the result is the code for success, though
      no topic, identifier or payload was set. */
  method PublishWithoutTopic(qos: nat) returns (rc: int, found: Found)
    requires qos < 3
    ensures rc == 1 && found.qos == qos && found.id.None? && found.topic == [] && found.payload == []
  {
    hide Field, Value, IsField;
    var buf := new byte[4];
    buf[0], buf[1] := 48 + 2 * qos, 0;
    SmallField(buf[1..]);
    assert buf[..][1..] == buf[1..];
    rc, found := DeserializePublish(buf);
  }

  /** An acknowledgement. PUBREL carries the flag bits 0010. */
  function AckBytes(kind: nat, dup: nat, id: nat): bytes {
    Packet(Header(kind, dup, if kind == PUBREL then 1 else 0, 0), U16(id))
  }

  /** The four bytes of an acknowledgement, spelled out. */
  lemma AckOnWire(kind: nat, dup: nat, id: nat)
    requires kind < 16 && dup < 2 && id < 65536
    ensures AckBytes(kind, dup, id) ==
            [kind * 16 + dup * 8 + (if kind == PUBREL then 2 else 0), 2, id / 256, id % 256]
  {
    hide Encode;
    EncodeSmall(2);
    assert kind % 16 == kind && dup % 2 == dup && id / 256 % 256 == id / 256;
  }

  /** MQTTDeserialize_ack: None when there is no room for an identifier in the packet. */
  function ParseAck(s: bytes): Option<nat>
    requires Framed(s, 0)
  {
    if BodyEnd(s) - BodyStart(s) < 2 then None else Some(ReadInt(s, BodyStart(s)))
  }

  /** Each acknowledgement keeps its type, dup flag and packet identifier. */
  lemma AckRoundTrip(s: bytes, kind: nat, dup: nat, id: nat)
    requires kind < 16 && dup < 2 && id < 65536
    requires Holds(s, 0, AckBytes(kind, dup, id))
    ensures Framed(s, 0) && TypeOf(s[0]) == kind && DupOf(s[0]) == dup && ParseAck(s) == Some(id)
  {
    hide Encode, Field, Value, IsField, Packet;
    var qos := if kind == PUBREL then 1 else 0;
    HeaderFields(kind, dup, qos, 0);
    PacketParts(s, Header(kind, dup, qos, 0), U16(id));
    IntRoundTrip(s, BodyStart(s), id);
  }

  /** MQTTSerialize_ack. */
  method SerializeAck(buf: array<byte>, buflen: nat, kind: nat, dup: nat, id: nat) returns (rc: int)
    requires buflen <= buf.Length
    modifies buf
    ensures if buflen < 4 then
              rc == BUFFER_TOO_SHORT && buf[..] == old(buf[..])
            else
              rc == |AckBytes(kind, dup, id)| == 4 && buf[..] == Put(old(buf[..]), 0, AckBytes(kind, dup, id))
  {
    hide Put;
    if buflen < 4 {
      return BUFFER_TOO_SHORT;
    }
    ghost var before := buf[..];
    var qos := if kind == PUBREL then 1 else 0;
    var ptr := WriteHeader(buf, Header(kind, dup, qos, 0), 2);
    PutPut(before, 0, [Header(kind, dup, qos, 0)] + Encode(2), U16(id));
    ptr := WriteInt(buf, ptr, id);
    rc := ptr;
  }

  /** MQTTDeserialize_ack. As for a PUBLISH, a packet without an identifier yields the number of
      length bytes, and no identifier. */
  method DeserializeAck(buf: array<byte>) returns (rc: int, kind: nat, dup: nat, id: Option<nat>)
    requires Framed(buf[..], 0)
    ensures kind == TypeOf(buf[0]) && dup == DupOf(buf[0]) && id == ParseAck(buf[..])
    ensures rc == if id.Some? then 1 else |Field(buf[1..])|
  {
    hide Field, Value, IsField;
    kind, dup, id := TypeOf(buf[0]), DupOf(buf[0]), None;
    var start, end;
    rc, start, end := ReadHeader(buf);
    if end - start < 2 {
      return;
    }
    id := Some(256 * (buf[start] as int) + buf[start + 1]);
    rc := 1;
  }

  /** An acknowledgement without an identifier, and with one length byte: success again. */
  method AckWithoutId(kind: nat) returns (rc: int, found: nat, id: Option<nat>)
    requires kind in {PUBACK, PUBREC, PUBREL, PUBCOMP}
    ensures rc == 1 && found == kind && id.None?
  {
    hide Field, Value, IsField;
    var buf := new byte[2];
    buf[0], buf[1] := 16 * kind, 0;
    SmallField(buf[1..]);
    assert buf[..][1..] == buf[1..];
    var dup;
    rc, found, dup, id := DeserializeAck(buf);
  }
}
