/**
 The packets as the protocol prints them: the numbers of sections 2.2 and 3.1 to 3.14 of MQTT 3.1.1,
 written out, and what the deserializers make of bytes that are written out.
 */
module WireBytes {
  import opened Bytes
  import opened RemainingLength
  import opened Framing
  import opened Fields
  import P = PublishCodec
  import S = SubscribeCodec
  import C = ConnectCodec

  /** Table 2.1, and the limits of the length field. */
  lemma PacketTypes()
    ensures CONNECT == 1 && CONNACK == 2 && PUBLISH == 3 && PUBACK == 4 && PUBREC == 5 && PUBREL == 6 && PUBCOMP == 7
    ensures SUBSCRIBE == 8 && SUBACK == 9 && UNSUBSCRIBE == 10 && UNSUBACK == 11
    ensures PINGREQ == 12 && PINGRESP == 13 && DISCONNECT == 14
    ensures MAX_BYTES == 4 && MAX_VALUE == 268435455 && MAX_PACKET == 268435460 && BUFFER_TOO_SHORT == -2
  {
  }

  /** Table 2.4: the digits of a length, least significant first. */
  lemma TwoDigits(n: nat)
    requires 128 <= n < 16384
    ensures Encode(n) == [128 + n % 128, n / 128]
  {
    EncodeSmall(n / 128);
  }

  lemma ThreeDigits(n: nat)
    requires 16384 <= n < 2097152
    ensures Encode(n) == [128 + n % 128, 128 + n / 128 % 128, n / 128 / 128]
  {
    TwoDigits(n / 128);
  }

  lemma FourDigits(n: nat)
    requires 2097152 <= n <= 268435455
    ensures Encode(n) == [128 + n % 128, 128 + n / 128 % 128, 128 + n / 128 / 128 % 128, n / 128 / 128 / 128]
  {
    ThreeDigits(n / 128);
  }

  /** Figure 2.2: the fields of the first byte. */
  lemma FirstByte(h: byte)
    ensures h as int == 16 * TypeOf(h) + 8 * DupOf(h) + 2 * QosOf(h) + RetainOf(h)
    ensures TypeOf(h) < 16 && DupOf(h) < 2 && QosOf(h) < 4 && RetainOf(h) < 2
  {
    var n := h as int;
    Divided(n, 2);
    Divided(n / 2, 4);
    Divided(n / 8, 2);
    assert n / 2 / 4 == n / 8 && n / 8 / 2 == n / 16;
  }

  lemma Divided(n: nat, d: nat)
    requires d > 0
    ensures n == d * (n / d) + n % d && n % d < d
  {
  }

  lemma FirstByteOf(kind: nat, dup: nat, qos: nat, retain: nat)
    requires kind < 16 && dup < 2 && qos < 4 && retain < 2
    ensures Header(kind, dup, qos, retain) as int == 16 * kind + 8 * dup + 2 * qos + retain
  {
  }

  lemma TwoBytes(n: nat)
    requires n < 65536
    ensures U16(n) == [n / 256, n % 256]
  {
  }

  /** A string, with its length in two bytes. */
  function Text(x: bytes): bytes
    requires |x| < 65536
  {
    [|x| / 256, |x| % 256] + x
  }

  lemma Strings(x: bytes)
    requires |x| < 65536
    ensures Str(x) == Text(x)
  {
    TwoBytes(|x|);
  }

  /** PUBACK, PUBREC, PUBREL and PUBCOMP (sections 3.4 to 3.7). */
  lemma Acknowledgements(id: nat)
    requires id < 65536
    ensures P.AckBytes(PUBACK, 0, id) == [64, 2, id / 256, id % 256]
    ensures P.AckBytes(PUBREC, 0, id) == [80, 2, id / 256, id % 256]
    ensures P.AckBytes(PUBREL, 0, id) == [98, 2, id / 256, id % 256]
    ensures P.AckBytes(PUBCOMP, 0, id) == [112, 2, id / 256, id % 256]
  {
    hide Encode;
    P.AckOnWire(PUBACK, 0, id);
    P.AckOnWire(PUBREC, 0, id);
    P.AckOnWire(PUBREL, 0, id);
    P.AckOnWire(PUBCOMP, 0, id);
  }

  /** PUBLISH (section 3.3). */
  lemma PublishPacket(m: P.Message)
    requires m.WellFormed() && |m.topic| < 65536
    ensures P.PublishBody(m) == Text(m.topic) + (if m.qos > 0 then [m.id / 256, m.id % 256] else []) + m.payload
    ensures P.PublishBytes(m) ==
            [48 + 8 * m.dup + 2 * m.qos + m.retained] + Encode(|P.PublishBody(m)|) + P.PublishBody(m)
  {
    hide Encode;
    Strings(m.topic);
    TwoBytes(m.id);
    FirstByteOf(3, m.dup, m.qos, m.retained);
  }

  /** SUBSCRIBE and UNSUBSCRIBE (sections 3.8 and 3.10). */
  lemma RequestPacket(id: nat, dup: nat, list: seq<S.Request>)
    requires id < 65536 && dup < 2
    ensures var body := [id / 256, id % 256] + S.Entries(list);
            && S.RequestBytes(SUBSCRIBE, dup, id, list) == [130 + 8 * dup] + Encode(|body|) + body
            && S.RequestBytes(UNSUBSCRIBE, dup, id, list) == [162 + 8 * dup] + Encode(|body|) + body
  {
    hide Encode, S.Entries;
    TwoBytes(id);
    FirstByteOf(8, dup, 1, 0);
    FirstByteOf(10, dup, 1, 0);
  }

  /** One entry: the topic filter and, in a SUBSCRIBE, the QoS byte. */
  lemma RequestEntry(r: S.Request, rest: seq<S.Request>)
    requires |r.topic| < 65536 && (r.qos.Some? ==> 0 <= r.qos.value < 256)
    ensures S.Entries([r] + rest) == Text(r.topic) + (if r.qos.Some? then [r.qos.value] else []) + S.Entries(rest)
    ensures S.Entries([]) == []
  {
    hide Str;
    Strings(r.topic);
    assert ([r] + rest)[1..] == rest;
  }

  /** SUBACK, CONNACK and the packets without a body. */
  lemma SubackPacket(id: nat, granted: seq<int>)
    requires id < 65536
    ensures S.SubackBytes(id, granted) == [144] + Encode(2 + |granted|) + ([id / 256, id % 256] + S.QosBytes(granted))
  {
    hide Encode, S.QosBytes;
    TwoBytes(id);
    FirstByteOf(9, 0, 0, 0);
  }

  lemma {:induction false} QosList(granted: seq<int>, i: nat)
    requires i < |granted| && forall j :: 0 <= j < |granted| ==> 0 <= granted[j] < 256
    ensures |S.QosBytes(granted)| == |granted| && S.QosBytes(granted)[i] as int == granted[i]
  {
    if i > 0 {
      QosList(granted[1..], i - 1);
    }
  }

  lemma ConnackPacket(code: nat, sessionPresent: nat)
    requires code < 256 && sessionPresent < 2
    ensures C.ConnackBytes(code, sessionPresent) == [32, 2, sessionPresent, code]
  {
    hide Encode;
    EncodeSmall(2);
    FirstByteOf(2, 0, 0, 0);
    assert C.ConnackBytes(code, sessionPresent) == [32] + [2] + [sessionPresent, code];
  }

  lemma EmptyPackets()
    ensures C.ZeroBytes(PINGREQ) == [192, 0] && C.ZeroBytes(PINGRESP) == [208, 0] && C.ZeroBytes(DISCONNECT) == [224, 0]
  {
    C.ZeroOnWire(PINGREQ);
    C.ZeroOnWire(PINGRESP);
    C.ZeroOnWire(DISCONNECT);
  }

  /** The flag byte of CONNECT (figure 3.4). */
  function ConnectFlags(o: C.Options): int
    requires o.InRange()
  {
    2 * o.cleanSession
    + (if o.will.Some? then 4 + 8 * o.will.value.qos + 32 * o.will.value.retained else 0)
    + (if o.password.Given() then 64 else 0) + (if o.username.Given() then 128 else 0)
  }

  lemma FlagsByte(o: C.Options)
    requires o.InRange()
    ensures 0 <= ConnectFlags(o) < 256 && C.Flags(o) as int == ConnectFlags(o)
  {
    C.Small(0, o.cleanSession);
    if o.will.Some? {
      C.Small(o.will.value.qos, o.will.value.retained);
    }
  }

  /** CONNECT (section 3.1): the protocol name and level, the flags, the keep-alive, and the fields of the
      payload in their order. */
  lemma ConnectPacket(o: C.Options)
    ensures var body := C.VariableHeader(o) + C.Payload(o);
            C.ConnectBytes(o) == [16] + Encode(|body|) + body
  {
    hide Encode, C.VariableHeader, C.Payload;
    FirstByteOf(1, 0, 0, 0);
  }

  lemma ConnectHeader(o: C.Options)
    requires o.InRange() && (o.version == 3 || o.version == 4)
    ensures 0 <= ConnectFlags(o) < 256
    ensures C.VariableHeader(o) ==
            (if o.version == 4 then [0, 4, 77, 81, 84, 84, 4] else [0, 6, 77, 81, 73, 115, 100, 112, 3])
            + [ConnectFlags(o), o.keepAlive / 256, o.keepAlive % 256]
  {
    hide C.Flags, ConnectFlags;
    FlagsByte(o);
    TwoBytes(o.keepAlive);
    Strings(C.NAME_3);
    Strings(C.NAME_4);
  }

  lemma ConnectPayload(o: C.Options)
    requires o.InRange()
    ensures C.Payload(o) ==
            Text(o.clientID.Text())
            + (if o.will.Some? then Text(o.will.value.topic.Text()) + Text(o.will.value.message.Text()) else [])
            + (if o.username.Given() then Text(o.username.Text()) else [])
            + (if o.password.Given() then Text(o.password.Text()) else [])
  {
    hide Str, Text;
    Strings(o.clientID.Text());
    Strings(o.username.Text());
    Strings(o.password.Text());
    if o.will.Some? {
      Strings(o.will.value.topic.Text());
      Strings(o.will.value.message.Text());
    }
  }

  /** A short packet in a buffer: its first byte, a length of one byte, and the body. */
  lemma ShortPacket(s: bytes, h: byte, body: bytes)
    requires |body| < 128 && Holds(s, 0, [h, |body|] + body)
    ensures Framed(s, |s| - 2 - |body|) && BodyStart(s) == 2 && BodyEnd(s) == 2 + |body| && s[0] == h
    ensures s[2..2 + |body|] == body
  {
    hide Field, Value, IsField;
    var front := s[0..2 + |body|];
    assert s[0] == front[0] && s[1] == front[1];
    SmallField(s[1..]);
    assert s[2..2 + |body|] == front[2..];
  }

  /** What is found in an acknowledgement of four bytes. */
  lemma AckRead(s: bytes, h: byte, a: byte, b: byte)
    requires Holds(s, 0, [h, 2, a, b])
    ensures Framed(s, |s| - 4) && Framed(s, 0) && s[0] == h && TypeOf(s[0]) == h / 16 && DupOf(s[0]) == h / 8 % 2
    ensures P.ParseAck(s) == Some(256 * (a as int) + b as int)
  {
    assert [h, 2] + [a, b] == [h, 2, a, b];
    ShortPacket(s, h, [a, b]);
    assert s[2..4][0] == s[2] && s[2..4][1] == s[3];
  }

  /** What is found in a CONNACK. */
  lemma ConnackRead(s: bytes, h: byte, a: byte, code: byte)
    requires Holds(s, 0, [h, 2, a, code])
    ensures Framed(s, |s| - 4) && Framed(s, 0) && TypeOf(s[0]) == h / 16
    ensures C.ParseConnack(s) == Some((a as int % 2, code as int))
  {
    assert [h, 2] + [a, code] == [h, 2, a, code];
    ShortPacket(s, h, [a, code]);
    assert s[2..4][0] == s[2] && s[2..4][1] == s[3];
  }

  /** A PUBLISH: the flags in the first byte, the length, the topic, for QoS 1 and 2 the identifier, and the
      payload. */
  function PublishFrame(flags: nat, topic: bytes, a: byte, b: byte, payload: bytes): bytes
    requires flags < 16 && |topic| < 65536
  {
    var body := PublishContent(flags, topic, a, b, payload);
    [48 + flags] + Encode(|body|) + body
  }

  function PublishContent(flags: nat, topic: bytes, a: byte, b: byte, payload: bytes): bytes
    requires |topic| < 65536
  {
    Text(topic) + (if flags / 2 % 4 > 0 then [a, b] else []) + payload
  }

  /** The buffer begins with a PUBLISH of these contents. */
  predicate HoldsPublish(s: bytes, flags: nat, topic: bytes, a: byte, b: byte, payload: bytes) {
    && flags < 16 && flags / 2 % 4 < 3 && |topic| < 65536
    && |PublishContent(flags, topic, a, b, payload)| <= 268435455
    && PublishFrame(flags, topic, a, b, payload) <= s && |PublishFrame(flags, topic, a, b, payload)| + 2 <= |s|
  }

  /** What is found in a PUBLISH: the topic, then for QoS 1 and 2 the identifier, then the payload. */
  lemma PublishRead(s: bytes, flags: nat, topic: bytes, a: byte, b: byte, payload: bytes)
    requires HoldsPublish(s, flags, topic, a, b, payload)
    ensures Framed(s, 2) && TypeOf(s[0]) == 3
    ensures P.ParsePublish(s) ==
            Some(P.Found(flags / 8, flags / 2 % 4, flags % 2,
                         if flags / 2 % 4 > 0 then Some(256 * (a as int) + b as int) else None,
                         topic, payload, |payload|))
  {
    hide Encode, P.ParsePublish, Framed, P.PublishBytes, P.PublishBody, Text, TypeOf;
    var id := 256 * (a as int) + b as int;
    assert id / 256 == a as int && id % 256 == b as int;
    assert flags == 8 * (flags / 8) + 2 * (flags / 2 % 4) + flags % 2;
    var m := P.Message(flags / 8, flags / 2 % 4, flags % 2, id, topic, payload);
    PublishPacket(m);
    P.PublishRoundTrip(s, m);
  }

  /** A topic whose announced length does not fit the packet is not read. */
  lemma TopicCut(s: bytes, h: byte, a: byte, b: byte, rest: bytes)
    requires |rest| < 126 && 256 * (a as int) + b as int > |rest|
    requires Holds(s, 0, [h, 2 + |rest|, a, b] + rest) && |rest| + 6 <= |s|
    ensures Framed(s, 2) && P.ParsePublish(s) == None
  {
    assert [h, 2 + |rest|] + ([a, b] + rest) == [h, 2 + |rest|, a, b] + rest;
    ShortPacket(s, h, [a, b] + rest);
    assert s[2..4 + |rest|][0] == s[2] && s[2..4 + |rest|][1] == s[3];
  }

  /** The values in a SUBACK; a plain char may be signed. */
  lemma SubackRead(s: bytes, a: byte, b: byte, q: byte, signed: bool)
    requires Holds(s, 0, [144, 3, a, b, q])
    ensures Framed(s, |s| - 5) && Framed(s, 0) && TypeOf(s[0]) == 9 && BodyEnd(s) - BodyStart(s) == 3
    ensures ReadInt(s, BodyStart(s)) == 256 * (a as int) + b as int
    ensures S.ParseSuback(s, signed) == [if signed && q >= 128 then q as int - 256 else q as int]
  {
    assert [144, 3] + [a, b, q] == [144, 3, a, b, q];
    ShortPacket(s, 144, [a, b, q]);
    assert s[2..5][0] == s[2] && s[2..5][1] == s[3] && s[2..5][2] == s[4];
    assert s[4..5] == [] + [q];
    S.NoQos(signed);
    S.QosValuesSnoc([], q, signed);
  }

  /** What is found in a CONNECT, field by field. It is refused for a password without a user name, a password
      that is empty, and a user name that is empty and comes alone. */
  lemma ConnectRead(s: bytes, o: C.Options)
    requires o.InRange() && (o.version == 3 || o.version == 4)
    requires |C.VariableHeader(o) + C.Payload(o)| <= MAX_VALUE
    requires Holds(s, 0, C.ConnectBytes(o)) && |C.ConnectBytes(o)| + 4 <= |s|
    ensures Framed(s, 4)
    ensures var user, password := o.username.Given(), o.password.Given();
            var found := C.ParseConnect(s, |C.ConnectBytes(o)|);
            if (password && (!user || o.password.Text() == [])) || (user && !password && o.username.Text() == []) then
              found.None?
            else
              && found.Some?
              && var f := found.value;
                 && f.clientID == o.clientID.Text() && f.keepAlive == o.keepAlive
                 && f.cleanSession == o.cleanSession
                 && f.username == (if user then Some(o.username.Text()) else None)
                 && f.password == (if password then Some(o.password.Text()) else None)
                 && (f.will.Some? <==> o.will.Some?)
                 && (o.will.Some? ==>
                       var w, v := f.will.value, o.will.value;
                       && w.qos == v.qos && w.retained == v.retained
                       && w.topic == v.topic.Text() && w.message == v.message.Text())
  {
    hide Holds, Framed, C.ParseConnect, C.ConnectBytes, C.VariableHeader, C.Payload;
    C.ConnectRoundTrip(s, o);
  }

  /** Protocol names and levels: MQIsdp with level 3, MQTT with level 4, and nothing else; a name that is
      cut short, and one that goes on, passes for the whole. */
  lemma Versions(name: bytes, level: nat)
    ensures C.CheckVersion(name, level) <==>
            || (level == 3 && (name <= [77, 81, 73, 115, 100, 112] || [77, 81, 73, 115, 100, 112] <= name))
            || (level == 4 && (name <= [77, 81, 84, 84] || [77, 81, 84, 84] <= name))
  {
    PrefixTest(name, C.NAME_3);
    PrefixTest(name, C.NAME_4);
    assert C.NAME_3[..6] == C.NAME_3 && C.NAME_4[..4] == C.NAME_4;
  }

  lemma PrefixTest(name: bytes, whole: bytes)
    ensures var n := C.Min(|whole|, |name|);
            name[..n] == whole[..n] <==> name <= whole || whole <= name
  {
    if |name| <= |whole| {
      assert name[..|name|] == name;
    } else {
      assert whole[..|whole|] == whole;
    }
  }

  /** A CONNECT of another name or level is refused. */
  lemma OtherVersions(s: bytes, len: nat, name: bytes, level: byte, rest: bytes)
    requires |name| < 65536 && 3 + |name| + |rest| <= 268435455
    requires var body := Text(name) + [level] + rest;
             Holds(s, 0, [16] + Encode(|body|) + body) && len == 1 + |Encode(|body|)| + |body| && len + 4 <= |s|
    requires !((level == 3 && (name <= [77, 81, 73, 115, 100, 112] || [77, 81, 73, 115, 100, 112] <= name))
               || (level == 4 && (name <= [77, 81, 84, 84] || [77, 81, 84, 84] <= name)))
    ensures Framed(s, 0) && BodyStart(s) + 2 <= |s| && C.ParseConnect(s, len) == None
  {
    hide Encode, Field, Value, IsField, Holds, C.ParseRest, ReadString, C.CheckVersion;
    var body := Text(name) + [level] + rest;
    FirstByteOf(1, 0, 0, 0);
    assert Packet(16, body) == [16] + Encode(|body|) + body;
    PacketParts(s, 16, body);
    Strings(name);
    HoldsSplit(s, BodyStart(s), Text(name) + [level], rest);
    HoldsSplit(s, BodyStart(s), Text(name), [level]);
    StringRoundTrip(s, BodyStart(s), len, name);
    C.HoldsByte(s, BodyStart(s) + |Text(name)|, level);
    Versions(name, level);
  }
}
