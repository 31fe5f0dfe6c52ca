/**
 The pieces packets are made of: the header byte, two-byte integers and length-prefixed strings
 (sections 1.5 and 2.2 of MQTT 3.1.1), and a whole packet as header, length field and body.
 */
module Fields {
  import opened Bytes
  import opened RemainingLength
  import opened Framing

  const CONNECT: nat := 1
  const CONNACK: nat := 2
  const PUBLISH: nat := 3
  const PUBACK: nat := 4
  const PUBREC: nat := 5
  const PUBREL: nat := 6
  const PUBCOMP: nat := 7
  const SUBSCRIBE: nat := 8
  const SUBACK: nat := 9
  const UNSUBSCRIBE: nat := 10
  const UNSUBACK: nat := 11
  const PINGREQ: nat := 12
  const PINGRESP: nat := 13
  const DISCONNECT: nat := 14

  const BUFFER_TOO_SHORT: int := -2
  /** The largest packet of the protocol: a header byte, four length bytes and the body. */
  const MAX_PACKET: nat := 1 + MAX_BYTES + MAX_VALUE

  /** The header bit fields: type, dup, qos and retain, each cut to its width. */
  function Header(kind: nat, dup: nat, qos: nat, retain: nat): byte {
    PackHeader(kind % 16, dup % 2, qos % 4, retain % 2)
  }

  function PackHeader(kind: nat, dup: nat, qos: nat, retain: nat): byte
    requires kind < 16 && dup < 2 && qos < 4 && retain < 2
  {
    kind * 16 + dup * 8 + qos * 2 + retain
  }

  function TypeOf(h: byte): nat { h / 16 }
  function DupOf(h: byte): nat { h / 8 % 2 }
  function QosOf(h: byte): nat { h / 2 % 4 }
  function RetainOf(h: byte): nat { h % 2 }

  lemma UnpackHeader(kind: nat, dup: nat, qos: nat, retain: nat)
    requires kind < 16 && dup < 2 && qos < 4 && retain < 2
    ensures var h := PackHeader(kind, dup, qos, retain);
            TypeOf(h) == kind && DupOf(h) == dup && QosOf(h) == qos && RetainOf(h) == retain
  {
    var h := PackHeader(kind, dup, qos, retain);
    Digit(kind, dup * 8 + qos * 2 + retain, 16);
    Digit(kind * 2 + dup, qos * 2 + retain, 8);
    Digit(kind * 8 + dup * 4 + qos, retain, 2);
    Digit(kind * 2 + dup, qos, 4);
    Digit(kind, dup, 2);
  }

  /** Quotient and remainder of a number written as such. */
  lemma Digit(q: nat, r: nat, d: nat)
    requires r < d && d in {2, 4, 8, 16}
    ensures (q * d + r) / d == q && (q * d + r) % d == r
  {
  }

  /** The bit fields come back out of the header byte. */
  lemma HeaderFields(kind: nat, dup: nat, qos: nat, retain: nat)
    requires kind < 16 && dup < 2 && qos < 4 && retain < 2
    ensures var h := Header(kind, dup, qos, retain);
            TypeOf(h) == kind && DupOf(h) == dup && QosOf(h) == qos && RetainOf(h) == retain
  {
    hide TypeOf, DupOf, QosOf, RetainOf, PackHeader;
    UnpackHeader(kind, dup, qos, retain);
  }

  /** A two-byte integer, most significant byte first. */
  function U16(n: nat): bytes {
    [LowByte(n / 256), LowByte(n)]
  }

  lemma U16Size(n: nat)
    ensures |U16(n)| == 2
  {
  }

  function ReadInt(s: bytes, at: nat): nat
    requires at + 2 <= |s|
  {
    256 * (s[at] as int) + s[at + 1]
  }

  lemma IntRoundTrip(s: bytes, at: nat, n: nat)
    requires Holds(s, at, U16(n)) && n < 65536
    ensures ReadInt(s, at) == n
  {
    assert s[at..at + 2][0] == U16(n)[0] && s[at..at + 2][1] == U16(n)[1];
  }

  /** MQTTString: a C string (the bytes before its NUL), or a counted one. `lenstring` is None
      for a null data pointer, whose count is zero. */
  datatype MQTTString = MQTTString(cstring: Option<bytes>, lenstring: Option<bytes>) {
    function Counted(): bytes {
      if lenstring.Some? then lenstring.value else []
    }

    /** At most one of the two is set. */
    predicate WellFormed() {
      cstring.None? || Counted() == []
    }

    /** The bytes writeMQTTString writes after the length. */
    function Text(): bytes {
      if Counted() != [] then Counted() else if cstring.Some? then cstring.value else []
    }

    /** MQTTstrlen, which looks at the C string first. */
    function StrLen(): nat {
      if cstring.Some? then |cstring.value| else |Counted()|
    }

    /** The test for a user name or password being given. */
    predicate Given() {
      cstring.Some? || lenstring.Some?
    }

    /** The length announced is the length written, exactly for a well-formed string or one
        whose two texts happen to be equally long. */
    lemma StrLenIsTextLen()
      ensures StrLen() == |Text()| <==> WellFormed() || |cstring.value| == |Counted()|
    {
    }
  }

  function CString(x: bytes): MQTTString {
    MQTTString(Some(x), None)
  }

  /** A string on the wire. */
  function Str(x: bytes): bytes {
    U16(|x|) + x
  }

  lemma StrSize(x: bytes)
    ensures |Str(x)| == 2 + |x|
  {
  }

  /** readMQTTLenString: the string at `at`, not reading past `end`, and the index behind it. */
  function ReadString(s: bytes, at: nat, end: nat): (r: Option<(bytes, nat)>)
    requires end <= |s|
    ensures r.Some? ==> at + 2 <= r.value.1 <= end
  {
    if end - at > 1 then
      var len := ReadInt(s, at);
      if at + 2 + len <= end then Some((s[at + 2..at + 2 + len], at + 2 + len)) else None
    else None
  }

  lemma ReadStringBound(s: bytes, at: nat, end: nat)
    requires end <= |s|
    ensures ReadString(s, at, end).Some? ==> |ReadString(s, at, end).value.0| < 65536
  {
  }

  /** A string is read back, with the index behind it, exactly when two bytes can hold its length. */
  lemma StringRoundTrip(s: bytes, at: nat, end: nat, x: bytes)
    requires Holds(s, at, Str(x)) && at + |Str(x)| <= end <= |s|
    ensures ReadString(s, at, end) == Some((x, at + |Str(x)|)) <==> |x| < 65536
  {
    HoldsSplit(s, at, U16(|x|), x);
    if |x| < 65536 {
      IntRoundTrip(s, at, |x|);
    }
  }

  /** A packet: header byte, length field, body. */
  function Packet(header: byte, body: bytes): bytes {
    [header] + Encode(|body|) + body
  }

  lemma PacketFirst(header: byte, body: bytes)
    ensures Packet(header, body) != [] && Packet(header, body)[0] == header
  {
  }

  /** Where the body starts and ends in a buffer that holds a packet. */
  function BodyStart(s: bytes): nat
    requires s != []
  {
    1 + |Field(s[1..])|
  }

  function BodyEnd(s: bytes): nat
    requires s != []
  {
    BodyStart(s) + Value(Field(s[1..]))
  }

  /** The buffer holds a whole packet, as its length field says, and `spare` bytes after it. */
  predicate Framed(s: bytes, spare: nat) {
    s != [] && IsField(Field(s[1..])) && BodyEnd(s) + spare <= |s|
  }

  /** The parts of a packet are found again, whatever follows it in the buffer. */
  lemma PacketParts(s: bytes, header: byte, body: bytes)
    requires Holds(s, 0, Packet(header, body)) && |body| <= MAX_VALUE
    ensures Framed(s, |s| - |Packet(header, body)|) && s[0] == header
    ensures BodyStart(s) == 1 + |Encode(|body|)| && BodyEnd(s) == BodyStart(s) + |body|
    ensures Holds(s, BodyStart(s), body)
  {
    hide Encode, Field, Value, IsField;
    var enc := Encode(|body|);
    HoldsSplit(s, 0, [header] + enc, body);
    HoldsSplit(s, 0, [header], enc);
    assert s[1..] == enc + s[1 + |enc|..];
    LengthRoundTrip(|body|, s[1 + |enc|..]);
    EncodeIsField(|body|);
  }

  /** A packet is a frame, kept by the readers byte for byte. */
  lemma PacketIsFrame(header: byte, body: bytes)
    requires |body| <= MAX_VALUE
    ensures IsFrame(Packet(header, body)) && Stored(Packet(header, body)) == Packet(header, body)
  {
    StoredIsSame(header, body);
  }

  lemma PacketSize(header: byte, body: bytes)
    requires PacketLen(|body|) <= MAX_PACKET
    ensures |body| <= MAX_VALUE && 1 + |Encode(|body|)| + |body| == |Packet(header, body)| <= PacketLen(|body|)
  {
    PacketLenExact(|body|);
  }

  /** writeInt. */
  method WriteInt(buf: array<byte>, at: nat, n: nat) returns (next: nat)
    requires at + 2 <= buf.Length
    modifies buf
    ensures next == at + 2
    ensures buf[..] == Put(old(buf[..]), at, U16(n))
  {
    buf[at] := n / 256 % 256;
    buf[at + 1] := n % 256;
    next := at + 2;
  }

  /** writeMQTTString. */
  method WriteString(buf: array<byte>, at: nat, x: MQTTString) returns (next: nat)
    requires at + |Str(x.Text())| <= buf.Length
    modifies buf
    ensures next == at + |Str(x.Text())|
    ensures buf[..] == Put(old(buf[..]), at, Str(x.Text()))
  {
    hide Put;
    var text := x.Text();
    ghost var before := buf[..];
    next := WriteInt(buf, at, |text|);
    Copy(buf, next, text);
    PutPut(before, at, U16(|text|), text);
    next := next + |text|;
  }

  /** The first two steps of every serializer: the header byte and the length field. */
  method WriteHeader(buf: array<byte>, header: byte, remLen: nat) returns (next: nat)
    requires 1 + |Encode(remLen)| <= buf.Length
    modifies buf
    ensures next == 1 + |Encode(remLen)|
    ensures buf[..] == Put(old(buf[..]), 0, [header] + Encode(remLen))
  {
    hide Put, Encode;
    ghost var before := buf[..];
    WriteByte(buf, 0, header);
    var n := EncodeTo(buf, 1, remLen);
    PutPut(before, 0, [header], Encode(remLen));
    next := 1 + n;
  }

  /** readMQTTLenString on a buffer. */
  method ReadStringFrom(buf: array<byte>, at: nat, end: nat) returns (ok: bool, text: bytes, next: nat)
    requires end <= buf.Length
    ensures ok <==> ReadString(buf[..], at, end).Some?
    ensures ok ==> ReadString(buf[..], at, end) == Some((text, next))
    ensures !ok ==> text == [] && next == if end - at > 1 then at + 2 else at
  {
    ok, text, next := false, [], at;
    if end - at > 1 {
      var len := 256 * buf[at] as int + buf[at + 1] as int;
      next := at + 2;
      if next + len <= end {
        text := buf[next..next + len];
        next := next + len;
        ok := true;
      }
    }
  }

  /** The first two steps of every deserializer: where the body starts, and where it ends. */
  method ReadHeader(buf: array<byte>) returns (count: nat, start: nat, end: nat)
    requires Framed(buf[..], 0)
    ensures count == |Field(buf[1..])| && start == BodyStart(buf[..]) && end == BodyEnd(buf[..])
  {
    hide Value, Field, IsField;
    assert buf[..][1..] == buf[1..];
    var value;
    count, value := DecodeBuf(buf, 1);
    start := 1 + count;
    end := start + value;
  }
}
