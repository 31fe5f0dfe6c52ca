/**
 From the arguments of one side to those of the other: packets of every kind are serialized one after
 another, cut out of the byte stream by the resumable reader under any fragmentation, and deserialized.
 */
module Exchange {
  import opened Bytes
  import opened RemainingLength
  import opened Framing
  import opened Fields
  import opened Readers
  import opened Streams
  import P = PublishCodec
  import S = SubscribeCodec
  import C = ConnectCodec

  /** The arguments of a serializer. */
  datatype Parcel =
    | Connect(options: C.Options)
    | Connack(code: nat, sessionPresent: nat)
    | Publish(message: P.Message)
    | Ack(kind: nat, dup: nat, id: nat)
    | Request(kind: nat, dup: nat, id: nat, list: seq<S.Request>)
    | Suback(id: nat, granted: seq<int>)
    | Zero(kind: nat)

  /** What a deserializer finds. */
  datatype Content =
    | Connected(options: C.Found)
    | Connacked(code: nat, sessionPresent: nat)
    | Published(message: P.Found)
    | Acked(kind: nat, dup: nat, id: nat)
    | Requested(kind: nat, dup: nat, id: nat, list: seq<S.Request>)
    | Subacked(id: nat, granted: seq<int>)
    | Bare(kind: nat)

  function HeaderOf(p: Parcel): byte {
    match p
    case Connect(o) => Header(CONNECT, 0, 0, 0)
    case Connack(_, _) => Header(CONNACK, 0, 0, 0)
    case Publish(m) => Header(PUBLISH, m.dup, m.qos, m.retained)
    case Ack(kind, dup, _) => Header(kind, dup, if kind == PUBREL then 1 else 0, 0)
    case Request(kind, dup, _, _) => Header(kind, dup, 1, 0)
    case Suback(_, _) => Header(SUBACK, 0, 0, 0)
    case Zero(kind) => Header(kind, 0, 0, 0)
  }

  function BodyOf(p: Parcel): bytes {
    match p
    case Connect(o) => C.VariableHeader(o) + C.Payload(o)
    case Connack(code, present) => [LowByte(present % 2), LowByte(code)]
    case Publish(m) => P.PublishBody(m)
    case Ack(_, _, id) => U16(id)
    case Request(_, _, id, list) => U16(id) + S.Entries(list)
    case Suback(id, granted) => U16(id) + S.QosBytes(granted)
    case Zero(_) => []
  }

  function PacketOf(p: Parcel): bytes {
    Packet(HeaderOf(p), BodyOf(p))
  }

  function KindOf(p: Parcel): nat {
    match p
    case Connect(_) => CONNECT
    case Connack(_, _) => CONNACK
    case Publish(_) => PUBLISH
    case Ack(kind, _, _) => kind
    case Request(kind, _, _, _) => kind
    case Suback(_, _) => SUBACK
    case Zero(kind) => kind
  }

  /** Arguments in the ranges the protocol gives them. */
  predicate Good(p: Parcel) {
    match p
    case Connect(o) => o.WellFormed() && o.InRange() && (o.version == 3 || o.version == 4)
    case Connack(code, present) => code < 256 && present < 2
    case Publish(m) => m.WellFormed() && |m.topic| < 65536
    case Ack(kind, dup, id) => kind in {PUBACK, PUBREC, PUBREL, PUBCOMP} && dup < 2 && id < 65536
    case Request(kind, dup, id, list) =>
      (kind == SUBSCRIBE || kind == UNSUBSCRIBE) && dup < 2 && id < 65536 && S.Sendable(list, kind == SUBSCRIBE)
    case Suback(id, granted) => id < 65536 && forall i :: 0 <= i < |granted| ==> 0 <= granted[i] < 128
    case Zero(kind) => kind in {PINGREQ, PINGRESP, DISCONNECT}
  }

  /** The arguments as the other side sees them; a CONNECT whose credentials are not of the accepted
      shape is refused. */
  function ContentOf(p: Parcel): Option<Content> {
    match p
    case Connect(o) => if o.AcceptedCredentials() then Some(Connected(C.FoundOf(o))) else None
    case Connack(code, present) => Some(Connacked(code, present))
    case Publish(m) => Some(Published(P.FoundOf(m)))
    case Ack(kind, dup, id) => Some(Acked(kind, dup, id))
    case Request(kind, dup, id, list) => Some(Requested(kind, dup, id, list))
    case Suback(id, granted) => Some(Subacked(id, granted))
    case Zero(kind) => Some(Bare(kind))
  }

  /** What the deserializer for its type finds in a buffer that starts with a packet of `len` bytes
      and has four spare ones. */
  function ContentIn(s: bytes, len: nat, signed: bool): Option<Content>
    requires Framed(s, 4) && BodyEnd(s) == len && len + 4 <= |s|
  {
    var kind := TypeOf(s[0]);
    if kind == CONNECT then
      match C.ParseConnect(s, len) case Some(found) => Some(Connected(found)) case None => None
    else if kind == CONNACK then
      match C.ParseConnack(s) case Some((present, code)) => Some(Connacked(code, present)) case None => None
    else if kind == PUBLISH then
      match P.ParsePublish(s) case Some(found) => Some(Published(found)) case None => None
    else if kind in {PUBACK, PUBREC, PUBREL, PUBCOMP} then
      match P.ParseAck(s) case Some(id) => Some(Acked(kind, DupOf(s[0]), id)) case None => None
    else if kind == SUBSCRIBE || kind == UNSUBSCRIBE then
      var (list, ok) := S.ParseRequest(s, kind == SUBSCRIBE, signed);
      if ok then Some(Requested(kind, DupOf(s[0]), ReadInt(s, BodyStart(s)), list)) else None
    else if kind == SUBACK then
      if BodyEnd(s) - BodyStart(s) < 2 then None
      else Some(Subacked(ReadInt(s, BodyStart(s)), S.ParseSuback(s, signed)))
    else Some(Bare(kind))
  }

  lemma GoodHeader(p: Parcel)
    requires Good(p)
    ensures TypeOf(HeaderOf(p)) == KindOf(p) && 1 <= KindOf(p) <= 14
  {
    hide TypeOf, Header, DupOf, QosOf, RetainOf;
    match p
    case Publish(m) => HeaderFields(PUBLISH, m.dup, m.qos, m.retained);
    case Ack(kind, dup, _) => HeaderFields(kind, dup, if kind == PUBREL then 1 else 0, 0);
    case Request(kind, dup, _, _) => HeaderFields(kind, dup, 1, 0);
    case _ => HeaderFields(KindOf(p), 0, 0, 0);
  }

  /** Every packet is one the readers deliver, byte for byte. */
  lemma PacketDelivered(p: Parcel, size: nat)
    requires Good(p) && |BodyOf(p)| <= MAX_VALUE && |PacketOf(p)| <= size
    ensures Deliverable(PacketOf(p), size) && Stored(PacketOf(p)) == PacketOf(p) && PacketType(PacketOf(p)) == KindOf(p)
  {
    hide IsFrame, Stored, BodyOf, HeaderOf;
    GoodHeader(p);
    PacketIsFrame(HeaderOf(p), BodyOf(p));
    PacketFirst(HeaderOf(p), BodyOf(p));
  }

  /** Every packet reads back, whatever follows it. */
  lemma PacketReadsBack(p: Parcel, s: bytes, signed: bool)
    requires Good(p) && |BodyOf(p)| <= MAX_VALUE
    requires Holds(s, 0, PacketOf(p)) && |PacketOf(p)| + 4 <= |s|
    ensures Framed(s, 4) && BodyEnd(s) == |PacketOf(p)| && TypeOf(s[0]) == KindOf(p)
    ensures ContentOf(p).None? ==> KindOf(p) == CONNECT
    ensures ContentIn(s, |PacketOf(p)|, signed) == ContentOf(p)
  {
    hide Encode, Field, Value, IsField, Holds, Str, U16, ReadString, ReadInt, Header, TypeOf, DupOf, QosOf, RetainOf;
    hide C.ParseConnect, C.ParseConnack, P.ParsePublish, P.ParseAck, S.ParseRequest, S.ParseSuback, S.Entries;
    hide S.QosBytes, C.VariableHeader, C.Payload, P.PublishBody, P.FoundOf, C.FoundOf;
    GoodHeader(p);
    PacketParts(s, HeaderOf(p), BodyOf(p));
    match p
    case Connect(o) => C.ConnectRoundTrip(s, o);
    case Connack(code, present) => C.ConnackRoundTrip(s, code, present);
    case Publish(m) => P.PublishRoundTrip(s, m);
    case Ack(kind, dup, id) => P.AckRoundTrip(s, kind, dup, id);
    case Request(kind, dup, id, list) =>
      U16Size(id);
      S.RequestRoundTrip(s, kind, dup, id, list, signed);
    case Suback(id, granted) =>
      U16Size(id);
      S.SubackRoundTrip(s, id, granted, signed);
    case Zero(_) =>
  }

  /** The arrays a list of topics and QoS values is passed in. */
  function Topics(list: seq<S.Request>): (r: seq<MQTTString>)
    ensures |r| == |list|
  {
    seq(|list|, i requires 0 <= i < |list| => CString(list[i].topic))
  }

  function Qoss(list: seq<S.Request>, kind: nat): (r: Option<seq<int>>)
    requires S.Sendable(list, kind == SUBSCRIBE)
    ensures r.Some? ==> |r.value| == |list|
  {
    if kind == SUBSCRIBE then Some(seq(|list|, i requires 0 <= i < |list| => list[i].qos.value)) else None
  }

  /** One serializer call, with a buffer that its size estimate accepts. */
  method Serialize(p: Parcel, buf: array<byte>, buflen: nat) returns (rc: int)
    requires Good(p) && PacketLen(|BodyOf(p)|) <= buflen <= buf.Length && buflen <= MAX_PACKET
    modifies buf
    ensures rc == |PacketOf(p)| <= buflen && buf[..] == Put(old(buf[..]), 0, PacketOf(p))
  {
    hide Put, Encode, PacketLen, Header, U16, C.VariableHeader, C.Payload, P.PublishBody, S.Entries, S.QosBytes;
    PacketSize(HeaderOf(p), BodyOf(p));
    match p
    case Connect(o) =>
      rc := C.SerializeConnect(buf, buflen, o);
    case Connack(code, present) =>
      rc := C.SerializeConnack(buf, buflen, code, present);
    case Publish(m) =>
      rc := P.SerializePublish(buf, buflen, m.dup, m.qos, m.retained, m.id, CString(m.topic), m.payload);
    case Ack(kind, dup, id) =>
      U16Size(id);
      EncodeSmall(2);
      rc := P.SerializeAck(buf, buflen, kind, dup, id);
    case Request(kind, dup, id, list) =>
      U16Size(id);
      assert S.Requests(Topics(list), Qoss(list, kind)) == list;
      rc := S.SerializeRequest(buf, buflen, kind, dup, id, Topics(list), Qoss(list, kind));
    case Suback(id, granted) =>
      U16Size(id);
      rc := S.SerializeSuback(buf, buflen, id, granted);
    case Zero(kind) =>
      rc := C.SerializeZero(buf, buflen, kind);
  }

  function PacketsOf(parcels: seq<Parcel>): (r: seq<bytes>)
    ensures |r| == |parcels|
  {
    seq(|parcels|, i requires 0 <= i < |parcels| => PacketOf(parcels[i]))
  }

  /** One side: everything is serialized, through one buffer, into one stream. */
  method Transmit(parcels: seq<Parcel>, size: nat) returns (stream: bytes)
    requires size <= MAX_PACKET
    requires forall i :: 0 <= i < |parcels| ==> Good(parcels[i]) && PacketLen(|BodyOf(parcels[i])|) <= size
    ensures stream == Concat(PacketsOf(parcels))
    ensures AllDeliverable(PacketsOf(parcels), size)
  {
    hide PacketOf, Good, BodyOf, PacketLen, Deliverable, Put, Stored;
    var buf := new byte[size];
    ghost var all := PacketsOf(parcels);
    stream := [];
    assert all[0..] == all;
    for i := 0 to |parcels|
      invariant stream + Concat(all[i..]) == Concat(all)
      invariant forall k :: 0 <= k < i ==> Deliverable(all[k], size)
    {
      ghost var before, packet := buf[..], PacketOf(parcels[i]);
      var rc := Serialize(parcels[i], buf, size);
      PutHolds(before, 0, packet);
      HoldsSlice(buf[..], 0, packet);
      assert buf[..rc] == all[i] == packet;
      Fits(parcels[i], size);
      PacketDelivered(parcels[i], size);
      assert all[i..][1..] == all[i + 1..];
      assert stream + (packet + Concat(all[i + 1..])) == stream + packet + Concat(all[i + 1..]);
      stream := stream + buf[..rc];
    }
    assert all[|parcels|..] == [];
  }

  lemma Fits(p: Parcel, size: nat)
    requires PacketLen(|BodyOf(p)|) <= size <= MAX_PACKET
    ensures |BodyOf(p)| <= MAX_VALUE && |PacketOf(p)| <= size
  {
    hide Encode, PacketLen, BodyOf, HeaderOf;
    PacketSize(HeaderOf(p), BodyOf(p));
  }

  /** One deserializer call, the one for the type of the packet. Where the packet is cut short, what
      the result means is up to that deserializer. */
  method Deserialize(buf: array<byte>, len: nat, signed: bool) returns (found: Option<Content>)
    requires Framed(buf[..], 4) && BodyEnd(buf[..]) == len && len + 4 <= buf.Length
    ensures TypeOf(buf[0]) == CONNECT || ContentIn(buf[..], len, signed).Some? ==>
              found == ContentIn(buf[..], len, signed)
  {
    hide Field, Value, IsField, C.ParseConnect, P.ParsePublish, S.ParseRequest, S.QosValues, ReadInt;
    var kind := TypeOf(buf[0]);
    var rc;
    found := None;
    if kind == CONNECT {
      var data;
      rc, data := C.DeserializeConnect(buf, len);
      if rc == 1 {
        found := Some(Connected(data));
      }
    } else if kind == CONNACK {
      var present, code;
      rc, present, code := C.DeserializeConnack(buf);
      if rc == 1 {
        found := Some(Connacked(code, present));
      }
    } else if kind == PUBLISH {
      var m;
      rc, m := P.DeserializePublish(buf);
      if rc == 1 {
        found := Some(Published(m));
      }
    } else if kind in {PUBACK, PUBREC, PUBREL, PUBCOMP} {
      var same, dup, id;
      rc, same, dup, id := P.DeserializeAck(buf);
      if rc == 1 && id.Some? {
        found := Some(Acked(kind, dup, id.value));
      }
    } else if kind == SUBSCRIBE || kind == UNSUBSCRIBE {
      var dup, id, list;
      var failed := if kind == SUBSCRIBE then -1 else 0;
      rc, dup, id, list := S.DeserializeRequest(buf, kind, kind == SUBSCRIBE, signed, failed);
      if rc == 1 {
        found := Some(Requested(kind, dup, id, list));
      }
    } else if kind == SUBACK {
      var id, granted;
      rc, id, granted := S.DeserializeSuback(buf, len, signed);
      if rc == 1 {
        found := Some(Subacked(id, granted));
      }
    } else {
      found := Some(Bare(kind));
    }
  }

  /** The whole way. Whatever is sent, in any order, and however the stream is cut into pieces: what
      comes out are the arguments that went in, in order, with nothing in between; and everything,
      once the stream has been taken. */
  method Exchange(parcels: seq<Parcel>, size: nat, signed: bool, calls: nat)
    returns (contents: seq<Option<Content>>, drained: bool, ghost shortReads: nat)
    requires 1 + MAX_BYTES <= size <= MAX_PACKET
    requires forall i :: 0 <= i < |parcels| ==> Good(parcels[i]) && PacketLen(|BodyOf(parcels[i])|) <= size
    ensures |contents| <= |parcels|
    ensures forall i :: 0 <= i < |contents| ==> contents[i] == ContentOf(parcels[i])
    ensures drained ==> |contents| == |parcels|
    ensures |contents| + shortReads >= calls
  {
    hide PacketOf, Good, BodyOf, PacketLen, Deliverable, Concat, ContentIn, ContentOf, KindOf, Stored;
    hide PacketType, Framed, BodyEnd;
    ghost var all := PacketsOf(parcels);
    var stream := Transmit(parcels, size);
    var chan := new Channel(stream, false);
    var t := new Transport(chan);
    var buf := new byte[size];
    var types, packets, left := Pump(all, t, buf, size, calls);
    contents, drained, shortReads := [], chan.stream == [] && t.state !in {1, 2}, chan.shortReads;
    for i := 0 to |packets|
      invariant |contents| == i
      invariant forall k :: 0 <= k < i ==> contents[k] == ContentOf(parcels[k])
    {
      ghost var p, packet := parcels[i], all[i];
      Fits(p, size);
      PacketDelivered(p, size);
      var len := |packets[i]|;
      var copy := new byte[len + 4];
      Copy(copy, 0, packets[i]);
      assert Holds(copy[..], 0, packet);
      PacketReadsBack(p, copy[..], signed);
      var found := Deserialize(copy, len, signed);
      contents := contents + [found];
    }
  }
}
