/**
 SUBSCRIBE, SUBACK and UNSUBSCRIBE (sections 3.8 to 3.10 of MQTT 3.1.1): packets that carry lists
 of any length.
 */
module SubscribeCodec {
  import opened Bytes
  import opened RemainingLength
  import opened Framing
  import opened Fields

  /** The int a C char holds; whether a plain char is signed is up to the platform. */
  function CharValue(c: byte, signed: bool): int {
    if signed && c >= 128 then c - 256 else c
  }

  /** One entry of the list: a topic filter and, in a SUBSCRIBE, the QoS byte. */
  function Entry(topic: bytes, qos: Option<int>): bytes {
    Str(topic) + if qos.Some? then [LowByte(qos.value)] else []
  }

  datatype Request = Request(topic: bytes, qos: Option<int>)

  function Entries(list: seq<Request>): bytes {
    if list == [] then [] else Entry(list[0].topic, list[0].qos) + Entries(list[1..])
  }

  function RequestBytes(kind: nat, dup: nat, id: nat, list: seq<Request>): bytes {
    Packet(Header(kind, dup, 1, 0), U16(id) + Entries(list))
  }

  /** The loop of the deserializers: entries from `at` until `end` is reached, or until one is
      cut short. `ok` tells which. */
  function ParseEntries(s: bytes, at: nat, end: nat, withQos: bool, signed: bool): (r: (seq<Request>, bool))
    requires end <= |s|
    decreases end - at
  {
    if at >= end then ([], true)
    else match ReadString(s, at, end)
      case None => ([], false)
      case Some((topic, next)) =>
        if !withQos then
          var (rest, ok) := ParseEntries(s, next, end, withQos, signed);
          ([Request(topic, None)] + rest, ok)
        else if next >= end then ([], false)
        else
          var (rest, ok) := ParseEntries(s, next + 1, end, withQos, signed);
          ([Request(topic, Some(CharValue(s[next], signed)))] + rest, ok)
  }

  /** A list that fits the packet kind: every entry with a QoS in 0..2, or every one without. */
  predicate Sendable(list: seq<Request>, withQos: bool) {
    forall i :: 0 <= i < |list| ==>
      && |list[i].topic| < 65536
      && (if withQos then list[i].qos.Some? && 0 <= list[i].qos.value <= 2 else list[i].qos.None?)
  }

  /** Entries at the front are read first, in order, whatever follows them. */
  lemma {:induction false} EntriesFirst(s: bytes, at: nat, end: nat, list: seq<Request>, withQos: bool, signed: bool)
    requires Sendable(list, withQos) && Holds(s, at, Entries(list)) && at + |Entries(list)| <= end <= |s|
    ensures var rest := ParseEntries(s, at + |Entries(list)|, end, withQos, signed);
            ParseEntries(s, at, end, withQos, signed) == (list + rest.0, rest.1)
    decreases |list|
  {
    hide Holds, Entry, ParseEntries;
    if list == [] {
      assert list + ParseEntries(s, at, end, withQos, signed).0 == ParseEntries(s, at, end, withQos, signed).0;
    } else {
      var r := list[0];
      var rest := ParseEntries(s, at + |Entries(list)|, end, withQos, signed).0;
      HoldsSplit(s, at, Entry(r.topic, r.qos), Entries(list[1..]));
      EntryFirst(s, at, end, r, withQos, signed);
      EntriesFirst(s, at + |Entry(r.topic, r.qos)|, end, list[1..], withQos, signed);
      assert [r] + (list[1..] + rest) == list + rest;
    }
  }

  lemma EntryFirst(s: bytes, at: nat, end: nat, r: Request, withQos: bool, signed: bool)
    requires Sendable([r], withQos) && Holds(s, at, Entry(r.topic, r.qos)) && at + |Entry(r.topic, r.qos)| <= end <= |s|
    ensures var rest := ParseEntries(s, at + |Entry(r.topic, r.qos)|, end, withQos, signed);
            ParseEntries(s, at, end, withQos, signed) == ([r] + rest.0, rest.1)
  {
    hide Holds, Str, ReadString, LowByte;
    assert [r][0] == r;
    var q := if r.qos.Some? then [LowByte(r.qos.value)] else [];
    HoldsSplit(s, at, Str(r.topic), q);
    StringRoundTrip(s, at, end, r.topic);
    StrSize(r.topic);
    if withQos {
      QosByte(s, at + |Str(r.topic)|, r.qos.value, signed);
    }
  }

  /** The loop reads a list of any length back, in order, and ends exactly at the end. */
  lemma EntriesRoundTrip(s: bytes, at: nat, list: seq<Request>, withQos: bool, signed: bool)
    requires Sendable(list, withQos) && Holds(s, at, Entries(list))
    ensures ParseEntries(s, at, at + |Entries(list)|, withQos, signed) == (list, true)
  {
    hide Entries;
    EntriesFirst(s, at, at + |Entries(list)|, list, withQos, signed);
    assert list + [] == list;
  }

  /** The list before an entry that is cut short is read, and the result says that one was: its length has
      less than two bytes, its topic less than its length says, or its QoS is missing. */
  lemma EntriesCut(s: bytes, at: nat, end: nat, list: seq<Request>, withQos: bool, signed: bool)
    requires Sendable(list, withQos) && Holds(s, at, Entries(list)) && at + |Entries(list)| < end <= |s|
    requires var from := at + |Entries(list)|;
             end - from < 2 || end < from + 2 + ReadInt(s, from) + (if withQos then 1 else 0)
    ensures ParseEntries(s, at, end, withQos, signed) == (list, false)
  {
    hide Entries;
    EntriesFirst(s, at, end, list, withQos, signed);
    assert list + [] == list;
  }

  lemma QosByte(s: bytes, at: nat, qos: int, signed: bool)
    requires Holds(s, at, [LowByte(qos)]) && 0 <= qos <= 2
    ensures at < |s| && CharValue(s[at], signed) == qos
  {
    assert s[at..at + 1][0] == LowByte(qos);
  }

  /** MQTTDeserialize_subscribe and MQTTDeserialize_unsubscribe on a buffer holding a packet. */
  function ParseRequest(s: bytes, withQos: bool, signed: bool): (r: (seq<Request>, bool))
    requires Framed(s, 2)
  {
    ParseEntries(s, BodyStart(s) + 2, BodyEnd(s), withQos, signed)
  }

  /** SUBSCRIBE and UNSUBSCRIBE round trip, for lists of any length: dup flag, identifier and
      list come back, whatever follows the packet and whether or not char is signed. */
  lemma RequestRoundTrip(s: bytes, kind: nat, dup: nat, id: nat, list: seq<Request>, signed: bool)
    requires kind == SUBSCRIBE || kind == UNSUBSCRIBE
    requires dup < 2 && id < 65536 && Sendable(list, kind == SUBSCRIBE)
    requires 2 + |Entries(list)| <= MAX_VALUE
    requires Holds(s, 0, RequestBytes(kind, dup, id, list))
    requires |RequestBytes(kind, dup, id, list)| + 2 <= |s|
    ensures Framed(s, 2) && TypeOf(s[0]) == kind && DupOf(s[0]) == dup
    ensures ReadInt(s, BodyStart(s)) == id
    ensures ParseRequest(s, kind == SUBSCRIBE, signed) == (list, true)
  {
    hide Encode, Field, Value, IsField, Packet, Holds, U16, ReadInt, Header, TypeOf, DupOf;
    HeaderFields(kind, dup, 1, 0);
    U16Size(id);
    PacketParts(s, Header(kind, dup, 1, 0), U16(id) + Entries(list));
    HoldsSplit(s, BodyStart(s), U16(id), Entries(list));
    IntRoundTrip(s, BodyStart(s), id);
    EntriesRoundTrip(s, BodyStart(s) + 2, list, kind == SUBSCRIBE, signed);
  }

  /** The requests the C arrays stand for. */
  function Requests(topics: seq<MQTTString>, qoss: Option<seq<int>>): (r: seq<Request>)
    requires qoss.Some? ==> |qoss.value| == |topics|
    ensures |r| == |topics|
  {
    seq(|topics|, i requires 0 <= i < |topics| =>
      Request(topics[i].Text(), if qoss.Some? then Some(qoss.value[i]) else None))
  }

  /** MQTTSerialize_subscribeLength and MQTTSerialize_unsubscribeLength: for well-formed strings
      exactly the length of the body that will be written. */
  method RequestLength(topics: seq<MQTTString>, qoss: Option<seq<int>>) returns (len: nat)
    requires qoss.Some? ==> |qoss.value| == |topics|
    requires forall i :: 0 <= i < |topics| ==> topics[i].WellFormed()
    ensures len == 2 + |Entries(Requests(topics, qoss))|
  {
    hide Str;
    len := 2;
    ghost var list := Requests(topics, qoss);
    assert list[0..] == list;
    for i := 0 to |topics|
      invariant len + |Entries(list[i..])| == 2 + |Entries(list)|
    {
      topics[i].StrLenIsTextLen();
      StrSize(topics[i].Text());
      assert list[i..][1..] == list[i + 1..];
      len := len + 2 + topics[i].StrLen();
      if qoss.Some? {
        len := len + 1;
      }
    }
  }

  /** MQTTSerialize_subscribe (with a QoS array) and MQTTSerialize_unsubscribe (without). */
  method SerializeRequest(buf: array<byte>, buflen: nat, kind: nat, dup: nat, id: nat,
                          topics: seq<MQTTString>, qoss: Option<seq<int>>)
    returns (rc: int)
    requires buflen <= buf.Length && buflen <= MAX_PACKET
    requires qoss.Some? ==> |qoss.value| == |topics|
    requires forall i :: 0 <= i < |topics| ==> topics[i].WellFormed()
    modifies buf
    ensures var list := Requests(topics, qoss);
            if PacketLen(2 + |Entries(list)|) > buflen then
              rc == BUFFER_TOO_SHORT && buf[..] == old(buf[..])
            else
              && rc == |RequestBytes(kind, dup, id, list)| && 0 < rc <= buflen
              && 2 + |Entries(list)| <= MAX_VALUE
              && buf[..] == Put(old(buf[..]), 0, RequestBytes(kind, dup, id, list))
  {
    hide Put, Encode, PacketLen, Str, U16, Header;
    ghost var list, before := Requests(topics, qoss), buf[..];
    var remLen := RequestLength(topics, qoss);
    if PacketLen(remLen) > buflen {
      return BUFFER_TOO_SHORT;
    }
    ghost var h, body := Header(kind, dup, 1, 0), U16(id) + Entries(list);
    U16Size(id);
    PacketSize(h, body);
    var ptr := WriteHeader(buf, Header(kind, dup, 1, 0), remLen);
    PutPut(before, 0, [h] + Encode(remLen), U16(id));
    ptr := WriteInt(buf, ptr, id);
    ghost var done := [h] + Encode(remLen) + U16(id);
    assert done + Entries(list) == Packet(h, body);
    PutPut(before, 0, done, Entries(list));
    rc := WriteEntries(buf, ptr, topics, qoss);
  }

  /** The loop of the serializers. */
  method WriteEntries(buf: array<byte>, at: nat, topics: seq<MQTTString>, qoss: Option<seq<int>>)
    returns (next: nat)
    requires qoss.Some? ==> |qoss.value| == |topics|
    requires at + |Entries(Requests(topics, qoss))| <= buf.Length
    modifies buf
    ensures next == at + |Entries(Requests(topics, qoss))|
    ensures buf[..] == Put(old(buf[..]), at, Entries(Requests(topics, qoss)))
  {
    hide Put, Entry, Entries;
    ghost var list, before := Requests(topics, qoss), buf[..];
    ghost var done: bytes := [];
    next := at;
    assert list[0..] == list;
    PutNothing(before, at);
    for i := 0 to |topics|
      invariant next == at + |done| && Entries(list) == done + Entries(list[i..])
      invariant buf[..] == Put(before, at, done)
    {
      EntriesStep(list, i);
      ghost var e := Entry(list[i].topic, list[i].qos);
      assert done + (e + Entries(list[i + 1..])) == done + e + Entries(list[i + 1..]);
      PutPut(before, at, done, e);
      next := WriteEntry(buf, next, topics[i], if qoss.Some? then Some(qoss.value[i]) else None);
      done := done + e;
    }
    NoEntries();
    assert list[|topics|..] == [];
    assert Entries(list) == done;
  }

  method WriteEntry(buf: array<byte>, at: nat, topic: MQTTString, qos: Option<int>) returns (next: nat)
    requires at + |Entry(topic.Text(), qos)| <= buf.Length
    modifies buf
    ensures next == at + |Entry(topic.Text(), qos)|
    ensures buf[..] == Put(old(buf[..]), at, Entry(topic.Text(), qos))
  {
    hide Put, Str;
    ghost var before := buf[..];
    assert Str(topic.Text()) + [] == Str(topic.Text());
    next := WriteString(buf, at, topic);
    if qos.Some? {
      PutPut(before, at, Str(topic.Text()), [LowByte(qos.value)]);
      WriteByte(buf, next, qos.value);
      next := next + 1;
    }
  }

  lemma NoEntries()
    ensures Entries([]) == []
  {
  }

  lemma EntriesStep(list: seq<Request>, i: nat)
    requires i < |list|
    ensures Entries(list[i..]) == Entry(list[i].topic, list[i].qos) + Entries(list[i + 1..])
  {
    assert list[i..][1..] == list[i + 1..];
  }

  /** MQTTDeserialize_subscribe and MQTTDeserialize_unsubscribe; `failed` is the result for a
      packet of another kind (-1 and 0 respectively). A list cut short makes the result the
      number of length bytes. */
  method DeserializeRequest(buf: array<byte>, kind: nat, withQos: bool, signed: bool, failed: int)
    returns (rc: int, dup: nat, id: nat, list: seq<Request>)
    requires Framed(buf[..], 2)
    ensures TypeOf(buf[0]) != kind ==> rc == failed
    ensures TypeOf(buf[0]) == kind ==>
              && dup == DupOf(buf[0]) && id == ReadInt(buf[..], BodyStart(buf[..]))
              && list == ParseRequest(buf[..], withQos, signed).0
              && rc == if ParseRequest(buf[..], withQos, signed).1 then 1 else |Field(buf[1..])|
  {
    hide Field, Value, IsField, TypeOf, DupOf, ParseEntries;
    rc, dup, id, list := failed, 0, 0, [];
    if TypeOf(buf[0]) != kind {
      return;
    }
    dup := DupOf(buf[0]);
    var at, end;
    rc, at, end := ReadHeader(buf);
    id := 256 * (buf[at] as int) + buf[at + 1];
    var ok;
    list, ok := ReadEntries(buf, at + 2, end, withQos, signed);
    if ok {
      rc := 1;
    }
  }

  /** The loop of the deserializers. */
  method ReadEntries(buf: array<byte>, from: nat, end: nat, withQos: bool, signed: bool)
    returns (list: seq<Request>, ok: bool)
    requires end <= buf.Length
    ensures (list, ok) == ParseEntries(buf[..], from, end, withQos, signed)
  {
    hide ReadString, CharValue;
    list, ok := [], true;
    var at := from;
    ghost var s := buf[..];
    while at < end
      invariant ok
      invariant var all := ParseEntries(s, from, end, withQos, signed);
                var rest := ParseEntries(s, at, end, withQos, signed);
                all.0 == list + rest.0 && all.1 == rest.1
      decreases end - at
    {
      assert list + [] == list;
      var topic, next;
      ok, topic, next := ReadStringFrom(buf, at, end);
      if !ok {
        return;
      }
      var qos := None;
      if withQos {
        if next >= end {
          ok := false;
          return;
        }
        qos := Some(CharValue(buf[next], signed));
        next := next + 1;
      }
      Regroup(list, Request(topic, qos), ParseEntries(s, next, end, withQos, signed).0);
      list := list + [Request(topic, qos)];
      at := next;
    }
    assert list + [] == list;
  }

  lemma Regroup(list: seq<Request>, r: Request, rest: seq<Request>)
    ensures list + ([r] + rest) == list + [r] + rest
  {
  }

  function SubackBytes(id: nat, granted: seq<int>): bytes {
    Packet(Header(SUBACK, 0, 0, 0), U16(id) + QosBytes(granted))
  }

  function QosBytes(granted: seq<int>): (r: bytes)
    ensures |r| == |granted|
  {
    if granted == [] then [] else [LowByte(granted[0])] + QosBytes(granted[1..])
  }

  function QosValues(s: bytes, signed: bool): (r: seq<int>)
    ensures |r| == |s|
  {
    if s == [] then [] else [CharValue(s[0], signed)] + QosValues(s[1..], signed)
  }

  lemma {:induction false} QosRoundTrip(granted: seq<int>, signed: bool)
    requires forall i :: 0 <= i < |granted| ==> 0 <= granted[i] < 128
    ensures QosValues(QosBytes(granted), signed) == granted
  {
    if granted != [] {
      QosRoundTrip(granted[1..], signed);
      assert QosBytes(granted)[1..] == QosBytes(granted[1..]);
    }
  }

  lemma {:induction false} QosValuesSnoc(s: bytes, c: byte, signed: bool)
    ensures QosValues(s + [c], signed) == QosValues(s, signed) + [CharValue(c, signed)]
  {
    if s == [] {
      assert [] + [c] == [c];
    } else {
      QosValuesSnoc(s[1..], c, signed);
      assert (s + [c])[1..] == s[1..] + [c];
    }
  }

  /** The size check of MQTTSerialize_suback compares the buffer with the body only. It lets a packet
      through that does not fit exactly for the buffer lengths from the body's on up to the packet's:
      two of them with at most 125 entries, three from 126 on, and so forth. */
  lemma SubackCheckShort(buflen: nat, id: nat, granted: seq<int>)
    requires 2 + |granted| <= MAX_VALUE
    ensures var n := 2 + |granted|;
            var missing := if n < 128 then 2 else if n < 16384 then 3 else if n < 2097152 then 4 else 5;
            n <= buflen < |SubackBytes(id, granted)| <==> n <= buflen < n + missing
  {
    hide Encode, Header, U16;
    EncodeSize(2 + |granted|);
    U16Size(id);
  }

  /** MQTTSerialize_suback. Because of its size check the caller must offer a buffer that is large
      enough. */
  method SerializeSuback(buf: array<byte>, buflen: nat, id: nat, granted: seq<int>) returns (rc: int)
    requires buflen <= buf.Length
    requires buflen >= 2 + |granted| ==> 1 + |Encode(2 + |granted|)| + 2 + |granted| <= buf.Length
    modifies buf
    ensures if buflen < 2 + |granted| then
              rc == BUFFER_TOO_SHORT && buf[..] == old(buf[..])
            else
              rc == |SubackBytes(id, granted)| && buf[..] == Put(old(buf[..]), 0, SubackBytes(id, granted))
  {
    hide Put, Encode, U16, Header;
    if buflen < 2 + |granted| {
      return BUFFER_TOO_SHORT;
    }
    ghost var before := buf[..];
    ghost var h, body := Header(SUBACK, 0, 0, 0), U16(id) + QosBytes(granted);
    U16Size(id);
    var ptr := WriteHeader(buf, Header(SUBACK, 0, 0, 0), 2 + |granted|);
    PutPut(before, 0, [h] + Encode(2 + |granted|), U16(id));
    ptr := WriteInt(buf, ptr, id);
    ghost var done := [h] + Encode(2 + |granted|) + U16(id);
    ghost var whole := Packet(h, body);
    assert granted[0..] == granted;
    assert whole == done + QosBytes(granted);
    for i := 0 to |granted|
      invariant ptr == |done| && whole == done + QosBytes(granted[i..])
      invariant buf[..] == Put(before, 0, done)
    {
      assert granted[i..][1..] == granted[i + 1..];
      PutPut(before, 0, done, [LowByte(granted[i])]);
      WriteByte(buf, ptr, granted[i]);
      ptr := ptr + 1;
      done := done + [LowByte(granted[i])];
    }
    assert whole == done;
    rc := ptr;
  }

  /** The QoS list of a SUBACK packet. */
  function ParseSuback(s: bytes, signed: bool): seq<int>
    requires Framed(s, 0) && BodyEnd(s) - BodyStart(s) >= 2
  {
    QosValues(s[BodyStart(s) + 2..BodyEnd(s)], signed)
  }

  /** SUBACK round trip for QoS values in 0..2 (and all below 128). */
  lemma SubackRoundTrip(s: bytes, id: nat, granted: seq<int>, signed: bool)
    requires id < 65536 && 2 + |granted| <= MAX_VALUE
    requires forall i :: 0 <= i < |granted| ==> 0 <= granted[i] < 128
    requires Holds(s, 0, SubackBytes(id, granted))
    ensures Framed(s, 0) && TypeOf(s[0]) == SUBACK && BodyEnd(s) - BodyStart(s) == 2 + |granted|
    ensures ReadInt(s, BodyStart(s)) == id && ParseSuback(s, signed) == granted
  {
    hide Encode, Field, Value, IsField, Packet, Holds, U16, ReadInt, Header, TypeOf, QosBytes, QosValues;
    HeaderFields(SUBACK, 0, 0, 0);
    U16Size(id);
    PacketParts(s, Header(SUBACK, 0, 0, 0), U16(id) + QosBytes(granted));
    HoldsSplit(s, BodyStart(s), U16(id), QosBytes(granted));
    IntRoundTrip(s, BodyStart(s), id);
    HoldsSlice(s, BodyStart(s) + 2, QosBytes(granted));
    QosRoundTrip(granted, signed);
  }

  /** MQTTDeserialize_suback. The bound is tested before the count is raised and with `>`, so a
      packet is accepted exactly when it has at most one entry more than the array of the caller. */
  method DeserializeSuback(buf: array<byte>, maxCount: nat, signed: bool)
    returns (rc: int, id: nat, granted: seq<int>)
    requires Framed(buf[..], 0)
    ensures TypeOf(buf[0]) != SUBACK ==> rc == 0
    ensures TypeOf(buf[0]) == SUBACK && BodyEnd(buf[..]) - BodyStart(buf[..]) < 2 ==>
              rc == |Field(buf[1..])| && granted == []
    ensures TypeOf(buf[0]) == SUBACK && BodyEnd(buf[..]) - BodyStart(buf[..]) >= 2 ==>
              && id == ReadInt(buf[..], BodyStart(buf[..]))
              && var all := ParseSuback(buf[..], signed);
                 if |all| <= maxCount + 1 then rc == 1 && granted == all
                 else rc == -1 && granted == all[..maxCount + 1]
  {
    hide Field, Value, IsField, QosValues;
    rc, id, granted := 0, 0, [];
    if TypeOf(buf[0]) != SUBACK {
      return;
    }
    var at, end;
    rc, at, end := ReadHeader(buf);
    if end - at < 2 {
      return;
    }
    id := 256 * (buf[at] as int) + buf[at + 1];
    at := at + 2;
    ghost var from, s := at, buf[..];
    NoQos(signed);
    while at < end
      invariant from <= at <= end <= buf.Length
      invariant granted == QosValues(s[from..at], signed) && |granted| <= maxCount + 1
      decreases end - at
    {
      if |granted| > maxCount {
        QosPrefix(s[from..at], s[at..end], signed);
        assert s[from..at] + s[at..end] == s[from..end];
        rc := -1;
        return;
      }
      QosValuesSnoc(s[from..at], s[at], signed);
      assert s[from..at] + [s[at]] == s[from..at + 1];
      granted := granted + [CharValue(buf[at], signed)];
      at := at + 1;
    }
    rc := 1;
  }

  /** Two entries for an array of one are accepted. */
  method SubackOneTooMany(first: byte, second: byte, signed: bool) returns (rc: int, granted: seq<int>)
    ensures rc == 1 && granted == [CharValue(first, signed), CharValue(second, signed)]
  {
    hide Field, Value, IsField, QosValues;
    var buf := new byte[6];
    buf[0], buf[1], buf[2], buf[3], buf[4], buf[5] := 144, 4, 0, 1, first, second;
    SmallField(buf[1..]);
    assert buf[..][1..] == buf[1..];
    assert buf[..][4..6] == [first] + [second];
    NoQos(signed);
    QosValuesSnoc([], first, signed);
    QosValuesSnoc([first], second, signed);
    assert [] + [first] == [first];
    var packetid;
    rc, packetid, granted := DeserializeSuback(buf, 1, signed);
  }

  lemma NoQos(signed: bool)
    ensures QosValues([], signed) == []
  {
  }

  lemma {:induction false} QosPrefix(s: bytes, t: bytes, signed: bool)
    ensures QosValues(s + t, signed) == QosValues(s, signed) + QosValues(t, signed)
  {
    if s == [] {
      assert s + t == t;
    } else {
      QosPrefix(s[1..], t, signed);
      assert (s + t)[1..] == s[1..] + t;
    }
  }
}
