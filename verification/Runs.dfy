/**
 Whole runs of the client: any sequence of calls, on a network that delivers any bytes in any
 fragments, takes as little of a write as it likes and fails at any point.
 */
module Runs {
  import opened Bytes
  import opened RemainingLength
  import opened Fields
  import opened Readers
  import opened History
  import opened Calls
  import opened MqttClient
  import opened WireBytes
  import P = PublishCodec
  import C = ConnectCodec
  import IdTable

  datatype Call =
    | Connect(options: C.Options)
    | Publish(topic: bytes, payload: bytes, qos: nat, retained: bool, id: nat)
    | Subscribe(topic: bytes, qos: nat)
    | Unsubscribe(topic: bytes)
    | Yield
    | Disconnect

  /** Arguments the interface allows. */
  predicate Allowed(c: Call) {
    match c
    case Connect(o) => o.WellFormed() && (o.version == 3 || o.version == 4)
    case Publish(_, _, qos, _, id) => qos <= 2 && id <= MAX_PACKET_ID
    case _ => true
  }

  /** QoS 2 at most once (section 4.3.3 of MQTT 3.1.1), over a whole history: between two deliveries
      of an identifier a PUBREL with it was read, or the session discarded; and for each identifier
      the deliveries are the releases, the discards, and one more if it is still held. A delivery
      directly follows its PUBLISH, and a release its PUBREL and the whole PUBCOMP. */
  ghost predicate AtMostOnceDelivery(log: Log) {
    && (forall i, j :: 0 <= i < j < |log| && IsQos2(log[i]) && IsQos2(log[j]) && log[i].id == log[j].id ==>
          exists k :: i < k < j && (IsPubrel(log[k], log[i].id) || log[k].Cleared?))
    && (forall id: nat :: Conserved(log, id))
    && (forall k :: 0 <= k < |log| && log[k].Delivered? ==>
          && k >= 1 && log[k - 1].Received? && log[k - 1].buf.Some?
          && FromPublish(log[k - 1].buf.value, log[k].message, log[k].id))
    && (forall k :: 0 <= k < |log| && log[k].Released? ==>
          && k >= 2 && log[k - 1] == Sent(Short(112, log[k].id), 4)
          && IsPubrel(log[k - 2], log[k].id))
  }

  /** A connection begins only after its CONNECT went out in full, and for one of the reasons of
      `Opened`: a CONNACK with code 0 just read, or the publish in flight just transferred again. */
  ghost predicate ConnectsWell(log: Log) {
    forall k :: 0 <= k < |log| && log[k] == Connected ==> Opened(log[..k]) && exists i :: 0 <= i < k && Asks(log, i, k)
  }

  ghost predicate Conserved(log: Log, id: nat) {
    Count(log, e => IsQos2(e) && e.id == id) ==
    Count(log, e => e == Released(id)) + Discards(log, id) + (if id in Open(log) then 1 else 0)
  }

  lemma OrderlyMeans(log: Log)
    requires Orderly(log)
    ensures AtMostOnceDelivery(log) && ConnectsWell(log)
  {
    hide Orderly, IsPubrel, FromPublish, P.AckBytes, Count, Open, Discards, Opened, Asks;
    forall i, j | 0 <= i < j < |log| && IsQos2(log[i]) && IsQos2(log[j]) && log[i].id == log[j].id
      ensures exists k :: i < k < j && (IsPubrel(log[k], log[i].id) || log[k].Cleared?)
    {
      AtMostOnce(log, i, j);
    }
    forall id: nat ensures Conserved(log, id) {
      Conservation(log, id);
    }
    forall k | 0 <= k < |log| && log[k].Delivered?
      ensures && k >= 1 && log[k - 1].Received? && log[k - 1].buf.Some?
              && FromPublish(log[k - 1].buf.value, log[k].message, log[k].id)
    {
      DeliveredAfter(log, k);
    }
    forall k | 0 <= k < |log| && log[k].Released?
      ensures && k >= 2 && log[k - 1] == Sent(Short(112, log[k].id), 4)
              && IsPubrel(log[k - 2], log[k].id)
    {
      ReleasedAfter(log, k);
      ShortPubcomp(log[k].id);
    }
    forall k | 0 <= k < |log| && log[k] == Connected
      ensures Opened(log[..k]) && exists i :: 0 <= i < k && Asks(log, i, k)
    {
      ConnectedAfter(log, k);
    }
  }

  /** The event at position `k` of a history is a packet handed to the network. */
  predicate SendsAt(log: Log, k: nat, packet: bytes) {
    k < |log| && log[k].Sent? && log[k].packet == packet
  }

  /** A packet of four bytes with an identifier. */
  function Short(h: byte, id: nat): bytes {
    [h, 2, id / 256 % 256, id % 256]
  }

  /** Each PUBLISH that was read is delivered and answered under its own identifier: for QoS 1 by a PUBACK,
      for QoS 2 by a PUBREC. A QoS 2 message is delivered exactly when its identifier is not 0, not held, and
      the table has room. */
  ghost predicate Delivers(log: Log, k: nat, m: P.Found)
    requires k < |log|
  {
    var due := m.qos != 2 ||
               (m.id.Some? && m.id.value != 0 && m.id.value !in Open(log[..k]) && |Open(log[..k])| < 10);
    && (due ==> k + 1 < |log| && log[k + 1].Delivered? && log[k + 1].message == m
                  && (m.id.Some? ==> log[k + 1].id == m.id.value))
    && (m.id.Some? && m.qos == 1 ==> SendsAt(log, k + 2, Short(64, m.id.value)))
    && (m.id.Some? && m.qos == 2 ==> SendsAt(log, if due then k + 2 else k + 1, Short(80, m.id.value)))
  }

  /** Every packet that arrived whole, fits the buffer and has a type from 2 on was read, and every
      packet that was read had its effect and its answer next, as far as the network took it: the
      right kind of answer, with the identifier of the packet. */
  ghost predicate Responsive(log: Log, size: nat) {
    forall k :: 0 <= k < |log| && log[k].Received? ==>
      Heeded(log[k], size) && (log[k].buf.Some? ==> RespondsAt(log, k, log[k].buf.value))
  }

  /** By the type in the first byte: a PUBLISH (3); a PUBREC (5), answered by a PUBREL; a PUBREL (6), answered
      by a PUBCOMP, after which the identifier is freed if all of that went out; and a PINGRESP (13). */
  ghost predicate RespondsAt(log: Log, k: nat, s: bytes)
    requires k < |log|
  {
    Framed(s, 2) &&
    var kind := s[0] as int / 16;
    && (kind == 3 && P.ParsePublish(s).Some? ==> Delivers(log, k, P.ParsePublish(s).value))
    && (kind == 5 && P.ParseAck(s).Some? ==> SendsAt(log, k + 1, Short(98, P.ParseAck(s).value)))
    && (kind == 6 && P.ParseAck(s).Some? ==>
          && SendsAt(log, k + 1, Short(112, P.ParseAck(s).value))
          && (log[k + 1].count == 4 && P.ParseAck(s).value in Open(log[..k]) ==>
                k + 2 < |log| && log[k + 2] == Released(P.ParseAck(s).value)))
    && (kind == 13 ==> k + 1 < |log| && log[k + 1] == PingAnswered)
  }

  lemma SettledMeans(log: Log, size: nat)
    requires Settled(log, size)
    ensures Responsive(log, size)
  {
    hide RespondsAt, Dealt, Heeded;
    forall k | 0 <= k < |log| && log[k].Received?
      ensures Heeded(log[k], size) && (log[k].buf.Some? ==> RespondsAt(log, k, log[k].buf.value))
    {
      if log[k].buf.Some? {
        var n :| k < n <= |log| && DealtSomehow(log[k].buf, log[..k + 1], log[..n]);
        After(log[..k], log[k]);
        assert log[..k + 1] == log[..k] + [log[k]];
        DealtResponds(log, k, n);
      }
    }
  }

  lemma DealtResponds(log: Log, k: nat, n: nat)
    requires k < n <= |log| && log[k].Received? && log[k].buf.Some?
    requires DealtSomehow(log[k].buf, log[..k + 1], log[..n])
    requires Open(log[..k + 1]) == Open(log[..k])
    ensures RespondsAt(log, k, log[k].buf.value)
  {
    hide P.AckBytes, P.ParsePublish, Open, Field, IsField, Value;
    assert forall i :: k < i < n ==> log[i] == log[..n][i];
    var s := log[k].buf.value;
    assert Framed(s, 2);
    if TypeOf(s[0]) == PUBLISH {
      if P.ParsePublish(s).Some? && P.ParsePublish(s).value.id.Some? {
        PublishId(s);
        ShortAcks(P.ParsePublish(s).value.id.value);
      }
    } else if P.ParseAck(s).Some? {
      ShortAcks(P.ParseAck(s).value);
    }
  }

  lemma PublishId(s: bytes)
    requires Framed(s, 2) && P.ParsePublish(s).Some? && P.ParsePublish(s).value.id.Some?
    ensures P.ParsePublish(s).value.id.value < 65536
  {
  }

  /** Whatever the identifier; two bytes hold the rest of it by 65536. */
  lemma ShortPubcomp(id: nat)
    ensures P.AckBytes(PUBCOMP, 0, id) == Short(112, id)
  {
    hide Encode;
    EncodeSmall(2);
  }

  lemma ShortAcks(id: nat)
    requires id < 65536
    ensures P.AckBytes(PUBACK, 0, id) == Short(64, id) && P.AckBytes(PUBREC, 0, id) == Short(80, id)
    ensures P.AckBytes(PUBREL, 0, id) == Short(98, id) && P.AckBytes(PUBCOMP, 0, id) == Short(112, id)
  {
    hide P.AckBytes;
    Acknowledgements(id);
    assert id / 256 % 256 == id / 256;
  }

  /** Every run, from the construction of the client on. Besides the invariant, which ties the fields
      to the history, and what it means: everything read is, in order, the front of what the network
      delivered, and the history tells everything that reached the network. */
  method Run(size: nat, stream: bytes, served: bool, calls: seq<Call>, signed: bool) returns (client: Client)
    requires 1 + MAX_BYTES <= size <= MAX_PACKET
    requires forall i :: 0 <= i < |calls| ==> Allowed(calls[i])
    ensures fresh(client) && client.Valid()
    ensures AtMostOnceDelivery(client.log) && ConnectsWell(client.log) && Responsive(client.log, size)
    ensures Heard(client.log) + client.source.stream == stream && OnWire(client.log) == client.wire.sent
  {
    hide Tracks, Open, InFlight, Settled, Heard, Up, OnWire, AtMostOnceDelivery, Responsive, ConnectsWell;
    var source := new Source(stream, served);
    var wire := new Wire(served);
    var clock := new Clock(served);
    client := new Client(size, source, wire, clock);
    for i := 0 to |calls|
      invariant fresh(client) && fresh(client.source) && fresh(client.wire) && fresh(client.clock)
      invariant fresh(client.table.slots)
      invariant fresh(client.sendbuf) && fresh(client.readbuf) && fresh(client.pubbuf)
      invariant client.Valid() && client.input == stream && client.size == size
    {
      match calls[i]
      case Connect(options) =>
        var _, _ := client.Connect(options);
      case Publish(topic, payload, qos, retained, id) =>
        var _, _ := client.Publish(topic, payload, qos, retained, id);
      case Subscribe(topic, qos) =>
        var _, _ := client.Request(SUBSCRIBE, topic, qos, signed);
      case Unsubscribe(topic) =>
        var _, _ := client.Request(UNSUBSCRIBE, topic, 0, signed);
      case Yield =>
        var _ := client.Yield();
      case Disconnect =>
        var _ := client.Disconnect();
    }
    TracksSays(client.log, client.table.Ids(), client.pingOutstanding, client.wire.sent, client.Held());
    OrderlyMeans(client.log);
    SettledMeans(client.log, size);
  }

  /** In every state that satisfies the invariant, so in every reachable one: the buffer for
      resending holds the publish in flight, under the identifier and QoS in the fields; and it
      deserializes to it exactly when the length of the topic is one the protocol has. */
  lemma KeptDeserializes(client: Client)
    requires client.Valid() && InFlight(client.log).Some?
    ensures var m := InFlight(client.log).value;
            var s := client.pubbuf[..] + [0, 0];
            && client.inflightMsgid == m.id > 0 && client.inflightQoS == m.qos
            && client.inflightLen == |P.PublishBytes(m)|
            && Framed(s, 2) && TypeOf(s[0]) == PUBLISH
            && s[..client.inflightLen] == P.PublishBytes(m)
            && (P.ParsePublish(s) == Some(P.FoundOf(m)) <==> |m.topic| < 65536)
  {
    hide P.PublishBytes, P.ParsePublish, Framed, Tracks, Open, InFlight;
    TracksSays(client.log, client.table.Ids(), client.pingOutstanding, client.wire.sent, client.Held());
    var m := InFlight(client.log).value;
    var s := client.pubbuf[..] + [0, 0];
    assert s[0..0 + client.inflightLen] == client.pubbuf[..client.inflightLen];
    P.PublishRoundTrip(s, m);
  }
}
