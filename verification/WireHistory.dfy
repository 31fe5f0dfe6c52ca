/**
 Histories, in the bytes and numbers of the protocol: what the predicates of histories and calls say about
 packets that are written out, whatever follows these in the buffer.
 */
module WireHistory {
  import opened Bytes
  import opened RemainingLength
  import opened Framing
  import opened Fields
  import opened WireBytes
  import opened History
  import opened Receive
  import opened Calls
  import opened Runs
  import P = PublishCodec
  import S = SubscribeCodec
  import C = ConnectCodec
  import IdTable
  import Readers

  /** The numbers of the client. */
  lemma ClientNumbers(packetType: int)
    ensures MAX_PINGS == 6 && MAX_PACKET_ID == 65535 && IdTable.CAPACITY == 10 && EXACTLY_ONCE == 2
    ensures SUCCESS == 0 && FAILURE == -1 && BUFFER_OVERFLOW == -2 && Readers.READ_ERROR == -1
    ensures Handles(packetType) <==> packetType in {0, 2, 3, 4, 5, 6, 7, 9, 13}
  {
  }

  /** An acknowledgement of four bytes is one of the type in its first byte and of the identifier in its last
      two, and of no other. */
  lemma AckNamed(s: bytes, h: byte, a: byte, b: byte, kind: nat, id: nat)
    requires Holds(s, 0, [h, 2, a, b]) && |s| >= 6
    ensures FromAck(s, kind, id) <==> kind == h as int / 16 && id == 256 * (a as int) + b as int
    ensures !NoAck(s)
  {
    hide Field, Value, IsField, Holds, Framed;
    AckRead(s, h, a, b);
    AckAt(s, h, a, b);
  }

  lemma AckAt(s: bytes, h: byte, a: byte, b: byte)
    requires Holds(s, 0, [h, 2, a, b]) && |s| >= 6
    ensures Framed(s, 2) && s[0] == h && BodyStart(s) == 2 && BodyEnd(s) == 4 && s[2] == a && s[3] == b
  {
    assert [h, 2] + [a, b] == [h, 2, a, b];
    ShortPacket(s, h, [a, b]);
    assert s[2..4][0] == s[2] && s[2..4][1] == s[3];
  }

  /** A CONNACK welcomes exactly with return code 0, and its code is the result of the handshake. */
  lemma Welcome(s: bytes, h: byte, f: byte, code: byte)
    requires Holds(s, 0, [h, 2, f, code]) && |s| >= 6
    ensures Framed(s, 2) && CodeIn(s) == code as int
    ensures IsWelcome(s) <==> h as int / 16 == 2 && code == 0
  {
    hide Field, Value, IsField, Holds, Framed;
    AckAt(s, h, f, code);
  }

  /** A SUBACK with one value grants the subscription unless that is 0x80 and char is unsigned. */
  lemma Grants(s: bytes, a: byte, b: byte, q: byte, signed: bool)
    requires Holds(s, 0, [144, 3, a, b, q]) && |s| >= 7
    ensures Framed(s, 2) && (Granted(s, signed) <==> q != 128 || signed)
  {
    hide Field, Value, IsField, Holds;
    SubackRead(s, a, b, q, signed);
  }

  predicate IsPing(e: Event) {
    e == Sent([192, 0], 2)
  }

  /** The ping count: so many whole PINGREQs since the last PINGRESP, or the last beginning or end of a
      connection. */
  lemma {:induction false} PingsSince(log: Log, k: nat)
    requires k <= |log| && forall i :: k <= i < |log| ==> log[i] !in {PingAnswered, Connected, Closed}
    ensures Pings(log) == Pings(log[..k]) + Count(log[k..], IsPing)
    ensures k >= 1 && log[k - 1] in {PingAnswered, Connected, Closed} ==> Pings(log[..k]) == 0
    decreases |log|
  {
    hide PingsStep, IsPing;
    if k == |log| {
      assert log[..k] == log;
      if k >= 1 {
        PingCounted(Pings(log[..k - 1]), log[k - 1]);
      }
    } else {
      var n := |log| - 1;
      PingsSince(log[..n], k);
      assert log[..n][..k] == log[..k] && log[..n][k..] == log[k..][..n - k];
      assert log[k..][n - k] == log[n];
      PingCounted(Pings(log[..n]), log[n]);
    }
  }

  lemma PingCounted(pings: nat, e: Event)
    ensures PingsStep(pings, e) ==
            if e in {PingAnswered, Connected, Closed} then 0 else if IsPing(e) then pings + 1 else pings
  {
    EmptyPackets();
  }

  /** A packet that was taken from the network whole, and fits, was read. */
  lemma TakenIsRead(log: Log, size: nat, k: nat, h: byte, body: bytes)
    requires Responsive(log, size) && k < |log| && log[k].Received?
    requires |body| <= 268435455 && log[k].taken == [h] + Encode(|body|) + body
    requires h >= 32 && |log[k].taken| <= size
    ensures log[k].buf.Some? && log[k].taken <= log[k].buf.value
  {
    hide Encode, IsFrame, Stored, RespondsAt;
    StoredIsSame(h, body);
  }

  /** The answers to acknowledgements of four bytes: PUBREL for PUBREC, PUBCOMP for PUBREL, with the same two
      bytes of identifier; and the identifier is freed once the PUBCOMP went out. */
  lemma AckAnswers(log: Log, size: nat, k: nat, s: bytes, h: byte, a: byte, b: byte)
    requires Responsive(log, size) && k < |log| && log[k].Received? && log[k].buf == Some(s)
    requires Holds(s, 0, [h, 2, a, b])
    ensures h as int / 16 == 5 ==> SendsAt(log, k + 1, [98, 2, a, b])
    ensures h as int / 16 == 6 ==>
              && SendsAt(log, k + 1, [112, 2, a, b])
              && var id := 256 * (a as int) + b as int;
                 (log[k + 1].count == 4 && id in Open(log[..k]) ==> k + 2 < |log| && log[k + 2] == Released(id))
  {
    hide Field, Value, IsField, Holds, Framed, Heeded, Open;
    assert RespondsAt(log, k, s);
    AckRead(s, h, a, b);
    TwoBytesBack(a, b);
  }

  lemma TwoBytesBack(a: byte, b: byte)
    ensures var id := 256 * (a as int) + b as int; id / 256 % 256 == a as int && id % 256 == b as int
  {
  }

  /** What becomes of a PUBLISH, for any flags, topic, identifier and payload: the message is delivered,
      unless it has QoS 2 and its identifier is 0 or held or ten are held; then QoS 1 is answered by PUBACK,
      QoS 2 by PUBREC, with the two bytes of its identifier. */
  lemma PublishAnswers(log: Log, size: nat, k: nat, s: bytes,
                       flags: nat, topic: bytes, a: byte, b: byte, payload: bytes)
    requires Responsive(log, size) && k < |log| && log[k].Received? && log[k].buf == Some(s)
    requires HoldsPublish(s, flags, topic, a, b, payload)
    ensures var id, qos := 256 * (a as int) + b as int, flags / 2 % 4;
            var m := P.Found(flags / 8, qos, flags % 2, if qos > 0 then Some(id) else None,
                             topic, payload, |payload|);
            && (qos < 2 || (id != 0 && id !in Open(log[..k]) && |Open(log[..k])| < 10) ==>
                  && k + 1 < |log| && log[k + 1].Delivered? && log[k + 1].message == m
                  && (qos > 0 ==> log[k + 1].id == id && SendsAt(log, k + 2, [if qos == 1 then 64 else 80, 2, a, b])))
            && (qos == 2 && (id == 0 || id in Open(log[..k]) || |Open(log[..k])| >= 10) ==>
                  SendsAt(log, k + 1, [80, 2, a, b]))
  {
    hide Field, Value, IsField, Holds, Heeded, Open, P.ParsePublish, Encode, Framed;
    PublishRead(s, flags, topic, a, b, payload);
    assert RespondsAt(log, k, s);
    TwoBytesBack(a, b);
  }

  /** And what was delivered is what the PUBLISH right before said. */
  lemma DeliveredIsRead(log: Log, k: nat, flags: nat, topic: bytes, a: byte, b: byte, payload: bytes)
    requires Orderly(log) && 1 <= k < |log| && log[k].Delivered?
    requires log[k - 1].Received? && log[k - 1].buf.Some?
    requires HoldsPublish(log[k - 1].buf.value, flags, topic, a, b, payload)
    ensures var m := log[k].message;
            && m.topic == topic && m.payload == payload && m.payloadLen == |payload|
            && m.dup == flags / 8 && m.qos == flags / 2 % 4 && m.retained == flags % 2
            && (m.qos > 0 ==> m.id == Some(log[k].id) && log[k].id == 256 * (a as int) + b as int)
  {
    hide Field, Value, IsField, Holds, P.ParsePublish, Encode, Framed, Orderly;
    PublishRead(log[k - 1].buf.value, flags, topic, a, b, payload);
    DeliveredAfter(log, k);
  }
}
