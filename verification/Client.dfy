/**
 The MQTT client: its connection state, the packets it exchanges, the QoS 2 identifier table, the
 keep-alive counter and the publish kept for resending. The network may deliver any bytes in any
 fragments and take as little of a write as it likes; a timer may expire at any moment.
 */
module MqttClient {
  import opened Bytes
  import opened RemainingLength
  import opened Framing
  import opened Fields
  import opened Readers
  import opened History
  import opened Receive
  import opened Calls
  import P = PublishCodec
  import S = SubscribeCodec
  import C = ConnectCodec
  import IdTable


  /** PacketId::getNext: the next one in the cycle from 1 to 65535. */
  function NextPacketId(last: nat): (id: nat)
    requires last <= MAX_PACKET_ID
    ensures 1 <= id <= 65535 && id == last % 65535 + 1
  {
    if last == MAX_PACKET_ID then 1 else last + 1
  }

  /** The identifier that so many calls lead to. */
  function PacketIdAfter(last: nat, calls: nat): (id: nat)
    requires last <= MAX_PACKET_ID
    ensures id <= MAX_PACKET_ID
  {
    if calls == 0 then last else NextPacketId(PacketIdAfter(last, calls - 1))
  }

  /** The identifiers of 65535 calls in a row are all different, and the next one is the first again. */
  lemma PacketIdsCycle(last: nat, i: nat, j: nat)
    requires last <= 65535 && 1 <= i < j
    ensures PacketIdAfter(last, i) == PacketIdAfter(last, j) <==> (j - i) % 65535 == 0
  {
    PacketIdIs(last, i - 1);
    PacketIdIs(last, j - 1);
    SameRemainder(last + (i - 1), last + (j - 1));
  }

  lemma SameRemainder(x: nat, y: nat)
    requires x <= y
    ensures x % 65535 == y % 65535 <==> (y - x) % 65535 == 0
  {
    var p, q, d := x / 65535, y / 65535, (y - x) / 65535;
    assert x == 65535 * p + x % 65535 && y == 65535 * q + y % 65535;
    if x % 65535 == y % 65535 {
      assert y - x == 65535 * (q - p);
    }
    if (y - x) % 65535 == 0 {
      assert y == 65535 * (p + d) + x % 65535;
    }
  }

  lemma {:induction false} PacketIdIs(last: nat, k: nat)
    requires last <= 65535
    ensures PacketIdAfter(last, k + 1) == (last + k) % 65535 + 1
  {
    if k > 0 {
      var x := last + k - 1;
      PacketIdIs(last, k - 1);
      NextIs(x);
      assert PacketIdAfter(last, k) == x % 65535 + 1;
      assert x + 1 == last + k;
    } else {
      assert PacketIdAfter(last, 0) == last;
    }
  }

  lemma NextIs(x: nat)
    ensures NextPacketId(x % 65535 + 1) == (x + 1) % 65535 + 1
  {
    var q, r := x / 65535, x % 65535;
    assert x == 65535 * q + r;
    if r == 65534 {
      assert x + 1 == 65535 * (q + 1) + 0;
    } else {
      assert x + 1 == 65535 * q + (r + 1);
    }
  }

  /** The writing half of the network. An eager one takes all it is given. */
  class Wire {
    var sent: bytes
    const eager: bool

    constructor (eager: bool)
      ensures sent == [] && this.eager == eager
    {
      sent, this.eager := [], eager;
    }

    /** A negative result is an error; otherwise so many bytes were taken. */
    method Write(x: bytes) returns (rc: int)
      modifies this
      ensures rc <= |x| && (eager ==> rc == |x|)
      ensures sent == old(sent) + (if rc < 0 then [] else x[..rc])
    {
      rc := |x|;
      if !eager {
        rc :| -1 <= rc <= |x|;
      }
      if rc >= 0 {
        sent := sent + x[..rc];
      }
    }
  }

  /** The timers. The answers of last_received are arbitrary, and are recorded. The timer of a call is
      found running so many times, at least once if the clock is patient. */
  class Clock {
    ghost var answers: seq<bool>
    const patient: bool

    constructor (patient: bool)
      ensures this.patient == patient
    {
      this.patient := patient;
    }

    method Start() returns (polls: nat)
      ensures patient ==> polls > 0
    {
      polls :| patient ==> polls > 0;
    }

    method Expired() returns (expired: bool)
      modifies this
      ensures answers == old(answers) + [expired]
    {
      expired := *;
      answers := answers + [expired];
    }
  }

  class Client {
    const size: nat
    const source: Source
    const wire: Wire
    const clock: Clock
    const sendbuf: array<byte>
    const readbuf: array<byte>
    const pubbuf: array<byte>
    const table: IdTable.Table
    var keepAliveInterval: nat
    var pingOutstanding: nat
    var cleansession: bool
    var nextId: nat
    var isconnected: bool
    var inflightLen: nat
    var inflightMsgid: nat
    var inflightQoS: nat
    /** All the bytes the network is going to deliver, and the history so far. */
    ghost const input: bytes
    ghost var log: Log

    /** The constructor leaves the keep-alive interval, and what belongs to a kept publish,
        uninitialized. The read buffer has two cells more than the largest packet:
        MQTTDeserialize_publish may look for an identifier right behind one. */
    constructor (size: nat, source: Source, wire: Wire, clock: Clock)
      requires 1 + MAX_BYTES <= size <= MAX_PACKET && wire.sent == []
      ensures Valid() && log == [] && !isconnected && cleansession && nextId == 0 && input == source.stream
      ensures this.size == size && this.source == source && this.wire == wire && this.clock == clock
      ensures fresh(sendbuf) && fresh(readbuf) && fresh(pubbuf) && fresh(table.slots)
    {
      this.size, this.source, this.wire, this.clock := size, source, wire, clock;
      sendbuf, readbuf, pubbuf := new byte[size], new byte[size + 2], new byte[size];
      var t := new IdTable.Table();
      table := t;
      keepAliveInterval, inflightLen := *, *;
      nextId, pingOutstanding, inflightMsgid, inflightQoS := 0, 0, 0, 0;
      cleansession, isconnected := true, false;
      input, log := source.stream, [];
      new;
      TracksNothing(Held());
    }

    ghost predicate Shape()
      reads this
    {
      && 1 + MAX_BYTES <= size <= MAX_PACKET
      && sendbuf.Length == size && readbuf.Length == size + 2 && pubbuf.Length == size
      && sendbuf != readbuf && sendbuf != pubbuf && readbuf != pubbuf
      && (table.slots as object) !in {sendbuf as object, readbuf, pubbuf}
      && nextId <= MAX_PACKET_ID
    }

    ghost function Held(): Slot
      reads this, pubbuf
    {
      Slot(inflightMsgid, inflightQoS, inflightLen, pubbuf[..])
    }

    /** The fields are what the history says, and what has been read is the front of what the network
        delivers. */
    ghost predicate Sound()
      reads this, wire, source, pubbuf, table.slots
    {
      && Shape() && table.Valid()
      && Tracks(log, table.Ids(), pingOutstanding, wire.sent, Held())
      && input == Heard(log) + source.stream && isconnected == Up(log)
    }

    ghost function Fixed(): Setup
      reads this
    {
      Setup(cleansession, size)
    }

    /** The same, with every packet that arrived read, and every packet that was read dealt with. */
    ghost predicate Valid()
      reads this, wire, source, pubbuf, table.slots
    {
      Sound() && Settled(log, size)
    }

    /** A network and timers that let the client get on. */
    ghost predicate Served()
      reads this
    {
      source.eager && wire.eager && clock.patient
    }

    /** A packet of that type has arrived whole, and fits. */
    ghost predicate Coming(kind: nat)
      reads this, source
    {
      Served() && pingOutstanding < MAX_PINGS && Begins(source.stream, size) && PacketType(source.stream) == kind
    }

    /** sendPacket: however little each write takes, and whenever the timer expires, the network
        gets all of the packet on success and a prefix of it otherwise. */
    method SendPacket(length: nat) returns (rc: int, ghost count: nat)
      requires length <= sendbuf.Length
      modifies wire
      ensures rc == SUCCESS || rc == FAILURE
      ensures count <= length && (rc == SUCCESS <==> count == length)
      ensures wire.sent == old(wire.sent) + sendbuf[..count]
      ensures Served() ==> rc == SUCCESS
    {
      rc := FAILURE;
      var sent: nat := 0;
      var timer := clock.Start();
      assert sendbuf[..0] == [];
      while sent < length && timer > 0
        invariant sent <= length && wire.sent == old(wire.sent) + sendbuf[..sent]
        invariant Served() ==> sent == length || timer > 0
        decreases timer
      {
        timer := timer - 1;
        rc := wire.Write(sendbuf[sent..length]);
        if rc < 0 {
          break;
        }
        assert sendbuf[..sent] + sendbuf[sent..length][..rc] == sendbuf[..sent + rc];
        sent := sent + rc;
      }
      count := sent;
      rc := if sent == length then SUCCESS else FAILURE;
    }

    /** Sending, on the history; for every packet but PINGREQ. */
    method Send(length: nat) returns (rc: int, ghost count: nat)
      requires Sound() && 0 < length <= size && TypeOf(sendbuf[0]) != PINGREQ
      modifies this`log, wire
      ensures Sound() && (rc == SUCCESS || rc == FAILURE)
      ensures count <= length && (rc == SUCCESS <==> count == length)
      ensures log == old(log) + [Sent(sendbuf[..length], count)]
      ensures Served() ==> rc == SUCCESS
      ensures Open(log) == Open(old(log)) && InFlight(log) == InFlight(old(log)) && LastRead(log) == JustRead(old(log))
      ensures Settled(old(log), size) ==> Settled(log, size)
    {
      hide Tracks, Open, InFlight, P.PublishBytes, Settled, Heard, Up, LastRead, JustRead;
      rc, count := SendPacket(length);
      ghost var packet := sendbuf[..length];
      NotAPing(packet);
      assert packet[..count] == sendbuf[..count];
      TracksSent(log, table.Ids(), pingOutstanding, old(wire.sent), Held(), packet, count);
      SettledOn(log, Sent(packet, count), size);
      log := log + [Sent(packet, count)];
    }

    /** readPacket. A packet that has arrived whole is in the buffer, with its type as the result; with
        any result from 2 on, the buffer holds a packet of that type. When bytes were taken and no
        packet came of them, the result says so; when none were taken, it tells a read error from a
        timeout. */
    method ReadPacket() returns (rc: int)
      requires Shape()
      modifies source, readbuf
      ensures BUFFER_OVERFLOW <= rc <= 15
      ensures Suffix(old(source.stream), source.stream)
      ensures var taken := Taken(old(source.stream), source.stream);
              && (rc >= 2 ==> TypeOf(readbuf[0]) == rc && GoodPacket(taken, readbuf[..]))
              && (if rc >= 2 then rc == PacketType(taken) else NoPacket(rc, taken, size))
              && (taken == [] ==> rc == if source.errors > old(source.errors) then FAILURE else 0)
              && (IsFrame(taken) && |Stored(taken)| <= size ==>
                    rc == PacketType(taken) && readbuf[..|Stored(taken)|] == Stored(taken))
      ensures source.eager ==>
                var s := old(source.stream);
                if s == [] then rc == 0 || rc == FAILURE
                else if StoredSize(Field(s[1..])) > size then rc == BUFFER_OVERFLOW
                else if |s| < CutSize(s) then rc == 1
                else rc == PacketType(s) && CutOffTo(s, source.stream, readbuf[..])
    {
      hide Value, Encode, Field, IsField, Stored, IsFrame, Framed, Arrived, Put, Whole, CutOff, TooLong;
      ghost var s := source.stream;
      var len, remLen;
      ghost var d;
      rc, len, remLen, d := source.Front(readbuf);
      if rc != 1 {
        NoFrameYet(s);
        return;
      }
      ghost var s2, b, front := source.stream, readbuf[..], [s[0]] + Encode(remLen);
      FieldValueBound(d);
      if remLen > size - len {
        TooLarge(s, s2, d, size);
        return BUFFER_OVERFLOW;
      }
      assert front + s2[..0] == front;
      if remLen > 0 {
        var got := source.Get(readbuf, len, remLen);
        if got != remLen {
          CutShort(s, s2, source.stream, d);
          return;
        }
        PutBehind(b, front, s2[..remLen]);
      }
      InBuffer(readbuf[..], s[0], remLen, s2[..remLen]);
      WholePacket(s, s2, source.stream, d, readbuf[..]);
      if source.eager {
        OneCut(s, s2, source.stream, d, readbuf[..]);
      }
      ArrivedWhole(Taken(s, source.stream), readbuf[..]);
      assert readbuf[..][0] == s[0];
      rc := readbuf[0] / 16;
    }

    /** readPacket, on the history. */
    method Read() returns (rc: int)
      requires Sound()
      modifies this`log, source, readbuf
      ensures Sound() && BUFFER_OVERFLOW <= rc <= 15
      ensures rc >= 2 ==> Framed(readbuf[..], 2) && TypeOf(readbuf[0]) == rc
      ensures source.eager && Begins(old(source.stream), size) ==>
                rc == PacketType(old(source.stream)) && CutOffTo(old(source.stream), source.stream, readbuf[..])
      ensures var taken := Taken(old(source.stream), source.stream);
              var e := Received(taken, if rc >= 2 then Some(readbuf[..]) else None);
              && log == old(log) + [e] && Heeded(e, size) && (rc < 2 ==> NoPacket(rc, taken, size))
              && (taken == [] ==> rc == if source.errors > old(source.errors) then FAILURE else 0)
      ensures JustRead(log) == if rc >= 2 then Some(readbuf[..]) else None
    {
      hide Tracks, Open, InFlight, P.PublishBytes, Framed, Heard, Up, JustRead, Arrived, IsFrame, Stored, NoPacket;
      hide CutOffTo;
      ghost var s := source.stream;
      rc := ReadPacket();
      ghost var taken, buf := Taken(s, source.stream), if rc >= 2 then Some(readbuf[..]) else None;
      TracksReceived(log, table.Ids(), pingOutstanding, wire.sent, Held(), taken, buf);
      assert Heard(log) + s == Heard(log) + taken + source.stream;
      log := log + [Received(taken, buf)];
    }

    /** An acknowledgement is made and sent. */
    method SendAck(kind: nat, id: nat) returns (rc: int, ghost count: nat)
      requires Sound() && kind in {PUBACK, PUBREC, PUBREL, PUBCOMP}
      modifies this`log, wire, sendbuf
      ensures Sound() && (rc == SUCCESS || rc == FAILURE) && (rc == SUCCESS <==> count == 4)
      ensures log == old(log) + [Sent(P.AckBytes(kind, 0, id), count)]
      ensures Open(log) == Open(old(log)) && LastRead(log) == JustRead(old(log))
      ensures Served() ==> rc == SUCCESS
    {
      hide Tracks, Open, InFlight, P.AckBytes, P.PublishBytes, LastRead, JustRead, Heard, Up, Settled;
      var len := P.SerializeAck(sendbuf, size, kind, 0, id);
      AckType(kind, id);
      PutFirst(old(sendbuf[..]), P.AckBytes(kind, 0, id));
      assert sendbuf[..4] == P.AckBytes(kind, 0, id);
      assert sendbuf[0] == sendbuf[..4][0];
      rc, count := Send(4);
    }

    /** The handlers are called for the message just read, or it is dropped. */
    method DeliverOrDrop(m: P.Found, id: nat)
      requires Sound() && JustRead(log).Some? && FromPublish(JustRead(log).value, m, id)
      modifies this`log, table.slots
      ensures Sound() && log == old(log) + DeliveryOf(Open(old(log)), m, id)
    {
      hide Tracks, Open, InFlight, P.PublishBytes, JustRead, FromPublish, Heard, Up;
      ghost var ids := table.Ids();
      TracksSays(log, ids, pingOutstanding, wire.sent, Held());
      if m.qos != 2 {
        TracksDelivered(log, ids, pingOutstanding, wire.sent, Held(), m, id);
        log := log + [Delivered(m, id)];
      } else {
        var free := table.IsFree(id);
        if free {
          var ok := table.Use(id);
          if ok {
            TracksDelivered(log, ids, pingOutstanding, wire.sent, Held(), m, id);
            log := log + [Delivered(m, id)];
          }
        }
      }
    }

    /** The PUBLISH case of cycle. `leave` is the jump past the keep-alive step. A packet cut short
        whose length field is one byte goes on with an arbitrary identifier. */
    method HandlePublish() returns (rc: int, leave: bool)
      requires Sound() && Framed(readbuf[..], 2) && TypeOf(readbuf[0]) == PUBLISH
      requires JustRead(log) == Some(readbuf[..])
      modifies this`log, wire, sendbuf, table.slots
      ensures Sound() && (rc == SUCCESS || rc == FAILURE)
      ensures PublishDealt(readbuf[..], old(log), log, rc == SUCCESS)
      ensures leave <==> rc == FAILURE || Unread(Some(readbuf[..]))
      ensures Served() && Answerable(readbuf[..]) ==> rc == SUCCESS
    {
      hide Tracks, Open, InFlight, P.AckBytes, P.PublishBytes, P.ParsePublish, Framed, DeliveryOf, JustRead, Heard, Up;
      hide PublishDealt, FromPublish, Field;
      ghost var before, buf := log, readbuf[..];
      rc, leave := SUCCESS, true;
      var done, m := P.DeserializePublish(readbuf);
      if done != 1 {
        PublishRefused(buf, log);
        return;
      }
      var id: nat := *;
      if m.id.Some? {
        id := m.id.value;
      }
      PublishTaken(buf, m, id);
      DeliverOrDrop(m, id);
      ghost var count := 4;
      if m.qos != 0 {
        if m.qos == 1 {
          rc, count := SendAck(PUBACK, id);
        } else if m.qos == 2 {
          rc, count := SendAck(PUBREC, id);
        } else {
          rc := FAILURE;
        }
      }
      assert rc == SUCCESS <==> FullAnswer(m, count);
      PublishDone(buf, m, id, count, before, log, rc == SUCCESS);
      leave := rc == FAILURE;
    }

    /** The identifier is freed, after its PUBCOMP. */
    method Release(id: nat)
      requires Sound() && Completed(log, id)
      modifies this`log, table.slots
      ensures Sound() && log == old(log) + if id in Open(old(log)) then [Released(id)] else []
    {
      hide Tracks, Open, InFlight, P.PublishBytes, Completed, Heard, Up;
      ghost var ids := table.Ids();
      table.Free(id);
      TracksSays(log, ids, pingOutstanding, wire.sent, Held());
      if id in ids {
        TracksReleased(log, ids, pingOutstanding, wire.sent, Held(), id);
        log := log + [Released(id)];
      } else {
        assert ids - {id} == ids;
      }
    }

    /** The PUBREC and PUBREL cases of cycle. */
    method HandleAck(kind: nat) returns (rc: int)
      requires Sound() && Framed(readbuf[..], 2) && TypeOf(readbuf[0]) == kind
      requires kind == PUBREC || kind == PUBREL
      requires JustRead(log) == Some(readbuf[..])
      modifies this`log, wire, sendbuf, table.slots
      ensures Sound() && (rc == SUCCESS || rc == FAILURE)
      ensures AckDealt(readbuf[..], kind, old(log), log, rc == SUCCESS)
      ensures Served() && Answerable(readbuf[..]) ==> rc == SUCCESS
    {
      hide Tracks, Open, InFlight, P.AckBytes, P.PublishBytes, P.ParseAck, BodyEnd, Heard, Up, AckDealt, FromAck;
      hide JustRead, LastRead, Field;
      ghost var before, buf := log, readbuf[..];
      var done, _, _, found := P.DeserializeAck(readbuf);
      if done != 1 {
        AckRefused(buf, kind, log);
        return FAILURE;
      }
      var id: nat := *;
      if found.Some? {
        id := found.value;
      }
      AckTaken(buf, kind, id);
      ghost var count;
      rc, count := SendAck(if kind == PUBREC then PUBREL else PUBCOMP, id);
      if rc == SUCCESS && kind == PUBREL {
        assert Completed(log, id);
        Release(id);
      }
      AckDone(buf, kind, id, count, before, log, rc == SUCCESS);
    }

    /** A ping is made and sent, and counted if all of it went out. */
    method SendPing() returns (rc: int, ghost count: nat)
      requires Sound() && pingOutstanding < MAX_PINGS
      modifies this`log, this`pingOutstanding, wire, sendbuf
      ensures Sound() && (rc == SUCCESS || rc == FAILURE) && (rc == SUCCESS <==> count == 2)
      ensures log == old(log) + [Sent(PingBytes(), count)]
      ensures Served() ==> rc == SUCCESS
    {
      hide Tracks, Open, InFlight, P.PublishBytes, PingBytes, Heard, Up;
      var len := C.SerializeZero(sendbuf, size, PINGREQ);
      PingFirst(old(sendbuf[..]), sendbuf[..]);
      rc, count := SendPacket(2);
      assert sendbuf[..2][..count] == sendbuf[..count];
      TracksSent(log, table.Ids(), pingOutstanding, old(wire.sent), Held(), PingBytes(), count);
      log := log + [Sent(PingBytes(), count)];
      if rc == SUCCESS {
        pingOutstanding := pingOutstanding + 1;
      }
    }

    /** keepalive: a ping when the timer is found expired, or failure when six are outstanding. */
    method KeepAlive() returns (rc: int, ghost expired: bool)
      requires Sound()
      modifies this`log, this`pingOutstanding, wire, sendbuf, clock
      ensures Sound() && (rc == SUCCESS || rc == FAILURE)
      ensures clock.answers == old(clock.answers) + if keepAliveInterval > 0 then [expired] else []
      ensures expired ==> keepAliveInterval > 0
      ensures old(pingOutstanding) == Pings(old(log))
      ensures Served() && old(pingOutstanding) < MAX_PINGS ==> rc == SUCCESS
      ensures !expired ==> rc == 0 && log == old(log)
      ensures expired && old(pingOutstanding) >= 6 ==> rc == -1 && log == old(log) + [PingTimeout]
      ensures expired && old(pingOutstanding) < 6 ==>
                |log| == |old(log)| + 1 && log[|old(log)|].Sent? && log[|old(log)|].packet == [192, 0]
      ensures KeptAlive(old(log), log, Pings(old(log)), rc, expired)
    {
      hide Tracks, Open, InFlight, P.PublishBytes, PingBytes, Heard, Up, Pings;
      PingIsPing();
      rc, expired := SUCCESS, false;
      TracksSays(log, table.Ids(), pingOutstanding, wire.sent, Held());
      if keepAliveInterval == 0 {
        return;
      }
      var timer := clock.Expired();
      expired := timer;
      if timer {
        if pingOutstanding > 5 {
          rc := FAILURE;
          TracksMark(log, table.Ids(), pingOutstanding, wire.sent, Held(), PingTimeout);
          log := log + [PingTimeout];
        } else {
          ghost var count;
          rc, count := SendPing();
        }
      }
    }

    /** closeSession, with cleanSession when the session is a clean one. */
    method CloseSession()
      requires Sound()
      modifies this`log, this`pingOutstanding, this`isconnected, this`inflightMsgid, this`inflightQoS, table.slots
      ensures Sound() && !isconnected
      ensures log == old(log) + Closing(cleansession)
    {
      hide Tracks, Open, InFlight, P.PublishBytes, Heard, Up;
      TracksMark(log, table.Ids(), pingOutstanding, wire.sent, Held(), Closed);
      pingOutstanding := 0;
      isconnected := false;
      log := log + [Closed];
      if cleansession {
        TracksCleared(log, table.Ids(), pingOutstanding, wire.sent, Held(),
                      Slot(0, 0, inflightLen, pubbuf[..]));
        inflightMsgid := 0;
        inflightQoS := 0;
        table.Clear();
        log := log + [Cleared];
      }
    }

    /** The switch of cycle. Types without a case are returned as the result, which is not success. */
    method Dispatch(packetType: int) returns (rc: int, leave: bool)
      requires Sound() && packetType <= 15
      requires packetType >= 2 ==> Framed(readbuf[..], 2) && TypeOf(readbuf[0]) == packetType
      requires JustRead(log) == if packetType >= 2 then Some(readbuf[..]) else None
      modifies this`log, this`pingOutstanding, wire, sendbuf, table.slots
      ensures Sound() && Dealt(JustRead(old(log)), old(log), log, rc == SUCCESS)
      ensures rc == SUCCESS ==> Handles(packetType)
      ensures rc != SUCCESS ==> leave && rc == if Handles(packetType) then FAILURE else packetType
      ensures packetType == 0 ==> rc == SUCCESS
      ensures leave <==> rc != SUCCESS || Unread(JustRead(old(log)))
      ensures pingOutstanding <= old(pingOutstanding)
      ensures Served() && Handles(packetType) && (Answers(packetType) ==> Answerable(readbuf[..])) ==> rc == SUCCESS
    {
      hide Tracks, Open, InFlight, P.PublishBytes, Framed, PublishDealt, AckDealt, Heard, Up, JustRead;
      rc, leave := SUCCESS, false;
      if packetType in {0, CONNACK, PUBACK, SUBACK, PUBCOMP} {
      } else if packetType == PUBLISH {
        rc, leave := HandlePublish();
      } else if packetType == PUBREC || packetType == PUBREL {
        rc := HandleAck(packetType);
        leave := rc == FAILURE;
      } else if packetType == PINGRESP {
        TracksMark(log, table.Ids(), pingOutstanding, wire.sent, Held(), PingAnswered);
        pingOutstanding := 0;
        log := log + [PingAnswered];
      } else {
        rc, leave := packetType, true;
      }
    }

    /** The work of cycle on the packet just read, and the keep-alive step. */
    method Work(packetType: int) returns (rc: int, ghost pass: Pass)
      requires Sound() && packetType <= 15
      requires packetType >= 2 ==> Framed(readbuf[..], 2) && TypeOf(readbuf[0]) == packetType
      requires JustRead(log) == if packetType >= 2 then Some(readbuf[..]) else None
      modifies this`log, this`pingOutstanding, wire, sendbuf, clock, table.slots
      ensures Sound() && Dealt(JustRead(old(log)), old(log), pass.dealt, pass.full)
      ensures pass.alive == log && KeptAlive(pass.dealt, log, Pings(pass.dealt), pass.kept, pass.expired)
      ensures pass.expired ==> keepAliveInterval > 0
      ensures clock.answers == old(clock.answers) +
                if keepAliveInterval > 0 && pass.full && !Unread(JustRead(old(log))) then [pass.expired] else []
      ensures old(log) <= log
      ensures pass.full && pass.kept == SUCCESS <==> rc == SUCCESS
      ensures rc == SUCCESS ==> Handles(packetType)
      ensures rc != SUCCESS ==> rc == if pass.kept != SUCCESS || Handles(packetType) then FAILURE else packetType
      ensures pass.kept != SUCCESS ==> Handles(packetType) && pass.full
      ensures packetType == 0 ==> pass.full
      ensures pass.expired ==> pass.full && !Unread(JustRead(old(log)))
      ensures Served() && Handles(packetType) && (Answers(packetType) ==> Answerable(readbuf[..])) ==> pass.full
      ensures Served() && old(pingOutstanding) < MAX_PINGS ==> pass.kept == SUCCESS
    {
      hide Tracks, Open, InFlight, P.PublishBytes, Framed, Dealt, Heard, Up, JustRead, KeptAlive, Grew, Answerable;
      hide Handles;
      ghost var read, before := JustRead(log), log;
      var leave;
      rc, leave := Dispatch(packetType);
      pass := Pass(log, rc == SUCCESS, log, SUCCESS, false);
      NotExpired(log);
      if !leave {
        var alive;
        ghost var expired;
        alive, expired := KeepAlive();
        pass := Pass(pass.dealt, pass.full, log, alive, expired);
        if alive != SUCCESS {
          rc := FAILURE;
        }
      }
      DealtGrew(read, before, pass.dealt, pass.full);
      AliveQuiet(pass.dealt, log, Pings(pass.dealt), pass.kept, pass.expired);
    }

    /** cycle: one packet is read and dealt with, then comes the keep-alive step, and the end of the
        session if anything failed. The history tells exactly this. */
    method Cycle() returns (rc: int, ghost pass: Pass)
      requires Valid()
      modifies this`log, this`pingOutstanding, this`isconnected, this`inflightMsgid, this`inflightQoS,
               wire, sendbuf, readbuf, source, clock, table.slots
      ensures Valid() && |log| > |old(log)|
      ensures var taken := Taken(old(source.stream), source.stream);
              Passed(old(log), log, taken, readbuf[..], rc, pass, Fixed())
      ensures isconnected <==> old(isconnected) && Handles(rc)
      ensures Taken(old(source.stream), source.stream) == [] ==>
                (source.errors > old(source.errors) ==> rc == FAILURE)
                && (source.errors == old(source.errors) && pass.kept == SUCCESS ==> rc == 0)
      ensures pass.expired ==> keepAliveInterval > 0
      ensures clock.answers == old(clock.answers) +
                if keepAliveInterval > 0 && pass.full && !Unread(log[|old(log)|].buf) then [pass.expired] else []
      ensures rc >= 2 ==> Framed(readbuf[..], 2) && TypeOf(readbuf[0]) == rc
      ensures Grew(old(log), log, old(isconnected && cleansession))
      ensures rc in {CONNACK, SUBACK, PUBACK, PUBCOMP} ==> LastRead(log) == Some(readbuf[..])
      ensures source.eager && Begins(old(source.stream), size) ==>
                && CutOffTo(old(source.stream), source.stream, readbuf[..])
                && var kind := PacketType(old(source.stream));
                   && (kind >= 2 ==> log[|old(log)|].buf == Some(readbuf[..]))
                   && (rc == kind || (Handles(kind) && rc == FAILURE))
                   && ((Answers(kind) ==> Answerable(readbuf[..])) && Served() && old(pingOutstanding) < MAX_PINGS ==>
                         rc == kind)
    {
      hide Tracks, Open, InFlight, P.PublishBytes, Framed, Dealt, Heard, Up, JustRead, KeptAlive, Settled;
      hide LastRead, Grew, Passed, Pings, Closing, Heeded, NoPacket, Unread, Answerable, CutOffTo, Begins;
      ghost var before, up := log, isconnected;
      var packetType := Read();
      ghost var e := log[|before|];
      rc, pass := Work(packetType);
      if rc == SUCCESS {
        rc := packetType;
      } else if isconnected {
        CloseSession();
      }
      PassedBy(before, e, log, readbuf[..], rc, pass, Fixed());
      PassedGrew(before, log, e.taken, readbuf[..], rc, pass, Fixed());
    }

    /** waitfor: cycles until a packet of the wanted type, which is then in the buffer, a failure, or the
        timer. */
    method WaitFor(packetType: nat) returns (rc: int, ghost pass: Pass)
      requires Valid()
      modifies this`log, this`pingOutstanding, this`isconnected, this`inflightMsgid, this`inflightQoS,
               wire, sendbuf, readbuf, source, clock, table.slots
      ensures Valid()
      ensures if rc == packetType then Found(old(log), log, packetType, readbuf[..], Fixed())
              else Missed(old(log), log, packetType, Fixed())
      ensures Grew(old(log), log, old(isconnected && cleansession))
      ensures isconnected ==> old(isconnected)
      ensures rc >= 2 ==> Framed(readbuf[..], 2) && TypeOf(readbuf[0]) == rc
      ensures rc in {CONNACK, SUBACK, PUBACK, PUBCOMP} ==> LastRead(log) == Some(readbuf[..])
      ensures rc > 0 && !Handles(rc) ==> !isconnected
      ensures old(Coming(packetType)) && !Answers(packetType) ==>
                && rc == packetType && (keepAliveInterval == 0 ==> !pass.expired)
                && ReadNext(old(source.stream), source.stream, old(log), log, readbuf[..], rc, pass, Fixed())
    {
      hide Tracks, Open, InFlight, P.PublishBytes, Framed, Heard, Up, Settled, LastRead, Passed, Skips, Found, Failed;
      hide CutOffTo, Begins, Taken, ReadNext, PacketType;
      ghost var s0, due := source.stream, Coming(packetType) && !Answers(packetType);
      rc := FAILURE;
      pass := Pass(log, true, log, SUCCESS, false);
      var timer := clock.Start();
      ghost var may, n, start := isconnected && cleansession, 0, log;
      SkipsNothing(log, packetType, Fixed());
      var go := true;
      while go && timer > 0
        invariant Valid() && Grew(start, log, may)
        invariant go ==> rc != packetType && Skips(start, log, n, packetType, Fixed())
        invariant !go ==> if rc == packetType then Found(start, log, packetType, readbuf[..], Fixed())
                          else Failed(start, log, packetType, Fixed())
        invariant isconnected ==> old(isconnected)
        invariant rc >= 2 ==> Framed(readbuf[..], 2) && TypeOf(readbuf[0]) == rc
        invariant rc in {CONNACK, SUBACK, PUBACK, PUBCOMP} ==> LastRead(log) == Some(readbuf[..])
        invariant rc > 0 && !Handles(rc) ==> !isconnected
        invariant due && go ==> timer > 0 && log == start && source.stream == s0 && pingOutstanding < MAX_PINGS
        invariant due && !go ==>
                    && rc == packetType && (keepAliveInterval == 0 ==> !pass.expired)
                    && ReadNext(s0, source.stream, start, log, readbuf[..], rc, pass, Fixed())
        decreases timer
      {
        timer := timer - 1;
        ghost var now, clears, s := log, isconnected && cleansession, source.stream;
        rc, pass := Cycle();
        ReadNextBy(s, source.stream, now, log, readbuf[..], rc, pass, Fixed());
        SkipsMore(start, now, log, n, packetType, rc, Taken(s, source.stream), readbuf[..], pass, Fixed());
        n := n + 1;
        GrewWeaken(now, log, clears, may);
        GrewMore(start, now, log, may);
        go := rc != packetType && rc >= 0;
      }
    }

    /** The acknowledgement just read ends the waiting, and the keeping of the publish with its
        identifier. One without an identifier, whose length field is one byte, is taken to have an
        arbitrary one. */
    method TakeAck(kind: nat) returns (rc: int, ghost id: nat)
      requires Valid() && Framed(readbuf[..], 2) && TypeOf(readbuf[0]) == kind && kind in {PUBACK, PUBCOMP}
      requires LastRead(log) == Some(readbuf[..])
      modifies this`log, this`inflightMsgid
      ensures Valid() && (rc == SUCCESS || rc == FAILURE)
      ensures rc == FAILURE <==> NoAck(readbuf[..])
      ensures rc == FAILURE ==> log == old(log) && inflightMsgid == old(inflightMsgid)
      ensures rc == SUCCESS ==>
                && log == old(log) + [Acked(kind, id)] && FromAck(readbuf[..], kind, id)
                && inflightMsgid == if old(inflightMsgid) == id then 0 else old(inflightMsgid)
    {
      hide Tracks, Open, InFlight, P.PublishBytes, P.ParseAck, LastRead, FromAck, Settled, Heard, Up;
      id := 0;
      var done, _, _, found := P.DeserializeAck(readbuf);
      if done != 1 {
        rc := FAILURE;
        return;
      }
      var mypacketid: nat := *;
      if found.Some? {
        mypacketid := found.value;
      }
      id := mypacketid;
      AckTaken(readbuf[..], kind, id);
      TracksAcked(log, table.Ids(), pingOutstanding, wire.sent, Held(), kind, id);
      if inflightMsgid == mypacketid {
        inflightMsgid := 0;
      }
      SettledOn(log, Acked(kind, id), size);
      log := log + [Acked(kind, id)];
      rc := SUCCESS;
    }

    /** An acknowledgement of that type is waited for, and taken. */
    method AwaitAck(kind: nat) returns (rc: int)
      requires Valid() && kind in {PUBACK, PUBCOMP}
      modifies this`log, this`pingOutstanding, this`isconnected, this`inflightMsgid, this`inflightQoS,
               wire, sendbuf, readbuf, source, clock, table.slots
      ensures Valid() && (rc == SUCCESS || rc == FAILURE)
      ensures isconnected ==> old(isconnected)
      ensures AckTakenOrNot(old(log), log, kind, rc, readbuf[..], Fixed()) && Asked(log) == Asked(old(log))
      ensures old(Coming(kind)) ==>
                && CutOffTo(old(source.stream), source.stream, readbuf[..])
                && (rc == SUCCESS <==> !NoAck(readbuf[..]))
                && (rc == SUCCESS && keepAliveInterval == 0 ==>
                      ReadAndTook(old(log), log, Taken(old(source.stream), source.stream), readbuf[..]))
    {
      hide Tracks, Open, InFlight, P.PublishBytes, FromAck, Framed, Grew, Settled, LastRead, Heard, Up, AckTakenOrNot;
      hide JustRead, Found, Missed, Asked, NoAck, Passed, CutOffTo, Taken, Begins, PacketType, ReadNext, ReadAndTook;
      ghost var sent, s, due := log, source.stream, Coming(kind);
      var got;
      ghost var pass;
      got, pass := WaitFor(kind);
      ghost var waited := log;
      if due {
        NextPlain(s, source.stream, sent, log, readbuf[..], got, pass, Fixed());
      }
      GrewAsked(sent, log, old(isconnected && cleansession));
      rc := FAILURE;
      ghost var id := 0;
      if got == kind {
        rc, id := TakeAck(kind);
        if rc == SUCCESS {
          ThenTook(sent, waited, Taken(s, source.stream), readbuf[..], kind, id);
        }
      }
      AckTakenBy(sent, waited, got, kind, id, rc, readbuf[..], Fixed());
    }

    /** The private publish: the packet in the send buffer goes out, and is waited for according
        to its QoS. */
    method PublishPacket(length: nat, qos: nat) returns (rc: int)
      requires Valid() && 0 < length <= size && TypeOf(sendbuf[0]) == PUBLISH
      modifies this`log, this`pingOutstanding, this`isconnected, this`inflightMsgid, this`inflightQoS,
               wire, sendbuf, readbuf, source, clock, table.slots
      ensures Valid() && (rc == SUCCESS || rc == FAILURE)
      ensures isconnected ==> old(isconnected)
      ensures Transferred(old(log), log, old(sendbuf[..length]), qos, rc, readbuf[..], Fixed())
      ensures Asked(log) == Asked(old(log))
      ensures rc == SUCCESS && qos != 1 && qos != 2 ==> InFlight(log) == InFlight(old(log))
      ensures rc == SUCCESS && (qos == 1 || qos == 2) && InFlight(old(log)).Some?
                && !old(isconnected && cleansession) ==>
                TakenFor(InFlight(old(log)).value, log)
      ensures Served() && qos != 1 && qos != 2 ==> rc == SUCCESS
      ensures (qos == 1 && old(Coming(PUBACK))) || (qos == 2 && old(Coming(PUBCOMP))) ==>
                && CutOffTo(old(source.stream), source.stream, readbuf[..])
                && (rc == SUCCESS <==> !NoAck(readbuf[..]))
                && (rc == SUCCESS && keepAliveInterval == 0 ==> AtOnce(old(log), log, old(sendbuf[..length]),
                      Taken(old(source.stream), source.stream), readbuf[..], 1))
    {
      hide Tracks, Open, InFlight, P.PublishBytes, Settled, LastRead, Heard, Up, AckTakenOrNot, JustRead, Asked;
      hide NoAck, TakenFor, AtOnce, CutOffTo, Taken, Begins, PacketType, Grew, ReadAndTook;
      ghost var before, count, packet, s := log, 0, sendbuf[..length], source.stream;
      rc, count := Send(length);
      ghost var now := log;
      Step(before, Sent(packet, count));
      assert packet[0] == sendbuf[0];
      if rc == SUCCESS && (qos == 1 || qos == 2) {
        rc := AwaitAck(if qos == 1 then PUBACK else PUBCOMP);
      }
      assert AckAwaited(now, log, count == length, qos, rc, readbuf[..], Fixed());
      assert Transferred(before, log, packet, qos, rc, readbuf[..], Fixed());
      TransferMeans(before, log, packet, qos, rc, readbuf[..], Fixed());
      SentFirst(before, packet, now, log, Taken(s, source.stream), readbuf[..]);
    }

    /** The packet in the send buffer is kept for resending. */
    method Keep(ghost m: P.Message, id: nat, length: nat, qos: nat)
      requires Valid() && m.id == id <= MAX_PACKET_ID && m.qos == qos <= 2 && m.dup < 2 && m.retained < 2
      requires |P.PublishBody(m)| <= MAX_VALUE
      requires length == |P.PublishBytes(m)| <= size && sendbuf[..length] == P.PublishBytes(m)
      modifies this`log, this`inflightMsgid, this`inflightQoS, this`inflightLen, pubbuf
      ensures Valid() && log == old(log) + [Kept(m)]
    {
      hide Tracks, Open, InFlight, P.PublishBytes, P.PublishBody, Settled, Heard, Up;
      ghost var slot := Held();
      PutFirst(pubbuf[..], sendbuf[..length]);
      Copy(pubbuf, 0, sendbuf[..length]);
      TracksKept(log, table.Ids(), pingOutstanding, wire.sent, slot, m, pubbuf[..]);
      SettledOn(log, Kept(m), size);
      inflightMsgid, inflightLen, inflightQoS := id, length, qos;
      log := log + [Kept(m)];
    }

    /** publish. With QoS 1 or 2 the packet takes the next identifier; when the session is not a
        clean one, the packet is kept before it is sent, and after a success it is no longer in flight
        exactly if the acknowledgement that was taken has its identifier. */
    method Publish(topic: bytes, payload: bytes, qos: nat, retained: bool, idIn: nat) returns (rc: int, id: nat)
      requires Valid() && qos <= 2 && idIn <= MAX_PACKET_ID
      modifies this`log, this`pingOutstanding, this`isconnected, this`inflightMsgid, this`inflightQoS,
               this`inflightLen, this`nextId, wire, sendbuf, pubbuf, readbuf, source, clock, table.slots
      ensures Valid()
      ensures isconnected ==> old(isconnected)
      ensures qos > 0 && old(isconnected) ==> id == nextId == NextPacketId(old(nextId))
      ensures var m := P.Message(0, qos, if retained then 1 else 0, id, topic, payload);
              if !old(isconnected) || PacketLen(|P.PublishBody(m)|) > size then
                rc == FAILURE && log == old(log)
              else
                && Published(m, old(log), log, !old(cleansession), rc, readbuf[..], Fixed())
                && (rc == SUCCESS && qos > 0 && !old(cleansession) ==> TakenFor(m, log))
                && (old(Served()) && qos == 0 ==> rc == SUCCESS)
                && ((qos == 1 && old(Coming(PUBACK))) || (qos == 2 && old(Coming(PUBCOMP))) ==>
                      && CutOffTo(old(source.stream), source.stream, readbuf[..])
                      && (rc == SUCCESS <==> !NoAck(readbuf[..]))
                      && (rc == SUCCESS && keepAliveInterval == 0 ==>
                            AtOnce(old(log) + if old(cleansession) then [] else [Kept(m)], log, P.PublishBytes(m),
                                   Taken(old(source.stream), source.stream), readbuf[..], 1)))
    {
      hide Tracks, Open, InFlight, P.PublishBytes, P.PublishBody, PacketLen, Transferred, TakenFor;
      hide Settled, Heard, Up, Asked, AtOnce, CutOffTo, Taken, Begins, PacketType, NoAck;
      rc, id := FAILURE, idIn;
      if !isconnected {
        return;
      }
      if qos == 1 || qos == 2 {
        nextId := NextPacketId(nextId);
        id := nextId;
      }
      ghost var m := P.Message(0, qos, if retained then 1 else 0, id, topic, payload);
      var len := P.SerializePublish(sendbuf, size, 0, qos, if retained then 1 else 0, id, CString(topic), payload);
      if len <= 0 {
        return;
      }
      PutFirst(old(sendbuf[..]), P.PublishBytes(m));
      PublishType(m);
      assert sendbuf[0] == sendbuf[..len][0];
      ghost var before, keeps := log, !cleansession;
      if !cleansession {
        Keep(m, id, len, qos);
      }
      assert log == before + if keeps then [Kept(m)] else [];
      KeptIs(before, m);
      rc := PublishPacket(len, qos);
    }

    /** A CONNACK is waited for; the result is its code. */
    method AwaitConnack() returns (rc: int)
      requires Valid() && !isconnected
      modifies this`log, this`pingOutstanding, this`isconnected, this`inflightMsgid, this`inflightQoS,
               wire, sendbuf, readbuf, source, clock, table.slots
      ensures Valid() && !isconnected && InFlight(log) == InFlight(old(log)) && Asked(log) == Asked(old(log))
      ensures AnswerAwaited(old(log), Hand(true, log, rc, readbuf[..]), Fixed())
      ensures rc == SUCCESS ==> LastRead(log).Some? && IsWelcome(LastRead(log).value)
      ensures old(Coming(CONNACK)) ==>
                && CutOffTo(old(source.stream), source.stream, readbuf[..])
                && Framed(readbuf[..], 2) && rc == CodeIn(readbuf[..])
                && (keepAliveInterval == 0 ==>
                      log == old(log) + [Received(Taken(old(source.stream), source.stream), Some(readbuf[..]))])
    {
      hide Tracks, Open, InFlight, Field, Grew, Framed, Settled, Heard, Up, LastRead, JustRead, Asked, Found, Missed;
      hide Passed, CutOffTo, Taken, Begins, PacketType, ReadNext;
      ghost var now, stream, due := log, source.stream, Coming(CONNACK);
      ghost var pass;
      var answer;
      answer, pass := WaitFor(CONNACK);
      if due {
        NextPlain(stream, source.stream, now, log, readbuf[..], answer, pass, Fixed());
      }
      GrewKeeps(now, log);
      GrewAsked(now, log, false);
      rc := FAILURE;
      if answer == CONNACK {
        FramedLess(readbuf[..]);
        var done, _, code := C.DeserializeConnack(readbuf);
        if done == 1 {
          rc := code;
        }
        assert readbuf[..][1..] == readbuf[1..];
        assert rc == CodeIn(readbuf[..]);
      }
    }

    /** The CONNECT packet goes out, and its answer is waited for. A packet that is too large is not even
        handed over. */
    method Handshake(options: C.Options) returns (rc: int, sent: bool, ghost hand: Hand)
      requires Valid() && !isconnected
      requires options.WellFormed() && (options.version == 3 || options.version == 4)
      modifies this`log, this`pingOutstanding, this`isconnected, this`inflightMsgid, this`inflightQoS,
               wire, sendbuf, readbuf, source, clock, table.slots
      ensures Valid() && !isconnected && InFlight(log) == InFlight(old(log))
      ensures hand == Hand(sent, log, rc, readbuf[..])
      ensures if PacketLen(|C.VariableHeader(options) + C.Payload(options)|) > size then
                rc == FAILURE && !sent && log == old(log)
              else
                Greeted(old(log), C.ConnectBytes(options), hand, Fixed()) && (Served() ==> sent)
      ensures (!sent ==> rc == FAILURE) && (sent ==> Asked(log))
      ensures sent && rc == SUCCESS ==> LastRead(log).Some? && IsWelcome(LastRead(log).value)
      ensures old(Coming(CONNACK)) && sent ==>
                && CutOffTo(old(source.stream), source.stream, readbuf[..])
                && Framed(readbuf[..], 2) && rc == CodeIn(readbuf[..])
                && (keepAliveInterval == 0 ==>
                      AtOnce(old(log), log, C.ConnectBytes(options),
                             Taken(old(source.stream), source.stream), readbuf[..], 0))
    {
      hide Tracks, Open, InFlight, P.PublishBytes, C.ConnectBytes, PacketLen, IsWelcome, CodeIn, AnswerAwaited;
      hide Framed, C.VariableHeader, C.Payload, Settled, Heard, Up, LastRead, JustRead, Asked;
      hide AtOnce, CutOffTo, Taken, Begins, PacketType;
      rc, sent := FAILURE, false;
      hand := Hand(false, log, rc, readbuf[..]);
      ghost var before, stream, packet := log, source.stream, C.ConnectBytes(options);
      var len := C.SerializeConnect(sendbuf, size, options);
      if len <= 0 {
        return;
      }
      ConnectFirst(old(sendbuf[..]), options);
      assert sendbuf[0] == sendbuf[..len][0];
      ghost var count;
      rc, count := Send(len);
      ghost var now := log;
      Step(before, Sent(packet, count));
      NoAnswerYet(now, readbuf[..], Fixed());
      if rc == SUCCESS {
        sent := true;
        rc := AwaitConnack();
        SentThen(before, packet, now, log, Taken(stream, source.stream), readbuf[..]);
      }
      hand := Hand(sent, log, rc, readbuf[..]);
    }

    /** The publish in flight goes out again, byte for byte as it was kept. */
    method Resend() returns (rc: int)
      requires Valid() && InFlight(log).Some?
      modifies this`log, this`pingOutstanding, this`isconnected, this`inflightMsgid, this`inflightQoS,
               wire, sendbuf, readbuf, source, clock, table.slots
      ensures Valid() && (rc == SUCCESS || rc == FAILURE)
      ensures isconnected ==> old(isconnected)
      ensures var m := InFlight(old(log)).value;
              Transferred(old(log), log, P.PublishBytes(m), m.qos, rc, readbuf[..], Fixed())
      ensures Asked(log) == Asked(old(log))
      ensures rc == SUCCESS && !old(isconnected && cleansession) ==> Opened(log)
      ensures rc == SUCCESS && InFlight(old(log)).value.qos == 0 ==> InFlight(log) == InFlight(old(log))
      ensures rc == SUCCESS && !old(isconnected && cleansession) && InFlight(old(log)).value.qos > 0 ==>
                TakenFor(InFlight(old(log)).value, log)
    {
      hide Tracks, Open, InFlight, P.PublishBytes, P.PublishBody, Settled, Heard, Up, Asked, Transferred, LastRead;
      hide AtOnce, CutOffTo, Taken, Begins, PacketType, NoAck, TakenFor, TypeOf, Opened;
      TracksSays(log, table.Ids(), pingOutstanding, wire.sent, Held());
      ghost var before, m := log, InFlight(log).value;
      ghost var packet := P.PublishBytes(m);
      PublishType(m);
      var message := pubbuf[..];
      PutFirst(sendbuf[..], message);
      Copy(sendbuf, 0, message);
      assert sendbuf[..inflightLen] == message[..inflightLen] == packet;
      assert sendbuf[0] == packet[0];
      rc := PublishPacket(inflightLen, inflightQoS);
      if rc == SUCCESS && !old(isconnected && cleansession) {
        ResendOpens(before, log, m, readbuf[..], Fixed());
      }
    }

    /** connect. Success means that a connection begins. With nothing in flight it is exactly a CONNACK
        with code 0 that was read; with a publish in flight it is exactly the success of transferring
        that again, whatever the CONNACK says, if there is one at all. */
    method Connect(options: C.Options) returns (rc: int, ghost hand: Hand)
      requires Valid() && options.WellFormed() && (options.version == 3 || options.version == 4)
      modifies this`log, this`pingOutstanding, this`isconnected, this`inflightMsgid, this`inflightQoS,
               this`keepAliveInterval, this`cleansession, wire, sendbuf, readbuf, source, clock, table.slots
      ensures Valid() && (isconnected <==> old(isconnected) || rc == SUCCESS)
      ensures !old(isconnected) ==>
                keepAliveInterval == options.keepAlive && cleansession == (options.cleanSession != 0)
      ensures if old(isconnected) || PacketLen(|C.VariableHeader(options) + C.Payload(options)|) > size then
                rc == FAILURE && log == old(log)
              else
                && ConnectedBy(old(log), log, C.ConnectBytes(options), InFlight(old(log)), rc, hand, readbuf[..],
                               Fixed())
                && (Served() ==> hand.sent)
      ensures rc == SUCCESS && InFlight(old(log)).Some? ==>
                var m, ended := InFlight(old(log)).value, log[..|log| - 1];
                InFlight(log) == InFlight(ended) && if m.qos > 0 then TakenFor(m, ended) else InFlight(log) == Some(m)
      ensures old(!isconnected && Coming(CONNACK)) && InFlight(old(log)).None? && hand.sent ==>
                && CutOffTo(old(source.stream), source.stream, readbuf[..])
                && Framed(readbuf[..], 2) && rc == CodeIn(readbuf[..])
                && (options.keepAlive == 0 ==>
                      AtOnce(old(log), log, C.ConnectBytes(options), Taken(old(source.stream), source.stream),
                             readbuf[..], if rc == SUCCESS then 1 else 0))
    {
      hide Tracks, Open, InFlight, P.PublishBytes, C.ConnectBytes, Settled, Heard, Up, Transferred, Greeted;
      hide Asked, PacketLen, LastRead, IsWelcome, C.VariableHeader, C.Payload, TakenFor;
      hide AtOnce, CutOffTo, Taken, Begins, PacketType, CodeIn, Framed;
      rc := FAILURE;
      hand := Hand(false, log, rc, []);
      if isconnected {
        return;
      }
      keepAliveInterval := options.keepAlive;
      cleansession := options.cleanSession != 0;
      ghost var before, stream := log, source.stream;
      var sent;
      rc, sent, hand := Handshake(options);
      if !sent {
        return;
      }
      TracksWhich(log, table.Ids(), pingOutstanding, wire.sent, Held());
      if inflightMsgid > 0 {
        rc := Resend();
      }
      if rc == SUCCESS {
        ghost var ended := log;
        Begin();
        BeginKeeps(ended);
        assert log[..|log| - 1] == ended;
        AtOnceMore(before, ended, C.ConnectBytes(options), Taken(stream, source.stream), readbuf[..], Connected);
      }
    }

    /** The end of a successful connect. */
    method Begin()
      requires Valid() && Asked(log) && Opened(log)
      modifies this`log, this`pingOutstanding, this`isconnected
      ensures Valid() && isconnected && pingOutstanding == 0 && log == old(log) + [Connected]
    {
      hide Tracks, Open, InFlight, Settled, Heard, Up, Asked, Opened;
      TracksMark(log, table.Ids(), pingOutstanding, wire.sent, Held(), Connected);
      SettledOn(log, Connected, size);
      isconnected := true;
      pingOutstanding := 0;
      log := log + [Connected];
    }

    /** disconnect. */
    method Disconnect() returns (rc: int)
      requires Valid()
      modifies this`log, this`pingOutstanding, this`isconnected, this`inflightMsgid, this`inflightQoS,
               wire, sendbuf, table.slots
      ensures Valid() && !isconnected
      ensures |log| > |old(log)| && old(log) <= log
      ensures var e := log[|old(log)|];
              && e.Sent? && e.packet == C.ZeroBytes(DISCONNECT) && (rc == SUCCESS <==> e.count == 2)
              && (Served() ==> rc == SUCCESS)
              && log == old(log) + [e] + Closing(cleansession)
    {
      hide Tracks, Open, InFlight, P.PublishBytes, Settled, Heard, Up, LastRead, JustRead;
      var len := C.SerializeZero(sendbuf, size, DISCONNECT);
      PutFirst(old(sendbuf[..]), C.ZeroBytes(DISCONNECT));
      C.ZeroOnWire(DISCONNECT);
      assert sendbuf[0] == sendbuf[..2][0];
      ghost var count;
      rc, count := Send(2);
      ghost var now := log;
      CloseSession();
      ClosingQuiet(now, cleansession);
      SettledMore(now, log, size);
      assert log[|old(log)|] == now[|old(log)|];
    }

    /** subscribe and unsubscribe: one topic filter, with the next identifier. `sets` tells whether
        setMessageHandler is called in the end; for subscribe its result, which depends on the handler
        table, becomes the result. An unsubscribe that was answered has lost the connection: cycle
        has no case for UNSUBACK. */
    method Request(kind: nat, topic: bytes, qos: int, signed: bool) returns (rc: int, sets: bool)
      requires Valid() && (kind == SUBSCRIBE || kind == UNSUBSCRIBE)
      modifies this`log, this`pingOutstanding, this`isconnected, this`inflightMsgid, this`inflightQoS,
               this`nextId, wire, sendbuf, readbuf, source, clock, table.slots
      ensures Valid() && (isconnected ==> old(isconnected))
      ensures old(isconnected) ==> nextId == NextPacketId(old(nextId))
      ensures var list := [RequestOf(kind, topic, qos)];
              if !old(isconnected) || PacketLen(2 + |S.Entries(list)|) > size then
                rc == FAILURE && !sets && log == old(log)
              else
                var packet := S.RequestBytes(kind, 0, nextId, list);
                && Requested(old(log), log, packet, kind, signed, rc, sets, readbuf[..], Fixed())
                && (kind == UNSUBSCRIBE && old(Coming(UNSUBACK)) ==> rc == SUCCESS && sets)
                && (kind == SUBSCRIBE && old(Coming(SUBACK)) ==>
                      && CutOffTo(old(source.stream), source.stream, readbuf[..])
                      && Framed(readbuf[..], 2) && (sets <==> Granted(readbuf[..], signed)) && (sets || rc == SUCCESS)
                      && (keepAliveInterval == 0 ==>
                            AtOnce(old(log), log, packet, Taken(old(source.stream), source.stream), readbuf[..], 0)))
      ensures rc == SUCCESS && kind == UNSUBSCRIBE ==> !isconnected
    {
      hide Tracks, Open, InFlight, P.PublishBytes, S.RequestBytes, S.Entries, PacketLen, RequestAnswered;
      hide Settled, Heard, Up, LastRead, JustRead, Granted, Framed, AtOnce, CutOffTo, Taken, Begins, PacketType;
      ghost var before, stream := log, source.stream;
      rc, sets := FAILURE, false;
      if !isconnected {
        return;
      }
      nextId := NextPacketId(nextId);
      var qoss := if kind == SUBSCRIBE then Some([qos]) else None;
      var len := S.SerializeRequest(sendbuf, size, kind, 0, nextId, [CString(topic)], qoss);
      assert S.Requests([CString(topic)], qoss) == [RequestOf(kind, topic, qos)];
      if len <= 0 {
        return;
      }
      ghost var packet := S.RequestBytes(kind, 0, nextId, [RequestOf(kind, topic, qos)]);
      PutFirst(old(sendbuf[..]), packet);
      RequestType(kind, nextId, [RequestOf(kind, topic, qos)]);
      assert sendbuf[0] == sendbuf[..len][0];
      ghost var count;
      rc, count := Send(len);
      if rc != SUCCESS {
        return;
      }
      ghost var now := log;
      rc, sets := AwaitAnswer(kind, signed);
      SentThen(before, packet, now, log, Taken(stream, source.stream), readbuf[..]);
    }

    /** The answer to SUBSCRIBE or UNSUBSCRIBE is waited for. */
    method AwaitAnswer(kind: nat, signed: bool) returns (rc: int, sets: bool)
      requires Valid() && (kind == SUBSCRIBE || kind == UNSUBSCRIBE)
      modifies this`log, this`pingOutstanding, this`isconnected, this`inflightMsgid, this`inflightQoS,
               wire, sendbuf, readbuf, source, clock, table.slots
      ensures Valid() && (isconnected ==> old(isconnected))
      ensures RequestAnswered(old(log), log, kind, signed, rc, sets, readbuf[..], Fixed())
      ensures rc == SUCCESS && kind == UNSUBSCRIBE ==> !isconnected
      ensures kind == UNSUBSCRIBE && old(Coming(UNSUBACK)) ==> rc == SUCCESS && sets
      ensures kind == SUBSCRIBE && old(Coming(SUBACK)) ==>
                && CutOffTo(old(source.stream), source.stream, readbuf[..])
                && Framed(readbuf[..], 2) && (sets <==> Granted(readbuf[..], signed)) && (sets || rc == SUCCESS)
                && (keepAliveInterval == 0 ==>
                      log == old(log) + [Received(Taken(old(source.stream), source.stream), Some(readbuf[..]))])
    {
      hide Tracks, Open, InFlight, P.PublishBytes, Grew, Granted, Framed, Settled, Heard, Up, LastRead, Found, Missed;
      hide Passed, CutOffTo, Taken, Begins, PacketType, ReadNext;
      ghost var now, stream := log, source.stream;
      rc, sets := SUCCESS, false;
      var wanted := if kind == SUBSCRIBE then SUBACK else UNSUBACK;
      ghost var pass;
      var answer;
      answer, pass := WaitFor(wanted);
      if kind == SUBSCRIBE && old(Coming(SUBACK)) {
        NextPlain(stream, source.stream, now, log, readbuf[..], answer, pass, Fixed());
      }
      if answer != wanted {
        rc := FAILURE;
      } else if kind == UNSUBSCRIBE {
        sets := true;
      } else {
        sets := TakeSuback(signed);
        if sets {
          rc :| rc == SUCCESS || rc == FAILURE;
        }
      }
    }

    /** Whether the SUBACK in the buffer makes subscribe register the handler. */
    method TakeSuback(signed: bool) returns (sets: bool)
      requires Framed(readbuf[..], 2) && TypeOf(readbuf[0]) == SUBACK
      ensures sets <==> Granted(readbuf[..], signed)
    {
      hide Field, Value, IsField, S.QosValues;
      FramedLess(readbuf[..]);
      var done, packetid, granted := S.DeserializeSuback(readbuf, 1, signed);
      var grantedQoS := if granted == [] then 0 else granted[0];
      sets := done == 1 && grantedQoS != 0x80;
      assert readbuf[..][1..] == readbuf[1..];
    }

    /** yield: cycles until the timer expires or one fails. */
    method Yield() returns (rc: int)
      requires Valid()
      modifies this`log, this`pingOutstanding, this`isconnected, this`inflightMsgid, this`inflightQoS,
               wire, sendbuf, readbuf, source, clock, table.slots
      ensures Valid() && Grew(old(log), log, old(isconnected && cleansession))
      ensures clock.patient ==> |log| > |old(log)|
      ensures if rc == SUCCESS then TimedOut(old(log), log, ANY, Fixed())
              else rc == FAILURE && !isconnected && Failed(old(log), log, ANY, Fixed())
    {
      hide Tracks, Open, InFlight, P.PublishBytes, Framed, Settled, Heard, Up, LastRead, Passed, Skips, Failed;
      rc := SUCCESS;
      var timer := clock.Start();
      ghost var may, n, start := isconnected && cleansession, 0, log;
      SkipsNothing(log, ANY, Fixed());
      while timer > 0
        invariant Valid() && Grew(start, log, may) && Skips(start, log, n, ANY, Fixed())
        invariant isconnected ==> old(isconnected)
        invariant |log| > |start| || (timer > 0 && log == start) || !clock.patient
        decreases timer
      {
        timer := timer - 1;
        ghost var now, clears, s := log, isconnected && cleansession, source.stream;
        var got;
        ghost var pass;
        got, pass := Cycle();
        SkipsMore(start, now, log, n, ANY, got, Taken(s, source.stream), readbuf[..], pass, Fixed());
        n := n + 1;
        GrewWeaken(now, log, clears, may);
        GrewMore(start, now, log, may);
        if got < 0 {
          return FAILURE;
        }
      }
    }
  }

  lemma ConnectFirst(s: bytes, o: C.Options)
    requires |C.ConnectBytes(o)| <= |s|
    ensures Put(s, 0, C.ConnectBytes(o))[..|C.ConnectBytes(o)|] == C.ConnectBytes(o)
    ensures C.ConnectBytes(o) != [] && TypeOf(C.ConnectBytes(o)[0]) == CONNECT
  {
    hide C.VariableHeader, C.Payload, Packet, Header, TypeOf;
    PutFirst(s, C.ConnectBytes(o));
    HeaderFields(CONNECT, 0, 0, 0);
    PacketFirst(Header(CONNECT, 0, 0, 0), C.VariableHeader(o) + C.Payload(o));
  }

  lemma RequestType(kind: nat, id: nat, list: seq<S.Request>)
    requires kind == SUBSCRIBE || kind == UNSUBSCRIBE
    ensures S.RequestBytes(kind, 0, id, list) != [] && TypeOf(S.RequestBytes(kind, 0, id, list)[0]) == kind
  {
    hide S.Entries, Packet, U16, Header, TypeOf;
    HeaderFields(kind, 0, 1, 0);
    PacketFirst(Header(kind, 0, 1, 0), U16(id) + S.Entries(list));
  }

  lemma PutFirst(s: bytes, x: bytes)
    requires |x| <= |s|
    ensures Put(s, 0, x)[..|x|] == x
  {
  }

  lemma PingFirst(s: bytes, s': bytes)
    requires |s| >= 2 && |C.ZeroBytes(PINGREQ)| == 2 && s' == Put(s, 0, C.ZeroBytes(PINGREQ))
    ensures s'[..2] == PingBytes() && |PingBytes()| == 2
  {
  }

  /** A call of cycle cut the next packet off the stream, and had that result. */
  ghost predicate ReadNext(s: bytes, rest: bytes, before: Log, after: Log, buf: bytes, rc: int, pass: Pass,
                           setup: Setup) {
    CutOffTo(s, rest, buf) && Passed(before, after, Taken(s, rest), buf, rc, pass, setup)
  }

  lemma ReadNextBy(s: bytes, rest: bytes, before: Log, after: Log, buf: bytes, rc: int, pass: Pass, setup: Setup)
    requires Passed(before, after, Taken(s, rest), buf, rc, pass, setup)
    ensures CutOffTo(s, rest, buf) ==> ReadNext(s, rest, before, after, buf, rc, pass, setup)
  {
    hide CutOffTo, Passed, Taken;
  }

  lemma NextPlain(s: bytes, rest: bytes, before: Log, after: Log, buf: bytes, rc: int, pass: Pass, setup: Setup)
    requires ReadNext(s, rest, before, after, buf, rc, pass, setup) && rc in {CONNACK, SUBACK, PUBACK, PUBCOMP}
    ensures CutOffTo(s, rest, buf)
    ensures !pass.expired ==> after == before + [Received(Taken(s, rest), Some(buf))]
  {
    hide CutOffTo, Passed, Taken;
    if !pass.expired {
      PassedPlain(before, after, Taken(s, rest), buf, rc, pass, setup);
    }
  }

  /** What the transfer of the publish in flight does for connect. */
  lemma ResendOpens(before: Log, after: Log, m: P.Message, buf: bytes, setup: Setup)
    requires Transferred(before, after, P.PublishBytes(m), m.qos, SUCCESS, buf, setup) && m.qos <= 2
    requires InFlight(before) == Some(m) && !(Up(before) && setup.clean)
    ensures Opened(after)
  {
    hide Transferred, InFlight, Up, P.PublishBytes, TakenFor, FromAck, IsWelcome, LastRead;
    TransferMeans(before, after, P.PublishBytes(m), m.qos, SUCCESS, buf, setup);
    if m.qos == 0 {
      Step(before, Sent(P.PublishBytes(m), |P.PublishBytes(m)|));
    }
  }

  lemma NoAnswerYet(log: Log, buf: bytes, setup: Setup)
    ensures AnswerAwaited(log, Hand(false, log, FAILURE, buf), setup)
  {
  }

  lemma KeptIs(log: Log, m: P.Message)
    ensures InFlight(log + [Kept(m)]) == if m.id == 0 then None else Some(m)
  {
    Step(log, Kept(m));
  }

  lemma FramedLess(s: bytes)
    requires Framed(s, 2)
    ensures Framed(s, 0)
  {
  }

  /** The result of MQTTDeserialize_publish, in terms of the packet. */
  lemma PublishRefused(s: bytes, log: Log)
    requires Framed(s, 2) && TypeOf(s[0]) == PUBLISH
    requires P.ParsePublish(s).None? && |Field(s[1..])| != 1
    ensures PublishDealt(s, log, log, true)
  {
  }

  lemma PublishTaken(s: bytes, m: P.Found, id: nat)
    requires Framed(s, 2) && TypeOf(s[0]) == PUBLISH && m.qos == QosOf(s[0])
    requires m.id.Some? ==> id == m.id.value
    requires match P.ParsePublish(s) case Some(f) => m == f case None => |Field(s[1..])| == 1 && m.id.None?
    ensures FromPublish(s, m, id)
  {
  }

  lemma PublishDone(s: bytes, m: P.Found, id: nat, count: nat, before: Log, after: Log, full: bool)
    requires Framed(s, 2) && FromPublish(s, m, id) && (full <==> FullAnswer(m, count))
    requires PublishAnswered(m, id, count, before, after)
    ensures PublishDealt(s, before, after, full)
  {
    hide P.ParsePublish, PublishAnswered, FullAnswer;
  }

  lemma AckRefused(s: bytes, kind: nat, log: Log)
    requires Framed(s, 2) && P.ParseAck(s).None? && |Field(s[1..])| != 1
    ensures AckDealt(s, kind, log, log, false)
  {
  }

  lemma AckTaken(s: bytes, kind: nat, id: nat)
    requires Framed(s, 2) && TypeOf(s[0]) == kind
    requires match P.ParseAck(s) case Some(f) => id == f case None => |Field(s[1..])| == 1
    ensures FromAck(s, kind, id)
  {
  }

  lemma AckDone(s: bytes, kind: nat, id: nat, count: nat, before: Log, after: Log, full: bool)
    requires Framed(s, 2) && FromAck(s, kind, id) && (full <==> count == 4)
    requires AckAnswered(kind, id, count, before, after)
    ensures AckDealt(s, kind, before, after, full)
  {
    hide AckAnswered, BodyEnd;
  }
}
