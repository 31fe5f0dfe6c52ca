/**
 CONNECT and CONNACK, and the packets without a body (sections 3.1, 3.2, 3.12 and 3.14 of
 MQTT 3.1.1).
 */
module ConnectCodec {
  import opened Bytes
  import opened RemainingLength
  import opened Framing
  import opened Fields

  datatype Will = Will(qos: nat, retained: nat, topic: MQTTString, message: MQTTString)

  /** MQTTPacket_connectData; the will counts only when `will` is present (willFlag). */
  datatype Options = Options(version: nat, clientID: MQTTString, keepAlive: nat, cleanSession: nat,
                             will: Option<Will>, username: MQTTString, password: MQTTString)
  {
    predicate WellFormed() {
      && clientID.WellFormed() && username.WellFormed() && password.WellFormed()
      && (will.Some? ==> will.value.topic.WellFormed() && will.value.message.WellFormed())
    }

    /** Numbers in the ranges of their fields, and strings two bytes can measure. */
    predicate InRange() {
      && keepAlive < 65536 && cleanSession < 2
      && |clientID.Text()| < 65536 && |username.Text()| < 65536 && |password.Text()| < 65536
      && (will.Some? ==>
            && will.value.qos < 4 && will.value.retained < 2
            && |will.value.topic.Text()| < 65536 && |will.value.message.Text()| < 65536)
    }

    /** Credentials the deserializer takes: a password only with a user name, a password that is
        not empty, and a user name that is not empty unless a password follows it. */
    predicate AcceptedCredentials() {
      && (password.Given() ==> username.Given() && password.Text() != [])
      && (username.Given() && !password.Given() ==> username.Text() != [])
    }
  }

  /** The connect flags byte, from its bit fields upwards of the unused bit 0. */
  function Pack(clean: nat, will: nat, qos: nat, retain: nat, password: nat, username: nat): byte
    requires clean < 2 && will < 2 && qos < 4 && retain < 2 && password < 2 && username < 2
  {
    clean * 2 + will * 4 + qos * 8 + retain * 32 + password * 64 + username * 128
  }

  function Flags(o: Options): byte {
    var w := o.will;
    Pack(o.cleanSession % 2,
         if w.Some? then 1 else 0,
         if w.Some? then w.value.qos % 4 else 0,
         if w.Some? then w.value.retained % 2 else 0,
         if o.password.Given() then 1 else 0,
         if o.username.Given() then 1 else 0)
  }

  lemma Unpack(c: nat, w: nat, q: nat, r: nat, p: nat, u: nat)
    requires c < 2 && w < 2 && q < 4 && r < 2 && p < 2 && u < 2
    ensures var f := Pack(c, w, q, r, p, u);
            && f / 2 % 2 == c && f / 4 % 2 == w && f / 8 % 4 == q && f / 32 % 2 == r
            && f / 64 % 2 == p && f / 128 == u
  {
    var f := Pack(c, w, q, r, p, u);
    assert f / 64 == p + 2 * u;
    assert f / 32 == r + 2 * (f / 64);
    assert f / 8 == q + 4 * (f / 32);
    assert f / 4 == w + 2 * (f / 8);
    assert f / 2 == c + 2 * (f / 4);
  }

  lemma FlagBits(o: Options)
    requires o.InRange()
    ensures var f := Flags(o);
            && f / 2 % 2 == o.cleanSession
            && (f / 4 % 2 == if o.will.Some? then 1 else 0)
            && (o.will.Some? ==> f / 8 % 4 == o.will.value.qos && f / 32 % 2 == o.will.value.retained)
            && (f / 64 % 2 == if o.password.Given() then 1 else 0)
            && (f / 128 == if o.username.Given() then 1 else 0)
  {
    hide Pack;
    var w := o.will;
    if w.Some? {
      Small(w.value.qos, w.value.retained);
    }
    Small(0, o.cleanSession);
    Unpack(o.cleanSession, if w.Some? then 1 else 0, if w.Some? then w.value.qos else 0,
           if w.Some? then w.value.retained else 0,
           if o.password.Given() then 1 else 0, if o.username.Given() then 1 else 0);
  }

  lemma Small(q: nat, b: nat)
    ensures q < 4 ==> q % 4 == q
    ensures b < 2 ==> b % 2 == b
  {
  }

  const NAME_3: bytes := [77, 81, 73, 115, 100, 112]  // "MQIsdp"
  const NAME_4: bytes := [77, 81, 84, 84]             // "MQTT"

  /** Protocol name, version, flags and keep-alive. */
  function VariableHeader(o: Options): bytes {
    Str(if o.version == 4 then NAME_4 else NAME_3)
    + [if o.version == 4 then 4 else 3] + [Flags(o)] + U16(o.keepAlive)
  }

  function WillPart(w: Option<Will>): bytes {
    if w.Some? then Str(w.value.topic.Text()) + Str(w.value.message.Text()) else []
  }

  function IfGiven(s: MQTTString): bytes {
    if s.Given() then Str(s.Text()) else []
  }

  function Payload(o: Options): bytes {
    Str(o.clientID.Text()) + (WillPart(o.will) + (IfGiven(o.username) + IfGiven(o.password)))
  }

  function ConnectBytes(o: Options): bytes {
    Packet(Header(CONNECT, 0, 0, 0), VariableHeader(o) + Payload(o))
  }

  datatype FoundWill = FoundWill(qos: nat, retained: nat, topic: bytes, message: bytes)

  /** The fields MQTTDeserialize_connect fills in; the version is only checked. */
  datatype Found = Found(clientID: bytes, keepAlive: nat, cleanSession: nat, will: Option<FoundWill>,
                         username: Option<bytes>, password: Option<bytes>)

  function FoundOf(o: Options): Found {
    Found(o.clientID.Text(), o.keepAlive, o.cleanSession,
          if o.will.Some? then
            var w := o.will.value;
            Some(FoundWill(w.qos, w.retained, w.topic.Text(), w.message.Text()))
          else None,
          if o.username.Given() then Some(o.username.Text()) else None,
          if o.password.Given() then Some(o.password.Text()) else None)
  }

  /** MQTTPacket_checkVersion: the name is compared only as far as it goes. */
  predicate CheckVersion(protocol: bytes, version: nat) {
    || (version == 3 && protocol[..Min(6, |protocol|)] == NAME_3[..Min(6, |protocol|)])
    || (version == 4 && protocol[..Min(4, |protocol|)] == NAME_4[..Min(4, |protocol|)])
  }

  function Min(a: nat, b: nat): nat {
    if a < b then a else b
  }

  /** The will topic and message, when the flag announces them. */
  function ParseWill(s: bytes, at: nat, end: nat, flags: byte): Option<(Option<FoundWill>, nat)>
    requires end <= |s|
  {
    if flags / 4 % 2 == 0 then Some((None, at))
    else match ReadString(s, at, end)
      case None => None
      case Some((topic, at1)) =>
        match ReadString(s, at1, end)
        case None => None
        case Some((message, at2)) =>
          Some((Some(FoundWill(flags / 8 % 4, flags / 32 % 2, topic, message)), at2))
  }

  /** A credential needs three bytes at least. */
  function ParseCredential(s: bytes, at: nat, end: nat): Option<(bytes, nat)>
    requires end <= |s|
  {
    if end - at < 3 then None else ReadString(s, at, end)
  }

  /** User name and password; a password without a user name is refused. */
  function ParseCredentials(s: bytes, at: nat, end: nat, flags: byte): Option<(Option<bytes>, Option<bytes>)>
    requires end <= |s|
  {
    if flags / 128 == 0 then (if flags / 64 % 2 == 1 then None else Some((None, None)))
    else match ParseCredential(s, at, end)
      case None => None
      case Some((user, at1)) =>
        if flags / 64 % 2 == 0 then Some((Some(user), None))
        else match ParseCredential(s, at1, end)
          case None => None
          case Some((password, _)) => Some((Some(user), Some(password)))
  }

  /** What follows the protocol name and version. */
  function ParseRest(s: bytes, at: nat, end: nat): Option<Found>
    requires end <= |s| && at + 3 <= |s|
  {
    var flags := s[at];
    match ReadString(s, at + 3, end)
    case None => None
    case Some((client, at1)) =>
      match ParseWill(s, at1, end, flags)
      case None => None
      case Some((will, at2)) =>
        match ParseCredentials(s, at2, end, flags)
        case None => None
        case Some((user, password)) =>
          Some(Found(client, ReadInt(s, at + 1), flags / 2 % 2, will, user, password))
  }

  /** MQTTDeserialize_connect on a buffer holding a packet of `len` bytes. */
  function ParseConnect(s: bytes, len: nat): Option<Found>
    requires Framed(s, 0) && len + 4 <= |s| && BodyStart(s) + 2 <= |s|
  {
    if TypeOf(s[0]) != CONNECT then None
    else match ReadString(s, BodyStart(s), len)
      case None => None
      case Some((protocol, at)) =>
        if CheckVersion(protocol, s[at]) then ParseRest(s, at + 1, len) else None
  }

  /** CONNECT round trip, exactly: for versions 3 and 4 and every combination of will, user name
      and password, all fields come back through the flag byte if the credentials are of the
      accepted shape, and the packet is refused if they are not. */
  lemma ConnectRoundTrip(s: bytes, o: Options)
    requires o.InRange() && (o.version == 3 || o.version == 4)
    requires |VariableHeader(o) + Payload(o)| <= MAX_VALUE
    requires Holds(s, 0, ConnectBytes(o)) && |ConnectBytes(o)| + 4 <= |s|
    ensures Framed(s, 4) && BodyEnd(s) == |ConnectBytes(o)|
    ensures ParseConnect(s, |ConnectBytes(o)|) == if o.AcceptedCredentials() then Some(FoundOf(o)) else None
  {
    hide Encode, Field, Value, IsField, Packet, Holds, Header, TypeOf, Str, U16, ReadString, ReadInt, Flags;
    hide ParseRest, CheckVersion, Payload, FoundOf;
    var h, body, end := Header(CONNECT, 0, 0, 0), VariableHeader(o) + Payload(o), |ConnectBytes(o)|;
    HeaderFields(CONNECT, 0, 0, 0);
    PacketParts(s, h, body);
    PacketTotal(h, body);
    var at := BodyStart(s);
    HoldsSplit(s, at, VariableHeader(o), Payload(o));
    var name, version := if o.version == 4 then NAME_4 else NAME_3, if o.version == 4 then 4 else 3;
    HoldsSplit(s, at, Str(name) + [version] + [Flags(o)], U16(o.keepAlive));
    HoldsSplit(s, at, Str(name) + [version], [Flags(o)]);
    HoldsSplit(s, at, Str(name), [version]);
    U16Size(o.keepAlive);
    StringRoundTrip(s, at, end, name);
    NamesChecked();
    var next := at + |Str(name)|;
    HoldsByte(s, next, version);
    HoldsByte(s, next + 1, Flags(o));
    IntRoundTrip(s, next + 2, o.keepAlive);
    RestRoundTrip(s, next + 1, o);
  }

  lemma PacketTotal(h: byte, body: bytes)
    ensures |Packet(h, body)| == 1 + |Encode(|body|)| + |body|
  {
  }

  lemma HoldsByte(s: bytes, at: nat, b: byte)
    requires Holds(s, at, [b])
    ensures at < |s| && s[at] == b
  {
    assert s[at..at + 1][0] == [b][0];
  }

  lemma NamesChecked()
    ensures CheckVersion(NAME_3, 3) && CheckVersion(NAME_4, 4)
  {
  }

  lemma RestRoundTrip(s: bytes, at: nat, o: Options)
    requires o.InRange() && at + 3 + |Payload(o)| <= |s|
    requires s[at] == Flags(o) && ReadInt(s, at + 1) == o.keepAlive && Holds(s, at + 3, Payload(o))
    ensures ParseRest(s, at, at + 3 + |Payload(o)|) == if o.AcceptedCredentials() then Some(FoundOf(o)) else None
  {
    hide Holds, Str, ReadString, ReadInt, Flags, ParseWill, ParseCredentials, WillPart, IfGiven;
    var end, client := at + 3 + |Payload(o)|, Str(o.clientID.Text());
    var credentials := IfGiven(o.username) + IfGiven(o.password);
    FlagBits(o);
    HoldsSplit(s, at + 3, client, WillPart(o.will) + credentials);
    StringRoundTrip(s, at + 3, end, o.clientID.Text());
    var at1 := at + 3 + |client|;
    HoldsSplit(s, at1, WillPart(o.will), credentials);
    WillRoundTrip(s, at1, end, o);
    CredentialsRoundTrip(s, at1 + |WillPart(o.will)|, o);
  }

  lemma WillRoundTrip(s: bytes, at: nat, end: nat, o: Options)
    requires o.InRange() && Holds(s, at, WillPart(o.will)) && at + |WillPart(o.will)| <= end <= |s|
    ensures ParseWill(s, at, end, Flags(o)) == Some((FoundOf(o).will, at + |WillPart(o.will)|))
  {
    hide Holds, Str, ReadString, Flags;
    FlagBits(o);
    if o.will.Some? {
      var w := o.will.value;
      HoldsSplit(s, at, Str(w.topic.Text()), Str(w.message.Text()));
      StringRoundTrip(s, at, end, w.topic.Text());
      StringRoundTrip(s, at + |Str(w.topic.Text())|, end, w.message.Text());
    }
  }

  lemma CredentialsRoundTrip(s: bytes, at: nat, o: Options)
    requires o.InRange() && Holds(s, at, IfGiven(o.username) + IfGiven(o.password))
    ensures at + |IfGiven(o.username) + IfGiven(o.password)| <= |s|
    ensures ParseCredentials(s, at, at + |IfGiven(o.username) + IfGiven(o.password)|, Flags(o)) ==
            if o.AcceptedCredentials() then Some((FoundOf(o).username, FoundOf(o).password)) else None
  {
    hide Holds, ReadString, Flags, U16;
    HoldsSlice(s, at, IfGiven(o.username) + IfGiven(o.password));
    FlagBits(o);
    U16Size(|o.username.Text()|);
    U16Size(|o.password.Text()|);
    var user, end := IfGiven(o.username), at + |IfGiven(o.username) + IfGiven(o.password)|;
    HoldsSplit(s, at, user, IfGiven(o.password));
    if o.username.Given() {
      StringRoundTrip(s, at, end, o.username.Text());
    }
    if o.password.Given() {
      StringRoundTrip(s, at + |user|, end, o.password.Text());
    }
  }

  /** MQTTSerialize_connectLength, for the two versions there are. */
  method ConnectLength(o: Options) returns (len: nat)
    requires o.WellFormed() && (o.version == 3 || o.version == 4)
    ensures len == |VariableHeader(o) + Payload(o)|
  {
    hide Flags, U16;
    U16Size(o.keepAlive);
    StrSize(NAME_3);
    StrSize(NAME_4);
    len := if o.version == 3 then 12 else 10;
    len := len + StringSize(o.clientID);
    if o.will.Some? {
      len := len + StringSize(o.will.value.topic) + StringSize(o.will.value.message);
    }
    if o.username.Given() {
      len := len + StringSize(o.username);
    }
    if o.password.Given() {
      len := len + StringSize(o.password);
    }
  }

  function StringSize(x: MQTTString): (n: nat)
    ensures x.WellFormed() ==> n == |Str(x.Text())|
  {
    x.StrLenIsTextLen();
    StrSize(x.Text());
    x.StrLen() + 2
  }

  method WriteVariableHeader(buf: array<byte>, at: nat, o: Options) returns (next: nat)
    requires at + |VariableHeader(o)| <= buf.Length
    modifies buf
    ensures next == at + |VariableHeader(o)|
    ensures buf[..] == Put(old(buf[..]), at, VariableHeader(o))
  {
    hide Put, Str, U16, Flags;
    U16Size(o.keepAlive);
    ghost var before := buf[..];
    var name, version := if o.version == 4 then NAME_4 else NAME_3, if o.version == 4 then 4 else 3;
    next := WriteString(buf, at, CString(name));
    ghost var done := Str(name);
    PutPut(before, at, done, [version]);
    WriteByte(buf, next, version);
    done := done + [version];
    PutPut(before, at, done, [Flags(o)]);
    WriteByte(buf, next + 1, Flags(o));
    done := done + [Flags(o)];
    PutPut(before, at, done, U16(o.keepAlive));
    next := WriteInt(buf, next + 2, o.keepAlive);
  }

  method WriteIfGiven(buf: array<byte>, at: nat, x: MQTTString) returns (next: nat)
    requires at + |IfGiven(x)| <= buf.Length
    modifies buf
    ensures next == at + |IfGiven(x)|
    ensures buf[..] == Put(old(buf[..]), at, IfGiven(x))
  {
    hide Put, Str;
    PutNothing(buf[..], at);
    next := at;
    if x.Given() {
      next := WriteString(buf, at, x);
    }
  }

  method WritePayload(buf: array<byte>, at: nat, o: Options) returns (next: nat)
    requires at + |Payload(o)| <= buf.Length
    modifies buf
    ensures next == at + |Payload(o)|
    ensures buf[..] == Put(old(buf[..]), at, Payload(o))
  {
    hide Put, Str, IfGiven;
    ghost var before := buf[..];
    ghost var user, password := IfGiven(o.username), IfGiven(o.password);
    next := WriteString(buf, at, o.clientID);
    ghost var done := Str(o.clientID.Text());
    if o.will.Some? {
      PutPut(before, at, done, Str(o.will.value.topic.Text()));
      next := WriteString(buf, next, o.will.value.topic);
      done := done + Str(o.will.value.topic.Text());
      PutPut(before, at, done, Str(o.will.value.message.Text()));
      next := WriteString(buf, next, o.will.value.message);
      done := done + Str(o.will.value.message.Text());
    }
    assert done == Str(o.clientID.Text()) + WillPart(o.will);
    assert done + user + password == Payload(o);
    PutPut(before, at, done, user);
    next := WriteIfGiven(buf, next, o.username);
    PutPut(before, at, done + user, password);
    next := WriteIfGiven(buf, next, o.password);
  }

  /** MQTTSerialize_connect. */
  method SerializeConnect(buf: array<byte>, buflen: nat, o: Options) returns (rc: int)
    requires buflen <= buf.Length && buflen <= MAX_PACKET
    requires o.WellFormed() && (o.version == 3 || o.version == 4)
    modifies buf
    ensures var len := |VariableHeader(o) + Payload(o)|;
            if PacketLen(len) > buflen then
              rc == BUFFER_TOO_SHORT && buf[..] == old(buf[..])
            else
              && rc == |ConnectBytes(o)| && 0 < rc <= buflen && len <= MAX_VALUE
              && buf[..] == Put(old(buf[..]), 0, ConnectBytes(o))
  {
    hide Put, Encode, PacketLen, VariableHeader, Payload, Header;
    ghost var before := buf[..];
    var remLen := ConnectLength(o);
    if PacketLen(remLen) > buflen {
      return BUFFER_TOO_SHORT;
    }
    ghost var h, v, p := Header(CONNECT, 0, 0, 0), VariableHeader(o), Payload(o);
    PacketSize(h, v + p);
    var ptr := WriteHeader(buf, Header(CONNECT, 0, 0, 0), remLen);
    ghost var done := [h] + Encode(remLen);
    PutPut(before, 0, done, v);
    ptr := WriteVariableHeader(buf, ptr, o);
    PutPut(before, 0, done + v, p);
    ptr := WritePayload(buf, ptr, o);
    assert done + v + p == ConnectBytes(o);
    rc := ptr;
  }

  /** MQTTDeserialize_connect: 1 with all the fields, or 0. */
  method DeserializeConnect(buf: array<byte>, len: nat) returns (rc: int, data: Found)
    requires Framed(buf[..], 0) && len + 4 <= buf.Length && BodyStart(buf[..]) + 2 <= buf.Length
    ensures match ParseConnect(buf[..], len)
            case Some(found) => rc == 1 && data == found
            case None => rc == 0
  {
    hide Field, Value, IsField, ReadString, CheckVersion, ParseCredentials;
    rc, data := 0, Found([], 0, 0, None, None, None);
    if TypeOf(buf[0]) != CONNECT {
      return;
    }
    var _, at, _ := ReadHeader(buf);
    var ok, protocol;
    ok, protocol, at := ReadStringFrom(buf, at, len);
    if !ok || !CheckVersion(protocol, buf[at]) {
      return;
    }
    at := at + 1;
    var flags := buf[at];
    var client, user, password;
    var keepAlive := 256 * (buf[at + 1] as int) + buf[at + 2];
    ok, client, at := ReadStringFrom(buf, at + 3, len);
    if !ok {
      return;
    }
    data := data.(clientID := client, keepAlive := keepAlive, cleanSession := flags / 2 % 2);
    if flags / 4 % 2 == 1 {
      var topic, message;
      ok, topic, at := ReadStringFrom(buf, at, len);
      if !ok {
        return;
      }
      ok, message, at := ReadStringFrom(buf, at, len);
      if !ok {
        return;
      }
      data := data.(will := Some(FoundWill(flags / 8 % 4, flags / 32 % 2, topic, message)));
    }
    ok, user, password := ReadCredentials(buf, at, len, flags);
    if !ok {
      return;
    }
    data := data.(username := user, password := password);
    rc := 1;
  }

  /** The last part: user name and password, as the flags announce them. */
  method ReadCredentials(buf: array<byte>, from: nat, len: nat, flags: byte)
    returns (ok: bool, user: Option<bytes>, password: Option<bytes>)
    requires len <= buf.Length
    ensures ParseCredentials(buf[..], from, len, flags) == if ok then Some((user, password)) else None
  {
    hide ReadString;
    ok, user, password := false, None, None;
    if flags / 128 == 1 {
      if len - from < 3 {
        return;
      }
      var text, at;
      ok, text, at := ReadStringFrom(buf, from, len);
      if !ok {
        return;
      }
      user := Some(text);
      if flags / 64 % 2 == 1 {
        if len - at < 3 {
          return false, user, password;
        }
        ok, text, at := ReadStringFrom(buf, at, len);
        if !ok {
          return;
        }
        password := Some(text);
      }
    } else if flags / 64 % 2 == 1 {
      return;
    }
    ok := true;
  }

  function ConnackBytes(code: nat, sessionPresent: nat): bytes {
    Packet(Header(CONNACK, 0, 0, 0), [LowByte(sessionPresent % 2), LowByte(code)])
  }

  /** The size check of MQTTSerialize_connack is two bytes short. */
  lemma ConnackCheckShort(buflen: nat, code: nat, sessionPresent: nat)
    ensures 2 <= buflen < |ConnackBytes(code, sessionPresent)| <==> buflen == 2 || buflen == 3
  {
    hide Encode, Header;
    EncodeSmall(2);
  }

  /** MQTTSerialize_connack. Because of its size check the caller must offer a buffer that is large
      enough. */
  method SerializeConnack(buf: array<byte>, buflen: nat, code: nat, sessionPresent: nat) returns (rc: int)
    requires buflen <= buf.Length && (buflen >= 2 ==> 4 <= buf.Length)
    modifies buf
    ensures if buflen < 2 then
              rc == BUFFER_TOO_SHORT && buf[..] == old(buf[..])
            else
              && rc == |ConnackBytes(code, sessionPresent)|
              && buf[..] == Put(old(buf[..]), 0, ConnackBytes(code, sessionPresent))
  {
    hide Put;
    if buflen < 2 {
      return BUFFER_TOO_SHORT;
    }
    ghost var before := buf[..];
    var ptr := WriteHeader(buf, Header(CONNACK, 0, 0, 0), 2);
    ghost var done := [Header(CONNACK, 0, 0, 0)] + Encode(2);
    PutPut(before, 0, done, [LowByte(sessionPresent % 2)]);
    WriteByte(buf, ptr, sessionPresent % 2);
    done := done + [LowByte(sessionPresent % 2)];
    PutPut(before, 0, done, [LowByte(code)]);
    WriteByte(buf, ptr + 1, code);
    assert done + [LowByte(code)] == ConnackBytes(code, sessionPresent);
    rc := ptr + 2;
  }

  /** MQTTDeserialize_connack: the session-present flag and the return code. */
  function ParseConnack(s: bytes): Option<(nat, nat)>
    requires Framed(s, 0)
  {
    if BodyEnd(s) - BodyStart(s) < 2 then None else Some((s[BodyStart(s)] % 2, s[BodyStart(s) + 1]))
  }

  lemma ConnackRoundTrip(s: bytes, code: nat, sessionPresent: nat)
    requires code < 256 && sessionPresent < 2 && Holds(s, 0, ConnackBytes(code, sessionPresent))
    ensures Framed(s, 0) && TypeOf(s[0]) == CONNACK && ParseConnack(s) == Some((sessionPresent, code))
  {
    hide Encode, Field, Value, IsField, Packet, Holds, Header, TypeOf;
    HeaderFields(CONNACK, 0, 0, 0);
    var flags, last := [LowByte(sessionPresent % 2)], [LowByte(code)];
    assert [LowByte(sessionPresent % 2), LowByte(code)] == flags + last;
    PacketParts(s, Header(CONNACK, 0, 0, 0), flags + last);
    HoldsSplit(s, BodyStart(s), flags, last);
    HoldsByte(s, BodyStart(s), LowByte(sessionPresent % 2));
    HoldsByte(s, BodyStart(s) + 1, LowByte(code));
  }

  /** MQTTDeserialize_connack; 0 stands for an output that is left alone. */
  method DeserializeConnack(buf: array<byte>) returns (rc: int, sessionPresent: nat, code: nat)
    requires Framed(buf[..], 0)
    ensures TypeOf(buf[0]) != CONNACK ==> rc == 0
    ensures TypeOf(buf[0]) == CONNACK ==>
              match ParseConnack(buf[..])
              case Some((present, c)) => rc == 1 && sessionPresent == present && code == c
              case None => rc == |Field(buf[1..])| && sessionPresent == 0 && code == 0
  {
    hide Field, Value, IsField;
    rc, sessionPresent, code := 0, 0, 0;
    if TypeOf(buf[0]) != CONNACK {
      return;
    }
    var start, end;
    rc, start, end := ReadHeader(buf);
    if end - start < 2 {
      return;
    }
    sessionPresent, code, rc := buf[start] % 2, buf[start + 1], 1;
  }

  function ZeroBytes(kind: nat): bytes {
    Packet(Header(kind, 0, 0, 0), [])
  }

  /** The two bytes of a packet without a body. */
  lemma ZeroOnWire(kind: nat)
    requires kind < 16
    ensures ZeroBytes(kind) == [kind * 16, 0]
  {
    hide Encode;
    EncodeSmall(0);
    assert kind % 16 == kind;
  }

  /** MQTTSerialize_zero, which makes PINGREQ and DISCONNECT. */
  method SerializeZero(buf: array<byte>, buflen: nat, kind: nat) returns (rc: int)
    requires buflen <= buf.Length
    modifies buf
    ensures if buflen < 2 then
              rc == BUFFER_TOO_SHORT && buf[..] == old(buf[..])
            else
              rc == |ZeroBytes(kind)| == 2 && buf[..] == Put(old(buf[..]), 0, ZeroBytes(kind))
  {
    hide Put;
    if buflen < 2 {
      return BUFFER_TOO_SHORT;
    }
    rc := WriteHeader(buf, Header(kind, 0, 0, 0), 0);
    assert [Header(kind, 0, 0, 0)] + Encode(0) == ZeroBytes(kind);
  }
}
