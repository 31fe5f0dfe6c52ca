/**
 The two packet readers: MQTTPacket_readnb, which may be handed any fragmentation of the byte
 stream and is called again until a packet is complete, and the blocking MQTTPacket_read.
 */
module Readers {
  import opened Bytes
  import opened RemainingLength
  import opened Framing
  import opened Receive

  const READ_ERROR: int := -1

  /** The transport behind getfn. `stream` holds the bytes still to come; how many of them a
      call yields is arbitrary. `shortReads` counts the calls that yielded fewer than asked. */
  class Channel {
    var stream: bytes
    const faulty: bool
    ghost var shortReads: nat

    constructor (stream: bytes, faulty: bool)
      ensures this.stream == stream && this.faulty == faulty && shortReads == 0
    {
      this.stream, this.faulty, shortReads := stream, faulty, 0;
    }

    /** -1 for an error, 0 for call again, or the number of bytes read. */
    method Get(buf: array<byte>, at: nat, count: nat) returns (frc: int)
      requires at + count <= buf.Length
      modifies this, buf
      ensures READ_ERROR <= frc <= count && frc <= |old(stream)|
      ensures frc == READ_ERROR ==> faulty && stream == old(stream) && buf[..] == old(buf[..])
      ensures frc >= 0 ==> stream == old(stream)[frc..] && buf[..] == Put(old(buf[..]), at, old(stream)[..frc])
      ensures shortReads == old(shortReads) + if frc < count then 1 else 0
    {
      var fails: bool := *;
      if faulty && fails {
        frc := READ_ERROR;
      } else {
        var k: nat :| k <= count && k <= |stream|;
        Copy(buf, at, stream[..k]);
        stream := stream[k..];
        frc := k;
      }
      shortReads := shortReads + if frc < count then 1 else 0;
    }

    /** The same for one byte that does not go into a buffer. */
    method GetByte() returns (frc: int, c: byte)
      modifies this
      ensures READ_ERROR <= frc <= 1 && frc <= |old(stream)|
      ensures frc == READ_ERROR ==> faulty && stream == old(stream)
      ensures frc == 0 ==> stream == old(stream)
      ensures frc == 1 ==> c == old(stream)[0] && stream == old(stream)[1..]
      ensures shortReads == old(shortReads) + if frc < 1 then 1 else 0
    {
      var cell := new byte[1];
      frc := Get(cell, 0, 1);
      c := cell[0];
    }
  }

  /** MQTTTransport. `got` is a ghost: the bytes of the current packet already taken. */
  class Transport {
    const chan: Channel
    var state: int
    var multiplier: nat
    var remLen: nat
    var len: nat
    ghost var got: bytes

    constructor (chan: Channel)
      ensures this.chan == chan && state == 0 && got == []
    {
      this.chan, state, got := chan, 0, [];
      multiplier, remLen, len := 0, 0, 0;
    }

    ghost predicate Idle()
      reads this
    {
      got == [] && state != 1 && state != 2
    }

    /** The length field is being read: `len` bytes of it so far. */
    ghost predicate Measuring()
      reads this
    {
      && state == 1 && |got| >= 1 && AllContinue(got[1..])
      && len == |got| - 1 <= MAX_BYTES
      && (len > 0 ==> remLen == Value(got[1..]) && multiplier == Pow128(len))
    }

    /** The payload is being read: the buffer holds the packet up to index `len`. */
    ghost predicate Filling(buf: bytes, buflen: nat)
      reads this
    {
      && state == 2 && |got| >= 1
      && IsField(Field(got[1..]))
      && StoredSize(Field(got[1..])) == len + remLen <= buflen <= |buf|
      && remLen == 1 + |Field(got[1..])| + Value(Field(got[1..])) - |got|
      && buf[..len] == Stored(got)
    }

    /** The fields, the buffer and the bytes taken agree between two calls. */
    ghost predicate Tracks(buf: bytes, buflen: nat)
      reads this
    {
      || Idle()
      || (Measuring() && InProgress(got) && |buf| >= 1 && buf[0] == got[0])
      || (Filling(buf, buflen) && remLen > 0)
    }

    /** MQTTPacket_decodenb. */
    method DecodeNb() returns (rc: int)
      requires Measuring()
      modifies this, chan
      ensures state == 1 && Suffix(old(chan.stream), chan.stream)
      ensures got == old(got) + Taken(old(chan.stream), chan.stream)
      ensures chan.shortReads >= old(chan.shortReads)
      ensures rc == READ_ERROR || rc == 0 || rc > 0
      ensures rc == READ_ERROR ==> chan.faulty || Overlong(got)
      ensures rc == 0 ==> Measuring() && |got| <= MAX_BYTES && chan.shortReads > old(chan.shortReads)
      ensures rc > 0 ==>
                && JustMeasured(got) && remLen == Value(got[1..])
                && chan.shortReads == old(chan.shortReads)
    {
      hide Value, Pow128, IsField;
      if len == 0 {
        multiplier := 1;
        remLen := 0;
        NoDigits();
        assert got[1..] == [];
      }
      ghost var start := chan.stream;
      assert got + [] == got;
      while true
        invariant Measuring() && remLen == Value(got[1..]) && multiplier == Pow128(len)
        invariant Suffix(start, chan.stream) && got == old(got) + Taken(start, chan.stream)
        invariant chan.shortReads == old(chan.shortReads)
        decreases MAX_BYTES - len
      {
        if len >= MAX_BYTES {
          return READ_ERROR;
        }
        ghost var s := chan.stream;
        var frc, c := chan.GetByte();
        if frc == READ_ERROR {
          return READ_ERROR;
        }
        if frc == 0 {
          return 0;
        }
        TakenMore(start, s, 1);
        DigitStep(got[1..], c, multiplier);
        AddDigit(got, c);
        len := len + 1;
        remLen := remLen + c as int % 128 * multiplier;
        multiplier := multiplier * 128;
        got := got + [c];
        if c < 128 {
          return len;
        }
      }
    }

    /** Case 1 of the switch: finish the length field and put it back into the buffer. */
    method Measure(buf: array<byte>, buflen: nat) returns (rc: int)
      requires 1 + MAX_BYTES <= buf.Length && buflen <= buf.Length
      requires Measuring() && buf[0] == got[0]
      modifies this, chan, buf
      ensures Suffix(old(chan.stream), chan.stream)
      ensures got == old(got) + Taken(old(chan.stream), chan.stream)
      ensures chan.shortReads >= old(chan.shortReads)
      ensures rc == READ_ERROR || rc == 0 || rc == 1
      ensures rc == READ_ERROR ==>
                chan.faulty || Overlong(got) || (JustMeasured(got) && StoredSize(got[1..]) > buflen)
      ensures rc == 0 ==>
                && Measuring() && |got| <= MAX_BYTES && buf[0] == got[0]
                && chan.shortReads > old(chan.shortReads)
      ensures rc == 1 ==> Filling(buf[..], buflen) && chan.shortReads == old(chan.shortReads)
    {
      hide Value, Pow128, IsField, Encode, Field;
      ghost var header := buf[0];
      var frc := DecodeNb();
      if frc == READ_ERROR || frc == 0 {
        return frc;
      }
      FieldOfMeasured(got);
      FieldValueBound(got[1..]);
      EncodeIsField(remLen);
      FieldBounds(Encode(remLen));
      assert |Encode(remLen)| <= MAX_BYTES by { EncodeSize(remLen); }
      var n := EncodeTo(buf, 1, remLen);
      len := 1 + n;
      if remLen + len > buflen {
        return READ_ERROR;
      }
      assert buf[..len] == [header] + Encode(remLen);
      assert got[1 + |got[1..]|..] == [];
      state := 2;
      rc := 1;
    }

    /** Case 2 of the switch: read what is missing of the payload. */
    method Fill(buf: array<byte>, buflen: nat) returns (rc: int)
      requires Filling(buf[..], buflen)
      modifies this, chan, buf
      ensures Suffix(old(chan.stream), chan.stream)
      ensures got == old(got) + Taken(old(chan.stream), chan.stream)
      ensures chan.shortReads >= old(chan.shortReads)
      ensures rc == READ_ERROR ==> chan.faulty
      ensures rc != READ_ERROR ==> Filling(buf[..], buflen)
      ensures rc != READ_ERROR && remLen > 0 ==> rc == 0 && chan.shortReads > old(chan.shortReads)
      ensures rc != READ_ERROR && remLen == 0 ==> rc == PacketType(got)
    {
      hide Value, IsField, Encode, Field, Stored, StoredSize, InProgress;
      ghost var start, s := chan.stream, buf[..];
      assert got + [] == got;
      if remLen > 0 {
        var frc := chan.Get(buf, len, remLen);
        if frc == READ_ERROR {
          return READ_ERROR;
        }
        TakenMore(start, start, frc);
        StoredMore(got, start[..frc]);
        assert buf[..len + frc] == s[..len] + start[..frc];
        got := got + start[..frc];
        remLen := remLen - frc;
        len := len + frc;
        if remLen > 0 {
          return 0;
        }
      }
      StoredFirst(got);
      assert buf[..len][0] == got[0];
      rc := buf[0] / 16;
    }

    /** Cases 1 and 2, entered with at least the header byte taken. */
    method Continue(buf: array<byte>, buflen: nat) returns (rc: int)
      requires 1 + MAX_BYTES <= buf.Length && buflen <= buf.Length
      requires (Measuring() && buf[0] == got[0]) || Filling(buf[..], buflen)
      modifies this, chan, buf
      ensures Suffix(old(chan.stream), chan.stream)
      ensures got == old(got) + Taken(old(chan.stream), chan.stream)
      ensures chan.shortReads >= old(chan.shortReads)
      ensures Outcome(got, rc, buf[..], buflen, chan.faulty, chan.shortReads > old(chan.shortReads))
      ensures rc != READ_ERROR && !IsFrame(got) ==> Tracks(buf[..], buflen) && state != 0
      ensures rc == READ_ERROR || IsFrame(got) ==> state == 0
      ensures rc != READ_ERROR && IsFrame(got) ==> len == |Stored(got)|
    {
      hide Value, Pow128, IsField, Encode, Field;
      ghost var start, got0 := chan.stream, got;
      NoneTaken(got, start);
      if state == 1 {
        rc := Measure(buf, buflen);
        if rc == READ_ERROR {
          state := 0;
          return;
        }
        if rc == 0 {
          MeasuringInProgress(got);
          return;
        }
      }
      ghost var s := chan.stream;
      rc := Fill(buf, buflen);
      TakenTwice(got0, start, s, chan.stream);
      if rc == READ_ERROR {
        state := 0;
        return;
      }
      FillingStatus(got);
      if remLen == 0 {
        state := 0;
      }
    }

    /** MQTTPacket_readnb, against the vocabulary of frames. With `now` the bytes of the current
        packet taken up to the end of this call: a frame is returned the moment it is complete,
        with its bytes in the buffer and none of the next packet taken; an unfinished one is
        remembered; and the call fails only for a channel error, a length field longer than
        four bytes, or a packet that does not fit. */
    method ReadNb(buf: array<byte>, buflen: nat) returns (rc: int)
      requires 1 + MAX_BYTES <= buf.Length && buflen <= buf.Length
      requires Tracks(buf[..], buflen)
      modifies this, chan, buf
      ensures Tracks(buf[..], buflen)
      ensures chan.shortReads >= old(chan.shortReads)
      ensures Suffix(old(chan.stream), chan.stream)
      ensures var now := old(got) + Taken(old(chan.stream), chan.stream);
              && Outcome(now, rc, buf[..], buflen, chan.faulty, chan.shortReads > old(chan.shortReads))
              && got == (if rc == READ_ERROR || IsFrame(now) then [] else now)
              && (rc != READ_ERROR && IsFrame(now) ==> len == |Stored(now)|)
    {
      hide Value, Pow128, IsField, Encode, Field, IsFrame, InProgress, Outcome, Stored, StoredSize;
      ghost var start, got0 := chan.stream, got;
      NoneTaken(got0, start);
      NothingYet(buf[..], buflen);
      if state != 1 && state != 2 {
        state := 0;
        rc := chan.Get(buf, 0, 1);
        if rc == READ_ERROR || rc == 0 {
          assert chan.stream == start;
          NothingYet(buf[..], buflen);
          return;
        }
        got := [start[0]];
        len := 0;
        state := 1;
        assert buf[0] == got[0];
        assert got == got0 + Taken(start, chan.stream);
      }
      ghost var s := chan.stream;
      rc := Continue(buf, buflen);
      TakenTwice(got0, start, s, chan.stream);
      if state == 0 {
        got := [];
      }
    }
  }

  /** A transport that is asked once for the whole of what is wanted; `errors` counts the reads that
      failed. An eager one gives it
      whenever the stream still holds it; otherwise a read may fall short for any reason. */
  class Source {
    var stream: bytes
    const eager: bool
    ghost var errors: nat

    constructor (stream: bytes, eager: bool)
      ensures this.stream == stream && this.eager == eager && errors == 0
    {
      this.stream, this.eager, errors := stream, eager, 0;
    }

    method Get(buf: array<byte>, at: nat, count: nat) returns (n: int)
      requires at + count <= buf.Length
      modifies this, buf
      ensures READ_ERROR <= n <= count && n <= |old(stream)|
      ensures n >= 0 ==> stream == old(stream)[n..] && buf[..] == Put(old(buf[..]), at, old(stream)[..n])
      ensures n == READ_ERROR ==> stream == old(stream) && buf[..] == old(buf[..])
      ensures errors == old(errors) + if n == READ_ERROR then 1 else 0
      ensures eager && count <= |old(stream)| ==> n == count
    {
      if eager && count <= |stream| {
        n := count;
      } else {
        n :| READ_ERROR <= n <= count && n <= |stream|;
      }
      if n >= 0 {
        Copy(buf, at, stream[..n]);
        stream := stream[n..];
      } else {
        errors := errors + 1;
      }
    }

    /** The same for one byte that does not go into a buffer. */
    method GetByte() returns (n: int, c: byte)
      modifies this
      ensures n == 1 ==> old(stream) != [] && c == old(stream)[0] && stream == old(stream)[1..]
      ensures n != 1 ==> stream == old(stream) && (eager ==> stream == [])
    {
      var cell := new byte[1];
      n := Get(cell, 0, 1);
      c := cell[0];
    }

    /** MQTTPacket_decode: takes digits until one ends the field, four have been taken, or a read
        falls short; the value is that of the digits taken, in every case. */
    method Decode() returns (len: nat, value: nat)
      modifies this
      ensures Suffix(old(stream), stream)
      ensures var d := Taken(old(stream), stream);
              && d <= Field(old(stream)) && value == Value(d)
              && len == (if IsField(d) then |d| else |d| + 1)
              && (eager ==> d == Field(old(stream)))
    {
      hide Value, Pow128, Field;
      len, value := 0, 0;
      var multiplier: nat := 1;
      ghost var start, d: bytes := stream, [];
      NoDigits();
      FieldBounds(start);
      while true
        invariant len == |d| <= MAX_BYTES && AllContinue(d)
        invariant Suffix(start, stream) && d == Taken(start, stream) && d <= Field(start)
        invariant value == Value(d) && multiplier == Pow128(len)
        decreases MAX_BYTES - len
      {
        len := len + 1;
        if len > MAX_BYTES {
          FieldIsWhole(start, d);
          return;
        }
        ghost var s := stream;
        var n, c := GetByte();
        if n != 1 {
          FieldCutShort(start, d);
          return;
        }
        assert s[0] == start[|d|] == c;
        FieldExtends(start, d);
        DigitStep(d, c, multiplier);
        TakenMore(start, s, 1);
        d := d + [c];
        value := value + c as int % 128 * multiplier;
        multiplier := multiplier * 128;
        assert d == Taken(start, stream);
        if c < 128 {
          assert IsField(d);
          return;
        }
      }
    }

    /** The first two steps of both blocking readers: the header byte, and the length field, whose value
        is put back into the buffer in minimal form. `d` are the digits it was read from. */
    method Front(buf: array<byte>) returns (rc: int, len: nat, remLen: nat, ghost d: bytes)
      requires 1 + MAX_BYTES <= buf.Length
      modifies this, buf
      ensures READ_ERROR <= rc <= 1
      ensures rc != 1 ==> stream == old(stream) && (eager ==> stream == [])
      ensures rc != 1 ==> (rc == READ_ERROR <==> errors > old(errors))
      ensures rc == 1 ==>
                && old(stream) != [] && old(stream)[1..] == d + stream
                && |d| <= MAX_BYTES && (IsField(d) || AllContinue(d)) && remLen == Value(d)
                && len == 1 + |Encode(remLen)| <= 1 + MAX_BYTES
                && [old(stream)[0]] + Encode(remLen) <= buf[..]
      ensures rc == 1 && eager ==> d == Field(old(stream)[1..])
    {
      hide Value, Encode, Field, IsField, Put;
      ghost var s, b := stream, buf[..];
      len, remLen, d := 0, 0, [];
      rc := Get(buf, 0, 1);
      if rc != 1 {
        return;
      }
      PutFront(b, s[..1]);
      ghost var s1 := stream;
      assert s1 == s[1..] && s[..1] == [s[0]] && [s[0]] <= buf[..];
      len, remLen := Decode();
      d := Taken(s1, stream);
      DigitsTaken(s1, stream);
      EncodeShort(d);
      b := buf[..];
      var n := EncodeTo(buf, 1, remLen);
      PutBehind(b, [s[0]], Encode(remLen));
      len := 1 + n;
    }
  }

  lemma FieldCutShort(s: bytes, d: bytes)
    requires d <= Field(s) && |d| < MAX_BYTES && AllContinue(d)
    ensures d == s ==> d == Field(s)
    ensures !IsField(d)
  {
  }

  /** What a blocking reader cuts off the front of a stream: the header, the length bytes taken,
      and as many bytes as these say. */
  function CutSize(s: bytes): nat
    requires s != []
  {
    1 + |Field(s[1..])| + Value(Field(s[1..]))
  }

  /** The stream begins with what a blocking reader takes for a packet, and that fits a buffer of this
      size. */
  predicate Begins(s: bytes, size: nat) {
    s != [] && |s| >= CutSize(s) && StoredSize(Field(s[1..])) <= size
  }

  /** It has been cut off the stream, and is in the buffer. */
  predicate CutOffTo(s: bytes, rest: bytes, buf: bytes) {
    && s != [] && CutSize(s) <= |s| && rest == s[CutSize(s)..]
    && StoredSize(Field(s[1..])) <= |buf|
    && buf[..StoredSize(Field(s[1..]))] == Stored(s[..CutSize(s)])
  }

  /** A packet with a minimal length field, at the front of a stream, is cut off as it is. */
  lemma FrameAhead(h: byte, body: bytes, rest: bytes, size: nat)
    requires |body| <= MAX_VALUE && 1 + |Encode(|body|)| + |body| <= size
    ensures var f := [h] + Encode(|body|) + body;
            var s := f + rest;
            && Begins(s, size) && PacketType(s) == h as int / 16 && CutSize(s) == |f| && s[..|f|] == f
            && forall later, buf :: CutOffTo(s, later, buf) ==> later == rest && f <= buf
  {
    hide Field, IsField, Value, Encode, Stored;
    var enc := Encode(|body|);
    var f := [h] + enc + body;
    var s := f + rest;
    LengthRoundTrip(|body|, body + rest);
    Split3(h, enc, body + rest);
    assert s == [h] + enc + (body + rest);
    assert s[..|f|] == f && s[|f|..] == rest;
    StoredIsSame(h, body);
  }

  /** MQTTPacket_read, on every stream. From an eager source it fails exactly when the stream ends
      early or the packet does not fit, and otherwise takes one cut off the stream. From any source,
      a result that is not an error means that a header, digits and as many bytes as these say were
      taken and are in the buffer; and what was taken is a frame only if it was not cut short. */
  method ReadBlocking(buf: array<byte>, buflen: nat, src: Source) returns (rc: int)
    requires 1 + MAX_BYTES <= buf.Length && buflen <= buf.Length
    modifies src, buf
    ensures Suffix(old(src.stream), src.stream)
    ensures var taken := Taken(old(src.stream), src.stream);
            && (rc != READ_ERROR ==> taken != [] && rc == PacketType(taken) && Arrived(taken, buf[..]))
            && (IsFrame(taken) && |Stored(taken)| <= buflen ==>
                  rc == PacketType(taken) && buf[..|Stored(taken)|] == Stored(taken))
    ensures src.eager ==>
            var s := old(src.stream);
            if !Begins(s, buflen) then rc == READ_ERROR
            else rc == PacketType(s) && CutOffTo(s, src.stream, buf[..])
  {
    hide Value, Encode, Field, IsField, Stored, IsFrame, Arrived, Put;
    rc := READ_ERROR;
    ghost var s := src.stream;
    var n, len, remLen;
    ghost var d;
    n, len, remLen, d := src.Front(buf);
    if n != 1 {
      NoFrameYet(s);
      return;
    }
    ghost var s2, b, front := src.stream, buf[..], [s[0]] + Encode(remLen);
    if remLen + len > buflen {
      DoesNotFit(s, s2, d, buflen);
      return;
    }
    assert front + s2[..0] == front;
    if remLen != 0 {
      n := src.Get(buf, len, remLen);
      if n != remLen {
        CutShort(s, s2, src.stream, d);
        return;
      }
      PutBehind(b, front, s2[..remLen]);
    }
    WholePacket(s, s2, src.stream, d, buf[..]);
    if src.eager {
      OneCut(s, s2, src.stream, d, buf[..]);
    }
    assert buf[..][0] == s[0];
    rc := buf[0] / 16;
  }

  lemma OneCut(s: bytes, s2: bytes, s3: bytes, d: bytes, buf: bytes)
    requires s != [] && d == Field(s[1..]) && s[1..] == d + s2
    requires Suffix(s, s3) && |s2| - |s3| == Value(d)
    requires [s[0]] + Encode(Value(d)) + s2[..Value(d)] <= buf
    ensures CutOffTo(s, s3, buf)
  {
    hide Value, Encode, Field, IsField, Stored;
    assert s2 == s[1 + |d|..];
    StoredCut(s);
  }

  /** A packet that is too large for the buffer and of which nothing but the digits was taken. */
  lemma DoesNotFit(s: bytes, s2: bytes, d: bytes, buflen: nat)
    requires s != [] && s[1..] == d + s2 && |d| <= MAX_BYTES && (IsField(d) || AllContinue(d))
    requires 1 + |Encode(Value(d))| + Value(d) > buflen
    ensures Suffix(s, s2)
    ensures IsFrame(Taken(s, s2)) ==> |Stored(Taken(s, s2))| > buflen
  {
    hide Encode, Value;
    TakenParts(s, s2, s2, d);
    if IsFrame(Taken(s, s2)) {
      FrameParts(s[0], d, Taken(s2, s2));
    }
  }

  lemma EncodeShort(d: bytes)
    requires |d| <= MAX_BYTES
    ensures |Encode(Value(d))| <= MAX_BYTES
  {
    FieldValueBound(d);
    EncodeSize(Value(d));
  }

  lemma StoredCut(s: bytes)
    requires s != [] && CutSize(s) <= |s|
    ensures var d := Field(s[1..]);
            Stored(s[..CutSize(s)]) == [s[0]] + Encode(Value(d)) + s[1 + |d|..][..Value(d)]
  {
    var d, f := Field(s[1..]), s[..CutSize(s)];
    CutField(s);
    assert f[1 + |d|..] == s[1 + |d|..][..Value(d)];
  }

  lemma CutField(s: bytes)
    requires s != [] && CutSize(s) <= |s|
    ensures Field(s[..CutSize(s)][1..]) == Field(s[1..])
    ensures IsField(Field(s[1..])) ==> IsFrame(s[..CutSize(s)])
  {
    var d, f := Field(s[1..]), s[..CutSize(s)];
    assert f[1..] == d + s[1 + |d|..CutSize(s)];
    TakeFieldStops(s[1..], MAX_BYTES);
    if IsField(d) {
      FieldOfField(d, s[1 + |d|..CutSize(s)]);
    } else {
      FieldOfPrefix(s[1..], f[1..], MAX_BYTES);
    }
  }

  /** The length bytes taken depend on nothing that follows them. */
  lemma {:induction false} FieldOfPrefix(s: bytes, p: bytes, most: nat)
    requires p <= s && TakeField(s, most) <= p
    ensures TakeField(p, most) == TakeField(s, most)
  {
    if most > 0 && p != [] && s[0] >= 128 {
      assert TakeField(s, most)[1..] == TakeField(s[1..], most - 1);
      FieldOfPrefix(s[1..], p[1..], most - 1);
    }
  }

  /** The verdict of one call, on the bytes `now` of the current packet and the buffer. */
  ghost predicate Outcome(now: bytes, rc: int, buf: bytes, buflen: nat, faulty: bool, short: bool) {
    if rc == READ_ERROR then
      faulty || Overlong(now) || (JustMeasured(now) && StoredSize(now[1..]) > buflen)
    else if IsFrame(now) then
      && rc == PacketType(now)
      && |Stored(now)| <= buflen <= |buf| && buf[..|Stored(now)|] == Stored(now)
    else
      rc == 0 && InProgress(now) && short
  }

  lemma NothingYet(buf: bytes, buflen: nat)
    ensures InProgress([]) && !IsFrame([])
    ensures Outcome([], 0, buf, buflen, false, true) && Outcome([], 0, buf, buflen, true, true)
    ensures Outcome([], READ_ERROR, buf, buflen, true, true)
  {
  }

  lemma NoneTaken(got: bytes, s: bytes)
    ensures got + Taken(s, s) == got
  {
  }

  lemma TakenTwice(got: bytes, s0: bytes, s1: bytes, s2: bytes)
    requires Suffix(s0, s1) && Suffix(s1, s2)
    ensures Suffix(s0, s2)
    ensures got + Taken(s0, s1) + Taken(s1, s2) == got + Taken(s0, s2)
  {
    assert Taken(s0, s2) == Taken(s0, s1) + Taken(s1, s2);
  }

  lemma AddDigit(got: bytes, c: byte)
    requires |got| >= 1 && AllContinue(got[1..]) && |got| <= MAX_BYTES
    ensures (got + [c])[1..] == got[1..] + [c]
    ensures c >= 128 ==> AllContinue((got + [c])[1..])
    ensures c < 128 ==> JustMeasured(got + [c])
  {
    var d := (got + [c])[1..];
    assert d == got[1..] + [c];
    assert d[..|d| - 1] == got[1..];
  }

  lemma MeasuringInProgress(got: bytes)
    requires 1 <= |got| <= MAX_BYTES && AllContinue(got[1..])
    ensures InProgress(got) && !IsFrame(got)
  {
    FieldOfContinues(got);
  }

  lemma StoredFirst(got: bytes)
    requires got != []
    ensures Stored(got) != [] && Stored(got)[0] == got[0]
  {
  }

  lemma StoredMore(got: bytes, more: bytes)
    requires |got| >= 1 && IsField(Field(got[1..]))
    ensures Field((got + more)[1..]) == Field(got[1..])
    ensures Stored(got + more) == Stored(got) + more
  {
    hide Field, IsField, Encode, Value;
    FieldStable(got, more);
    FieldBounds(got[1..]);
    var d := Field(got[1..]);
    assert (got + more)[1 + |d|..] == got[1 + |d|..] + more;
  }

  lemma FillingStatus(got: bytes)
    requires |got| >= 1 && IsField(Field(got[1..]))
    ensures |got| == 1 + |Field(got[1..])| + Value(Field(got[1..])) ==> IsFrame(got)
    ensures |got| == 1 + |Field(got[1..])| + Value(Field(got[1..])) ==>
              |Stored(got)| == StoredSize(Field(got[1..]))
    ensures |got| < 1 + |Field(got[1..])| + Value(Field(got[1..])) ==> InProgress(got) && !IsFrame(got)
  {
  }
}
