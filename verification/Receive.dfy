/**
 What readPacket of the client relies on: its decoder may stop in the middle of a length field, and
 still what was taken from the network is a frame only if nothing was cut short.
 */
module Receive {
  import opened Bytes
  import opened RemainingLength
  import opened Framing
  import opened Fields

  /** A prefix of the bytes a reader takes for a length field is complete, or all continuation. */
  lemma DigitsTaken(s: bytes, s': bytes)
    requires Suffix(s, s') && Taken(s, s') <= Field(s)
    ensures var d := Taken(s, s');
            |d| <= MAX_BYTES && (IsField(d) || AllContinue(d)) && s' == s[|d|..] && s == d + s'
  {
    hide Field, IsField;
    FieldBounds(s);
    FieldStops(s);
    PrefixOfField(Taken(s, s'), Field(s));
    assert s == Taken(s, s') + s';
  }

  lemma FieldStops(s: bytes)
    ensures Field(s) != [] ==> AllContinue(Field(s)[..|Field(s)| - 1])
  {
    TakeFieldStops(s, MAX_BYTES);
  }

  lemma PrefixOfField(d: bytes, f: bytes)
    requires d <= f && |f| <= MAX_BYTES && (f != [] ==> AllContinue(f[..|f| - 1]))
    ensures IsField(d) || AllContinue(d)
  {
    if d != [] {
      assert forall k :: 0 <= k < |d| - 1 ==> d[k] == f[..|f| - 1][k];
      assert |d| < |f| ==> d[|d| - 1] == f[..|f| - 1][|d| - 1];
    }
  }

  /** A header byte, the digits `d` and at most as many bytes as they say: that is a frame only if
      the digits are a complete length field and all the bytes are there. */
  lemma FrameParts(h: byte, d: bytes, x: bytes)
    requires |d| <= MAX_BYTES && (IsField(d) || AllContinue(d)) && |x| <= Value(d)
    requires IsFrame([h] + d + x)
    ensures IsField(d) && |x| == Value(d)
    ensures Stored([h] + d + x) == [h] + Encode(Value(d)) + x
  {
    hide Encode, Value;
    Split3(h, d, x);
    if IsField(d) {
      FieldOfField(d, x);
    } else {
      var f := Field(d + x);
      DigitsFirst(d, x);
      assert f == d + f[|d|..];
      ValueGrows(d, f[|d|..]);
    }
  }

  lemma DigitsFirst(d: bytes, x: bytes)
    requires |d| <= MAX_BYTES && AllContinue(d)
    ensures d <= Field(d + x)
  {
    DigitsFirstOf(d, x, MAX_BYTES);
  }

  lemma {:induction false} DigitsFirstOf(d: bytes, x: bytes, most: nat)
    requires |d| <= most && AllContinue(d)
    ensures d <= TakeField(d + x, most)
  {
    if d != [] {
      var t := d[1..];
      assert (d + x)[1..] == t + x && (d + x)[0] == d[0] >= 128;
      DigitsFirstOf(t, x, most - 1);
      ConsPrefix(d[0], t, TakeField(t + x, most - 1));
      assert d == [d[0]] + t;
    }
  }

  lemma ConsPrefix(c: byte, s: bytes, t: bytes)
    requires s <= t
    ensures [c] + s <= [c] + t
  {
  }

  lemma {:induction false} ValueGrows(d: bytes, e: bytes)
    ensures Value(d + e) >= Value(d)
  {
    if d != [] {
      assert (d + e)[1..] == d[1..] + e && (d + e)[0] == d[0];
      ValueGrows(d[1..], e);
    }
  }

  /** The three ways readPacket ends after the length field, on the bytes taken. */
  lemma CutShort(s: bytes, s2: bytes, s3: bytes, d: bytes)
    requires s != [] && s[1..] == d + s2 && |d| <= MAX_BYTES && (IsField(d) || AllContinue(d))
    requires Suffix(s2, s3) && |s2| - |s3| < Value(d)
    ensures Suffix(s, s3) && !IsFrame(Taken(s, s3)) && CutOff(Taken(s, s3))
  {
    TakenParts(s, s2, s3, d);
    assert Parts(Taken(s, s3), d, Taken(s2, s3));
    if IsFrame(Taken(s, s3)) {
      FrameParts(s[0], d, Taken(s2, s3));
    }
  }

  lemma WholePacket(s: bytes, s2: bytes, s3: bytes, d: bytes, buf: bytes)
    requires s != [] && s[1..] == d + s2 && |d| <= MAX_BYTES && (IsField(d) || AllContinue(d))
    requires Suffix(s2, s3) && |s2| - |s3| == Value(d)
    requires [s[0]] + Encode(Value(d)) + s2[..Value(d)] <= buf
    ensures Suffix(s, s3) && PacketType(Taken(s, s3)) == s[0] / 16 && Taken(s, s3) != []
    ensures Arrived(Taken(s, s3), buf)
    ensures IsFrame(Taken(s, s3)) ==> Stored(Taken(s, s3)) <= buf
  {
    hide Encode, Value;
    TakenParts(s, s2, s3, d);
    assert Taken(s2, s3) == s2[..Value(d)];
    assert ArrivedAs(Taken(s, s3), buf, d, Taken(s2, s3));
    if IsFrame(Taken(s, s3)) {
      ArrivedFrame(Taken(s, s3), buf);
    }
  }

  /** A header byte, at most four length digits, and the bytes behind them. */
  predicate Parts(taken: bytes, d: bytes, x: bytes) {
    && |d| <= MAX_BYTES && (IsField(d) || AllContinue(d))
    && taken != [] && taken == [taken[0]] + d + x
  }

  /** As many bytes as the digits say were taken, or fewer, or none because they say too many. The
      digits may have broken off themselves: readPacket does not notice. */
  ghost predicate Whole(taken: bytes) {
    exists d: bytes, x: bytes :: Parts(taken, d, x) && |x| == Value(d)
  }

  ghost predicate CutOff(taken: bytes) {
    exists d: bytes, x: bytes :: Parts(taken, d, x) && |x| < Value(d)
  }

  ghost predicate TooLong(taken: bytes, size: nat) {
    exists d: bytes :: Parts(taken, d, []) && StoredSize(d) > size
  }

  /** The buffer holds the packet made of the bytes taken from the network, with the length digits in
      minimal form. */
  ghost predicate Arrived(taken: bytes, buf: bytes) {
    exists d: bytes, x: bytes :: ArrivedAs(taken, buf, d, x)
  }

  predicate ArrivedAs(taken: bytes, buf: bytes, d: bytes, x: bytes) {
    && Parts(taken, d, x) && |x| == Value(d)
    && [taken[0]] + Encode(Value(d)) + x <= buf
  }

  /** When these bytes are a frame, that is the packet as every reader stores it. */
  lemma ArrivedFrame(taken: bytes, buf: bytes)
    requires Arrived(taken, buf) && IsFrame(taken)
    ensures Stored(taken) <= buf
  {
    hide Encode, Value;
    var d: bytes, x: bytes :| ArrivedAs(taken, buf, d, x);
    FrameParts(taken[0], d, x);
  }

  lemma ArrivedWhole(taken: bytes, buf: bytes)
    requires Arrived(taken, buf)
    ensures taken != [] && Whole(taken)
  {
    hide Encode, Value;
    var d: bytes, x: bytes :| ArrivedAs(taken, buf, d, x);
    assert Parts(taken, d, x);
  }

  /** A header byte with nothing behind it is taken for a packet without a body. */
  lemma HeaderAlone(h: byte)
    ensures Arrived([h], [h, 0, 0, 0]) && Framed([h, 0, 0, 0], 2) && TypeOf([h, 0, 0, 0][0]) == h / 16
    ensures !IsFrame([h])
  {
    hide Field, IsField, Encode;
    NoDigits();
    EncodeSmall(0);
    NoFieldYet();
    var s: bytes := [h, 0, 0, 0];
    SmallField(s[1..]);
    assert [h] + [] + [] == [h] && [h][1..] == [];
    assert Parts([h], [], []);
    assert [h] + [0] + [] <= s;
    assert ArrivedAs([h], s, [], []);
  }

  lemma NoFieldYet()
    ensures !IsField([]) && !IsField(Field([]))
  {
  }

  lemma TooLarge(s: bytes, s2: bytes, d: bytes, size: nat)
    requires s != [] && s[1..] == d + s2 && |d| <= MAX_BYTES && (IsField(d) || AllContinue(d))
    requires Value(d) > 0 && StoredSize(d) > size
    ensures Suffix(s, s2) && !IsFrame(Taken(s, s2)) && TooLong(Taken(s, s2), size)
  {
    hide StoredSize, Value;
    TakenParts(s, s2, s2, d);
    assert Taken(s2, s2) == [] && Parts(Taken(s, s2), d, []);
    assert s2 == s2[0..];
    CutShort(s, s2, s2, d);
  }

  lemma TakenParts(s: bytes, s2: bytes, s3: bytes, d: bytes)
    requires s != [] && s[1..] == d + s2 && Suffix(s2, s3)
    ensures Suffix(s, s3) && Taken(s, s3) == [s[0]] + d + Taken(s2, s3)
  {
    assert s == [s[0]] + (d + s2);
    assert s2 == Taken(s2, s3) + s3;
    assert s == [s[0]] + d + Taken(s2, s3) + s3;
  }

  lemma NoFrameYet(s: bytes)
    ensures !IsFrame(Taken(s, s)) && Taken(s, s) == []
  {
  }

  /** What is stored right behind a prefix of the buffer makes the prefix longer. */
  lemma PutBehind(buf: bytes, x: bytes, y: bytes)
    requires x <= buf && |x| + |y| <= |buf|
    ensures x + y <= Put(buf, |x|, y)
  {
  }

  lemma PutFront(buf: bytes, x: bytes)
    requires |x| <= |buf|
    ensures x <= Put(buf, 0, x)
  {
  }

  /** The buffer of the reader holds a packet. */
  lemma InBuffer(buf: bytes, h: byte, n: nat, x: bytes)
    requires n <= MAX_VALUE && |x| == n && 1 + |Encode(n)| + n + 2 <= |buf|
    requires [h] + Encode(n) + x <= buf
    ensures Framed(buf, 2) && TypeOf(buf[0]) == h / 16
  {
    hide Encode, Field, Value, IsField;
    PacketParts(buf, h, x);
  }
}
