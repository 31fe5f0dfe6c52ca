/**
 The variable-length integer that follows the first byte of every MQTT packet
 (section 2.2.3 of MQTT 3.1.1): base-128 digits, least significant first, with
 the top bit set on every digit but the last.
 */
module RemainingLength {
  import opened Bytes

  const MAX_BYTES: nat := 4
  const MAX_VALUE: nat := 268435455

  /** The digits written for `n`. */
  function Encode(n: nat): (s: bytes)
    ensures |s| >= 1
  {
    if n < 128 then [n] else [128 + n % 128] + Encode(n / 128)
  }

  /** The number a run of digits stands for, whatever their top bits. */
  function Value(d: bytes): nat {
    if d == [] then 0 else d[0] % 128 + 128 * Value(d[1..])
  }

  function Pow128(k: nat): (p: nat)
    ensures p >= 1
  {
    if k == 0 then 1 else 128 * Pow128(k - 1)
  }

  /** Every byte announces another one. */
  predicate AllContinue(d: bytes) {
    forall k :: 0 <= k < |d| ==> d[k] >= 128
  }

  /** A complete length field: one to four bytes, ended by the first byte below 128. */
  predicate IsField(d: bytes) {
    1 <= |d| <= MAX_BYTES && AllContinue(d[..|d| - 1]) && d[|d| - 1] < 128
  }

  /** The bytes a reader takes for the length field from the front of `s`: up to and
      including the first byte below 128, never more than four. */
  function Field(s: bytes): (d: bytes)
    ensures d <= s && |d| <= MAX_BYTES
  {
    TakeField(s, MAX_BYTES)
  }

  function TakeField(s: bytes, most: nat): (d: bytes)
    ensures d <= s && |d| <= most
  {
    if most == 0 || s == [] then []
    else if s[0] < 128 then [s[0]]
    else [s[0]] + TakeField(s[1..], most - 1)
  }

  /** What `Field` stops at: a terminator, four bytes, or the end of the input. */
  lemma {:induction false} TakeFieldStops(s: bytes, most: nat)
    ensures var d := TakeField(s, most);
            && (d != [] ==> AllContinue(d[..|d| - 1]))
            && (AllContinue(d) ==> |d| == most || d == s)
  {
    if most == 0 || s == [] || s[0] < 128 {
    } else {
      TakeFieldStops(s[1..], most - 1);
      var rest := TakeField(s[1..], most - 1);
      var d := TakeField(s, most);
      assert d == [s[0]] + rest;
      if rest != [] {
        assert d[..|d| - 1] == [s[0]] + rest[..|rest| - 1];
      }
      if AllContinue(d) {
        assert forall k :: 0 <= k < |rest| ==> rest[k] == d[k + 1];
      }
    }
  }

  /** Length fields are prefix-free: whatever follows one, exactly it is taken. */
  lemma {:induction false} FieldOfField(d: bytes, rest: bytes)
    requires IsField(d)
    ensures Field(d + rest) == d
  {
    TakeFieldOfField(d, rest, MAX_BYTES);
  }

  lemma {:induction false} TakeFieldOfField(d: bytes, rest: bytes, most: nat)
    requires 1 <= |d| <= most && AllContinue(d[..|d| - 1]) && d[|d| - 1] < 128
    ensures TakeField(d + rest, most) == d
  {
    if |d| > 1 {
      assert (d + rest)[1..] == d[1..] + rest;
      assert d[1..][..|d| - 2] == d[..|d| - 1][1..];
      assert d[0] == d[..|d| - 1][0];
      TakeFieldOfField(d[1..], rest, most - 1);
    }
  }

  /** A run of continuation bytes is never a complete field, and neither is an empty input. */
  lemma FieldOfContinue(d: bytes)
    requires AllContinue(d) && |d| <= MAX_BYTES
    ensures Field(d) == d && !IsField(d)
  {
    TakeFieldOfContinue(d, MAX_BYTES);
  }

  lemma {:induction false} TakeFieldOfContinue(d: bytes, most: nat)
    requires AllContinue(d) && |d| <= most
    ensures TakeField(d, most) == d
  {
    if d != [] {
      TakeFieldOfContinue(d[1..], most - 1);
    }
  }

  /** Digits are added at the most significant end. */
  lemma {:induction false} ValueSnoc(d: bytes, c: byte)
    ensures Value(d + [c]) == Value(d) + c % 128 * Pow128(|d|)
  {
    if d == [] {
      assert [] + [c] == [c];
      assert Value([c][1..]) == 0;
    } else {
      ValueSnoc(d[1..], c);
      assert (d + [c])[1..] == d[1..] + [c] && (d + [c])[0] == d[0];
      var p := Pow128(|d| - 1);
      assert 128 * (c % 128 * p) == c % 128 * (128 * p);
    }
  }

  /** Decoding what was encoded gives the number back, and a legal field when it is legal. */
  lemma {:induction false} EncodeValue(n: nat)
    ensures Value(Encode(n)) == n
  {
    if n >= 128 {
      EncodeValue(n / 128);
      assert Encode(n)[1..] == Encode(n / 128);
    }
  }

  lemma {:induction false} EncodeContinues(n: nat)
    ensures var d := Encode(n); AllContinue(d[..|d| - 1]) && d[|d| - 1] < 128
  {
    if n >= 128 {
      EncodeContinues(n / 128);
      var rest := Encode(n / 128);
      assert Encode(n)[..|rest|] == [128 + n % 128] + rest[..|rest| - 1];
    }
  }

  lemma EncodeSmall(n: nat)
    requires n < 128
    ensures Encode(n) == [n]
  {
  }

  /** The number of digits, as the protocol's table gives it. */
  lemma EncodeSize(n: nat)
    requires n <= MAX_VALUE
    ensures |Encode(n)| == if n < 128 then 1 else if n < 16384 then 2 else if n < 2097152 then 3 else 4
  {
    if n >= 128 {
      assert |Encode(n)| == 1 + |Encode(n / 128)|;
      if n >= 16384 {
        assert |Encode(n / 128)| == 1 + |Encode(n / 128 / 128)|;
        if n >= 2097152 {
          assert |Encode(n / 128 / 128)| == 1 + |Encode(n / 128 / 128 / 128)|;
        }
      }
    }
  }

  lemma EncodeIsField(n: nat)
    requires n <= MAX_VALUE
    ensures IsField(Encode(n)) && Value(Encode(n)) == n
  {
    EncodeSize(n);
    EncodeContinues(n);
    EncodeValue(n);
  }

  /** The whole round trip: with anything behind it, the encoding of `n` is exactly what a
      reader takes, and stands for `n`. */
  lemma LengthRoundTrip(n: nat, rest: bytes)
    requires n <= MAX_VALUE
    ensures Field(Encode(n) + rest) == Encode(n) && Value(Field(Encode(n) + rest)) == n
  {
    EncodeIsField(n);
    FieldOfField(Encode(n), rest);
  }

  /** The encoding is minimal: every legal field for the same number is at least as long,
      and no other one of the same length exists. */
  lemma {:induction false} EncodeMinimal(d: bytes)
    requires |d| >= 1 && AllContinue(d[..|d| - 1]) && d[|d| - 1] < 128
    ensures |Encode(Value(d))| <= |d|
    ensures |Encode(Value(d))| == |d| ==> Encode(Value(d)) == d
  {
    if |d| == 1 {
      assert Value(d[1..]) == 0;
    } else {
      var t := d[1..];
      assert t[..|t| - 1] == d[..|d| - 1][1..];
      assert d[0] == d[..|d| - 1][0];
      EncodeMinimal(t);
      var v := Value(d);
      assert v / 128 == Value(t) && v % 128 == d[0] % 128;
      if v < 128 {
        assert |Encode(v)| == 1;
      } else {
        assert d == [d[0]] + t;
      }
    }
  }

  lemma FieldValueBound(d: bytes)
    requires |d| <= MAX_BYTES
    ensures Value(d) <= MAX_VALUE
  {
    ValueBound(d);
    assert Pow128(4) == 268435456 by {
      assert Pow128(1) == 128;
      assert Pow128(2) == 16384;
      assert Pow128(3) == 2097152;
    }
    PowMonotone(|d|, 4);
  }

  lemma {:induction false} ValueBound(d: bytes)
    ensures Value(d) < Pow128(|d|)
  {
    if d != [] {
      ValueBound(d[1..]);
    }
  }

  lemma {:induction false} PowMonotone(i: nat, j: nat)
    requires i <= j
    ensures Pow128(i) <= Pow128(j)
  {
    if i < j {
      PowMonotone(i, j - 1);
    }
  }

  /** MQTTPacket_len: the size of a packet whose remaining length is `remLen`. */
  function PacketLen(remLen: nat): nat {
    var len := remLen + 1;
    if len < 128 then len + 1
    else if len < 16384 then len + 2
    else if len < 2097151 then len + 3
    else len + 4
  }

  /** The estimate is the true packet size, except one too large at exactly four lengths. */
  lemma PacketLenExact(n: nat)
    requires n <= MAX_VALUE
    ensures PacketLen(n) ==
            1 + |Encode(n)| + n + (if n in {127, 16383, 2097150, 2097151} then 1 else 0)
  {
    EncodeSize(n);
  }

  /** MQTTPacket_encode. */
  method EncodeTo(buf: array<byte>, at: nat, length: nat) returns (rc: nat)
    requires at + |Encode(length)| <= buf.Length
    modifies buf
    ensures rc == |Encode(length)|
    ensures buf[..] == Put(old(buf[..]), at, Encode(length))
  {
    hide Put;
    rc := 0;
    var n := length;
    ghost var before := buf[..];
    PutNothing(before, at);
    ghost var done: bytes := [];
    while true
      invariant rc == |done| && Encode(length) == done + Encode(n)
      invariant buf[..] == Put(before, at, done)
      decreases n
    {
      var d := n % 128;
      ghost var rest := n;
      n := n / 128;
      if n > 0 {
        d := d + 128;
      }
      EncodeStep(length, done, rest, d);
      WriteByte(buf, at + rc, d);
      PutPut(before, at, done, [d]);
      rc := rc + 1;
      done := done + [d];
      if n == 0 {
        return;
      }
    }
  }

  /** One digit of the encoding loop. */
  lemma EncodeStep(length: nat, done: bytes, n: nat, d: byte)
    requires Encode(length) == done + Encode(n)
    requires d == n % 128 + (if n / 128 > 0 then 128 else 0)
    ensures |done| < |Encode(length)|
    ensures Encode(length) == done + [d] + (if n / 128 > 0 then Encode(n / 128) else [])
  {
    assert Encode(n) == [d] + (if n / 128 > 0 then Encode(n / 128) else []);
  }

  /** MQTTPacket_decodeBuf: the decoder over bytes already in memory. The count returned is one
      more than the four bytes taken when they do not end the field. */
  method DecodeBuf(buf: array<byte>, at: nat) returns (len: nat, value: nat)
    requires at + MAX_BYTES <= buf.Length || (at <= buf.Length && IsField(Field(buf[at..])))
    ensures var d := Field(buf[at..]);
            && value == Value(d)
            && len == if IsField(d) then |d| else MAX_BYTES + 1
  {
    hide Field, Pow128, Value;
    len, value := 0, 0;
    var multiplier: nat := 1;
    ghost var d: bytes := [];
    NoDigits();
    FieldBounds(buf[at..]);
    while true
      invariant |d| == len <= MAX_BYTES && AllContinue(d)
      invariant d <= Field(buf[at..])
      invariant value == Value(d) && multiplier == Pow128(len)
      decreases MAX_BYTES - len
    {
      len := len + 1;
      if len > MAX_BYTES {
        FieldIsWhole(buf[at..], d);
        return;
      }
      assert at + len <= buf.Length by {
        if IsField(Field(buf[at..])) {
          ContinueNotField(d);
        }
      }
      var c := buf[at + len - 1];
      FieldExtends(buf[at..], d);
      DigitStep(d, c, multiplier);
      d := d + [c];
      value := value + c as int % 128 * multiplier;
      multiplier := multiplier * 128;
      if c < 128 {
        assert IsField(d);
        return;
      }
    }
  }

  /** One byte below 128 is a whole length field. */
  lemma SmallField(s: bytes)
    requires s != [] && s[0] < 128
    ensures Field(s) == [s[0]] && IsField(Field(s)) && Value(Field(s)) == s[0]
  {
    NoDigits();
    assert [s[0]][1..] == [];
  }

  lemma NoDigits()
    ensures Value([]) == 0 && Pow128(0) == 1
  {
  }

  /** One step of the decoding loops, whose accumulators are the value so far and its weight. */
  lemma DigitStep(d: bytes, c: byte, multiplier: nat)
    requires multiplier == Pow128(|d|)
    ensures Value(d + [c]) == Value(d) + c % 128 * multiplier
    ensures multiplier * 128 == Pow128(|d + [c]|)
  {
    ValueSnoc(d, c);
  }

  lemma ContinueNotField(d: bytes)
    requires AllContinue(d)
    ensures !IsField(d)
  {
  }

  lemma FieldBounds(s: bytes)
    ensures Field(s) <= s && |Field(s)| <= MAX_BYTES
  {
  }

  /** Four continuation bytes are all that is taken. */
  lemma FieldIsWhole(s: bytes, d: bytes)
    requires d <= Field(s) && |d| == MAX_BYTES
    ensures d == Field(s)
  {
  }

  /** A reader that has taken continuation bytes only, fewer than four, takes the next one too,
      and stops there if it is below 128. */
  lemma FieldExtends(s: bytes, d: bytes)
    requires d <= s && AllContinue(d) && |d| < MAX_BYTES && |d| < |s|
    ensures d + [s[|d|]] <= Field(s)
    ensures s[|d|] < 128 ==> Field(s) == d + [s[|d|]]
  {
    TakeFieldExtends(s, d, s[|d|], MAX_BYTES);
  }

  lemma {:induction false} TakeFieldExtends(s: bytes, d: bytes, c: byte, most: nat)
    requires |d| < most && AllContinue(d) && d + [c] <= s
    ensures d + [c] <= TakeField(s, most)
    ensures c < 128 ==> TakeField(s, most) == d + [c]
  {
    if d == [] {
      assert s[0] == ([] + [c])[0] == c;
    } else {
      var t := d[1..];
      assert (d + [c])[1..] == t + [c];
      assert s[0] == (d + [c])[0] == d[0];
      assert t + [c] <= s[1..];
      TakeFieldExtends(s[1..], t, c, most - 1);
      assert d + [c] == [d[0]] + (t + [c]);
      assert TakeField(s, most) == [d[0]] + TakeField(s[1..], most - 1);
    }
  }
}
