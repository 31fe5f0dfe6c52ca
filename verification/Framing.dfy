/**
 Packet framing: cutting a byte stream into MQTT packets. A frame is a header byte, a
 remaining-length field and as many bytes as the field says. This part is the vocabulary the
 readers are specified with; it mentions neither of them.
 */
module Framing {
  import opened Bytes
  import opened RemainingLength

  /** The bytes of exactly one packet. */
  predicate IsFrame(f: bytes) {
    |f| >= 1 &&
    var d := Field(f[1..]);
    IsField(d) && |f| == 1 + |d| + Value(d)
  }

  /** A packet that is not complete yet: another byte is needed, and may complete it. */
  predicate InProgress(f: bytes) {
    f == [] ||
    var d := Field(f[1..]);
    if IsField(d) then |f| < 1 + |d| + Value(d) else |f| <= MAX_BYTES && AllContinue(f[1..])
  }

  /** A header byte and four length bytes that all announce another one. */
  predicate Overlong(f: bytes) {
    |f| == 1 + MAX_BYTES && AllContinue(f[1..])
  }

  /** A header byte and a length field `d`, with nothing read after them. */
  predicate JustMeasured(f: bytes) {
    |f| >= 1 && IsField(f[1..])
  }

  /** The size of the packet whose length field is `d`, once that is written in minimal form. */
  function StoredSize(d: bytes): nat {
    1 + |Encode(Value(d))| + Value(d)
  }

  /** What a reader leaves in its buffer for the bytes `f`: the length field is rewritten in
      minimal form. */
  function Stored(f: bytes): bytes {
    if f == [] then [] else
      var d := Field(f[1..]);
      [f[0]] + Encode(Value(d)) + f[1 + |d|..]
  }

  function PacketType(f: bytes): nat {
    if f == [] then 0 else f[0] / 16
  }

  /** A complete length field stays what it is however much follows it. */
  lemma FieldStable(f: bytes, more: bytes)
    requires |f| >= 1 && IsField(Field(f[1..]))
    ensures Field((f + more)[1..]) == Field(f[1..])
  {
    var d := Field(f[1..]);
    assert (f + more)[1..] == d + (f[1 + |d|..] + more);
    FieldOfField(d, f[1 + |d|..] + more);
  }

  lemma FieldOfContinues(f: bytes)
    requires |f| >= 1 && AllContinue(f[1..]) && |f| <= 1 + MAX_BYTES
    ensures Field(f[1..]) == f[1..] && !IsField(Field(f[1..]))
  {
    FieldOfContinue(f[1..]);
  }

  lemma FieldOfMeasured(f: bytes)
    requires JustMeasured(f)
    ensures Field(f[1..]) == f[1..]
  {
    FieldOfField(f[1..], []);
    assert f[1..] + [] == f[1..];
  }

  /** No frame is a proper prefix of another one, and every proper prefix of a frame is still
      in progress. */
  lemma PrefixFree(f: bytes, k: nat)
    requires IsFrame(f) && k < |f|
    ensures InProgress(f[..k]) && !IsFrame(f[..k]) && !Overlong(f[..k])
  {
    if k > 0 {
      var d := Field(f[1..]);
      var p := f[..k];
      assert f == p + f[k..];
      if k <= |d| {
        assert p[1..] == d[..|d| - 1][..k - 1];
        FieldOfContinues(p);
      } else {
        assert p[1..] == d + p[1 + |d|..];
        FieldOfField(d, p[1 + |d|..]);
        assert Field(p[1..]) == d;
        assert p[1..][|d| - 1] == d[|d| - 1] < 128;
      }
    }
  }

  /** Being in progress means exactly being a proper prefix of some frame. */
  lemma InProgressMeaning(f: bytes)
    ensures InProgress(f) <==> exists g: bytes :: IsFrame(g) && f < g
  {
    if InProgress(f) {
      var g := Complete(f);
      CompleteIsFrame(f);
      assert IsFrame(g) && f < g;
    }
    if g: bytes :| IsFrame(g) && f < g {
      PrefixFree(g, |f|);
      assert g[..|f|] == f;
    }
  }

  /** A frame that begins with `f`: zeros close the length field, or fill the payload. */
  function Complete(f: bytes): bytes
    requires InProgress(f)
  {
    if f == [] then [0, 0]
    else if IsField(Field(f[1..])) then
      f + seq(1 + |Field(f[1..])| + Value(Field(f[1..])) - |f|, _ => 0)
    else f + [0] + seq(Value(f[1..] + [0]), _ => 0)
  }

  lemma CompleteIsFrame(f: bytes)
    requires InProgress(f)
    ensures IsFrame(Complete(f)) && f < Complete(f)
  {
    if f == [] {
      FieldOfField([0], []);
      assert Complete(f)[1..] == [0] + [];
      NoDigits();
      assert [0][1..] == [];
    } else if IsField(Field(f[1..])) {
      FieldStable(f, Complete(f)[|f|..]);
      assert Complete(f) == f + Complete(f)[|f|..];
    } else {
      var d := f[1..] + [0];
      assert d[..|d| - 1] == f[1..];
      assert IsField(d);
      var rest := seq(Value(d), _ => 0);
      assert Complete(f)[1..] == d + rest;
      FieldOfField(d, rest);
    }
  }

  /** A packet written with a minimal length field is kept byte for byte. */
  lemma StoredIsSame(header: byte, body: bytes)
    requires |body| <= MAX_VALUE
    ensures IsFrame([header] + Encode(|body|) + body)
    ensures Stored([header] + Encode(|body|) + body) == [header] + Encode(|body|) + body
  {
    hide Encode, Value, Field, IsField;
    var enc := Encode(|body|);
    EncodeIsField(|body|);
    LengthRoundTrip(|body|, body);
    Split3(header, enc, body);
  }

  lemma Split3(h: byte, a: bytes, b: bytes)
    ensures ([h] + a + b)[1..] == a + b
    ensures ([h] + a + b)[1 + |a|..] == b
    ensures ([h] + a + b)[0] == h
  {
  }
}
