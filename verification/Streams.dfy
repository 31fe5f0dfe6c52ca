/**
 Whole byte streams: a concatenation of packets is cut back into exactly those packets by
 repeated calls of the resumable reader, and the two readers agree.
 */
module Streams {
  import opened Bytes
  import opened RemainingLength
  import opened Framing
  import opened Readers

  /** The packets one after the other. */
  function Concat(frames: seq<bytes>): bytes {
    if frames == [] then [] else frames[0] + Concat(frames[1..])
  }

  /** A packet the protocol knows, small enough for the buffer. */
  predicate Deliverable(f: bytes, buflen: nat) {
    IsFrame(f) && 1 <= PacketType(f) <= 14 && |Stored(f)| <= buflen
  }

  ghost predicate AllDeliverable(frames: seq<bytes>, buflen: nat) {
    forall i :: 0 <= i < |frames| ==> Deliverable(frames[i], buflen)
  }

  /** What the calls returned is the front of the list of packets: their types, the bytes in the
      buffer, and what was left in the channel at that moment. */
  ghost predicate Returned(frames: seq<bytes>, types: seq<int>, packets: seq<bytes>, left: seq<bytes>) {
    && |types| == |packets| == |left| <= |frames|
    && forall i :: 0 <= i < |types| ==>
         && types[i] == PacketType(frames[i])
         && packets[i] == Stored(frames[i])
         && left[i] == Concat(frames[i + 1..])
  }

  lemma ReturnedMore(frames: seq<bytes>, types: seq<int>, packets: seq<bytes>, left: seq<bytes>)
    requires Returned(frames, types, packets, left) && |types| < |frames|
    ensures var f := frames[|types|];
            Returned(frames, types + [PacketType(f)], packets + [Stored(f)],
                     left + [Concat(frames[|types| + 1..])])
  {
  }

  /** Whatever part `now` of a stream that starts with the frame `f` has been taken, a complete
      frame is `f`, an unfinished one is a proper prefix of it, and neither failure can arise
      that `f` does not give rise to itself. */
  lemma Aligned(now: bytes, f: bytes, all: bytes)
    requires now <= all && f <= all && IsFrame(f)
    ensures IsFrame(now) ==> now == f
    ensures InProgress(now) ==> now < f
    ensures !Overlong(now)
    ensures JustMeasured(now) ==> now <= f && Field(f[1..]) == now[1..]
  {
    if |now| < |f| {
      PrefixFree(f, |now|);
      assert now == f[..|now|];
      if JustMeasured(now) {
        FieldOfMeasured(now);
        FieldStable(now, f[|now|..]);
        assert f == now + f[|now|..];
      }
    } else if |now| == |f| {
      assert now == f;
      if JustMeasured(now) {
        FieldOfMeasured(now);
      }
      if Overlong(now) {
        FieldOfContinues(now);
      }
    } else {
      assert f == now[..|f|];
      if IsFrame(now) {
        PrefixFree(now, |f|);
      }
      if InProgress(now) {
        InProgressMeaning(now);
        var g :| IsFrame(g) && now < g;
        assert f == g[..|f|];
        PrefixFree(g, |f|);
      }
      if Overlong(now) || JustMeasured(now) {
        NoFrameInside(now, f);
      }
    }
  }

  /** Nothing shorter than a length field, behind a header byte, is a frame. */
  lemma NoFrameInside(now: bytes, f: bytes)
    requires 1 <= |f| && f < now && (Overlong(now) || JustMeasured(now))
    ensures !IsFrame(f)
  {
    forall k | 1 <= k < |f| ensures f[k] >= 128 {
      assert f[k] == now[1..][k - 1];
      if JustMeasured(now) {
        assert now[1..][k - 1] == now[1..][..|now[1..]| - 1][k - 1];
      }
    }
    FieldOfContinues(f);
  }

  /** Calls MQTTPacket_readnb `calls` times, keeping what it returns. For every way the channel
      fragments the stream: the packets come back in order, each with its bytes in the buffer,
      and at each return exactly the later packets are left in the channel. Each call that
      returns no packet was answered short by the channel. */
  method Pump(ghost frames: seq<bytes>, t: Transport, buf: array<byte>, buflen: nat, calls: nat)
    returns (types: seq<int>, packets: seq<bytes>, left: seq<bytes>)
    requires 1 + MAX_BYTES <= buf.Length && buflen <= buf.Length
    requires AllDeliverable(frames, buflen)
    requires t.Idle() && !t.chan.faulty && t.chan.stream == Concat(frames)
    modifies t, t.chan, buf
    ensures Returned(frames, types, packets, left) && t.Tracks(buf[..], buflen)
    ensures t.got + t.chan.stream == Concat(frames[|types|..])
    ensures t.got == [] && t.chan.stream == [] ==> |types| == |frames|
    ensures |types| + t.chan.shortReads >= calls + old(t.chan.shortReads)
  {
    hide IsFrame, InProgress, Stored, Value, Encode, Field, Overlong, JustMeasured, StoredSize, PacketType;
    types, packets, left := [], [], [];
    assert frames[0..] == frames;
    for n := 0 to calls
      invariant t.Tracks(buf[..], buflen)
      invariant Returned(frames, types, packets, left)
      invariant t.got + t.chan.stream == Concat(frames[|types|..])
      invariant |types| + t.chan.shortReads >= n + old(t.chan.shortReads)
    {
      ghost var got, stream, done := t.got, t.chan.stream, |types|;
      var rc := t.ReadNb(buf, buflen);
      ghost var now := got + Taken(stream, t.chan.stream);
      TakenAll(got, stream, t.chan.stream);
      Progress(now, t.chan.stream, frames[done..], buflen);
      if rc != 0 {
        ReturnedMore(frames, types, packets, left);
        assert frames[done..][1..] == frames[done + 1..];
        types := types + [rc];
        packets := packets + [buf[..t.len]];
        left := left + [t.chan.stream];
      }
    }
    NothingLeft(frames[|types|..], buflen);
  }

  lemma TakenAll(got: bytes, s0: bytes, s1: bytes)
    requires Suffix(s0, s1)
    ensures got + Taken(s0, s1) + s1 == got + s0
  {
    assert Taken(s0, s1) + s1 == s0;
  }

  lemma NothingLeft(rest: seq<bytes>, buflen: nat)
    requires AllDeliverable(rest, buflen)
    ensures Concat(rest) == [] ==> rest == []
  {
    if rest != [] {
      assert Deliverable(rest[0], buflen);
    }
  }

  /** `now` has been taken from a stream of deliverable packets, `ahead` has not: the bytes taken
      are the first packet, or unfinished, and give no reason to fail. */
  lemma Progress(now: bytes, ahead: bytes, rest: seq<bytes>, buflen: nat)
    requires now + ahead == Concat(rest)
    requires IsFrame(now) || InProgress(now) || Overlong(now) || JustMeasured(now)
    requires AllDeliverable(rest, buflen)
    ensures IsFrame(now) ==> rest != [] && now == rest[0] && ahead == Concat(rest[1..]) && PacketType(now) != 0
    ensures !Overlong(now)
    ensures JustMeasured(now) ==> StoredSize(now[1..]) <= buflen
  {
    if rest != [] {
      var f := rest[0];
      Aligned(now, f, now + ahead);
      if IsFrame(now) {
        assert ahead == (now + ahead)[|now|..];
        assert Concat(rest[1..]) == Concat(rest)[|f|..];
      }
      FillingStatus(f);
    }
  }

  /** The resumable reader, called until it gives a verdict or `calls` calls are used up. */
  method UntilVerdict(t: Transport, buf: array<byte>, buflen: nat, calls: nat) returns (rc: int)
    requires 1 + MAX_BYTES <= buf.Length && buflen <= buf.Length
    requires t.Idle() && !t.chan.faulty && PacketType(t.chan.stream) != 0
    modifies t, t.chan, buf
    ensures Suffix(old(t.chan.stream), t.chan.stream)
    ensures Outcome(Taken(old(t.chan.stream), t.chan.stream), rc, buf[..], buflen, false, true)
    ensures rc == 0 ==> t.chan.shortReads >= old(t.chan.shortReads) + calls
  {
    hide IsFrame, InProgress, Stored, Overlong, JustMeasured, StoredSize;
    ghost var start := t.chan.stream;
    rc := 0;
    NothingYet([], 0);
    for n := 0 to calls
      invariant t.Tracks(buf[..], buflen) && Suffix(start, t.chan.stream)
      invariant rc == 0 && t.got == Taken(start, t.chan.stream)
      invariant InProgress(t.got) && !IsFrame(t.got)
      invariant t.chan.shortReads >= old(t.chan.shortReads) + n
    {
      ghost var s, got := t.chan.stream, t.got;
      rc := t.ReadNb(buf, buflen);
      TakenTwice([], start, s, t.chan.stream);
      assert Taken(start, t.chan.stream) == got + Taken(s, t.chan.stream);
      if rc != 0 {
        return;
      }
    }
  }

  /** What was taken from a stream, judged against the whole of that stream. */
  lemma VerdictOnStream(now: bytes, s: bytes)
    requires now <= s && s != []
    ensures IsFrame(now) ==>
              && IsField(Field(s[1..]))
              && |now| == CutSize(s) && now == s[..CutSize(s)]
              && StoredSize(Field(s[1..])) == |Stored(now)|
    ensures JustMeasured(now) ==> Field(s[1..]) == now[1..] && IsField(Field(s[1..]))
    ensures Overlong(now) ==> !IsField(Field(s[1..])) && |Field(s[1..])| == MAX_BYTES
  {
    assert s == now + s[|now|..];
    if IsFrame(now) {
      FieldStable(now, s[|now|..]);
      FillingStatus(now);
    }
    if JustMeasured(now) {
      FieldOfMeasured(now);
      FieldStable(now, s[|now|..]);
    }
    if Overlong(now) {
      FieldOfContinues(now);
      assert s[1..] == now[1..] + s[|now|..];
      ContinuesTaken(now[1..], s[|now|..], MAX_BYTES);
    }
  }

  lemma {:induction false} ContinuesTaken(d: bytes, rest: bytes, most: nat)
    requires AllContinue(d) && |d| == most
    ensures TakeField(d + rest, most) == d
  {
    if d != [] {
      assert (d + rest)[1..] == d[1..] + rest;
      ContinuesTaken(d[1..], rest, most - 1);
    }
  }

  /** Both readers on the same stream. When its length field ends within four bytes, the verdict
      of the resumable reader is the one of the blocking reader, with the same packet in the
      buffer and the same bytes left. When it does not, the resumable reader never returns a
      packet: it asks to be called again, or fails once it has four digits. But the blocking one
      returns one whenever the digits it took happen to fit: it ignores that the decoder failed. */
  method ReadersAgree(stream: bytes, buflen: nat, calls: nat)
    returns (nb: int, blocking: int, nbBuf: bytes, blockingBuf: bytes, nbLeft: bytes, blockingLeft: bytes)
    requires PacketType(stream) != 0
    ensures var d := Field(stream[1..]);
            && (IsField(d) && nb != 0 ==> nb == blocking)
            && (IsField(d) && nb > 0 ==>
                  && nbLeft == blockingLeft
                  && |nbBuf| == |blockingBuf| >= StoredSize(d)
                  && nbBuf[..StoredSize(d)] == blockingBuf[..StoredSize(d)])
            && (!IsField(d) ==> nb == 0 || (nb == READ_ERROR && |d| == MAX_BYTES))
            && (blocking > 0 <==> CutSize(stream) <= |stream| && StoredSize(d) <= buflen)
  {
    hide IsFrame, InProgress, Stored, Overlong, JustMeasured, StoredSize, Field, IsField;
    var n := if buflen < 1 + MAX_BYTES then 1 + MAX_BYTES else buflen;
    var bufA := new byte[n];
    var chan := new Channel(stream, false);
    var t := new Transport(chan);
    nb := UntilVerdict(t, bufA, buflen, calls);
    nbBuf, nbLeft := bufA[..], chan.stream;
    var bufB := new byte[n];
    var src := new Source(stream, true);
    blocking := ReadBlocking(bufB, buflen, src);
    blockingBuf, blockingLeft := bufB[..], src.stream;
    VerdictOnStream(Taken(stream, nbLeft), stream);
  }

  /** The stream on which they differ most visibly: five length bytes, which no packet has. */
  lemma FiveLengthBytes()
    ensures var s := [16, 128, 128, 128, 128];
            && !IsField(Field(s[1..])) && Overlong(s)
            && CutSize(s) == |s| && StoredSize(Field(s[1..])) == 2
  {
    var s := [16, 128, 128, 128, 128];
    assert s[1..] == [128, 128, 128, 128];
    FieldOfContinues(s);
    assert Value([128, 128, 128, 128]) == 0 by {
      assert [128, 128, 128, 128][1..] == [128, 128, 128];
      assert [128, 128, 128][1..] == [128, 128];
      assert [128, 128][1..] == [128];
      assert [128][1..] == [];
      NoDigits();
    }
  }
}
