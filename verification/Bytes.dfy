/** Bytes, and writing a run of bytes over part of a buffer. */
module Bytes {
  type byte = b: int | 0 <= b < 256
  type bytes = seq<byte>

  datatype Option<+T> = None | Some(value: T)

  /** Truncation of a C integer to an unsigned char. */
  function LowByte(n: int): byte {
    n % 256
  }

  /** The contents of a buffer `s` after the bytes `x` are stored from index `at`. */
  function Put(s: bytes, at: nat, x: bytes): (r: bytes)
    requires at + |x| <= |s|
    ensures |r| == |s|
  {
    s[..at] + x + s[at + |x|..]
  }

  lemma PutNothing(s: bytes, at: nat)
    requires at <= |s|
    ensures Put(s, at, []) == s
  {
  }

  /** Two adjacent stores are one store of the concatenation. */
  lemma PutPut(s: bytes, at: nat, x: bytes, y: bytes)
    requires at + |x| + |y| <= |s|
    ensures Put(Put(s, at, x), at + |x|, y) == Put(s, at, x + y)
  {
  }

  /** `x` lies in `s` from index `at`. */
  predicate Holds(s: bytes, at: nat, x: bytes) {
    at + |x| <= |s| && s[at..at + |x|] == x
  }

  lemma HoldsSplit(s: bytes, at: nat, x: bytes, y: bytes)
    requires Holds(s, at, x + y)
    ensures Holds(s, at, x) && Holds(s, at + |x|, y)
  {
    assert s[at..at + |x|] == s[at..at + |x + y|][..|x|];
    assert s[at + |x|..at + |x| + |y|] == s[at..at + |x + y|][|x|..];
  }

  lemma HoldsSlice(s: bytes, at: nat, x: bytes)
    requires Holds(s, at, x)
    ensures at + |x| <= |s| && s[at..at + |x|] == x
  {
  }

  lemma PutHolds(s: bytes, at: nat, x: bytes)
    requires at + |x| <= |s|
    ensures Holds(Put(s, at, x), at, x)
  {
  }

  /** What has been taken from a stream that held `before` and now holds `after`. */
  ghost function Taken(before: bytes, after: bytes): bytes {
    if |after| <= |before| then before[..|before| - |after|] else []
  }

  ghost predicate Suffix(before: bytes, after: bytes) {
    |after| <= |before| && after == before[|before| - |after|..]
  }

  lemma TakenMore(s0: bytes, s1: bytes, k: nat)
    requires Suffix(s0, s1) && k <= |s1|
    ensures Suffix(s0, s1[k..]) && Taken(s0, s1[k..]) == Taken(s0, s1) + s1[..k]
  {
  }

  /** writeChar: one byte through the output pointer. */
  method WriteByte(buf: array<byte>, at: nat, c: int)
    requires at < buf.Length
    modifies buf
    ensures buf[..] == Put(old(buf[..]), at, [LowByte(c)])
  {
    buf[at] := c % 256;
  }

  /** memcpy of a whole run of bytes. */
  method Copy(buf: array<byte>, at: nat, x: bytes)
    requires at + |x| <= buf.Length
    modifies buf
    ensures buf[..] == Put(old(buf[..]), at, x)
  {
    for i := 0 to |x|
      invariant buf[at..at + i] == x[..i]
      invariant forall k :: 0 <= k < buf.Length && !(at <= k < at + i) ==> buf[k] == old(buf[k])
    {
      buf[at + i] := x[i];
    }
  }
}
