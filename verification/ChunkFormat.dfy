/**
 The chunked transfer coding (section 4.1 of RFC 7230), as the client reads it: chunk-size lines
 are turned into numbers with strtol, chunks follow one another until a size that is not positive.
 */
module ChunkFormat {
  import opened Bytes

  const LF: byte := 10
  const CR: byte := 13
  const INT_MAX: int := 0x7fffffff

  predicate IsSpace(c: byte) {
    9 <= c <= 13 || c == 32
  }

  predicate IsHex(c: byte) {
    48 <= c <= 57 || 65 <= c <= 70 || 97 <= c <= 102
  }

  function HexOf(c: byte): nat
    requires IsHex(c)
  {
    if c <= 57 then c - 48 else if c <= 70 then c - 55 else c - 87
  }

  function SkipSpaces(s: bytes): bytes {
    if s != [] && IsSpace(s[0]) then SkipSpaces(s[1..]) else s
  }

  function TrimEnd(s: bytes): bytes {
    if s != [] && IsSpace(s[|s| - 1]) then TrimEnd(s[..|s| - 1]) else s
  }

  /** String::trim. */
  function Trim(s: bytes): bytes {
    TrimEnd(SkipSpaces(s))
  }

  predicate AllHex(d: bytes) {
    forall i :: 0 <= i < |d| ==> IsHex(d[i])
  }

  /** The longest run of hexadecimal digits at the front. */
  function HexRun(s: bytes): (d: bytes)
    ensures AllHex(d)
  {
    if s != [] && IsHex(s[0]) then [s[0]] + HexRun(s[1..]) else []
  }

  function HexNumber(d: bytes): nat
    requires AllHex(d)
  {
    if d == [] then 0 else 16 * HexNumber(d[..|d| - 1]) + HexOf(d[|d| - 1])
  }

  /** What the digits at the front stand for, after "0x" if that is there. */
  function Magnitude(u: bytes): nat {
    HexNumber(HexRun(if |u| >= 3 && u[0] == 48 && u[1] in {88, 120} && IsHex(u[2]) then u[2..] else u))
  }

  /** strtol(s, NULL, 16) with a 32-bit long, which saturates; it then goes through uint32_t
      into an int without change. */
  function StrToL(s: bytes): int {
    var t := SkipSpaces(s);
    var signed := t != [] && (t[0] == 43 || t[0] == 45);
    var m: int := Magnitude(if signed then t[1..] else t);
    if signed && t[0] == 45 then (if m > INT_MAX + 1 then -INT_MAX - 1 else -m)
    else if m > INT_MAX then INT_MAX else m
  }

  /** The size a chunk-size line stands for. */
  function SizeOf(line: bytes): int {
    StrToL(Trim(line))
  }

  /** readStringUntil: the first line without its LF, and what follows it; everything when
      there is no LF. */
  function Line(s: bytes): (r: (bytes, bytes))
    ensures |r.0| + |r.1| <= |s|
    ensures r.0 != [] ==> |r.1| < |s|
  {
    if s == [] then ([], [])
    else if s[0] == LF then ([], s[1..])
    else var (line, rest) := Line(s[1..]); ([s[0]] + line, rest)
  }

  /** readStringUntil with its timeout: `cuts` says for this line and the later ones how many bytes
      arrive in time. If the LF is not among them, they are the line, and the rest is left. Lines
      for which nothing is said arrive in time. */
  function LineInTime(s: bytes, cuts: seq<nat>): (r: (bytes, bytes))
    ensures |r.0| + |r.1| <= |s|
    ensures r.0 != [] ==> |r.1| < |s|
  {
    if cuts != [] && cuts[0] <= |Line(s).0| then (s[..cuts[0]], s[cuts[0]..]) else Line(s)
  }

  function Later(cuts: seq<nat>): seq<nat> {
    if cuts == [] then [] else cuts[1..]
  }

  /** A body, the bytes after its last chunk-size line, and the number on that line. */
  datatype Decoded = Bad | Good(body: bytes, rest: bytes, last: int)

  /** The chunk announced with size `len` is there, with its CRLF. */
  predicate HasChunk(s: bytes, len: int)
    requires len > 0
  {
    |s| >= len + 2 && s[len..len + 2] == [CR, LF]
  }

  /** The reader's view of a chunked body. An empty line, a chunk cut short or a chunk that is not
      followed by CRLF is bad. */
  function Decode(s: bytes, cuts: seq<nat>): (r: Decoded)
    ensures r.Good? ==> |r.body| + |r.rest| <= |s| && r.last <= 0
    decreases |s|
  {
    var (line, rest) := LineInTime(s, cuts);
    if line == [] then Bad
    else
      var n := SizeOf(line);
      if n <= 0 then Good([], rest, n)
      else if !HasChunk(rest, n) then Bad
      else match Decode(rest[n + 2..], Later(cuts))
        case Bad => Bad
        case Good(body, after, last) => Good(rest[..n] + body, after, last)
  }

  /** The chunk-size lines all arrive in time. */
  predicate Uncut(s: bytes, cuts: seq<nat>)
    decreases |s|
  {
    var (line, rest) := Line(s);
    && (cuts == [] || cuts[0] > |line|)
    && (line != [] && SizeOf(line) > 0 && HasChunk(rest, SizeOf(line)) ==>
          Uncut(rest[SizeOf(line) + 2..], Later(cuts)))
  }

  /** Then the schedule does not matter. */
  lemma {:induction false} DecodeUncut(s: bytes, cuts: seq<nat>)
    requires Uncut(s, cuts)
    ensures Decode(s, cuts) == Decode(s, [])
    decreases |s|
  {
    hide SizeOf, Line;
    var (line, rest) := Line(s);
    if line != [] && SizeOf(line) > 0 && HasChunk(rest, SizeOf(line)) {
      DecodeUncut(rest[SizeOf(line) + 2..], Later(cuts));
    }
  }

  /** One chunk as a sender makes it: the size in hexadecimal digits, an extension, the data. */
  datatype Chunk = Chunk(size: bytes, extension: bytes, data: bytes)

  /** The digits spell `n`, in any case and with any number of leading zeros; an extension is
      empty or starts with a semicolon, and is on the same line. */
  predicate Spells(size: bytes, extension: bytes, n: nat) {
    && size != [] && AllHex(size) && HexNumber(size) == n && n <= INT_MAX
    && (extension != [] ==> extension[0] == 59) && LF !in extension
  }

  function Encode(chunks: seq<Chunk>, lastSize: bytes, lastExtension: bytes): bytes {
    if chunks == [] then lastSize + lastExtension + [CR, LF]
    else
      var c := chunks[0];
      c.size + c.extension + [CR, LF] + c.data + [CR, LF] + Encode(chunks[1..], lastSize, lastExtension)
  }

  function Join(chunks: seq<Chunk>): bytes {
    if chunks == [] then [] else chunks[0].data + Join(chunks[1..])
  }

  /** Every partition of a body into non-empty chunks, spelled in every way the format allows,
      decodes to the body; what follows the last chunk-size line is left alone. */
  lemma {:induction false} DecodeEncode(chunks: seq<Chunk>, lastSize: bytes, lastExtension: bytes, after: bytes)
    requires forall i :: 0 <= i < |chunks| ==>
               chunks[i].data != [] && Spells(chunks[i].size, chunks[i].extension, |chunks[i].data|)
    requires Spells(lastSize, lastExtension, 0)
    ensures Decode(Encode(chunks, lastSize, lastExtension) + after, []) == Good(Join(chunks), after, 0)
    decreases |chunks|
  {
    hide SizeOf, Line, Spells;
    if chunks == [] {
      LineOfHeader(lastSize, lastExtension, 0, after);
      assert Encode(chunks, lastSize, lastExtension) + after == lastSize + lastExtension + [CR, LF] + after;
    } else {
      var c, n := chunks[0], |chunks[0].data|;
      var more := Encode(chunks[1..], lastSize, lastExtension) + after;
      var rest := c.data + [CR, LF] + more;
      LineOfHeader(c.size, c.extension, n, rest);
      assert Encode(chunks, lastSize, lastExtension) + after == c.size + c.extension + [CR, LF] + rest;
      SplitChunk(c.data, more);
      DecodeEncode(chunks[1..], lastSize, lastExtension, after);
    }
  }

  /** A chunk that is not followed by CRLF, or not all there, is refused, and so is an empty line, or none. */
  lemma BadChunk(size: bytes, extension: bytes, n: nat, rest: bytes, cuts: seq<nat>)
    requires Spells(size, extension, n) && n > 0
    requires |rest| < n + 2 || rest[n] != 13 || rest[n + 1] != 10
    ensures Decode(size + extension + [CR, LF] + rest, []) == Bad
    ensures Decode([], cuts) == Bad && Decode([10] + rest, []) == Bad
  {
    hide SizeOf, Spells;
    LineOfHeader(size, extension, n, rest);
    assert |rest| >= n + 2 ==> rest[n..n + 2][0] == rest[n] && rest[n..n + 2][1] == rest[n + 1];
  }

  lemma SplitChunk(data: bytes, more: bytes)
    ensures var rest := data + [CR, LF] + more;
            rest[..|data|] == data && rest[|data|..|data| + 2] == [CR, LF] && rest[|data| + 2..] == more
  {
  }

  /** A chunk-size line is read as the number its digits spell. */
  lemma LineOfHeader(size: bytes, extension: bytes, n: nat, rest: bytes)
    requires Spells(size, extension, n)
    ensures var l := Line(size + extension + [CR, LF] + rest);
            l.0 != [] && l.1 == rest && SizeOf(l.0) == n
  {
    hide SizeOf, IsHex, IsSpace;
    var line := size + extension + [CR];
    HexIsPlain(size);
    assert size + extension + [CR, LF] + rest == line + [LF] + rest;
    LineSplit(line, rest);
    var tail := extension + [CR];
    assert line == size + tail;
    SizeOfLine(size, tail, n);
  }

  lemma HexIsPlain(size: bytes)
    requires AllHex(size)
    ensures LF !in size
    ensures forall i :: 0 <= i < |size| ==> !IsSpace(size[i])
  {
    forall i | 0 <= i < |size| ensures size[i] != LF && !IsSpace(size[i]) {
      assert IsHex(size[i]);
    }
  }

  lemma SizeOfLine(size: bytes, tail: bytes, n: nat)
    requires size != [] && AllHex(size) && HexNumber(size) == n && n <= INT_MAX
    requires tail != [] && (tail[0] == 59 || tail == [CR])
    ensures SizeOf(size + tail) == n
  {
    hide HexNumber, HexRun, TrimEnd;
    var line := size + tail;
    HexIsPlain(size);
    assert line[0] == size[0];
    assert SkipSpaces(line) == line;
    var t := TrimKeeps(size, tail);
    RunStops(size, t);
    SizeOfTrimmed(size, t);
  }

  /** With the sign and prefix tests out of the way, strtol sees the digits only. */
  lemma SizeOfTrimmed(size: bytes, t: bytes)
    requires size != [] && AllHex(size) && HexNumber(size) <= INT_MAX
    requires t != [] ==> t[0] == 59 || t[0] == CR
    requires HexRun(size + t) == size
    ensures StrToL(size + t) == HexNumber(size)
  {
    hide HexNumber, HexRun;
    var s := size + t;
    assert IsHex(size[0]);
    assert s[0] == size[0];
    if |s| >= 2 {
      assert s[1] == if |size| >= 2 then size[1] else t[0];
      assert |size| >= 2 ==> IsHex(size[1]);
    }
  }

  lemma {:induction false} LineSplit(line: bytes, rest: bytes)
    requires LF !in line
    ensures Line(line + [LF] + rest) == (line, rest)
  {
    if line == [] {
      assert line + [LF] + rest == [LF] + rest;
    } else {
      assert (line + [LF] + rest)[1..] == line[1..] + [LF] + rest;
      LineSplit(line[1..], rest);
      assert line == [line[0]] + line[1..];
      assert (line + [LF] + rest)[0] == line[0] != LF;
    }
  }

  /** Trimming stops at a digit at the latest. */
  lemma {:induction false} TrimKeeps(size: bytes, tail: bytes) returns (t: bytes)
    requires size != [] && !IsSpace(size[|size| - 1])
    ensures t <= tail && TrimEnd(size + tail) == size + t
    decreases |tail|
  {
    t := tail;
    var s := size + tail;
    if IsSpace(s[|s| - 1]) {
      assert tail != [];
      assert s[..|s| - 1] == size + tail[..|tail| - 1];
      t := TrimKeeps(size, tail[..|tail| - 1]);
    }
  }

  lemma {:induction false} RunStops(d: bytes, t: bytes)
    requires AllHex(d) && (t != [] ==> !IsHex(t[0]))
    ensures HexRun(d + t) == d
  {
    if d == [] {
      assert d + t == t;
    } else {
      assert (d + t)[1..] == d[1..] + t;
      RunStops(d[1..], t);
    }
  }

  /** And when it does: with a pause inside the size line "1A", the 26 bytes of a chunk that start with
      "0" and LF are read as a chunk of one byte, the "A", and the last chunk-size line. */
  lemma CutSizeLine(x: bytes, after: bytes)
    requires |x| == 24
    ensures var s := Encode([Chunk([49, 65], [], [48, LF] + x)], [48], []) + after;
            && Decode(s, []) == Good([48, LF] + x, after, 0)
            && Decode(s, [1]) == Good([65], x + [CR, LF, 48, CR, LF] + after, 0)
  {
    hide SizeOf, Line, HexNumber, Decode;
    var chunks := [Chunk([49, 65], [], [48, LF] + x)];
    var tail := x + [CR, LF, 48, CR, LF] + after;
    Digits();
    assert Join(chunks) == [48, LF] + x by {
      assert chunks[1..] == [];
    }
    DecodeEncode(chunks, [48], [], after);
    assert Encode(chunks, [48], []) + after == [49, 65, CR] + [LF] + ([48, LF] + tail) by {
      assert chunks[1..] == [];
    }
    CutAfterOne(tail);
  }

  lemma CutAfterOne(tail: bytes)
    ensures Decode([49, 65, CR] + [LF] + ([48, LF] + tail), [1]) == Good([65], tail, 0)
  {
    hide SizeOf, Line, HexNumber;
    var s, last := [49, 65, CR] + [LF] + ([48, LF] + tail), [48] + [LF] + tail;
    Digits();
    LineSplit([49, 65, CR], [48, LF] + tail);
    assert s[..1] == [49] && s[1..] == [65] + [CR, LF] + last;
    SplitChunk([65], last);
    LineSplit([48], tail);
    assert Decode(last, []) == Good([], tail, 0);
    assert Decode(last, Later([1])) == Good([], tail, 0);
  }

  lemma Digits()
    ensures AllHex([49, 65]) && HexNumber([49, 65]) == 26 && AllHex([48]) && HexNumber([48]) == 0
    ensures SizeOf([49]) == 1 && SizeOf([48]) == 0
    ensures Spells([49, 65], [], 26) && Spells([48], [], 0)
  {
    assert [49, 65][..1] == [49] && [49][..0] == [] && [48][..0] == [];
    assert AllHex([49]) && HexNumber([49]) == 1;
    assert [49] + [] == [49] && [48] + [] == [48];
    RunStops([49], []);
    RunStops([48], []);
    SizeOfTrimmed([49], []);
    SizeOfTrimmed([48], []);
  }

  /** The digits, 0 to 9 and a to f, and in the other case A to F. */
  const LOWER: bytes := [48, 49, 50, 51, 52, 53, 54, 55, 56, 57, 97, 98, 99, 100, 101, 102]
  const UPPER: bytes := [48, 49, 50, 51, 52, 53, 54, 55, 56, 57, 65, 66, 67, 68, 69, 70]

  lemma HexDigits(i: nat)
    requires i < 16
    ensures IsHex([48, 49, 50, 51, 52, 53, 54, 55, 56, 57, 97, 98, 99, 100, 101, 102][i]) && IsHex(LOWER[i])
    ensures HexOf([48, 49, 50, 51, 52, 53, 54, 55, 56, 57, 97, 98, 99, 100, 101, 102][i]) == i == HexOf(LOWER[i])
    ensures IsHex([48, 49, 50, 51, 52, 53, 54, 55, 56, 57, 65, 66, 67, 68, 69, 70][i]) && IsHex(UPPER[i])
    ensures HexOf([48, 49, 50, 51, 52, 53, 54, 55, 56, 57, 65, 66, 67, 68, 69, 70][i]) == i == HexOf(UPPER[i])
  {
  }

  /** And no other character is one; the spaces are tab, LF, VT, FF, CR and the space. */
  lemma HexAndSpace(c: byte)
    ensures IsHex(c) <==> c in LOWER || c in UPPER
    ensures IsSpace(c) <==> c in {9, 10, 11, 12, 13, 32}
    ensures LF == 10 && CR == 13 && INT_MAX == 2147483647
  {
    if 48 <= c <= 57 {
      assert LOWER[c - 48] == c;
    } else if 97 <= c <= 102 {
      assert LOWER[c - 87] == c;
    } else if 65 <= c <= 70 {
      assert UPPER[c - 55] == c;
    }
  }

  /** A number in hexadecimal digits, by quotient and remainder. */
  function ToHex(n: nat, upper: bool): bytes {
    var digit := if upper then UPPER[n % 16] else LOWER[n % 16];
    if n < 16 then [digit] else ToHex(n / 16, upper) + [digit]
  }

  /** It is read back as the number. */
  lemma {:induction false} ToHexNumber(n: nat, upper: bool)
    ensures var d := ToHex(n, upper); d != [] && AllHex(d) && HexNumber(d) == n
  {
    HexDigits(n % 16);
    var d := ToHex(n, upper);
    var q := d[..|d| - 1];
    if n >= 16 {
      ToHexNumber(n / 16, upper);
      assert q == ToHex(n / 16, upper);
    } else {
      assert q == [];
    }
  }

  /** A sender that writes its sizes so, without extensions. */
  function EncodePlain(bodies: seq<bytes>, upper: bool): bytes {
    if bodies == [] then [48, 13, 10]
    else ToHex(|bodies[0]|, upper) + [13, 10] + bodies[0] + [13, 10] + EncodePlain(bodies[1..], upper)
  }

  function Concat(bodies: seq<bytes>): bytes {
    if bodies == [] then [] else bodies[0] + Concat(bodies[1..])
  }

  /** Every partition of a body into non-empty chunks, with the sizes in hexadecimal, decodes to the body. */
  lemma DecodePlain(bodies: seq<bytes>, upper: bool, after: bytes)
    requires forall i :: 0 <= i < |bodies| ==> 0 < |bodies[i]| <= INT_MAX
    ensures Decode(EncodePlain(bodies, upper) + after, []) == Good(Concat(bodies), after, 0)
  {
    hide Decode, Spells, Encode, EncodePlain, Concat, Join;
    Digits();
    forall i | 0 <= i < |bodies|
      ensures PlainChunks(bodies, upper)[i].data == bodies[i]
      ensures Spells(PlainChunks(bodies, upper)[i].size, PlainChunks(bodies, upper)[i].extension, |bodies[i]|)
    {
      PlainSpells(|bodies[i]|, upper);
    }
    PlainIsEncode(bodies, upper);
    DecodeEncode(PlainChunks(bodies, upper), [48], [], after);
  }

  function PlainChunks(bodies: seq<bytes>, upper: bool): (r: seq<Chunk>)
    ensures |r| == |bodies|
  {
    seq(|bodies|, i requires 0 <= i < |bodies| => Chunk(ToHex(|bodies[i]|, upper), [], bodies[i]))
  }

  lemma PlainSpells(n: nat, upper: bool)
    requires n <= INT_MAX
    ensures Spells(ToHex(n, upper), [], n)
  {
    hide HexNumber, ToHex;
    ToHexNumber(n, upper);
  }

  lemma {:induction false} PlainIsEncode(bodies: seq<bytes>, upper: bool)
    ensures EncodePlain(bodies, upper) == Encode(PlainChunks(bodies, upper), [48], [])
    ensures Concat(bodies) == Join(PlainChunks(bodies, upper))
  {
    hide ToHex;
    if bodies != [] {
      PlainIsEncode(bodies[1..], upper);
      assert PlainChunks(bodies, upper)[1..] == PlainChunks(bodies[1..], upper);
    }
  }

  /** strtol with base 16: after spaces, a sign and perhaps "0x", the number the digits stand for, kept
      within 32 bits. */
  lemma StrToLReads(spaces: bytes, sign: bytes, prefix: bytes, digits: bytes, rest: bytes)
    requires forall i :: 0 <= i < |spaces| ==> IsSpace(spaces[i])
    requires sign in {[], [43], [45]} && prefix in {[], [48, 88], [48, 120]}
    requires digits != [] && AllHex(digits) && (rest != [] ==> !IsHex(rest[0]))
    requires prefix == [] && digits == [48] && |rest| >= 2 && rest[0] in {88, 120} ==> !IsHex(rest[1])
    ensures var n: int := HexNumber(digits);
            StrToL(spaces + (sign + (prefix + (digits + rest)))) ==
            if sign == [45] then (if n > 2147483648 then -2147483648 else -n)
            else if n > 2147483647 then 2147483647 else n
  {
    hide HexNumber, HexRun, SkipSpaces, Magnitude;
    var u := prefix + (digits + rest);
    var t := sign + u;
    MagnitudeReads(prefix, digits, rest);
    assert IsHex(u[0]) by {
      assert IsHex(digits[0]);
      assert u[0] == if prefix == [] then digits[0] else prefix[0];
    }
    assert if sign == [] then t == u else t[1..] == u && t[0] == sign[0];
    SkipsSpaces(spaces, t);
  }

  lemma MagnitudeReads(prefix: bytes, digits: bytes, rest: bytes)
    requires prefix in {[], [48, 88], [48, 120]}
    requires digits != [] && AllHex(digits) && (rest != [] ==> !IsHex(rest[0]))
    requires prefix == [] && digits == [48] && |rest| >= 2 && rest[0] in {88, 120} ==> !IsHex(rest[1])
    ensures Magnitude(prefix + (digits + rest)) == HexNumber(digits)
  {
    hide HexNumber, HexRun;
    var v := digits + rest;
    RunStops(digits, rest);
    assert v[0] == digits[0] && IsHex(digits[0]);
    if prefix == [] {
      assert prefix + v == v;
      if |v| >= 3 {
        assert v[1] == if |digits| >= 2 then digits[1] else rest[0];
        assert |digits| >= 2 ==> IsHex(digits[1]);
        assert |digits| == 1 ==> digits == [digits[0]] && v[2] == rest[1];
      }
    } else {
      assert (prefix + v)[2..] == v && (prefix + v)[2] == v[0];
    }
  }

  /** Without a digit it is 0. */
  lemma StrToLNone(spaces: bytes, sign: bytes, rest: bytes)
    requires forall i :: 0 <= i < |spaces| ==> IsSpace(spaces[i])
    requires sign in {[], [43], [45]} && (rest != [] ==> !IsHex(rest[0]))
    requires sign == [] && rest != [] ==> !IsSpace(rest[0]) && rest[0] != 43 && rest[0] != 45
    ensures StrToL(spaces + (sign + rest)) == 0
  {
    hide SkipSpaces;
    var t := sign + rest;
    SkipsSpaces(spaces, t);
    assert if sign == [] then t == rest else t[1..] == rest && t[0] == sign[0];
  }

  lemma {:induction false} SkipsSpaces(spaces: bytes, t: bytes)
    requires forall i :: 0 <= i < |spaces| ==> IsSpace(spaces[i])
    requires t != [] ==> !IsSpace(t[0])
    ensures SkipSpaces(spaces + t) == t
  {
    if spaces == [] {
      assert spaces + t == t;
    } else {
      assert (spaces + t)[1..] == spaces[1..] + t;
      SkipsSpaces(spaces[1..], t);
    }
  }
}
