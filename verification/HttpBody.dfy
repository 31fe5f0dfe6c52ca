/**
 HTTPClient::writeToStream: copies the body of a response from the connection to a stream, either
 up to its Content-Length (or the end of the connection) or chunk by chunk.
 */
module HttpBody {
  import opened Bytes
  import opened ChunkFormat

  const BUFFER_SIZE: nat := 1460
  const NOT_CONNECTED: int := -4
  const CONNECTION_LOST: int := -5
  const TOO_LESS_RAM: int := -8
  const ENCODING: int := -9
  const STREAM_WRITE: int := -10
  const READ_TIMEOUT: int := -11

  lemma HttpNumbers()
    ensures NOT_CONNECTED == -4 && CONNECTION_LOST == -5 && TOO_LESS_RAM == -8 && ENCODING == -9
    ensures STREAM_WRITE == -10 && READ_TIMEOUT == -11 && BUFFER_SIZE == 1460
  {
  }

  /** The TCP client. How much of the stream has arrived is arbitrary at every moment; `lost`
      records that the connection was reported down or a read fell short. `patience` bounds how
      often it may still be reported up, and `cuts` says how much of each coming line arrives before
      the timeout. */
  class Connection {
    var stream: bytes
    var patience: nat
    var promised: nat
    var cuts: seq<nat>
    ghost var lost: bool

    constructor (stream: bytes, patience: nat, cuts: seq<nat>)
      ensures this.stream == stream && this.cuts == cuts && !lost
    {
      this.stream, this.patience, this.cuts, promised, lost := stream, patience, cuts, 0, false;
    }

    method Connected() returns (up: bool)
      modifies this
      ensures stream == old(stream) && promised == old(promised) && cuts == old(cuts)
      ensures up ==> patience < old(patience) && lost == old(lost)
      ensures !up ==> lost && patience == old(patience)
    {
      up := *;
      up := up && patience > 0;
      if up {
        patience := patience - 1;
      } else {
        lost := true;
      }
    }

    method Available() returns (n: nat)
      modifies this
      ensures stream == old(stream) && patience == old(patience) && lost == old(lost) && cuts == old(cuts)
      ensures n == promised <= |stream|
    {
      n :| n <= |stream|;
      promised := n;
    }

    /** Gives what was promised; beyond that a read may fall short. */
    method ReadBytes(count: nat) returns (data: bytes)
      modifies this
      ensures patience == old(patience) && cuts == old(cuts)
      ensures data <= old(stream) && stream == old(stream)[|data|..] && |data| <= count
      ensures count <= old(promised) <= |old(stream)| ==> |data| == count
      ensures |data| == count ==> lost == old(lost)
      ensures |data| < count ==> lost
    {
      var n := count;
      if !(count <= promised <= |stream|) {
        n :| 0 <= n <= count && n <= |stream|;
      }
      data, stream := stream[..n], stream[n..];
      promised := 0;
      lost := lost || n < count;
    }

    /** readStringUntil('\\n'), which gives what it has when the timeout comes before the LF. */
    method ReadLine() returns (line: bytes)
      modifies this
      ensures patience == old(patience) && lost == old(lost)
      ensures (line, stream) == LineInTime(old(stream), old(cuts)) && cuts == Later(old(cuts))
    {
      var (l, rest) := LineInTime(stream, cuts);
      line, stream, promised, cuts := l, rest, 0, Later(cuts);
    }
  }

  /** The stream written to. A write may be short; a reliable sink takes the rest when it is
      asked again, and has an error to report only for a short write. */
  class Sink {
    var data: bytes
    var writeError: bool
    var wasShort: bool
    const reliable: bool

    /** No error to report, and the last write was not short. */
    predicate Clean()
      reads this
    {
      !writeError && !wasShort
    }

    constructor (reliable: bool)
      ensures data == [] && !writeError && !wasShort && this.reliable == reliable
    {
      data, writeError, wasShort, this.reliable := [], false, false, reliable;
    }

    method Write(x: bytes) returns (n: nat)
      modifies this
      ensures n <= |x| && data == old(data) + x[..n]
      ensures wasShort == (n < |x|)
      ensures reliable && old(wasShort) ==> n == |x|
      ensures reliable && n == |x| ==> writeError == old(writeError)
    {
      n := |x|;
      if !(reliable && wasShort) {
        n :| 0 <= n <= |x|;
      }
      data := data + x[..n];
      wasShort := n < |x|;
      if !reliable || wasShort {
        writeError := *;
      }
    }

    method ClearWriteError()
      modifies this`writeError
      ensures !writeError
    {
      writeError := false;
    }
  }

  datatype TransferEncoding = Identity | Chunked | Other

  class HttpClient {
    const conn: Connection
    var size: int
    var encoding: TransferEncoding
    ghost var starved: bool

    constructor (conn: Connection, size: int, encoding: TransferEncoding)
      ensures this.conn == conn && this.size == size && this.encoding == encoding && !starved
    {
      this.conn, this.size, this.encoding, starved := conn, size, encoding, false;
    }

    /** Nothing kept the client from finishing: memory, connection and sink all served. */
    ghost predicate Served(sink: Sink)
      reads this, conn
    {
      !starved && !conn.lost && sink.reliable
    }

    /** Writes one piece from the front of the buffer, and the missing bytes once more if the
        sink took too few. */
    method WritePiece(sink: Sink, buff: bytes) returns (written: int)
      modifies sink
      ensures written >= 0 ==> written == |buff| && sink.data == old(sink.data) + buff
      ensures written < 0 ==> written == STREAM_WRITE && PartOf(buff, old(sink.data), sink.data)
      ensures sink.reliable && old(sink.Clean()) ==> written >= 0 && sink.Clean()
    {
      ghost var out := sink.data;
      var n := sink.Write(buff);
      written := n;
      if n != |buff| {
        if sink.writeError {
          sink.ClearWriteError();
        }
        var left := |buff| - n;
        var again := sink.Write(buff[n..]);
        assert buff[..n] + buff[n..][..again] == buff[..n + again];
        assert sink.data == out + buff[..n + again];
        written := written + again;
        if again != left {
          return STREAM_WRITE;
        }
      }
      assert buff[..|buff|] == buff;
      if sink.writeError {
        return STREAM_WRITE;
      }
    }

    /** One turn of the loop: what has arrived, limited by what is wanted and by the buffer, is
        read and written. */
    method CopySome(sink: Sink, len: int, buffSize: nat) returns (n: int)
      requires buffSize > 0
      modifies conn, sink
      ensures conn.patience == old(conn.patience) && conn.lost == old(conn.lost) && conn.cuts == old(conn.cuts)
      ensures |conn.stream| <= |old(conn.stream)|
      ensures len > 0 ==> |old(conn.stream)| - |conn.stream| <= len
      ensures n >= 0 ==> Copied(old(conn.stream), conn.stream, old(sink.data), sink.data, n) && (len > 0 ==> n <= len)
      ensures n < 0 ==> n == STREAM_WRITE && CopiedPart(old(conn.stream), conn.stream, old(sink.data), sink.data)
      ensures sink.reliable && old(sink.Clean()) ==> n >= 0 && sink.Clean()
    {
      ghost var s, out := conn.stream, sink.data;
      n := 0;
      var available := conn.Available();
      if available > 0 {
        var readBytes := available;
        if len > 0 && readBytes > len {
          readBytes := len;
        }
        if readBytes > buffSize {
          readBytes := buffSize;
        }
        var buff := conn.ReadBytes(readBytes);
        assert buff == s[..readBytes];
        n := WritePiece(sink, buff);
        if n < 0 {
          PartCopied(buff, s, conn.stream, out, sink.data);
        }
      }
    }

    /** writeToStreamDataBlock. A size of -1 means up to the end of the connection. A result that
        is not negative is the number of bytes moved from the connection to the sink; without a size it
        means that the connection has ended. */
    method WriteDataBlock(sink: Sink, size: int) returns (rc: int)
      modifies this`starved, conn, sink
      ensures conn.patience <= old(conn.patience) && |conn.stream| <= |old(conn.stream)| && conn.cuts == old(conn.cuts)
      ensures rc >= 0 ==>
                && Copied(old(conn.stream), conn.stream, old(sink.data), sink.data, rc)
                && (size > 0 ==> rc == size) && (size == 0 || size < -1 ==> rc == 0)
                && (size == -1 ==> conn.lost)
      ensures rc < 0 ==> CopiedPart(old(conn.stream), conn.stream, old(sink.data), sink.data)
      ensures rc < 0 ==> rc == -10 || (rc == -8 && starved)
      ensures size > 0 ==> |old(conn.stream)| - |conn.stream| <= size
      ensures rc < 0 ==> starved || conn.lost || !sink.reliable || !old(sink.Clean())
      ensures old(conn.lost) ==> conn.lost
      ensures old(starved) ==> starved
      ensures sink.reliable && old(sink.Clean()) ==> sink.Clean()
    {
      hide Copied, CopiedPart;
      ghost var start, out := conn.stream, sink.data;
      NoneCopied(start, out);
      var buffSize := if 0 < size < BUFFER_SIZE then size else BUFFER_SIZE;
      var len, bytesWritten: int := size, 0;
      var noMemory: bool := *;
      if noMemory {
        starved := true;
        CopiedIsPart(start, start, out, out, 0);
        return TOO_LESS_RAM;
      }
      var up := conn.Connected();
      while up && (len > 0 || len == -1)
        invariant conn.patience <= old(conn.patience) && |conn.stream| <= |start| && conn.cuts == old(conn.cuts)
        invariant Copied(start, conn.stream, out, sink.data, bytesWritten)
        invariant bytesWritten == |start| - |conn.stream|
        invariant len == if size > 0 then size - bytesWritten else size
        invariant size > 0 ==> len >= 0
        invariant size == 0 || size < -1 ==> bytesWritten == 0
        invariant if up then conn.lost == old(conn.lost) else conn.lost
        invariant starved == old(starved)
        invariant sink.reliable && old(sink.Clean()) ==> sink.Clean()
        decreases conn.patience, up
      {
        ghost var s, before := conn.stream, sink.data;
        var n := CopySome(sink, len, buffSize);
        if n < 0 {
          CopiedThenPart(start, s, conn.stream, out, before, sink.data, bytesWritten);
          return STREAM_WRITE;
        }
        CopiedTwice(start, s, conn.stream, out, before, sink.data, bytesWritten, n);
        bytesWritten := bytesWritten + n;
        if len > 0 {
          len := len - n;
        }
        up := conn.Connected();
      }
      if size > 0 && size != bytesWritten {
        CopiedIsPart(start, conn.stream, out, sink.data, bytesWritten);
        return STREAM_WRITE;
      }
      rc := bytesWritten;
    }

    /** The data of one chunk and the CRLF behind it. */
    method CopyChunk(sink: Sink, len: int) returns (r: int)
      requires len > 0
      modifies this`starved, conn, sink
      ensures conn.patience <= old(conn.patience) && conn.cuts == old(conn.cuts)
      ensures r >= 0 ==>
                && HasChunk(old(conn.stream), len) && r == len
                && sink.data == old(sink.data) + old(conn.stream)[..len]
                && conn.stream == old(conn.stream)[len + 2..]
      ensures r < 0 && HasChunk(old(conn.stream), len) ==>
                PartOf(old(conn.stream)[..len], old(sink.data), sink.data)
      ensures r < 0 && HasChunk(old(conn.stream), len) ==>
                starved || conn.lost || !sink.reliable || !old(sink.Clean())
      ensures old(conn.lost) ==> conn.lost
      ensures old(starved) ==> starved
      ensures sink.reliable && old(sink.Clean()) ==> sink.Clean()
      ensures r < 0 ==> r == -10 || r == -11 || (r == -8 && starved)
    {
      ghost var rest, out := conn.stream, sink.data;
      r := WriteDataBlock(sink, len);
      if r < 0 {
        if HasChunk(rest, len) {
          PartWithin(rest, conn.stream, out, sink.data, len);
        }
        return;
      }
      assert rest[..len][..len] == rest[..len];
      ghost var tail := conn.stream;
      assert HasChunk(rest, len) ==> tail[..2] == [CR, LF];
      var crlf := conn.ReadBytes(2);
      assert crlf == tail[..|crlf|];
      if |crlf| != 2 || crlf[0] != CR || crlf[1] != LF {
        return READ_TIMEOUT;
      }
      assert rest[len..len + 2] == tail[..2] == [CR, LF];
      assert tail[2..] == rest[len + 2..];
    }

    /** writeToStream. For every stream, every arrival schedule, with or without pauses that cut a
        chunk-size line, and every pattern of short writes: a result that is not negative means
        exactly the body was written and its length returned. With a chunked body that is the body
        decoded from the lines as they arrived, the connection is left right after the last
        chunk-size line, and the length agrees with Content-Length, or, without one, with the sum of
        the chunk sizes. Only a prefix of a good body is written on failure, and if memory,
        connection and sink served, failure means that the body was bad or its length wrong. */
    method WriteToStream(sink: Sink) returns (rc: int)
      modifies this, conn, sink
      ensures encoding == old(encoding)
      ensures encoding == Chunked && rc >= 0 ==>
                && Decode(old(conn.stream), old(conn.cuts)).Good?
                && var d := Decode(old(conn.stream), old(conn.cuts));
                   && sink.data == old(sink.data) + d.body && rc == |d.body| == size
                   && conn.stream == d.rest
                   && (if old(size) > 0 then |d.body| == old(size) else d.last == 0)
      ensures encoding == Chunked && rc < 0 && Decode(old(conn.stream), old(conn.cuts)).Good? ==>
                && PartOf(Decode(old(conn.stream), old(conn.cuts)).body, old(sink.data), sink.data)
                && var d := Decode(old(conn.stream), old(conn.cuts));
                   || (if old(size) > 0 then |d.body| != old(size) else d.last != 0)
                   || !Served(sink) || !old(sink.Clean())
      ensures encoding == Identity && rc >= 0 ==>
                && Copied(old(conn.stream), conn.stream, old(sink.data), sink.data, rc)
                && (old(size) > 0 ==> rc == old(size)) && (old(size) == -1 ==> conn.lost)
                && (old(size) == 0 || old(size) < -1 ==> rc == 0)
      ensures encoding == Identity && rc < 0 ==>
                && CopiedPart(old(conn.stream), conn.stream, old(sink.data), sink.data)
                && (!Served(sink) || !old(sink.Clean()))
      ensures encoding == Other ==> (rc == -9 || (rc == -4 && conn.lost)) && sink.data == old(sink.data)
      ensures rc < 0 ==> rc in {-4, -5, -8, -9, -10, -11}
      ensures rc == -4 || rc == -5 ==> conn.lost
      ensures rc == -8 ==> starved
    {
      hide Decode, Copied, CopiedPart, PartOf, SizeOf, LineInTime;
      ghost var all, cuts, out := conn.stream, conn.cuts, sink.data;
      NoneCopied(all, out);
      CopiedIsPart(all, all, out, out, 0);
      PrependTwice([], [], Decode(all, cuts));
      var up := conn.Connected();
      if !up {
        PartSoFar(out, [], Decode(all, cuts));
        return NOT_CONNECTED;
      }
      var len: int := size;
      var ret: int := 0;
      if encoding == Identity {
        ret := WriteDataBlock(sink, len);
        return ret;
      }
      if encoding == Other {
        return ENCODING;
      }
      var sum: int := 0;
      ghost var body: bytes := [];
      while true
        invariant encoding == old(encoding) && size == old(size)
        invariant sum == ret == |body| && sink.data == out + body
        invariant Decode(all, cuts) == Prepend(body, Decode(conn.stream, conn.cuts))
        invariant sink.reliable && old(sink.Clean()) ==> sink.Clean()
        decreases conn.patience
      {
        PartSoFar(out, body, Decode(conn.stream, conn.cuts));
        up := conn.Connected();
        if !up {
          return CONNECTION_LOST;
        }
        ghost var s, later := conn.stream, conn.cuts;
        var header := conn.ReadLine();
        DecodeStep(s, later);
        if header == [] {
          return READ_TIMEOUT;
        }
        len := SizeOf(header);
        sum := sum + len;
        if len > 0 {
          ghost var rest := conn.stream;
          var r := CopyChunk(sink, len);
          if r < 0 {
            if HasChunk(rest, len) {
              PartOfChunk(out, body, sink.data, rest[..len], Decode(rest[len + 2..], conn.cuts));
            }
            return r;
          }
          ret := ret + r;
          PrependTwice(body, rest[..len], Decode(conn.stream, conn.cuts));
          assert out + body + rest[..len] == out + (body + rest[..len]);
          body := body + rest[..len];
        } else {
          assert body + [] == body;
          if size <= 0 {
            size := sum;
          }
          if ret != size {
            return STREAM_WRITE;
          }
          break;
        }
      }
      rc := ret;
    }
  }

  lemma PartWithin(s: bytes, s': bytes, out: bytes, out': bytes, len: int)
    requires 0 < len <= |s| && CopiedPart(s, s', out, out') && |s| - |s'| <= len
    ensures PartOf(s[..len], out, out')
  {
    var x := s[..|s| - |s'|];
    var k: nat :| k <= |x| && out' == out + x[..k];
    assert x[..k] == s[..len][..k];
  }

  /** What has been written so far is part of the body that is still to be seen. */
  lemma PartSoFar(out: bytes, body: bytes, d: Decoded)
    ensures Prepend(body, d).Good? ==> PartOf(Prepend(body, d).body, out, out + body)
  {
    if d.Good? {
      assert (body + d.body)[..|body|] == body;
    }
  }

  lemma PartOfChunk(out: bytes, body: bytes, out': bytes, chunk: bytes, d: Decoded)
    requires PartOf(chunk, out + body, out')
    ensures var whole := Prepend(body, Prepend(chunk, d));
            whole.Good? ==> PartOf(whole.body, out, out')
  {
    if d.Good? {
      var k: nat :| k <= |chunk| && out' == out + body + chunk[..k];
      var whole := body + (chunk + d.body);
      assert whole[..|body| + k] == body + chunk[..k];
      assert out' == out + whole[..|body| + k];
    }
  }

  /** The verdict on a body of which `body` has already been read. */
  ghost function Prepend(body: bytes, d: Decoded): Decoded {
    match d
    case Bad => Bad
    case Good(b, rest, last) => Good(body + b, rest, last)
  }

  lemma PrependTwice(x: bytes, y: bytes, d: Decoded)
    ensures Prepend(x, Prepend(y, d)) == Prepend(x + y, d)
    ensures Prepend([], d) == d
  {
    if d.Good? {
      assert x + (y + d.body) == x + y + d.body;
      assert [] + d.body == d.body;
    }
  }

  /** One chunk-size line of the reader. */
  lemma DecodeStep(s: bytes, cuts: seq<nat>)
    ensures var (line, rest) := LineInTime(s, cuts);
            var n := SizeOf(line);
            Decode(s, cuts) ==
            if line == [] then Bad
            else if n <= 0 then Good([], rest, n)
            else if !HasChunk(rest, n) then Bad
            else Prepend(rest[..n], Decode(rest[n + 2..], Later(cuts)))
  {
    hide SizeOf, LineInTime;
  }

  /** `n` bytes have moved from the front of the stream to the end of the sink. */
  ghost predicate Copied(s: bytes, s': bytes, out: bytes, out': bytes, n: int) {
    0 <= n <= |s| && s' == s[n..] && out' == out + s[..n]
  }

  /** Some prefix of what was taken from the stream has reached the sink. */
  ghost predicate CopiedPart(s: bytes, s': bytes, out: bytes, out': bytes) {
    |s'| <= |s| && s' == s[|s| - |s'|..] && PartOf(s[..|s| - |s'|], out, out')
  }

  ghost predicate PartOf(x: bytes, out: bytes, out': bytes) {
    exists k: nat :: k <= |x| && out' == out + x[..k]
  }

  lemma NoneCopied(s: bytes, out: bytes)
    ensures Copied(s, s, out, out, 0)
  {
  }

  lemma CopiedIsPart(s: bytes, s': bytes, out: bytes, out': bytes, n: int)
    requires Copied(s, s', out, out', n)
    ensures CopiedPart(s, s', out, out') && |s| - |s'| == n
  {
    assert s[..n][..n] == s[..n];
  }

  lemma PartCopied(buff: bytes, s: bytes, s': bytes, out: bytes, out': bytes)
    requires buff <= s && s' == s[|buff|..] && PartOf(buff, out, out')
    ensures CopiedPart(s, s', out, out')
  {
    assert s[..|s| - |s'|] == buff;
  }

  lemma CopiedTwice(s: bytes, s1: bytes, s2: bytes, out: bytes, out1: bytes, out2: bytes, m: int, n: int)
    requires Copied(s, s1, out, out1, m) && Copied(s1, s2, out1, out2, n)
    ensures Copied(s, s2, out, out2, m + n) && |s| - |s2| == m + n
  {
    assert s[..m] + s1[..n] == s[..m + n];
  }

  lemma CopiedThenPart(s: bytes, s1: bytes, s2: bytes, out: bytes, out1: bytes, out2: bytes, m: int)
    requires Copied(s, s1, out, out1, m) && CopiedPart(s1, s2, out1, out2)
    ensures CopiedPart(s, s2, out, out2) && |s| - |s1| == m
  {
    var n := |s1| - |s2|;
    var k: nat :| k <= n && out2 == out1 + s1[..n][..k];
    TakeTwice(s, m, n, k);
    assert out2 == out + (s[..m] + s[m..][..n][..k]);
  }

  lemma TakeTwice(s: bytes, m: nat, n: nat, k: nat)
    requires m + n <= |s| && k <= n
    ensures s[..m] + s[m..][..n][..k] == s[..m + n][..m + k] && s[m..][n..] == s[m + n..]
  {
  }

  /** The whole result for a sender that keeps to the format: for every body, every partition of it
      into chunks, every spelling of the sizes and every schedule, a success delivers exactly what
      the lines as they arrived announce. If no chunk-size line is cut by the timeout that is exactly
      the body, and it is a success unless memory, connection or sink let the client down. */
  method DownloadChunked(chunks: seq<Chunk>, lastSize: bytes, lastExtension: bytes, after: bytes,
                         patience: nat, cuts: seq<nat>, reliable: bool)
    returns (rc: int, out: bytes, left: bytes, ghost served: bool)
    requires forall i :: 0 <= i < |chunks| ==>
               chunks[i].data != [] && Spells(chunks[i].size, chunks[i].extension, |chunks[i].data|)
    requires Spells(lastSize, lastExtension, 0)
    ensures var all := Encode(chunks, lastSize, lastExtension) + after;
            && (rc >= 0 ==> Decode(all, cuts) == Good(out, left, 0) && rc == |out|)
            && (rc < 0 && Decode(all, cuts).Good? && Decode(all, cuts).last == 0 ==>
                  !served && out <= Decode(all, cuts).body)
            && (Uncut(all, cuts) ==>
                  && (rc >= 0 ==> out == Join(chunks) && left == after)
                  && (rc < 0 ==> !served && out <= Join(chunks)))
  {
    hide Decode, Encode, Spells, Uncut;
    var stream := Encode(chunks, lastSize, lastExtension) + after;
    DecodeEncode(chunks, lastSize, lastExtension, after);
    if Uncut(stream, cuts) {
      DecodeUncut(stream, cuts);
    }
    var conn := new Connection(stream, patience, cuts);
    var sink := new Sink(reliable);
    var client := new HttpClient(conn, -1, Chunked);
    rc := client.WriteToStream(sink);
    out, left, served := sink.data, conn.stream, client.Served(sink);
    ghost var d := Decode(stream, cuts);
    if d.Good? {
      assert [] + d.body == d.body;
    }
  }

  /** A success that is wrong: the size line "1A" comes with a pause after the "1", and its chunk
      starts with "0" and LF. If everything is served, the result is one byte instead of 26. */
  method DownloadCut(x: bytes, patience: nat) returns (rc: int, out: bytes, ghost served: bool)
    requires |x| == 24
    ensures served ==> rc == 1 && out == [65]
    ensures rc >= 0 ==> rc == 1 && out == [65]
  {
    hide Decode, Encode, Spells, Uncut;
    CutSizeLine(x, []);
    Digits();
    var left;
    var chunks := [Chunk([49, 65], [], [48, LF] + x)];
    rc, out, left, served := DownloadChunked(chunks, [48], [], [], patience, [1], true);
  }

  /** The same for a sender that writes the sizes in hexadecimal digits: when no chunk-size line is cut, the
      client delivers the concatenation of the chunks. */
  method DownloadHex(bodies: seq<bytes>, upper: bool, after: bytes, patience: nat, cuts: seq<nat>, reliable: bool)
    returns (rc: int, out: bytes, left: bytes, ghost served: bool)
    requires forall i :: 0 <= i < |bodies| ==> 0 < |bodies[i]| <= INT_MAX
    requires Uncut(EncodePlain(bodies, upper) + after, cuts)
    ensures rc >= 0 ==> out == Concat(bodies) && rc == |out| && left == after
    ensures rc < 0 ==> !served && out <= Concat(bodies)
  {
    hide Decode, Encode, Spells, Uncut;
    Digits();
    forall i | 0 <= i < |bodies| ensures Spells(ToHex(|bodies[i]|, upper), [], |bodies[i]|) {
      PlainSpells(|bodies[i]|, upper);
    }
    PlainIsEncode(bodies, upper);
    rc, out, left, served := DownloadChunked(PlainChunks(bodies, upper), [48], [], after, patience, cuts, reliable);
  }
}
