/**
 The FTP control connection: lines and replies read through a 512-byte buffer (section 4.2 of
 RFC 959), and text written with CRLF line ends.
 */
module FtpLines {
  import opened Bytes

  const LF: byte := 10
  const CR: byte := 13
  const DASH: byte := 45
  const SPACE: byte := 32
  const BUFSIZ: nat := 512
  const RESPONSE_BUFSIZ: nat := 512

  const CONTROL: int := 0
  const READ: int := 1
  const WRITE: int := 2

  lemma FtpNumbers()
    ensures LF == 10 && CR == 13 && DASH == 45 && SPACE == 32 && BUFSIZ == 512 && RESPONSE_BUFSIZ == 512
    ensures CONTROL == 0 && READ == 1 && WRITE == 2
  {
  }

  /** The bytes up to and including the first LF; all of them when there is none. */
  function FirstLine(p: bytes): (l: bytes)
    ensures l <= p
  {
    if p == [] then [] else if p[0] == LF then [LF] else [p[0]] + FirstLine(p[1..])
  }

  lemma {:induction false} FirstLineIs(p: bytes, k: nat)
    requires k < |p| && p[k] == LF && LF !in p[..k]
    ensures FirstLine(p) == p[..k + 1]
  {
    if k > 0 {
      assert p[0] == p[..k][0];
      assert p[1..][..k - 1] == p[..k][1..];
      FirstLineIs(p[1..], k - 1);
      assert [p[0]] + p[1..][..k] == p[..k + 1];
    }
  }

  lemma {:induction false} FirstLineEnds(p: bytes)
    requires LF in p
    ensures var l := FirstLine(p); l != [] && l[|l| - 1] == LF && LF !in l[..|l| - 1]
  {
    if p[0] != LF {
      FirstLineEnds(p[1..]);
      var t := FirstLine(p[1..]);
      assert FirstLine(p)[..|t|] == [p[0]] + t[..|t| - 1];
    }
  }

  /** A line as the caller gets it: CRLF turned into LF. */
  function Converted(l: bytes): bytes {
    if |l| >= 2 && l[|l| - 2..] == [CR, LF] then l[..|l| - 2] + [LF] else l
  }

  /** The next line, or what there is without a line end, fits the caller's buffer with its NUL;
      and a line has a character before its LF. */
  predicate Fits(p: bytes, max: nat) {
    if LF in p then 2 <= |FirstLine(p)| < max else |p| < max
  }

  /** The socket: a read gives any number of the bytes asked for, none only at the end of the
      stream, or fails. */
  class Socket {
    var stream: bytes
    var sent: bytes
    ghost var failures: nat

    constructor (stream: bytes)
      ensures this.stream == stream && sent == [] && failures == 0
    {
      this.stream, sent, failures := stream, [], 0;
    }

    method Read(buf: array<byte>, at: nat, count: nat) returns (n: int)
      requires at + count <= buf.Length && count > 0
      modifies this, buf
      ensures sent == old(sent) && -1 <= n <= count && n <= |old(stream)|
      ensures n == -1 ==> failures == old(failures) + 1 && stream == old(stream) && buf[..] == old(buf[..])
      ensures n >= 0 ==>
                && failures == old(failures)
                && stream == old(stream)[n..] && buf[..] == Put(old(buf[..]), at, old(stream)[..n])
      ensures n == 0 ==> stream == []
    {
      var fails: bool := *;
      if fails {
        failures := failures + 1;
        return -1;
      }
      n := 0;
      if stream != [] {
        n :| 1 <= n <= count && n <= |stream|;
      }
      Copy(buf, at, stream[..n]);
      stream := stream[n..];
    }

    /** A write takes all of the bytes, or reports fewer. */
    method Write(x: bytes) returns (n: int)
      modifies this
      ensures stream == old(stream) && n <= |x|
      ensures n == |x| ==> failures == old(failures) && sent == old(sent) + x
      ensures n < |x| ==> failures == old(failures) + 1 && old(sent) <= sent <= old(sent) + x
    {
      var fails: bool := *;
      var k: nat := |x|;
      if fails && x != [] {
        k :| k < |x|;
        failures := failures + 1;
      }
      sent := sent + x[..k];
      assert x[..|x|] == x;
      n := k;
    }
  }

  /** The module's own memccpy: copies up to and including the first `c`, at most `count` bytes;
      `n` of them. */
  method MemCCpy(dest: array<byte>, at: nat, src: array<byte>, from: nat, c: byte, count: nat)
    returns (found: bool, n: nat)
    requires dest != src && at + count <= dest.Length && from + count <= src.Length
    modifies dest
    ensures var s := src[from..from + count];
            && n <= count && dest[..] == Put(old(dest[..]), at, s[..n])
            && (if found then n > 0 && s[n - 1] == c && c !in s[..n - 1] else n == count && c !in s)
  {
    hide Put;
    ghost var before, s := dest[..], src[from..from + count];
    n := 0;
    PutNothing(before, at);
    while n < count
      invariant 0 <= n <= count && c !in s[..n]
      invariant dest[..] == Put(before, at, s[..n])
    {
      PutPut(before, at, s[..n], [s[n]]);
      assert s[..n] + [s[n]] == s[..n + 1];
      WriteByte(dest, at + n, src[from + n]);
      n := n + 1;
      if src[from + n - 1] == c {
        assert s[..n - 1] == s[..n][..n - 1];
        return true, n;
      }
    }
    assert s[..n] == s;
    found := false;
  }

  /** The bytes `from..to` of a buffer, up to the first LF or as many as there is room for, are moved behind
      the first `at` of a line, and a NUL behind them. */
  method MovePiece(line: array<byte>, at: nat, left: nat, buf: array<byte>, from: nat, to: nat)
    returns (found: bool, n: nat)
    requires line != buf && at + left <= line.Length && from < to <= buf.Length
    requires 0 < left && (to - from < left || LF in buf[from..to][..left - 1])
    modifies line
    ensures var got := buf[from..to];
            && n < left && n <= |got| && line[..at + n] == old(line[..at]) + got[..n] && line[at + n] == 0
            && (if found then n > 0 && got[n - 1] == LF && LF !in got[..n - 1] else n == |got| && LF !in got)
  {
    hide Put;
    ghost var before, got := line[..], buf[from..to];
    var x := if left >= to - from then to - from else left - 1;
    Slice(buf[..], from, to, x);
    assert buf[from..from + x] == got[..x];
    found, n := MemCCpy(line, at, buf, from, LF, x);
    PieceOf(got, left, x, found, n);
    PutFront(before, at, got[..n]);
    WriteNul(line, at + n);
  }

  /** FTPClientBase. The buffer has one cell more than FTPLIB_BUFSIZ, for the terminator that
      readLine puts behind a full buffer. */
  class FtpBase {
    const socket: Socket
    const buf: array<byte>
    const response: array<byte>
    var cput: nat
    var cget: nat
    var cavail: nat
    var cleft: nat
    var dir: int

    constructor (socket: Socket, dir: int)
      ensures this.socket == socket && this.dir == dir && Valid() && cavail == 0
      ensures fresh(buf) && fresh(response) && Pending() == socket.stream
    {
      this.socket, this.dir := socket, dir;
      buf := new byte[BUFSIZ + 1];
      response := new byte[RESPONSE_BUFSIZ];
      cput, cget, cavail, cleft := 0, 0, 0, 0;
    }

    ghost predicate Valid()
      reads this
    {
      && buf != response && buf.Length == BUFSIZ + 1 && response.Length == RESPONSE_BUFSIZ
      && cget <= cput <= BUFSIZ && cput - cget == cavail
    }

    /** What has not been returned yet: the buffered bytes and those still in the socket. */
    ghost function Pending(): bytes
      requires Valid()
      reads this, buf, socket
    {
      buf[cget..cput] + socket.stream
    }

    /** One refill: with nothing buffered, the next fragment of the stream. */
    method Refill() returns (x: int)
      requires Valid() && cavail == 0 && cput == cget
      modifies this, buf, socket
      ensures Valid() && dir == old(dir) && socket.sent == old(socket.sent)
      ensures x == -1 ==> socket.failures > old(socket.failures)
      ensures x != -1 ==> socket.failures == old(socket.failures) && Pending() == old(Pending()) && cavail == x
      ensures x != -1 ==> |old(socket.stream)| == x + |socket.stream|
      ensures x == 0 ==> socket.stream == []
    {
      cput, cget := 0, 0;
      cavail := 0;
      cleft := BUFSIZ;
      ghost var s := socket.stream;
      x := socket.Read(buf, cput, cleft);
      if x == -1 {
        return;
      }
      assert buf[..x] == s[..x];
      cleft := cleft - x;
      cavail := cavail + x;
      cput := cput + x;
      buf[cavail] := 0;
      assert buf[..x] == s[..x];
      assert s[..x] + s[x..] == s;
    }

    /** The buffered bytes, as far as the line goes, are moved to the caller's buffer. */
    method TakePiece(line: array<byte>, bp: nat, left: nat) returns (found: bool, x: nat)
      requires Valid() && line != buf && bp + left <= line.Length
      requires 0 < left && 0 < cavail && (cavail < left || LF in buf[cget..cget + left - 1])
      modifies this`cget, this`cavail, line
      ensures Valid() && x < left
      ensures var got := buf[old(cget)..cput];
              && x <= |got| && cget == old(cget) + x
              && line[..bp + x] == old(line[..bp]) + got[..x] && line[bp + x] == 0
              && (found ==> x > 0 && got[x - 1] == LF && LF !in got[..x - 1])
              && (!found ==> x == |got| && LF !in got)
    {
      hide Put;
      if cavail >= left {
        Slice(buf[..], cget, cput, left - 1);
        assert buf[cget..cput][..left - 1] == buf[cget..cget + left - 1];
      }
      found, x := MovePiece(line, bp, left, buf, cget, cput);
      cget := cget + x;
      cavail := cavail - x;
    }

    /** The same, on the whole of what was pending when the line was begun. */
    method NextPiece(line: array<byte>, bp: nat, left: nat, ghost p: bytes) returns (found: bool, x: nat)
      requires Valid() && line != buf && bp + left <= line.Length && 0 < cavail
      requires Fits(p, bp + left) && Copying(p, bp, line[..], Pending())
      modifies this`cget, this`cavail, line
      ensures Valid() && x < left && cavail + x == old(cavail) && bp + x <= |p|
      ensures !found ==> Copying(p, bp + x, line[..], Pending()) && cavail == 0
      ensures found ==> Copied(p, bp + x, line[..], Pending())
    {
      hide FirstLine, Fits;
      ghost var got, before := buf[cget..cput], line[..];
      LineInPiece(p, bp, bp + left, got, socket.stream);
      if cavail >= left {
        Slice(buf[..], cget, cput, left - 1);
        assert buf[cget..cget + left - 1] == got[..left - 1];
      }
      assert before[..bp] == line[..bp];
      found, x := TakePiece(line, bp, left);
      PieceTaken(p, bp, got, socket.stream, x);
      assert buf[cget..cput] == got[x..];
      PieceCopied(p, bp, got, socket.stream, before, line[..], x, found);
    }

    /** The copied line loses the CR before its LF. */
    method EndLine(line: array<byte>, bp: nat, ghost p: bytes, ghost now: bytes, ghost max: nat) returns (retval: nat)
      requires Copied(p, bp, line[..], now) && 2 <= bp
      modifies line
      ensures Got(p, max, retval, line[..], now)
    {
      hide FirstLine;
      retval := bp;
      ghost var l := line[..bp];
      if line[bp - 2] == CR && line[bp - 1] == LF {
        assert l[bp - 2..] == [CR, LF];
        line[bp - 2] := LF;
        line[bp - 1] := 0;
        retval := retval - 1;
        assert line[..retval] == l[..bp - 2] + [LF];
      }
    }

    /** readLine. Unless the socket fails, and however the stream is fragmented, the next line is
        returned with CRLF turned into LF and a NUL behind it, and exactly that line is gone;
        without a line end, the rest of the stream is returned, or -1 when there is none. Such a
        rest that fills the caller's buffer is counted, but blanked. */
    method ReadLine(line: array<byte>, max: nat) returns (retval: int)
      requires Valid() && max <= line.Length && line != buf
      requires Fits(Pending(), max)
      modifies this, buf, socket, line
      ensures Valid() && dir == old(dir) && socket.sent == old(socket.sent)
      ensures dir != CONTROL && dir != READ ==> retval == -1 && Pending() == old(Pending())
      ensures socket.failures > old(socket.failures) ==> retval == -1
      ensures socket.failures >= old(socket.failures)
      ensures (dir == CONTROL || dir == READ) && socket.failures == old(socket.failures) ==>
                Got(old(Pending()), max, retval, line[..], Pending())
    {
      hide Copying, Copied, Got, Pending, Fits;
      ghost var p := Pending();
      retval := 0;
      if dir != CONTROL && dir != READ {
        return -1;
      }
      CopyingStarts(p, line[..]);
      var bp := 0;
      var left := max;
      var eof := false;
      while true
        invariant Valid() && dir == old(dir) && socket.sent == old(socket.sent)
        invariant socket.failures == old(socket.failures)
        invariant retval == bp <= |p| && left == max - bp
        invariant Copying(p, bp, line[..], Pending())
        invariant eof ==> cavail == 0 && socket.stream == []
        decreases |p| - bp, |socket.stream|, !eof
      {
        Room(p, bp, max, line[..], Pending());
        if cavail > 0 {
          var found, x := NextPiece(line, bp, left, p);
          retval := retval + x;
          bp := bp + x;
          left := left - x;
          if found {
            CopiedSize(p, bp, max, line[..], Pending());
            retval := EndLine(line, bp, p, Pending(), max);
            return;
          }
          Room(p, bp, max, line[..], Pending());
        }
        if left == 1 {
          Room(p, bp, max, line[..], Pending());
          line[0] := 0;
          GotFull(p, bp, max, line[..], Pending());
          break;
        }
        if eof {
          assert Pending() == [] by { PendingNothing(); }
          if retval == 0 {
            retval := -1;
          }
          GotRest(p, bp, max, retval, line[..], Pending());
          break;
        }
        var x := Refill();
        if x == -1 {
          retval := -1;
          break;
        }
        if x == 0 {
          eof := true;
        }
      }
    }

    /** The rest of a multi-line reply: lines are read until one starts with the same three
        characters and a space. */
    method SkipToClosing(ghost lines: seq<bytes>, ghost rest: bytes) returns (closed: bool)
      requires Valid() && dir == CONTROL
      requires IsReply(lines) && Opens(lines[0]) && Pending() == Wire(lines[1..]) + rest
      requires response[..3] == lines[0][..3]
      modifies this, buf, response, socket
      ensures Valid() && dir == CONTROL && socket.failures >= old(socket.failures)
      ensures !closed ==> socket.failures > old(socket.failures)
      ensures closed ==> socket.failures == old(socket.failures)
      ensures closed ==>
                var last := lines[|lines| - 1];
                && Pending() == rest && response[0] == lines[0][0]
                && response[..|last| + 2] == last + [LF, 0]
    {
      hide Wire, FirstLine, Got, Fits, Pending, IsReply, Opens, Closes, LineOk;
      ReplyStarts(lines);
      var pattern := response[..3] + [SPACE];
      ghost var k := 0;
      while true
        invariant Valid() && dir == CONTROL && socket.failures == old(socket.failures)
        invariant 0 <= k < |lines| - 1 && Pending() == Wire(lines[k + 1..]) + rest
        decreases |lines| - k
      {
        k := k + 1;
        ghost var line := lines[k];
        ReplyLine(lines, k);
        WireLine(lines[k..], rest);
        var n := ReadLine(response, RESPONSE_BUFSIZ);
        GotOk(lines[k..], rest, n, response[..], Pending());
        if n == -1 {
          return false;
        }
        EndsTest(lines[0], line, response[..]);
        if response[..4] == pattern {
          NoLines(rest);
          return true;
        }
      }
    }

    /** readResp. Unless the socket fails, and however the stream is fragmented, exactly the lines
        of one reply are consumed, single- or multi-line, and what follows is left untouched; the
        result tells whether the reply starts with `c`. */
    method ReadResp(c: byte, ghost lines: seq<bytes>, ghost rest: bytes) returns (rc: int)
      requires Valid() && dir == CONTROL
      requires IsReply(lines) && Pending() == Wire(lines) + rest
      modifies this, buf, response, socket
      ensures Valid() && dir == CONTROL
      ensures socket.failures > old(socket.failures) ==> rc == 0
      ensures socket.failures == old(socket.failures) ==>
                && Pending() == rest
                && rc == (if lines[0][0] == c then 1 else 0)
                && var last := lines[|lines| - 1];
                   response[..|last| + 2] == last + [LF, 0]
    {
      hide Wire, FirstLine, Got, Fits, Pending;
      WireLine(lines, rest);
      assert lines[0..] == lines;
      var n := ReadLine(response, RESPONSE_BUFSIZ);
      GotOk(lines, rest, n, response[..], Pending());
      if n == -1 {
        return 0;
      }
      FirstChars(lines[0], response[..]);
      if response[3] == DASH {
        var closed := SkipToClosing(lines, rest);
        if !closed {
          return 0;
        }
        rc := if response[0] == c then 1 else 0;
        return;
      }
      assert lines[1..] == [];
      NoLines(rest);
      rc := if response[0] == c then 1 else 0;
    }

    /** One byte into the buffer, which is written out first when it is full. */
    method Emit(nb: nat, c: byte) returns (ok: bool, next: nat)
      requires Valid() && nb <= BUFSIZ
      modifies buf, socket
      ensures ok ==>
                && next <= BUFSIZ && old(socket.sent) <= socket.sent && socket.failures == old(socket.failures)
                && socket.sent + buf[..next] == old(socket.sent + buf[..nb]) + [c]
      ensures !ok ==>
                && socket.failures > old(socket.failures)
                && old(socket.sent) <= socket.sent <= old(socket.sent + buf[..nb])
    {
      next := nb;
      ghost var sent, pending := socket.sent, buf[..nb];
      if next == BUFSIZ {
        var w := socket.Write(buf[..BUFSIZ]);
        if w != BUFSIZ {
          return false, next;
        }
        next := 0;
      }
      buf[next] := c;
      next := next + 1;
      assert buf[..next] == (if nb == BUFSIZ then [] else pending) + [c];
      ok := true;
    }

    /** One character of the text: a CR before a bare LF, then the character. */
    method EmitText(nb: nat, c: byte, lc: byte) returns (ok: bool, next: nat)
      requires Valid() && nb <= BUFSIZ
      modifies buf, socket
      ensures ok ==>
                && next <= BUFSIZ && old(socket.sent) <= socket.sent && socket.failures == old(socket.failures)
                && socket.sent + buf[..next] == old(socket.sent + buf[..nb]) + OnWire(c, lc)
      ensures !ok ==>
                && socket.failures > old(socket.failures)
                && old(socket.sent) <= socket.sent <= old(socket.sent + buf[..nb]) + OnWire(c, lc)
    {
      next := nb;
      ghost var all := socket.sent + buf[..nb];
      if c == LF && lc != CR {
        ok, next := Emit(next, CR);
        if !ok {
          return;
        }
        assert all + [CR] + [c] == all + OnWire(c, lc);
      }
      ok, next := Emit(next, c);
    }

    /** writeLine. Wherever the buffer happens to be flushed, exactly the converted text is sent;
        a prefix of it when the socket takes too little. */
    method WriteLine(text: bytes) returns (rc: int)
      requires Valid()
      modifies buf, socket
      ensures dir != WRITE ==> rc == -1 && socket.sent == old(socket.sent)
      ensures dir == WRITE && socket.failures == old(socket.failures) ==>
                rc == |text| && socket.sent == old(socket.sent) + Crlf(text, 0)
      ensures dir == WRITE && socket.failures > old(socket.failures) ==>
                rc == -1 && old(socket.sent) <= socket.sent <= old(socket.sent) + Crlf(text, 0)
    {
      hide Crlf, OnWire;
      if dir != WRITE {
        return -1;
      }
      var nb: nat, x: nat, lc: byte := 0, 0, 0;
      ghost var sent0, whole, done: bytes := socket.sent, Crlf(text, 0), [];
      assert text[0..] == text;
      assert socket.sent + buf[..0] == sent0 + done;
      while x < |text|
        invariant Valid() && 0 <= x <= |text| && nb <= BUFSIZ
        invariant socket.failures == old(socket.failures)
        invariant sent0 <= socket.sent && socket.sent + buf[..nb] == sent0 + done
        invariant whole == done + Crlf(text[x..], lc)
      {
        CrlfStep(text, x, lc);
        ghost var before, more := socket.sent, OnWire(text[x], lc);
        var ok;
        ok, nb := EmitText(nb, text[x], lc);
        if !ok {
          SentPart(sent0, before, socket.sent, done + more, whole);
          return -1;
        }
        done := done + more;
        lc := text[x];
        x := x + 1;
      }
      CrlfNothing(lc);
      assert text[x..] == [];
      assert whole == done;
      if nb > 0 {
        ghost var before := socket.sent;
        var w := socket.Write(buf[..nb]);
        if w != nb {
          SentPart(sent0, before, socket.sent, done, whole);
          return -1;
        }
      } else {
        assert buf[..nb] == [];
      }
      rc := |text|;
    }

    lemma PendingNothing()
      requires Valid() && cavail == 0 && socket.stream == []
      ensures Pending() == []
    {
    }
  }

  /** `bp` bytes of the line have been copied, and there is no LF among them. */
  ghost predicate Copying(p: bytes, bp: nat, line: bytes, now: bytes) {
    && bp <= |p| && bp <= |line|
    && LF !in p[..bp] && line[..bp] == p[..bp] && now == p[bp..]
  }

  /** The line has been copied up to and including its LF, with a NUL behind it. */
  ghost predicate Copied(p: bytes, bp: nat, line: bytes, now: bytes) {
    && bp <= |p| && bp < |line|
    && LF in p && FirstLine(p) == p[..bp] && 0 < bp && p[bp - 1] == LF
    && line[..bp] == p[..bp] && line[bp] == 0 && now == p[bp..]
  }

  lemma CopyingStarts(p: bytes, line: bytes)
    ensures Copying(p, 0, line, p)
  {
  }

  lemma CopiedSize(p: bytes, bp: nat, max: nat, line: bytes, now: bytes)
    requires Copied(p, bp, line, now) && Fits(p, max)
    ensures 2 <= bp
  {
  }

  /** The outcome of reading one line when `p` was pending: `now` is pending afterwards. */
  ghost predicate Got(p: bytes, max: nat, retval: int, line: bytes, now: bytes) {
    if LF in p then
      var l := Converted(FirstLine(p));
      && retval == |l| < |line| && line[..retval] == l && line[retval] == 0
      && now == p[|FirstLine(p)|..]
    else if |p| + 1 == max then
      retval == |p| < |line| && line[0] == 0 && now == []
    else
      && retval == (if p == [] then -1 else |p|)
      && |p| <= |line| && line[..|p|] == p && now == []
  }

  lemma GotRest(p: bytes, bp: nat, max: nat, retval: int, line: bytes, now: bytes)
    requires Copying(p, bp, line, now) && now == [] && bp + 1 < max
    requires retval == if bp == 0 then -1 else bp
    ensures Got(p, max, retval, line, now)
  {
    assert p == p[..bp] + p[bp..];
  }

  lemma GotFull(p: bytes, bp: nat, max: nat, line: bytes, now: bytes)
    requires LF !in p && bp + 1 == max && |p| == bp < |line| && line[0] == 0 && now == []
    ensures Got(p, max, bp, line, now)
  {
  }

  lemma Slice(s: bytes, from: nat, to: nat, x: nat)
    requires from <= to <= |s| && x <= to - from
    ensures s[from..to][..x] == s[from..from + x]
  {
  }

  /** What is found in the part of the buffer that is searched, in terms of all of it. */
  lemma PieceOf(got: bytes, left: nat, x: nat, found: bool, n: nat)
    requires 0 < left && (|got| < left || LF in got[..left - 1])
    requires x == (if left >= |got| then |got| else left - 1) && n <= x
    requires if found then n > 0 && got[..x][n - 1] == LF && LF !in got[..x][..n - 1] else n == x && LF !in got[..x]
    ensures n < left && got[..x][..n] == got[..n]
    ensures found ==> got[n - 1] == LF && LF !in got[..n - 1]
    ensures !found ==> n == |got| && LF !in got
  {
    SliceTwice(got, x, n);
    if n > 0 {
      SliceTwice(got, x, n - 1);
    }
    if |got| >= left {
      var i :| 0 <= i < left - 1 && got[..left - 1][i] == LF;
      assert got[i] == LF && got[..x][i] == LF;
    }
  }

  lemma SliceTwice(s: bytes, x: nat, n: nat)
    requires n <= x <= |s|
    ensures s[..x][..n] == s[..n] && (n < x ==> s[..x][n] == s[n])
  {
  }

  /** *at = '\\0'. */
  method WriteNul(line: array<byte>, at: nat)
    requires at < line.Length
    modifies line
    ensures line[..at] == old(line[..at]) && line[at] == 0
  {
    line[at] := 0;
  }

  lemma PutFront(s: bytes, at: nat, x: bytes)
    requires at + |x| <= |s|
    ensures Put(s, at, x)[..at + |x|] == s[..at] + x
  {
  }

  /** While no LF has been met, there is room for what is still to come. */
  lemma Room(p: bytes, bp: nat, max: nat, line: bytes, now: bytes)
    requires Copying(p, bp, line, now) && Fits(p, max)
    ensures bp < max
    ensures bp + 1 == max ==> LF !in p && |p| == bp && now == []
  {
    RoomFor(p, bp, max);
  }

  lemma RoomFor(p: bytes, bp: nat, max: nat)
    requires bp <= |p| && LF !in p[..bp] && Fits(p, max)
    ensures LF in p ==> bp < |FirstLine(p)| < max && p[|FirstLine(p)| - 1] == LF
  {
    if LF in p {
      FirstLineEnds(p);
      var k := |FirstLine(p)| - 1;
      assert p[k] == FirstLine(p)[k];
      assert forall j :: 0 <= j < bp ==> p[..bp][j] == p[j] != LF;
    }
  }

  /** So either the buffered piece fits, or the LF is within the room that is left. */
  lemma LineInPiece(p: bytes, bp: nat, max: nat, got: bytes, stream: bytes)
    requires bp <= |p| && LF !in p[..bp] && Fits(p, max) && p[bp..] == got + stream
    ensures bp < max && (|got| < max - bp || LF in got[..max - bp - 1])
  {
    hide FirstLine;
    RoomFor(p, bp, max);
    assert |p| - bp == |got| + |stream|;
    if |got| >= max - bp {
      var k := |FirstLine(p)| - 1;
      assert got[k - bp] == p[bp..][k - bp] == p[k];
      assert got[..max - bp - 1][k - bp] == LF;
    }
  }

  /** Where the line stands after a piece of it was copied. */
  lemma PieceCopied(p: bytes, bp: nat, got: bytes, stream: bytes, before: bytes, line: bytes, x: nat, found: bool)
    requires Copying(p, bp, before, got + stream) && x <= |got| && bp + x < |line|
    requires line[..bp + x] == before[..bp] + got[..x] && line[bp + x] == 0
    requires if found then x > 0 && got[x - 1] == LF && LF !in got[..x - 1] else x == |got| && LF !in got
    ensures if found then Copied(p, bp + x, line, got[x..] + stream) else Copying(p, bp + x, line, got[x..] + stream)
  {
    hide FirstLine;
    PieceTaken(p, bp, got, stream, x);
    if found {
      assert p[bp + x - 1] == p[..bp + x][bp + x - 1] == got[..x][x - 1];
      assert p[..bp + x - 1] == p[..bp] + got[..x - 1];
      FirstLineIs(p, bp + x - 1);
    }
  }

  lemma PieceTaken(p: bytes, bp: nat, got: bytes, stream: bytes, x: nat)
    requires bp <= |p| && p[bp..] == got + stream && x <= |got|
    ensures bp + x <= |p| && p[..bp + x] == p[..bp] + got[..x]
    ensures p[bp + x..] == got[x..] + stream
  {
    assert p[bp..][..x] == got[..x];
    assert p[bp..][x..] == got[x..] + stream;
  }

  /** A line of a reply, without its CRLF. */
  predicate LineOk(l: bytes) {
    LF !in l && 0 !in l && |l| + 2 < RESPONSE_BUFSIZ
  }

  /** The lines as the server sends them. */
  function Wire(lines: seq<bytes>): bytes {
    if lines == [] then [] else lines[0] + [CR, LF] + Wire(lines[1..])
  }

  /** A line that opens a multi-line reply, and the line that closes the one opened by `first`. */
  predicate Opens(l: bytes) {
    |l| > 3 && l[3] == DASH
  }

  predicate Closes(first: bytes, l: bytes) {
    |first| >= 3 && |l| > 3 && l[..3] == first[..3] && l[3] == SPACE
  }

  /** The lines of exactly one reply. */
  predicate IsReply(lines: seq<bytes>) {
    && lines != [] && |lines[0]| >= 3
    && (forall i :: 0 <= i < |lines| ==> LineOk(lines[i]))
    && (if Opens(lines[0]) then
          && |lines| >= 2 && Closes(lines[0], lines[|lines| - 1])
          && forall i :: 1 <= i < |lines| - 1 ==> !Closes(lines[0], lines[i])
        else |lines| == 1)
  }

  /** The characters: a code with a space makes a reply of one line, a code with a dash opens one that lasts up
      to the first line with the same code and a space. */
  lemma ReplyShapes(code: bytes, text: bytes, between: seq<bytes>, last: bytes)
    requires |code| == 3 && LineOk(code + [32] + text) && LineOk(code + [45] + text) && LineOk(code + [32] + last)
    requires forall i :: 0 <= i < |between| ==> LineOk(between[i]) && !(code + [32] <= between[i])
    ensures IsReply([code + [32] + text]) && !IsReply([code + [45] + text])
    ensures IsReply([code + [45] + text] + between + [code + [32] + last])
  {
    var first, end := code + [45] + text, code + [32] + last;
    var lines := [first] + between + [end];
    assert first[..3] == code && end[..3] == code && (code + [32] + text)[..3] == code;
    assert lines[|lines| - 1] == end;
    forall i | 1 <= i < |lines| - 1 ensures !Closes(first, lines[i]) {
      var l := lines[i];
      assert l == between[i - 1];
      assert |l| >= 4 ==> l[..4] == l[..3] + [l[3]];
    }
  }

  lemma ReplyStarts(lines: seq<bytes>)
    requires IsReply(lines) && Opens(lines[0])
    ensures |lines| >= 2 && |lines[0]| >= 3 && LF !in lines[0]
  {
  }

  /** A line of a multi-line reply after the first closes it exactly when it is the last. */
  lemma ReplyLine(lines: seq<bytes>, k: nat)
    requires IsReply(lines) && Opens(lines[0]) && 1 <= k < |lines|
    ensures LineOk(lines[k]) && (Closes(lines[0], lines[k]) <==> k == |lines| - 1)
    ensures lines[k..] != [] && lines[k..][0] == lines[k] && lines[k..][1..] == lines[k + 1..]
    ensures k == |lines| - 1 ==> lines[k + 1..] == []
  {
  }

  lemma WireLine(lines: seq<bytes>, rest: bytes)
    requires lines != [] && LineOk(lines[0])
    ensures var p := Wire(lines) + rest;
            && LF in p && FirstLine(p) == lines[0] + [CR, LF] && Fits(p, RESPONSE_BUFSIZ)
            && Converted(FirstLine(p)) == lines[0] + [LF]
            && p[|FirstLine(p)|..] == Wire(lines[1..]) + rest
  {
    var l, more := lines[0], Wire(lines[1..]) + rest;
    var p := Wire(lines) + rest;
    assert p == l + [CR, LF] + more;
    assert p[..|l| + 1] == l + [CR] && p[|l| + 1] == LF;
    FirstLineIs(p, |l| + 1);
    assert p[..|l| + 2] == l + [CR, LF];
  }

  lemma GotOk(lines: seq<bytes>, rest: bytes, n: int, line: bytes, now: bytes)
    requires lines != [] && LineOk(lines[0])
    ensures Got(Wire(lines) + rest, RESPONSE_BUFSIZ, n, line, now) ==>
              && n == |lines[0]| + 1 && n + 1 <= |line| && line[..n + 1] == lines[0] + [LF, 0]
              && now == Wire(lines[1..]) + rest
  {
    hide Wire, FirstLine, Converted;
    WireLine(lines, rest);
    if Got(Wire(lines) + rest, RESPONSE_BUFSIZ, n, line, now) {
      Snoc(line, n, lines[0]);
    }
  }

  lemma Snoc(line: bytes, n: nat, l: bytes)
    requires n < |line| && line[..n] == l + [LF] && line[n] == 0
    ensures line[..n + 1] == l + [LF, 0]
  {
  }

  lemma NoLines(rest: bytes)
    ensures Wire([]) + rest == rest
  {
  }

  lemma FirstChars(l: bytes, line: bytes)
    requires |l| + 2 <= |line| && line[..|l| + 2] == l + [LF, 0] && |l| >= 3
    ensures line[..3] == l[..3] && line[0] == l[0]
    ensures line[3] == DASH <==> Opens(l)
  {
    assert line[..3] == line[..|l| + 2][..3];
    assert line[3] == line[..|l| + 2][3];
    assert line[0] == line[..|l| + 2][0];
  }

  /** The comparison of four characters finds exactly the closing line. */
  lemma EndsTest(first: bytes, l: bytes, line: bytes)
    requires |first| >= 3 && LF !in first && |line| >= 4
    requires |l| + 2 <= |line| && line[..|l| + 2] == l + [LF, 0]
    ensures line[..4] == first[..3] + [SPACE] <==> Closes(first, l)
    ensures Closes(first, l) ==> line[0] == first[0]
  {
    var w := l + [LF, 0];
    assert forall i :: 0 <= i < |w| ==> line[i] == line[..|l| + 2][i] == w[i];
    if line[..4] == first[..3] + [SPACE] {
      assert forall i :: 0 <= i < 3 ==> line[..4][i] == line[i] == first[i] != LF;
      assert line[..4][3] == line[3] == SPACE;
      assert w[|l|] == LF;
      assert |l| > 3;
      assert l[..3] == first[..3];
    }
    if Closes(first, l) {
      assert forall i :: 0 <= i < 3 ==> l[..3][i] == l[i] == first[..3][i] == first[i];
      assert line[..4] == first[..3] + [SPACE];
    }
  }

  function OnWire(c: byte, lc: byte): bytes {
    (if c == LF && lc != CR then [CR] else []) + [c]
  }

  /** Text with a CR put before each LF that has none; `lc` is the character before it. */
  function Crlf(s: bytes, lc: byte): bytes {
    if s == [] then []
    else OnWire(s[0], lc) + Crlf(s[1..], s[0])
  }

  lemma CrlfStep(s: bytes, x: nat, lc: byte)
    requires x < |s|
    ensures Crlf(s[x..], lc) == OnWire(s[x], lc) + Crlf(s[x + 1..], s[x])
  {
    assert s[x..][1..] == s[x + 1..];
  }

  lemma CrlfNothing(lc: byte)
    ensures Crlf([], lc) == []
  {
  }

  /** What has been sent when a flush falls short is a prefix of the whole text. */
  lemma SentPart(sent0: bytes, before: bytes, sent: bytes, done: bytes, whole: bytes)
    requires sent0 <= before <= sent <= sent0 + done && done <= whole
    ensures sent0 <= sent <= sent0 + whole
  {
    assert sent0 + whole == sent0 + done + whole[|done|..];
  }

  /** No LF without a CR before it. */
  predicate Clean(s: bytes, lc: byte) {
    s == [] || ((s[0] == LF ==> lc == CR) && Clean(s[1..], s[0]))
  }

  lemma CleanCons(c: byte, s: bytes, lc: byte)
    ensures Clean([c] + s, lc) <==> (c == LF ==> lc == CR) && Clean(s, c)
  {
    assert ([c] + s)[1..] == s;
  }

  /** The output has no bare LF. */
  lemma {:induction false} CrlfIsClean(s: bytes, lc: byte)
    ensures Clean(Crlf(s, lc), lc)
  {
    if s != [] {
      var c, more := s[0], Crlf(s[1..], s[0]);
      CrlfIsClean(s[1..], c);
      CleanCons(c, more, if c == LF then CR else lc);
      if c == LF && lc != CR {
        CleanCons(CR, [c] + more, lc);
        assert Crlf(s, lc) == [CR] + ([c] + more);
      } else {
        assert Crlf(s, lc) == [c] + more;
      }
    }
  }

  /** The conversion leaves a text alone exactly when it has no bare LF. */
  lemma {:induction false} CrlfFixed(s: bytes, lc: byte)
    ensures |Crlf(s, lc)| >= |s|
    ensures Crlf(s, lc) == s <==> Clean(s, lc)
  {
    if s != [] {
      CrlfFixed(s[1..], s[0]);
      if !(s[0] == LF && lc != CR) {
        assert Crlf(s, lc) == [s[0]] + Crlf(s[1..], s[0]);
        assert Crlf(s, lc)[1..] == Crlf(s[1..], s[0]);
        assert s == [s[0]] + s[1..];
      }
    }
  }

  /** Converting twice is converting once. */
  lemma CrlfIdempotent(s: bytes, lc: byte)
    ensures Crlf(Crlf(s, lc), lc) == Crlf(s, lc)
  {
    CrlfIsClean(s, lc);
    CrlfFixed(Crlf(s, lc), lc);
  }

  /** The text with every CRLF turned into LF. */
  function Plain(s: bytes): bytes {
    if s == [] then []
    else (if s[0] == CR && |s| > 1 && s[1] == LF then [] else [s[0]]) + Plain(s[1..])
  }

  lemma PlainStep(c: byte, more: bytes)
    ensures Plain([c] + more) == (if c == CR && more != [] && more[0] == LF then [] else [c]) + Plain(more)
  {
    assert ([c] + more)[1..] == more;
  }

  /** Nothing else is changed: up to the way line ends are written, the text is the same. */
  lemma {:induction false} CrlfKeepsText(s: bytes, lc: byte)
    ensures Plain(Crlf(s, lc)) == Plain(s)
  {
    hide Plain, Crlf;
    if s == [] {
      CrlfNothing(lc);
    } else {
      var c, t, more := s[0], s[1..], Crlf(s[1..], s[0]);
      CrlfKeepsText(t, c);
      assert s == [c] + t;
      CrlfCons(c, t, lc);
      CrlfStart(t, c);
      PlainStep(c, t);
      PlainStep(c, more);
      if c == LF && lc != CR {
        PlainStep(CR, [c] + more);
        assert Crlf(s, lc) == [CR] + ([c] + more);
        assert [] + Plain([c] + more) == Plain([c] + more);
      } else {
        assert Crlf(s, lc) == [c] + more;
      }
    }
  }

  /** Behind a CR nothing is put before a LF. */
  lemma CrlfStart(s: bytes, lc: byte)
    ensures Crlf(s, lc) == [] <==> s == []
    ensures lc == CR && s != [] ==> Crlf(s, lc)[0] == s[0]
  {
  }

  lemma {:induction false} CrlfConcat(a: bytes, b: bytes, lc: byte)
    ensures Crlf(a + b, lc) == Crlf(a, lc) + Crlf(b, if a == [] then lc else a[|a| - 1])
  {
    hide Crlf, OnWire;
    CrlfNothing(lc);
    if a == [] {
      assert a + b == b;
      assert Crlf(a, lc) + Crlf(b, lc) == Crlf(b, lc);
    } else {
      var c, t := a[0], a[1..];
      CrlfConcat(t, b, c);
      CrlfCons(c, t + b, lc);
      CrlfCons(c, t, lc);
      assert [c] + (t + b) == a + b && [c] + t == a;
      var x, y := Crlf(t, c), Crlf(b, a[|a| - 1]);
      assert OnWire(c, lc) + (x + y) == OnWire(c, lc) + x + y;
    }
  }

  lemma CrlfCons(c: byte, s: bytes, lc: byte)
    ensures Crlf([c] + s, lc) == OnWire(c, lc) + Crlf(s, c)
  {
    assert ([c] + s)[1..] == s;
  }

  /** Each call starts afresh, so writing a text in two calls sends the same bytes exactly when
      the cut is not between a CR and its LF. */
  lemma CrlfSplit(a: bytes, b: bytes)
    ensures Crlf(a + b, 0) == Crlf(a, 0) + Crlf(b, 0) <==>
            !(a != [] && a[|a| - 1] == CR && b != [] && b[0] == LF)
  {
    CrlfConcat(a, b, 0);
    if b != [] {
      var lc := if a == [] then 0 else a[|a| - 1];
      var x, y := Crlf(b, lc), Crlf(b, 0);
      assert Crlf(a + b, 0) == Crlf(a, 0) + x;
      if lc == CR && b[0] == LF {
        assert |y| == |x| + 1;
      }
    }
  }

  /** A last line of two characters that fills the buffer of the caller: readLine returns 2, but the line
      starts with a NUL. */
  method LastLineBlanked() returns (retval: int, first: byte, ghost failed: bool)
    ensures !failed ==> retval == 2 && first == 0
  {
    var socket := new Socket([65, 66]);
    var ftp := new FtpBase(socket, CONTROL);
    var line := new byte[3];
    retval := ftp.ReadLine(line, 3);
    first, failed := line[0], socket.failures > 0;
  }
}
