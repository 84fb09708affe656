/** Reading lines from a descriptor: the buffered readline of lib/readline.c and the
    byte-at-a-time readline of server/readline.c. */
module ReadLine {
  import opened Base

  const MAXLINE := 4096
  const NL: byte := 10

  /** The line at the front of a stream: through the first newline, or room bytes, or all. */
  function Line(s: seq<byte>, room: nat): (line: seq<byte>)
    ensures line <= s && |line| <= room
  {
    if room == 0 || s == [] then []
    else if s[0] == NL then [NL]
    else [s[0]] + Line(s[1..], room - 1)
  }

  predicate Terminated(line: seq<byte>) {
    line != [] && line[|line| - 1] == NL
  }

  /** A prefix with no newline before its end that goes as far as it can. */
  ghost predicate IsLine(s: seq<byte>, room: nat, p: seq<byte>) {
    && p <= s && |p| <= room
    && (forall k | 0 <= k < |p| - 1 :: p[k] != NL)
    && (Terminated(p) || p == s || |p| == room)
  }

  /** Line is the one such prefix. */
  lemma {:induction false} LineMeaning(s: seq<byte>, room: nat, p: seq<byte>)
    ensures p == Line(s, room) <==> IsLine(s, room, p)
    decreases room
  {
    if room > 0 && s != [] && s[0] != NL {
      LineCons(s, room, p);
      if p != [] {
        LineMeaning(s[1..], room - 1, p[1..]);
        assert p == [p[0]] + p[1..];
      }
    } else {
      ShortLine(s, room, p);
    }
  }

  lemma LineCons(s: seq<byte>, room: nat, p: seq<byte>)
    requires room > 0 && s != [] && s[0] != NL
    ensures IsLine(s, room, p) <==> p != [] && p[0] == s[0] && IsLine(s[1..], room - 1, p[1..])
  {
    if p != [] {
      assert p == [p[0]] + p[1..] && s == [s[0]] + s[1..];
      if p[1..] != [] {
        assert p[1..][|p| - 2] == p[|p| - 1];
      }
      assert forall k | 1 <= k < |p| :: p[k] == p[1..][k - 1];
    }
  }

  lemma ShortLine(s: seq<byte>, room: nat, p: seq<byte>)
    requires room == 0 || s == [] || s[0] == NL
    ensures p == Line(s, room) <==> IsLine(s, room, p)
  {
  }

  /** What one read() does: at least one byte if there are any, EINTR, or another error. */
  datatype Step = Chunk(n: nat) | Interrupted | Broken

  class Fd {
    var data: seq<byte>      // not read yet; after it, end of file
    var plan: seq<Step>      // how the next reads go; then they bring all they can
    ghost var errors: nat    // how many reads have failed, other than by EINTR
    ghost var intrs: nat     // how many by EINTR

    constructor (stream: seq<byte>, steps: seq<Step>)
      ensures data == stream && plan == steps && errors == 0 && intrs == 0
    {
      data, plan, errors, intrs := stream, steps, 0, 0;
    }

    /** read() of up to |buf| bytes into its front. */
    method Read(buf: array<byte>) returns (n: int, intr: bool)
      requires buf.Length >= 1
      modifies this, buf
      ensures -1 <= n <= buf.Length
      ensures n == 0 ==> old(data) == []
      ensures n >= 0 ==> old(data) == buf[..n] + data && errors == old(errors) && intrs == old(intrs)
      ensures n < 0 ==> data == old(data) && errors == old(errors) + (if intr then 0 else 1)
      ensures n < 0 ==> intrs == old(intrs) + (if intr then 1 else 0) && |plan| < old(|plan|)
      ensures |plan| <= old(|plan|)
    {
      var step := if plan == [] then Chunk(buf.Length) else plan[0];
      plan := if plan == [] then [] else plan[1..];
      match step
      case Interrupted =>
        intrs := intrs + 1;
        return -1, true;
      case Broken =>
        errors := errors + 1;
        return -1, false;
      case Chunk(k) =>
        n := Min(Max(k, 1), Min(buf.Length, |data|));
        intr := false;
        ghost var front := data[..n];
        assert data == front + data[n..];
        Memcpy(buf, 0, data[..n]);
        assert buf[..n] == front;
        data := data[n..];
    }
  }

  /** The static variables of lib/readline.c. They do not belong to a descriptor: what was
      read ahead from one is delivered to the next caller, whichever descriptor it names. */
  class Reader {
    const read_buf: array<byte>
    var read_cnt: int
    var read_ptr: nat

    ghost predicate Valid()
      reads this
    {
      && read_buf.Length == MAXLINE
      && -1 <= read_cnt && (read_cnt > 0 ==> read_ptr + read_cnt <= MAXLINE)
    }

    /** What has been read and not delivered. */
    ghost function Buffered(): seq<byte>
      requires Valid()
      reads this, read_buf
    {
      if read_cnt > 0 then read_buf[read_ptr..read_ptr + read_cnt] else []
    }

    /** The stream that is still to be delivered to calls for one descriptor. */
    ghost function Left(fd: Fd): seq<byte>
      requires Valid()
      reads this, read_buf, fd
    {
      Buffered() + fd.data
    }

    constructor ()
      ensures Valid() && Buffered() == [] && fresh(read_buf)
    {
      read_cnt, read_ptr := 0, 0;
      read_buf := new byte[MAXLINE](_ => 0);
    }

    /** The read() of my_read, repeated after EINTR. */
    method Again(fd: Fd)
      requires read_buf.Length == MAXLINE
      modifies this`read_cnt, fd, read_buf
      ensures -1 <= read_cnt <= MAXLINE
      ensures read_cnt < 0 ==> fd.data == old(fd.data) && fd.errors == old(fd.errors) + 1
      ensures read_cnt >= 0 ==> old(fd.data) == read_buf[..read_cnt] + fd.data && fd.errors == old(fd.errors)
      ensures read_cnt == 0 ==> old(fd.data) == []
    {
      var intr;
      read_cnt, intr := fd.Read(read_buf);
      while read_cnt < 0 && intr
        invariant -1 <= read_cnt <= MAXLINE
        invariant read_cnt < 0 ==> fd.data == old(fd.data) && fd.errors == old(fd.errors) + (if intr then 0 else 1)
        invariant read_cnt >= 0 ==> old(fd.data) == read_buf[..read_cnt] + fd.data && fd.errors == old(fd.errors)
        invariant read_cnt == 0 ==> old(fd.data) == []
        decreases |fd.plan|, read_cnt < 0
      {
        read_cnt, intr := fd.Read(read_buf);
      }
    }

    /** my_read: the next byte, whatever read() had to do for it. */
    method MyRead(fd: Fd) returns (rc: int, c: byte)
      requires Valid()
      modifies this`read_cnt, this`read_ptr, fd, read_buf
      ensures Valid() && -1 <= rc <= 1
      ensures rc == 1 ==> old(Left(fd)) == [c] + Left(fd)
      ensures rc == 0 ==> old(Left(fd)) == Left(fd) == []
      ensures rc == -1 ==> old(Left(fd)) == Left(fd)
      ensures old(Buffered()) != [] ==> rc == 1 && c == old(Buffered())[0] && fd.data == old(fd.data)
      ensures fd.errors == old(fd.errors) + (if rc == -1 then 1 else 0)
    {
      c := 0;
      if read_cnt <= 0 {
        Again(fd);
        if read_cnt < 0 {
          return -1, c;
        }
        if read_cnt == 0 {
          return 0, c;
        }
        read_ptr := 0;
        assert Left(fd) == old(Left(fd));
      }
      rc := 1;
      c := Next(fd);
    }

    /** *ptr = *read_ptr++ */
    method Next(ghost fd: Fd) returns (c: byte)
      requires Valid() && read_cnt > 0
      modifies this`read_cnt, this`read_ptr
      ensures Valid() && old(Left(fd)) == [c] + Left(fd) && c == old(Buffered()[0])
    {
      FirstOf(read_buf[..], read_ptr, read_cnt, fd.data);
      read_cnt := read_cnt - 1;
      c := read_buf[read_ptr];
      read_ptr := read_ptr + 1;
    }

    /** readlinebuf: how much has been read ahead, and it. */
    method ReadlineBuf() returns (cnt: int, ahead: seq<byte>)
      requires Valid()
      ensures cnt > 0 ==> ahead == Buffered() && |ahead| == cnt
      ensures cnt <= 0 ==> Buffered() == []
    {
      cnt, ahead := read_cnt, [];
      if cnt > 0 {
        ahead := read_buf[read_ptr..read_ptr + cnt];
      }
    }

    /** readline. After an error, what was read of the line is gone. */
    method Readline(fd: Fd, ptr: array<byte>, maxlen: nat) returns (rc: int)
      requires Valid() && Max(maxlen, 1) <= ptr.Length && ptr != read_buf
      modifies this`read_cnt, this`read_ptr, fd, read_buf, ptr
      ensures Valid() && fd.errors == old(fd.errors) + (if rc == -1 then 1 else 0)
      ensures var line := Line(old(Left(fd)), Room(maxlen));
              rc != -1 ==>
                && old(Left(fd)) == line + Left(fd)
                && Stored(old(ptr[..]), line + [0], ptr[..])
                && rc == ReturnValue(line, maxlen)
      ensures rc == -1 ==> exists got :: got <= Line(old(Left(fd)), Room(maxlen)) && old(Left(fd)) == got + Left(fd)
    {
      hide Line, Underway, Stored, Buffered, Left, Room, Terminated, ReturnValue;
      ghost var all, got, before, size := Left(fd), [], ptr[..], Room(maxlen);
      NothingStored(before);
      NothingRead(all, size);
      var n, p := 1, 0;
      while n < maxlen
        invariant Valid() && 1 <= n <= Max(maxlen, 1) && |got| == p == n - 1
        invariant Underway(all, size, got, Left(fd), size - p)
        invariant Stored(before, got, ptr[..]) && fd.errors == old(fd.errors)
      {
        var r, c := MyRead(fd);
        if r == 1 {
          Store(ptr, p, c, before, got);
          p := p + 1;
          ByteRead(all, size, got, c, Left(fd), maxlen - n);
          got := got + [c];
          if c == NL {
            break;
          }
        } else if r == 0 {
          Store(ptr, p, 0, before, got);
          LineDone(all, size, got, Left(fd), maxlen - n);
          Counts(got, maxlen, n - 1);
          return n - 1;
        } else {
          LineDone(all, size, got, Left(fd), maxlen - n);
          return -1;
        }
        n := n + 1;
      }
      if n >= maxlen {
        LineDone(all, size, got, Left(fd), 0);
      }
      Store(ptr, p, 0, before, got);
      Counts(got, maxlen, n);
      return n;
    }
  }

  /** How many bytes of a line a caller's buffer has room for. */
  function Room(maxlen: nat): (room: nat)
    ensures room == Max(maxlen, 1) - 1
  {
    if maxlen == 0 then 0 else maxlen - 1
  }

  /** What lib/readline.c returns for a line: one more than it stored when it stopped for want of room. */
  function ReturnValue(line: seq<byte>, maxlen: nat): int {
    if Terminated(line) || |line| < Room(maxlen) then |line| else Max(maxlen, 1)
  }

  lemma FirstOf(buf: seq<byte>, i: nat, n: nat, rest: seq<byte>)
    requires n > 0 && i + n <= |buf|
    ensures buf[i..i + n] + rest == [buf[i]] + ((if n > 1 then buf[i + 1..i + n] else []) + rest)
  {
    assert buf[i..i + n] == [buf[i]] + buf[i + 1..i + n];
  }

  /** What server/readline.c returns: at end of file it counts one byte too many, unless it
      has stored none. */
  function SimpleReturnValue(line: seq<byte>, maxlen: nat): int {
    if Terminated(line) then |line| else if AtEnd(line, maxlen) then 0 else |line| + 1
  }

  /** The call found the end of the file and nothing before it. */
  predicate AtEnd(line: seq<byte>, maxlen: nat) {
    line == [] && maxlen > 1
  }

  /** The two agree on a count exactly if the line was not cut off by the end of the file. */
  lemma ReturnValuesAgree(line: seq<byte>, maxlen: nat)
    requires |line| <= Room(maxlen)
    ensures SimpleReturnValue(line, maxlen) == ReturnValue(line, maxlen)
            <==> line == [] || Terminated(line) || |line| == Room(maxlen)
    ensures ReturnValue(line, maxlen) ==
            if |line| + 1 < maxlen || (line != [] && line[|line| - 1] == 10) then |line| else Max(maxlen, 1)
    ensures SimpleReturnValue(line, maxlen) ==
            if line != [] then |line| + (if line[|line| - 1] == 10 then 0 else 1)
            else if maxlen > 1 then 0 else 1
  {
  }

  /** The counts that the two return, from where their loops stop. */
  lemma Counts(line: seq<byte>, maxlen: nat, n: nat)
    ensures n == |line| && (|line| + 1 < maxlen || (line != [] && line[n - 1] == NL))
            ==> ReturnValue(line, maxlen) == n
    ensures n == |line| + 1 == Max(maxlen, 1) && (line == [] || line[n - 2] != NL) ==> ReturnValue(line, maxlen) == n
    ensures n == |line| && line != [] && line[n - 1] == NL ==> SimpleReturnValue(line, maxlen) == n
    ensures n == |line| + 1 && (if line == [] then maxlen <= 1 else line[n - 2] != NL)
            ==> SimpleReturnValue(line, maxlen) == n
    ensures n == |line| == 0 && maxlen > 1 ==> SimpleReturnValue(line, maxlen) == n
  {
  }

  /** read(fd, &c, 1) */
  method ReadByte(fd: Fd) returns (r: int, c: byte)
    modifies fd
    ensures -1 <= r <= 1
    ensures r == 1 ==> old(fd.data) == [c] + fd.data
    ensures r == 0 ==> old(fd.data) == fd.data == []
    ensures r == -1 ==> fd.data == old(fd.data)
    ensures fd.errors + fd.intrs == old(fd.errors + fd.intrs) + (if r == -1 then 1 else 0)
  {
    var one := new byte[1](_ => 0);
    var intr;
    r, intr := fd.Read(one);
    c := one[0];
    assert r == 1 ==> one[..1] == [c];
    assert r == 0 ==> one[..0] == [] && [] + fd.data == fd.data;
  }

  /** readline of server/readline.c, which makes one read() a byte and takes EINTR for an error.
      At the end of the file it stores nothing. */
  method ReadlineByByte(fd: Fd, ptr: array<byte>, maxlen: nat) returns (rc: int)
    requires Max(maxlen, 1) <= ptr.Length
    modifies fd, ptr
    ensures fd.errors + fd.intrs == old(fd.errors + fd.intrs) + (if rc == -1 then 1 else 0)
    ensures var line := Line(old(fd.data), Room(maxlen));
            rc != -1 ==>
              && old(fd.data) == line + fd.data
              && Stored(old(ptr[..]), if AtEnd(line, maxlen) then [] else line + [0], ptr[..])
              && rc == SimpleReturnValue(line, maxlen)
    ensures rc == -1 ==> exists got :: got <= Line(old(fd.data), Room(maxlen)) && old(fd.data) == got + fd.data
  {
    hide Line, Underway, Stored, Room, Terminated, SimpleReturnValue;
    ghost var all, got, before, size := fd.data, [], ptr[..], Room(maxlen);
    NothingStored(before);
    NothingRead(all, size);
    var n, p := 1, 0;
    while n < maxlen
      invariant 1 <= n <= Max(maxlen, 1) && |got| == p == n - 1
      invariant Underway(all, size, got, fd.data, size - p)
      invariant Stored(before, got, ptr[..]) && fd.errors + fd.intrs == old(fd.errors + fd.intrs)
    {
      var r, c := ReadByte(fd);
      if r == 1 {
        Store(ptr, p, c, before, got);
        p := p + 1;
        ByteRead(all, size, got, c, fd.data, maxlen - n);
        got := got + [c];
        if c == NL {
          break;
        }
      } else if r == 0 {
        LineDone(all, size, got, fd.data, maxlen - n);
        if n == 1 {
          Counts(got, maxlen, 0);
          return 0;
        } else {
          break;
        }
      } else {
        LineDone(all, size, got, fd.data, maxlen - n);
        return -1;
      }
      n := n + 1;
    }
    if n >= maxlen {
      LineDone(all, size, got, fd.data, 0);
    }
    Store(ptr, p, 0, before, got);
    Counts(got, maxlen, n);
    return n;
  }

  /** What successive calls leave of a stream. */
  function Rest(s: seq<byte>, maxlens: seq<nat>): seq<byte> {
    if maxlens == [] then s
    else
      var before, room := Rest(s, maxlens[..|maxlens| - 1]), Room(maxlens[|maxlens| - 1]);
      before[|Line(before, room)|..]
  }

  /** The line of call i. */
  function LineOf(s: seq<byte>, maxlens: seq<nat>, i: nat): seq<byte>
    requires i < |maxlens|
  {
    Line(Rest(s, maxlens[..i]), Room(maxlens[i]))
  }

  function Delivered(s: seq<byte>, maxlens: seq<nat>): seq<byte> {
    if maxlens == [] then []
    else Delivered(s, maxlens[..|maxlens| - 1]) + LineOf(s, maxlens, |maxlens| - 1)
  }

  /** The lines of any number of calls, one after the other, are the front of the stream. */
  lemma {:induction false} NothingIsLost(s: seq<byte>, maxlens: seq<nat>)
    ensures s == Delivered(s, maxlens) + Rest(s, maxlens)
  {
    hide Line;
    if maxlens == [] {
      assert [] + s == s;
    } else {
      var front, n := maxlens[..|maxlens| - 1], |maxlens| - 1;
      NothingIsLost(s, front);
      var rest, line := Rest(s, front), LineOf(s, maxlens, n);
      LineIsFront(rest, Room(maxlens[n]));
      Associate(Delivered(s, front), line, Rest(s, maxlens));
    }
  }

  lemma LineIsFront(s: seq<byte>, room: nat)
    ensures s == Line(s, room) + s[|Line(s, room)|..]
  {
  }

  /** One call of each reader, for the same rest of the stream, into two buffers with the same
      contents. Both deliver its next line. The buffers then differ in at most one byte, and
      they do exactly if the call was at the end of the file and that byte was not 0: there
      lib/readline.c stores a NUL and server/readline.c nothing. The counts they return differ
      exactly for a line that the end of the file cuts off. */
  method SameLine(reader: Reader, readerFd: Fd, fd: Fd, a: array<byte>, b: array<byte>, maxlen: nat)
    returns (ok: bool, fast: int, simple: int)
    requires reader.Valid() && readerFd != fd && reader.Left(readerFd) == fd.data
    requires a != b && a != reader.read_buf && b != reader.read_buf
    requires a[..] == b[..] && Max(maxlen, 1) <= a.Length
    modifies reader, reader.read_buf, readerFd, fd, a, b
    ensures ok ==>
              && reader.Valid() && reader.Left(readerFd) == fd.data
              && readerFd.errors == old(readerFd.errors) && fd.errors + fd.intrs == old(fd.errors + fd.intrs)
    ensures var line := Line(old(fd.data), Room(maxlen));
            ok ==>
              && old(fd.data) == line + fd.data
              && BothStored(old(a[..]), line, maxlen, a[..], b[..])
              && (fast == simple <==> line == [] || line[|line| - 1] == 10 || |line| + 1 == maxlen)
    ensures !ok ==> readerFd.errors > old(readerFd.errors) || fd.errors + fd.intrs > old(fd.errors + fd.intrs)
  {
    hide Line, Stored, Underway, Reader.Left, Reader.Buffered;
    ghost var before, line := a[..], Line(fd.data, Room(maxlen));
    ok := false;
    fast := reader.Readline(readerFd, a, maxlen);
    simple := ReadlineByByte(fd, b, maxlen);
    if fast == -1 || simple == -1 {
      return;
    }
    SameRest(line, reader.Left(readerFd), fd.data);
    SameBuffer(before, line, maxlen, a[..], b[..]);
    ok := true;
  }

  /** What the two readers have made of a caller's buffer in one call for a line. */
  ghost predicate BothStored(before: seq<byte>, line: seq<byte>, maxlen: nat, fast: seq<byte>, simple: seq<byte>)
    requires before != []
  {
    && Stored(before, line + [0], fast)
    && Stored(before, if AtEnd(line, maxlen) then [] else line + [0], simple)
    && (fast == simple <==> AtEnd(line, maxlen) ==> before[0] == 0)
  }

  /** Call after call on the same stream, cut into pieces in any two ways, with any contents
      of the callers' buffers: each call of either reader delivers the line that the calls
      before it left next. */
  method SideBySide(reader: Reader, readerFd: Fd, fd: Fd, maxlens: seq<nat>, buffers: seq<seq<byte>>)
    returns (fast: seq<seq<byte>>, simple: seq<seq<byte>>)
    requires reader.Valid() && readerFd != fd && reader.Left(readerFd) == fd.data
    requires |buffers| == |maxlens| && forall i | 0 <= i < |maxlens| :: |buffers[i]| >= Max(maxlens[i], 1)
    modifies reader, reader.read_buf, readerFd, fd
    ensures |fast| == |simple| <= |maxlens|
    ensures forall i | 0 <= i < |fast| ::
              BothStored(buffers[i], LineOf(old(fd.data), maxlens, i), maxlens[i], fast[i], simple[i])
    ensures |fast| < |maxlens| ==>
              readerFd.errors > old(readerFd.errors) || fd.errors + fd.intrs > old(fd.errors + fd.intrs)
    ensures |fast| == |maxlens| ==>
              reader.Valid() && reader.Left(readerFd) == fd.data == Rest(old(fd.data), maxlens)
  {
    hide Line, Rest, Stored, BothStored, AtEnd, Reader.Left, Reader.Buffered, Reader.Valid;
    RestOfNone(fd.data, maxlens);
    fast, simple := [], [];
    ghost var stream := fd.data;
    var i := 0;
    while i < |maxlens|
      invariant i == |fast| == |simple| <= |maxlens|
      invariant reader.Valid() && reader.Left(readerFd) == fd.data == Rest(stream, maxlens[..i])
      invariant readerFd.errors == old(readerFd.errors) && fd.errors + fd.intrs == old(fd.errors + fd.intrs)
      invariant forall k | 0 <= k < i ::
                  BothStored(buffers[k], LineOf(stream, maxlens, k), maxlens[k], fast[k], simple[k])
    {
      var a := Copy(buffers[i]);
      var b := Copy(buffers[i]);
      var ok, _, _ := SameLine(reader, readerFd, fd, a, b, maxlens[i]);
      if !ok {
        return;
      }
      RestStep(stream, maxlens, i, fd.data);
      fast, simple := fast + [a[..]], simple + [b[..]];
      i := i + 1;
    }
    assert maxlens[..|maxlens|] == maxlens;
  }

  /** A caller's buffer. */
  method Copy(contents: seq<byte>) returns (buf: array<byte>)
    ensures fresh(buf) && buf[..] == contents
  {
    buf := new byte[|contents|](k requires 0 <= k < |contents| => contents[k]);
  }

  lemma RestOfNone(s: seq<byte>, maxlens: seq<nat>)
    ensures Rest(s, maxlens[..0]) == s
  {
  }

  lemma RestStep(s: seq<byte>, maxlens: seq<nat>, i: nat, rest: seq<byte>)
    requires i < |maxlens| && Rest(s, maxlens[..i]) == LineOf(s, maxlens, i) + rest
    ensures Rest(s, maxlens[..i + 1]) == rest
  {
    assert maxlens[..i + 1][..i] == maxlens[..i];
  }

  lemma SameRest(line: seq<byte>, a: seq<byte>, b: seq<byte>)
    requires line + a == line + b
    ensures a == b
  {
    assert a == (line + a)[|line|..] == (line + b)[|line|..] == b;
  }

  lemma SameBuffer(before: seq<byte>, line: seq<byte>, maxlen: nat, a: seq<byte>, b: seq<byte>)
    requires before != []
    requires Stored(before, line + [0], a) && Stored(before, if AtEnd(line, maxlen) then [] else line + [0], b)
    ensures BothStored(before, line, maxlen, a, b)
  {
    if AtEnd(line, maxlen) {
      assert b == before;
      assert a[0] == 0 && a[1..] == before[1..];
      assert before == [before[0]] + before[1..] && a == [a[0]] + a[1..];
    }
  }

  /** Of a stream, got is delivered and belongs to a line that can have room bytes more. */
  ghost predicate Underway(all: seq<byte>, size: nat, got: seq<byte>, left: seq<byte>, room: nat) {
    && all == got + left && !Terminated(got) && |got| + room == size
    && Line(all, size) == got + Line(left, room)
  }

  lemma NothingRead(all: seq<byte>, size: nat)
    ensures Underway(all, size, [], all, size)
  {
    assert [] + all == all && [] + Line(all, size) == Line(all, size);
  }

  /** The next byte ends the line or not. */
  lemma ByteRead(all: seq<byte>, size: nat, got: seq<byte>, c: byte, left: seq<byte>, room: nat)
    requires Underway(all, size, got, [c] + left, room) && room > 0
    ensures all == (got + [c]) + left
    ensures c == NL ==> Line(all, size) == got + [c]
    ensures c != NL ==> Underway(all, size, got + [c], left, room - 1)
  {
    assert ([c] + left)[1..] == left;
    Associate(got, [c], left);
    Associate(got, [c], Line(left, room - 1));
  }

  /** The line ends with what is delivered when there is no room or nothing left. */
  lemma LineDone(all: seq<byte>, size: nat, got: seq<byte>, left: seq<byte>, room: nat)
    requires Underway(all, size, got, left, room)
    ensures all == got + left && got <= Line(all, size) && |got| + room == size
    ensures got != [] ==> got[|got| - 1] != NL
    ensures room == 0 || left == [] ==> Line(all, size) == got
  {
    assert got + [] == got;
  }

  /** The first bytes of the caller's buffer are these, the others as they were. */
  ghost predicate Stored(before: seq<byte>, got: seq<byte>, now: seq<byte>) {
    |got| <= |now| == |before| && now == got + before[|got|..]
  }

  lemma NothingStored(before: seq<byte>)
    ensures Stored(before, [], before)
  {
  }

  /** *ptr = c */
  method Store(ptr: array<byte>, p: nat, c: byte, ghost before: seq<byte>, ghost got: seq<byte>)
    requires |got| == p < ptr.Length && Stored(before, got, ptr[..])
    modifies ptr
    ensures Stored(before, got + [c], ptr[..])
  {
    ptr[p] := c;
  }
}
