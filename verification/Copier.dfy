/** The full-duplex client with nonblocking I/O: str_cli of nonblock/strclinonb.c. */
module Copier {
  import opened Base

  const MAXLINE := 4096

  /** What a read() finds: bytes (none at the end of the stream), EWOULDBLOCK or an error. */
  datatype Input = Data(bytes: seq<byte>) | NotNow | Broken

  /** What a write() manages: up to some number of bytes, EWOULDBLOCK or an error. */
  datatype Output = Room(n: nat) | Full | Refused

  /** A descriptor that is read. */
  class Source {
    ghost var got: seq<byte>   // all that was read
    ghost var eof: bool        // a read has returned 0

    constructor ()
      ensures got == [] && !eof
    {
      got, eof := [], false;
    }

    /** read() of at least one byte; would tells EWOULDBLOCK from an error. */
    method Read(buf: array<byte>, off: nat, size: nat, input: Input) returns (n: int, would: bool)
      requires size >= 1 && off + size <= buf.Length && !eof
      modifies this, buf
      ensures -1 <= n <= size && eof == (n == 0)
      ensures n < 0 <==> !input.Data?
      ensures n < 0 ==> got == old(got) && buf[..] == old(buf[..]) && would == input.NotNow?
      ensures n >= 0 ==> n == Min(|input.bytes|, size)
                         && got == old(got) + input.bytes[..n]
                         && buf[..] == old(buf[..])[..off] + input.bytes[..n] + old(buf[..])[off + n..]
    {
      match input
      case Data(bytes) =>
        n, would := Min(|bytes|, size), false;
        Memcpy(buf, off, bytes[..n]);
        got, eof := got + bytes[..n], n == 0;
      case NotNow => n, would := -1, true;
      case Broken => n, would := -1, false;
    }
  }

  /** A descriptor that is written. */
  class Sink {
    ghost var put: seq<byte>   // all that was written
    ghost var fins: nat        // how often it was shut down

    constructor ()
      ensures put == [] && fins == 0
    {
      put, fins := [], 0;
    }

    /** write(), only while not shut down. */
    method Write(buf: array<byte>, off: nat, size: nat, output: Output) returns (nwritten: int, would: bool)
      requires off + size <= buf.Length && fins == 0
      modifies this`put
      ensures -1 <= nwritten <= size && (nwritten < 0 ==> would == output.Full?)
      ensures nwritten < 0 <==> !output.Room?
      ensures nwritten < 0 ==> put == old(put)
      ensures nwritten >= 0 ==> nwritten == Min(output.n, size)
      ensures put == old(put) + buf[..][off..off + Max(nwritten, 0)]
    {
      match output
      case Room(n) =>
        nwritten, would := Min(n, size), false;
        put := put + buf[..][off..off + nwritten];
      case Full => nwritten, would := -1, true;
      case Refused => nwritten, would := -1, false;
    }

    /** shutdown(SHUT_WR) sends a FIN. */
    method Shutdown()
      requires fins == 0
      modifies this`fins
      ensures fins == 1
    {
      fins := 1;
    }
  }

  /** A buffer holds what was taken in and has not gone out; empty, it is empty at its base. */
  ghost predicate Holds(buf: seq<byte>, iptr: nat, optr: nat, got: seq<byte>, put: seq<byte>) {
    && optr <= iptr <= |buf| && (optr == iptr ==> iptr == 0)
    && put + buf[optr..iptr] == got
  }

  lemma ReadIn(buf: seq<byte>, iptr: nat, optr: nat, got: seq<byte>, put: seq<byte>,
               more: seq<byte>, buf': seq<byte>)
    requires Holds(buf, iptr, optr, got, put) && iptr + |more| <= |buf|
    requires buf' == buf[..iptr] + more + buf[iptr + |more|..]
    ensures Holds(buf', iptr + |more|, optr, got + more, put)
  {
    assert buf'[optr..iptr + |more|] == buf[optr..iptr] + more;
  }

  lemma WriteOut(buf: seq<byte>, iptr: nat, optr: nat, got: seq<byte>, put: seq<byte>, n: nat)
    requires Holds(buf, iptr, optr, got, put) && optr + n <= iptr
    ensures var put' := put + buf[optr..optr + n];
            if optr + n == iptr then Holds(buf, 0, 0, got, put') && put' == got
            else Holds(buf, iptr, optr + n, got, put')
  {
    assert buf[optr..iptr] == buf[optr..optr + n] + buf[optr + n..iptr];
  }

  lemma HeldBytes(buf: seq<byte>, iptr: nat, optr: nat, got: seq<byte>, put: seq<byte>)
    requires Holds(buf, iptr, optr, got, put)
    ensures optr <= iptr <= |buf| && (optr == iptr ==> iptr == 0)
    ensures put <= got && |got| == |put| + (iptr - optr) && (optr == iptr ==> put == got)
  {
  }

  /** The descriptors in select()'s two sets. */
  datatype Fds = Fds(stdinR: bool, sockR: bool, sockW: bool, stdoutW: bool)

  /** select(): a subset of what was asked for. */
  method Select(asked: Fds, ready: Fds) returns (got: Fds)
    requires asked.stdinR || asked.sockR || asked.sockW || asked.stdoutW
    ensures got == Fds(asked.stdinR && ready.stdinR, asked.sockR && ready.sockR,
                       asked.sockW && ready.sockW, asked.stdoutW && ready.stdoutW)
  {
    got := Fds(asked.stdinR && ready.stdinR, asked.sockR && ready.sockR,
               asked.sockW && ready.sockW, asked.stdoutW && ready.stdoutW);
  }

  /** What the system does in one turn of the loop. */
  datatype Script = Script(ready: Fds, stdin: Input, sock: Input, stdout: Output, send: Output)

  datatype Status = Going | Returned | ServerTerminated | Failed

  class StrCli {
    const to: array<byte>
    const fr: array<byte>
    const stdin: Source
    const sockIn: Source
    const sockOut: Sink
    const stdout: Sink
    var toiptr: nat
    var tooptr: nat
    var friptr: nat
    var froptr: nat
    var stdineof: bool
    ghost var turns: nat   // of the loop

    ghost predicate Objects() {
      && to.Length == fr.Length == MAXLINE && to != fr
      && stdin != sockIn && sockOut != stdout
    }

    /** Of the two directions of the copy. A FIN has been sent exactly if stdin has ended and
        all of it has gone out. */
    ghost predicate Valid()
      reads this, to, fr, stdin, sockIn, sockOut, stdout
    {
      && Objects()
      && Holds(to[..], toiptr, tooptr, stdin.got, sockOut.put)
      && Holds(fr[..], friptr, froptr, sockIn.got, stdout.put)
      && stdineof == stdin.eof && stdout.fins == 0
      && sockOut.fins == (if stdineof && tooptr == toiptr then 1 else 0)
    }

    constructor ()
      ensures Valid() && !stdineof && !sockIn.eof && stdin.got == [] && sockIn.got == []
    {
      to, fr := new byte[MAXLINE], new byte[MAXLINE];
      stdin := new Source();
      sockIn := new Source();
      sockOut := new Sink();
      stdout := new Sink();
      toiptr, tooptr, friptr, froptr, stdineof, turns := 0, 0, 0, 0, false, 0;
    }

    /** The branch for stdin; then also try to write what was read. */
    method ReadStdin(input: Input) returns (ok: bool, try: bool)
      requires Valid() && !stdineof && toiptr < MAXLINE
      modifies this`toiptr, this`stdineof, to, stdin, sockOut`fins
      ensures Valid() && (ok <==> !input.Broken?)
      ensures stdineof <==> input == Data([])
      ensures stdin.got == old(stdin.got) + Taken(true, input, MAXLINE - old(toiptr))
      ensures ok ==> (try <==> toiptr > old(toiptr))
    {
      hide Holds;
      ghost var buf, got := to[..], stdin.got;
      HeldBytes(buf, toiptr, tooptr, got, sockOut.put);
      var n, would := stdin.Read(to, toiptr, MAXLINE - toiptr, input);
      if n >= 0 {
        ReadIn(buf, toiptr, tooptr, got, sockOut.put, input.bytes[..n], to[..]);
      }
      ok, try := true, false;
      if n < 0 {
        ok := would;
      } else if n == 0 {
        stdineof := true;
        if tooptr == toiptr {
          sockOut.Shutdown();
        }
      } else {
        toiptr := toiptr + n;
        try := true;
      }
    }

    /** The branch for the socket. */
    method ReadSocket(input: Input) returns (r: Status, try: bool)
      requires Valid() && !sockIn.eof && friptr < MAXLINE
      modifies this`friptr, fr, sockIn
      ensures Valid() && (r.Going? ==> !sockIn.eof)
      ensures input == Data([]) ==> r == (if stdineof then Returned else ServerTerminated) && sockIn.eof
      ensures r.Failed? <==> input.Broken?
      ensures r.Returned? || r.ServerTerminated? ==> input == Data([])
      ensures sockIn.got == old(sockIn.got) + Taken(true, input, MAXLINE - old(friptr))
      ensures try <==> friptr > old(friptr)
    {
      hide Holds;
      ghost var buf, got := fr[..], sockIn.got;
      HeldBytes(buf, friptr, froptr, got, stdout.put);
      var n, would := sockIn.Read(fr, friptr, MAXLINE - friptr, input);
      if n >= 0 {
        ReadIn(buf, friptr, froptr, got, stdout.put, input.bytes[..n], fr[..]);
      }
      r, try := Going, false;
      if n < 0 {
        r := if would then Going else Failed;
      } else if n == 0 {
        r := if stdineof then Returned else ServerTerminated;
      } else {
        friptr := friptr + n;
        try := true;
      }
    }

    /** The branch that writes to stdout. */
    method WriteStdout(output: Output) returns (ok: bool)
      requires Valid()
      modifies this`friptr, this`froptr, stdout`put
      ensures Valid() && (!ok ==> output.Refused?)
      ensures stdout.put == old(stdout.put + fr[..][froptr..froptr + Sent(true, friptr - froptr, output)])
    {
      hide Holds;
      HeldBytes(fr[..], friptr, froptr, sockIn.got, stdout.put);
      ok := true;
      var n := friptr - froptr;
      if n > 0 {
        ghost var put := stdout.put;
        var nwritten, would := stdout.Write(fr, froptr, n, output);
        if nwritten >= 0 {
          WriteOut(fr[..], friptr, froptr, sockIn.got, put, nwritten);
        }
        if nwritten < 0 {
          ok := would;
        } else {
          froptr := froptr + nwritten;
          if froptr == friptr {
            froptr, friptr := 0, 0;
          }
        }
      }
    }

    /** The branch that writes to the socket, and the FIN once stdin has ended and all is sent. */
    method WriteSocket(output: Output) returns (ok: bool)
      requires Valid()
      modifies this`toiptr, this`tooptr, sockOut
      ensures Valid() && (!ok ==> output.Refused?)
      ensures old(sockOut.fins) <= sockOut.fins
      ensures old(sockOut.fins) == 1 ==> sockOut.put == old(sockOut.put)
      ensures sockOut.put == old(sockOut.put + to[..][tooptr..tooptr + Sent(true, toiptr - tooptr, output)])
    {
      hide Holds;
      HeldBytes(to[..], toiptr, tooptr, stdin.got, sockOut.put);
      ok := true;
      var n := toiptr - tooptr;
      if n > 0 {
        ghost var put := sockOut.put;
        var nwritten, would := sockOut.Write(to, tooptr, n, output);
        if nwritten >= 0 {
          WriteOut(to[..], toiptr, tooptr, stdin.got, put, nwritten);
        }
        if nwritten < 0 {
          ok := would;
        } else {
          tooptr := tooptr + nwritten;
          if tooptr == toiptr {
            toiptr, tooptr := 0, 0;
            if stdineof {
              sockOut.Shutdown();
            }
          }
        }
      }
    }

    /** The descriptors one turn asks for: those with something to do. */
    function Asked(): Fds
      reads this
    {
      Fds(!stdineof && toiptr < MAXLINE, friptr < MAXLINE, tooptr != toiptr, froptr != friptr)
    }

    /** What has gone out so far: in order, nothing lost, and a FIN only after everything. */
    ghost predicate InOrder()
      reads this, stdin, sockIn, sockOut, stdout
    {
      && sockOut.put <= stdin.got && stdout.put <= sockIn.got && sockOut.fins <= 1
      && (sockOut.fins == 1 ==> stdineof && sockOut.put == stdin.got)
    }

    /** The two branches that read. */
    method Reads(fds: Fds, s: Script) returns (r: Status, fds': Fds)
      requires Valid() && !sockIn.eof && (fds.stdinR ==> !stdineof && toiptr < MAXLINE)
      requires fds.sockR ==> friptr < MAXLINE
      modifies this`toiptr, this`friptr, this`stdineof, to, fr, stdin, sockIn, sockOut`fins
      ensures Valid() && (r.Going? ==> !sockIn.eof)
      ensures r.Returned? ==> sockIn.eof && stdineof
      ensures r.ServerTerminated? ==> sockIn.eof && !stdineof
      ensures old(sockOut.fins) <= sockOut.fins
      ensures stdin.got == old(stdin.got) + Taken(fds.stdinR, s.stdin, MAXLINE - old(toiptr))
      ensures r.Going? ==>
                && sockIn.got == old(sockIn.got) + Taken(fds.sockR, s.sock, MAXLINE - old(friptr))
                && fds' == fds.(sockW := fds.sockW || |stdin.got| > old(|stdin.got|),
                                stdoutW := fds.stdoutW || |sockIn.got| > old(|sockIn.got|))
    {
      fds', r := fds, Going;
      if fds.stdinR {
        var ok, try := ReadStdin(s.stdin);
        if !ok {
          return Failed, fds';
        }
        fds' := fds'.(sockW := fds.sockW || try);
      }
      if fds.sockR {
        var try;
        r, try := ReadSocket(s.sock);
        fds' := fds'.(stdoutW := fds.stdoutW || try);
      }
    }

    /** The two branches that write. */
    method Writes(fds: Fds, s: Script) returns (r: Status)
      requires Valid()
      modifies this`toiptr, this`tooptr, this`friptr, this`froptr, stdout, sockOut
      ensures r.Going? || r.Failed?
      ensures Valid() && old(sockOut.put) <= sockOut.put && old(stdout.put) <= stdout.put
      ensures old(sockOut.fins) <= sockOut.fins
      ensures old(sockOut.fins) == 1 ==> sockOut.put == old(sockOut.put)
      ensures r.Going? ==>
                && |sockOut.put| == old(|sockOut.put|) + Sent(fds.sockW, |stdin.got| - old(|sockOut.put|), s.send)
                && |stdout.put| == old(|stdout.put|) + Sent(fds.stdoutW, |sockIn.got| - old(|stdout.put|), s.stdout)
    {
      if fds.stdoutW {
        var ok := WriteStdout(s.stdout);
        if !ok {
          return Failed;
        }
      }
      if fds.sockW {
        var ok := WriteSocket(s.send);
        if !ok {
          return Failed;
        }
      }
      r := Going;
    }

    /** There is always something to wait for. */
    lemma SomethingToDo()
      requires Valid()
      ensures Asked().stdinR || Asked().sockR || Asked().sockW || Asked().stdoutW
    {
    }

    lemma CopiesInOrder()
      requires Valid()
      ensures InOrder()
    {
    }

    /** One turn of the loop. A branch that has read something tries to write it at once. */
    method Turn(s: Script) returns (r: Status)
      requires Valid() && !sockIn.eof
      modifies this, to, fr, stdin, sockIn, sockOut, stdout
      ensures Valid() && (r.Going? ==> !sockIn.eof)
      ensures r.Returned? ==> sockIn.eof && stdineof
      ensures r.ServerTerminated? ==> sockIn.eof && !stdineof
      ensures InOrder() && old(sockOut.put) <= sockOut.put && old(stdout.put) <= stdout.put
      ensures old(sockOut.fins) <= sockOut.fins && turns == old(turns) + 1
      ensures old(sockOut.fins) == 1 ==> sockOut.put == old(sockOut.put)
      ensures stdin.got == old(stdin.got)
                           + if s.ready.stdinR && s.stdin.Data? && !old(stdineof) && old(toiptr) < 4096
                             then s.stdin.bytes[..Min(|s.stdin.bytes|, 4096 - old(toiptr))] else []
      ensures r.Going? ==>
                sockIn.got == old(sockIn.got)
                              + if s.ready.sockR && s.sock.Data? && old(friptr) < 4096
                                then s.sock.bytes[..Min(|s.sock.bytes|, 4096 - old(friptr))] else []
      ensures r.Going? ==>
                var held := |stdin.got| - old(|sockOut.put|);
                var tried := (old(tooptr != toiptr) && s.ready.sockW) || stdin.got != old(stdin.got);
                |sockOut.put| == old(|sockOut.put|) + if tried && s.send.Room? then Min(s.send.n, held) else 0
      ensures r.Going? ==>
                var held := |sockIn.got| - old(|stdout.put|);
                var tried := (old(froptr != friptr) && s.ready.stdoutW) || sockIn.got != old(sockIn.got);
                |stdout.put| == old(|stdout.put|) + if tried && s.stdout.Room? then Min(s.stdout.n, held) else 0
    {
      hide Holds, InOrder;
      turns := turns + 1;
      SomethingToDo();
      var fds := Select(Asked(), s.ready);
      r, fds := Reads(fds, s);
      if r.Going? {
        r := Writes(fds, s);
      }
      CopiesInOrder();
    }

    /** str_cli: the loop, as long as the scripts last. */
    method Run(scripts: seq<Script>) returns (r: Status)
      requires Valid() && !sockIn.eof
      modifies this, to, fr, stdin, sockIn, sockOut, stdout
      ensures InOrder()
      ensures r.Going? ==> Valid() && turns == old(turns) + |scripts|
      ensures r.Going? ==> (stdineof && sockOut.put == stdin.got <==> sockOut.fins == 1)
      ensures r.Returned? ==> stdineof && sockIn.eof
      ensures r.ServerTerminated? ==> !stdineof && sockIn.eof
    {
      r := Going;
      var i := 0;
      while i < |scripts|
        invariant i <= |scripts| && r.Going? && Valid() && !sockIn.eof && turns == old(turns) + i
      {
        r := Turn(scripts[i]);
        if !r.Going? {
          return;
        }
        i := i + 1;
      }
      CopiesInOrder();
    }
  }

  /** The bytes a read takes, if it is made. */
  function Taken(made: bool, input: Input, room: nat): seq<byte> {
    if made && input.Data? then input.bytes[..Min(|input.bytes|, room)] else []
  }

  /** How many bytes go out, if a write is made. */
  function Sent(made: bool, held: nat, output: Output): (n: nat)
    ensures n <= held
  {
    if made && output.Room? then Min(output.n, held) else 0
  }
}
