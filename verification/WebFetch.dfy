/** The parallel fetcher with nonblocking connects: nonblock/web.c, start_connect.c and
    write_get_cmd.c. */
module WebFetch {
  import opened Base

  const MAXFILES := 20

  /** f_flags: 0, F_CONNECTING, F_READING or F_DONE. */
  datatype Flags = Idle | Connecting | Reading | Done

  datatype File = File(fd: int, flags: Flags)

  predicate Open(f: File) {
    f.flags.Connecting? || f.flags.Reading?
  }

  function Count(files: seq<File>, flags: Flags): nat {
    if files == [] then 0
    else Count(files[..|files| - 1], flags) + if files[|files| - 1].flags == flags then 1 else 0
  }

  lemma {:induction false} CountUpdate(files: seq<File>, i: nat, f: File, flags: Flags)
    requires i < |files|
    ensures Count(files[i := f], flags) ==
            Count(files, flags) - (if files[i].flags == flags then 1 else 0) + (if f.flags == flags then 1 else 0)
  {
    var n := |files| - 1;
    if i == n {
      assert files[i := f][..n] == files[..n];
    } else {
      CountUpdate(files[..n], i, f, flags);
      assert files[i := f][..n] == files[..n][i := f];
    }
  }

  lemma {:induction false} CountNone(files: seq<File>, flags: Flags)
    ensures Count(files, flags) == 0 <==> forall i | 0 <= i < |files| :: files[i].flags != flags
    ensures Count(files, flags) == |files| <== forall i | 0 <= i < |files| :: files[i].flags == flags
    ensures Count(files, flags) <= |files|
  {
    if files != [] {
      CountNone(files[..|files| - 1], flags);
    }
  }

  /** The descriptors of the files in some states. */
  ghost function Fds(files: seq<File>, flags: set<Flags>): set<int> {
    set i | 0 <= i < |files| && files[i].flags in flags :: files[i].fd
  }

  /** No two open files share a descriptor. */
  ghost predicate Distinct(files: seq<File>) {
    forall i, j | 0 <= i < j < |files| && Open(files[i]) && Open(files[j]) :: files[i].fd != files[j].fd
  }

  /** rset is exactly the open descriptors, wset exactly those that are connecting, and
      maxfd is no less than any of them. */
  ghost predicate Sets(files: seq<File>, rset: set<int>, wset: set<int>, maxfd: int) {
    && rset == Fds(files, {Connecting, Reading}) && wset == Fds(files, {Connecting})
    && Distinct(files) && maxfd >= -1 && forall i | 0 <= i < |files| && Open(files[i]) :: 0 <= files[i].fd <= maxfd
  }

  ghost predicate Counts(files: seq<File>, nconn: int, nlefttoconn: int, nlefttoread: int) {
    && nlefttoconn == Count(files, Idle)
    && nconn == Count(files, Connecting) + Count(files, Reading)
    && nlefttoread == nlefttoconn + nconn
  }

  lemma NoneOpen(files: seq<File>)
    requires forall i | 0 <= i < |files| :: files[i].flags.Idle?
    ensures Sets(files, {}, {}, -1) && Counts(files, 0, |files|, |files|)
  {
    CountNone(files, Idle);
    CountNone(files, Connecting);
    CountNone(files, Reading);
  }

  /** start_connect with a new descriptor. */
  lemma StartKeeps(files: seq<File>, i: nat, fd: int, flags: Flags,
                   rset: set<int>, wset: set<int>, maxfd: int)
    requires Sets(files, rset, wset, maxfd) && i < |files| && files[i].flags.Idle?
    requires fd >= 0 && fd !in rset && flags in {Connecting, Reading}
    ensures Sets(files[i := File(fd, flags)], rset + {fd},
                 wset + (if flags.Connecting? then {fd} else {}), Max(maxfd, fd))
  {
    var files' := files[i := File(fd, flags)];
    forall j | 0 <= j < |files| && Open(files[j])
      ensures files[j].fd != fd
    {
      assert files[j].fd in rset;
    }
    FdsUpdate(files, i, File(fd, flags), {Connecting, Reading});
    FdsUpdate(files, i, File(fd, flags), {Connecting});
  }

  lemma FdsUpdate(files: seq<File>, i: nat, f: File, flags: set<Flags>)
    requires i < |files|
    requires files[i].flags in flags ==>
               forall j | 0 <= j < |files| && j != i && files[j].flags in flags :: files[j].fd != files[i].fd
    ensures Fds(files[i := f], flags) ==
            Fds(files, flags) - (if files[i].flags in flags then {files[i].fd} else {})
            + (if f.flags in flags then {f.fd} else {})
  {
    var files' := files[i := f];
    forall x | x in Fds(files, flags)
      ensures (files[i].flags in flags && x == files[i].fd) || x in Fds(files', flags)
    {
      var j :| 0 <= j < |files| && files[j].flags in flags && files[j].fd == x;
      if j != i {
        assert files'[j] == files[j];
      }
    }
    forall x | x in Fds(files', flags)
      ensures (f.flags in flags && x == f.fd)
              || (x in Fds(files, flags) && (files[i].flags in flags ==> x != files[i].fd))
    {
      var j :| 0 <= j < |files| && files'[j].flags in flags && files'[j].fd == x;
      if j != i {
        assert files'[j] == files[j];
      }
    }
    if f.flags in flags {
      assert files'[i].fd in Fds(files', flags);
    }
  }

  /** An open file moves on: from connecting to reading, or to done. */
  lemma MoveKeeps(files: seq<File>, i: nat, flags: Flags, rset: set<int>, wset: set<int>, maxfd: int)
    requires Sets(files, rset, wset, maxfd) && i < |files| && Open(files[i]) && flags in {Reading, Done}
    ensures var fd := files[i].fd;
            && fd in rset && fd <= maxfd
            && Sets(files[i := File(fd, flags)], if flags.Done? then rset - {fd} else rset, wset - {fd}, maxfd)
  {
    var fd := files[i].fd;
    FdsUpdate(files, i, File(fd, flags), {Connecting, Reading});
    FdsUpdate(files, i, File(fd, flags), {Connecting});
  }

  lemma CountsUpdate(files: seq<File>, i: nat, f: File)
    requires i < |files|
    ensures forall flags: Flags :: Count(files[i := f], flags) ==
              Count(files, flags) - (if files[i].flags == flags then 1 else 0) + (if f.flags == flags then 1 else 0)
  {
    forall flags: Flags
      ensures Count(files[i := f], flags) ==
              Count(files, flags) - (if files[i].flags == flags then 1 else 0) + (if f.flags == flags then 1 else 0)
    {
      CountUpdate(files, i, f, flags);
    }
  }

  /** Something is connecting or being read exactly if select() has something to wait for. */
  lemma WaitsOnSomething(files: seq<File>, rset: set<int>, wset: set<int>, maxfd: int)
    requires Sets(files, rset, wset, maxfd)
    ensures wset <= rset && (rset == {} <==> Count(files, Connecting) + Count(files, Reading) == 0)
  {
    CountNone(files, Connecting);
    CountNone(files, Reading);
    assert forall i | 0 <= i < |files| && Open(files[i]) :: files[i].fd in rset;
    if rset != {} {
      var fd :| fd in rset;
      var i :| 0 <= i < |files| && files[i].flags in {Connecting, Reading} && files[i].fd == fd;
    }
  }

  /** What select() reports, and the descriptors that are at end of file. */
  datatype Ready = Ready(readable: set<int>, writable: set<int>, ended: set<int>)

  /** What the scan does to a file: a connecting one whose descriptor is ready either way is
      read from then on; a reading one is done at its end of file. */
  function Moved(f: File, ready: Ready): File {
    if f.flags.Connecting? && (f.fd in ready.readable || f.fd in ready.writable) then f.(flags := Reading)
    else if f.flags.Reading? && f.fd in ready.readable && f.fd in ready.ended then f.(flags := Done)
    else f
  }

  /** Seen from where a file ends up: when it is read, when it is done, and when nothing happens. */
  ghost predicate MovesTo(f: File, g: File, ready: Ready) {
    && g.fd == f.fd
    && (g.flags.Idle? <==> f.flags.Idle?)
    && (g.flags.Connecting? <==> f.flags.Connecting? && f.fd !in ready.readable + ready.writable)
    && (g.flags.Reading? <==>
          || (f.flags.Connecting? && f.fd in ready.readable + ready.writable)
          || (f.flags.Reading? && f.fd !in ready.readable * ready.ended))
    && (g.flags.Done? <==> f.flags.Done? || (f.flags.Reading? && f.fd in ready.readable * ready.ended))
  }

  lemma MovedMovesTo(f: File, g: File, ready: Ready)
    ensures g == Moved(f, ready) <==> MovesTo(f, g, ready)
  {
  }

  /** Only idle files have been started, and as many as allowed. */
  ghost predicate Started(files: seq<File>, mid: seq<File>, maxnconn: int) {
    && |mid| == |files|
    && (forall k | 0 <= k < |files| :: mid[k] == files[k] || (files[k].flags.Idle? && Open(mid[k])))
    && (Count(mid, Idle) == 0 || Count(mid, Connecting) + Count(mid, Reading) >= maxnconn)
  }

  /** Of what is ready, select() reports what was asked for; for the files it is the same. */
  lemma Asked(files: seq<File>, ready: Ready, rset: set<int>, wset: set<int>, maxfd: int)
    requires Sets(files, rset, wset, maxfd)
    ensures forall k | 0 <= k < |files| ::
              Moved(files[k], Ready(ready.readable * rset, ready.writable * wset, ready.ended))
              == Moved(files[k], ready)
  {
    assert forall k | 0 <= k < |files| && Open(files[k]) :: files[k].fd in rset;
    assert forall k | 0 <= k < |files| && files[k].flags.Connecting? :: files[k].fd in wset;
  }

  class Web {
    const maxnconn: int
    const file: array<File>
    var nconn: int
    var nlefttoconn: int
    var nlefttoread: int
    var maxfd: int
    var rset: set<int>
    var wset: set<int>
    ghost var turns: nat   // of the outer loop

    ghost predicate Valid()
      reads this, file
    {
      && file.Length <= MAXFILES && nconn <= Max(maxnconn, 0)
      && Sets(file[..], rset, wset, maxfd) && Counts(file[..], nconn, nlefttoconn, nlefttoread)
    }

    /** The first part of main, for the files given on the command line. */
    constructor (argc: nat, limit: int)
      requires argc >= 5
      ensures Valid() && maxnconn == limit && fresh(file)
      ensures nlefttoread == nlefttoconn == file.Length == Min(argc - 4, 20) && nconn == 0
      ensures forall i | 0 <= i < file.Length :: file[i].flags.Idle?
    {
      var nfiles := Min(argc - 4, MAXFILES);
      maxnconn := limit;
      file := new File[nfiles](_ => File(0, Idle));
      nconn, nlefttoconn, nlefttoread, maxfd, rset, wset, turns := 0, nfiles, nfiles, -1, {}, {}, 0;
      new;
      NoneOpen(file[..]);
    }

    /** write_get_cmd */
    method WriteGetCmd(i: nat)
      requires i < file.Length
      modifies this`rset, this`maxfd, file
      ensures file[..] == old(file[..])[i := File(old(file[i].fd), Reading)]
      ensures rset == old(rset) + {file[i].fd} && maxfd == Max(old(maxfd), file[i].fd)
    {
      file[i] := file[i].(flags := Reading);
      rset := rset + {file[i].fd};
      if file[i].fd > maxfd {
        maxfd := file[i].fd;
      }
    }

    /** start_connect: socket() gives a descriptor that is not open, and the connect is in
        progress or already done. */
    method StartConnect(i: nat)
      requires i < file.Length && file[i].flags.Idle? && Sets(file[..], rset, wset, maxfd)
      modifies this`rset, this`wset, this`maxfd, file
      ensures Sets(file[..], rset, wset, maxfd) && Open(file[i])
      ensures file[..] == old(file[..])[i := file[i]]
    {
      ghost var files, r, w, m := file[..], rset, wset, maxfd;
      SomeFdIsNew(files, rset, wset, maxfd);
      var fd: int :| fd >= 0 && fd !in rset;
      file[i] := file[i].(fd := fd);
      var inProgress: bool := *;
      if inProgress {
        file[i] := file[i].(flags := Connecting);
        rset := rset + {fd};
        wset := wset + {fd};
        if fd > maxfd {
          maxfd := fd;
        }
      } else {
        WriteGetCmd(i);
      }
      StartKeeps(files, i, fd, file[i].flags, r, w, m);
      assert file[..] == files[i := File(fd, file[i].flags)];
    }

    /** The search for a file to read. */
    method FindFile() returns (i: nat)
      ensures i <= file.Length && (i < file.Length ==> file[i].flags.Idle?)
      ensures forall k | 0 <= k < i :: !file[k].flags.Idle?
    {
      i := 0;
      while i < file.Length
        invariant i <= file.Length && forall k | 0 <= k < i :: !file[k].flags.Idle?
      {
        if file[i].flags.Idle? {
          break;
        }
        i := i + 1;
      }
    }

    /** The inner loop: as many connects as allowed. "nothing found" does not happen. */
    method FillConnections() returns (quit: bool)
      requires Valid()
      modifies this`nconn, this`nlefttoconn, this`rset, this`wset, this`maxfd, file
      ensures Valid() && !quit && Started(old(file[..]), file[..], maxnconn)
      ensures nconn >= maxnconn || nlefttoconn == 0
    {
      hide Sets, Count;
      while nconn < maxnconn && nlefttoconn > 0
        invariant Valid()
        invariant forall k | 0 <= k < file.Length ::
                    file[k] == old(file[k]) || (old(file[k]).flags.Idle? && Open(file[k]))
        decreases nlefttoconn
      {
        var i := FindFile();
        CountNone(file[..], Idle);
        if i == file.Length {
          return true;
        }
        ghost var files := file[..];
        StartConnect(i);
        CountsUpdate(files, i, file[i]);
        nconn := nconn + 1;
        nlefttoconn := nlefttoconn - 1;
      }
      quit := false;
    }

    /** The body of the scan for one file. */
    method Handle(i: nat, ready: Ready)
      requires Valid() && i < file.Length
      modifies this`nconn, this`nlefttoread, this`rset, this`wset, this`maxfd, file
      ensures Valid() && file[..] == old(file[..])[i := file[i]]
      ensures file[i] == Moved(old(file[i]), ready)
    {
      hide Sets, Count;
      ghost var files := file[..];
      var f := file[i];
      if f.flags.Idle? || f.flags.Done? {
        assert file[..] == files[i := f];
        return;
      }
      if f.flags.Connecting? && (f.fd in ready.readable || f.fd in ready.writable) {
        MoveKeeps(files, i, Reading, rset, wset, maxfd);
        wset := wset - {f.fd};
        ghost var r, m := rset, maxfd;
        WriteGetCmd(i);
        assert rset == r && maxfd == m;
      } else if f.flags.Reading? && f.fd in ready.readable {
        if f.fd in ready.ended {
          MoveKeeps(files, i, Done, rset, wset, maxfd);
          NotConnecting(files, i, rset, wset, maxfd);
          assert wset - {f.fd} == wset;
          file[i] := f.(flags := Done);
          rset := rset - {f.fd};
          nconn := nconn - 1;
          nlefttoread := nlefttoread - 1;
        }
      }
      CountsUpdate(files, i, file[i]);
      assert file[..] == files[i := file[i]];
    }

    /** The scan of all files after select(). */
    method Scan(ready: Ready)
      requires Valid()
      modifies this`nconn, this`nlefttoread, this`rset, this`wset, this`maxfd, file
      ensures Valid()
      ensures forall k | 0 <= k < file.Length :: file[k] == Moved(old(file[k]), ready)
    {
      hide Sets, Counts, Moved;
      var i := 0;
      while i < file.Length
        invariant i <= file.Length && Valid()
        invariant forall k | 0 <= k < i :: file[k] == Moved(old(file[k]), ready)
        invariant forall k | i <= k < file.Length :: file[k] == old(file[k])
      {
        ghost var files := file[..];
        Handle(i, ready);
        assert forall k | 0 <= k < file.Length && k != i :: file[..][k] == files[k];
        i := i + 1;
      }
    }

    /** One turn of the outer loop: mid is what it has after the connects. select() has nothing
        to wait for exactly if no connection is allowed at all. */
    method Turn(ready: Ready) returns (stuck: bool, ghost mid: seq<File>)
      requires Valid() && nlefttoread > 0
      modifies this, file
      ensures Valid() && (stuck <==> maxnconn <= 0) && turns == old(turns) + 1
      ensures |mid| == file.Length && Started(old(file[..]), mid, maxnconn)
      ensures forall k | 0 <= k < file.Length ::
                if stuck then file[k] == mid[k] else MovesTo(mid[k], file[k], ready)
    {
      hide MovesTo;
      turns := turns + 1;
      var quit := FillConnections();
      mid := file[..];
      WaitsOnSomething(mid, rset, wset, maxfd);
      if rset == {} && wset == {} {
        return true, mid;
      }
      var rs, ws := ready.readable * rset, ready.writable * wset;
      Asked(mid, ready, rset, wset, maxfd);
      Scan(Ready(rs, ws, ready.ended));
      forall k | 0 <= k < file.Length
        ensures MovesTo(mid[k], file[k], ready)
      {
        MovedMovesTo(mid[k], file[k], ready);
      }
      stuck := false;
    }
  }

  /** The loop of main, as long as the script of what is ready lasts. It is done only when
      every file is. */
  method Fetch(web: Web, script: seq<Ready>) returns (done: bool)
    requires web.Valid() && web.maxnconn >= 1
    modifies web, web.file
    ensures web.Valid() && web.nconn <= web.maxnconn
    ensures done <==> forall k | 0 <= k < web.file.Length :: web.file[k].flags.Done?
    ensures !done ==> web.turns == old(web.turns) + |script|
  {
    hide Sets, Started, Moved;
    var i := 0;
    while web.nlefttoread > 0 && i < |script|
      invariant i <= |script| && web.Valid() && web.turns == old(web.turns) + i
      decreases |script| - i
    {
      var stuck, _ := web.Turn(script[i]);
      i := i + 1;
    }
    AllDone(web.file[..], web.nconn, web.nlefttoconn, web.nlefttoread);
    done := web.nlefttoread == 0;
  }

  lemma AllDone(files: seq<File>, nconn: int, nlefttoconn: int, nlefttoread: int)
    requires Counts(files, nconn, nlefttoconn, nlefttoread)
    ensures nlefttoread == 0 <==> forall k | 0 <= k < |files| :: files[k].flags.Done?
  {
    CountNone(files, Idle);
    CountNone(files, Connecting);
    CountNone(files, Reading);
  }

  lemma NotConnecting(files: seq<File>, i: nat, rset: set<int>, wset: set<int>, maxfd: int)
    requires Sets(files, rset, wset, maxfd) && i < |files| && files[i].flags.Reading?
    ensures files[i].fd !in wset
  {
  }

  lemma SomeFdIsNew(files: seq<File>, rset: set<int>, wset: set<int>, maxfd: int)
    requires Sets(files, rset, wset, maxfd)
    ensures exists fd :: fd >= 0 && fd !in rset
  {
    assert maxfd + 1 !in rset;
  }
}
