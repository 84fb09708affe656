/** The signal-driven UDP echo server of sigio/dgecho01.c: a ring of datagrams that the
    SIGIO handler fills and the main loop empties. */
module SigioEcho {
  import opened Base
  import opened Ring

  const QSIZE := 8
  const MAXDG := 4096

  datatype Datagram = Datagram(data: seq<byte>, from: seq<byte>)

  /** A slot of the ring: the datagram, and the buffer and length of its sender's address. */
  datatype DG = DG(data: seq<byte>, sa: seq<byte>, salen: nat)

  /** recvfrom() cuts what does not fit. */
  function Kept(d: Datagram): Datagram {
    Datagram(if |d.data| <= MAXDG then d.data else d.data[..MAXDG], d.from)
  }

  /** What sendto() makes of a slot. */
  function Content(slot: DG): Datagram
    requires slot.salen <= |slot.sa|
  {
    Datagram(slot.data, slot.sa[..slot.salen])
  }

  ghost predicate Holds(slot: DG, d: Datagram) {
    slot.salen <= |slot.sa| && Content(slot) == Kept(d)
  }

  /** Of the datagrams that have arrived, the ring holds the first ones not sent ... */
  ghost predicate InRing(slots: seq<DG>, iget: nat, held: nat, sent: nat, arrived: seq<Datagram>) {
    && |slots| == QSIZE && iget < QSIZE && held <= QSIZE && sent + held <= |arrived|
    && forall k | 0 <= k < QSIZE && Age(k, iget, QSIZE) < held :: Holds(slots[k], arrived[sent + Age(k, iget, QSIZE)])
  }

  /** ... and the socket those from index done on. */
  ghost predicate InSocket(sock: seq<Datagram>, done: nat, arrived: seq<Datagram>) {
    |arrived| == done + |sock| && forall j | 0 <= j < |sock| :: sock[j] == arrived[done + j]
  }

  /** The echoes are the first datagrams that came, in order and each to its own sender. */
  ghost predicate Echoes(sent: seq<Datagram>, arrived: seq<Datagram>) {
    |sent| <= |arrived| && forall j | 0 <= j < |sent| :: sent[j] == Kept(arrived[j])
  }

  /** Each echo in full: the same address, and the same data or its first 4096 bytes. */
  lemma EchoesInFull(sent: seq<Datagram>, arrived: seq<Datagram>)
    requires Echoes(sent, arrived)
    ensures |sent| <= |arrived|
    ensures forall j | 0 <= j < |sent| ::
              && sent[j].from == arrived[j].from
              && (|arrived[j].data| <= 4096 ==> sent[j].data == arrived[j].data)
              && (|arrived[j].data| > 4096 ==> sent[j].data == arrived[j].data[..4096])
  {
  }

  ghost predicate Fit(ds: seq<Datagram>, clilen: nat) {
    forall k | 0 <= k < |ds| :: |ds[k].from| <= clilen
  }

  ghost predicate Buffers(slots: seq<DG>, clilen: nat) {
    |slots| == QSIZE && forall k | 0 <= k < QSIZE :: |slots[k].sa| == clilen
  }

  lemma BuffersKept(slots: seq<DG>, i: nat, x: DG, clilen: nat)
    requires Buffers(slots, clilen) && i < QSIZE && x.sa == slots[i].sa
    ensures Buffers(slots[i := x], clilen)
  {
  }

  lemma ArriveKeeps(slots: seq<DG>, iget: nat, held: nat, sent: seq<Datagram>,
                    sock: seq<Datagram>, arrived: seq<Datagram>, ds: seq<Datagram>)
    requires InRing(slots, iget, held, |sent|, arrived) && Echoes(sent, arrived)
    requires InSocket(sock, |sent| + held, arrived)
    ensures InRing(slots, iget, held, |sent|, arrived + ds) && Echoes(sent, arrived + ds)
    ensures InSocket(sock + ds, |sent| + held, arrived + ds)
  {
  }

  /** The handler can scribble on the first free slot. */
  lemma FreeSlot(slots: seq<DG>, x: DG, iget: nat, held: nat, sent: nat, arrived: seq<Datagram>)
    requires InRing(slots, iget, held, sent, arrived) && held < QSIZE
    ensures InRing(slots[Slot(iget + held, QSIZE) := x], iget, held, sent, arrived)
  {
  }

  lemma FirstInSocket(sock: seq<Datagram>, done: nat, arrived: seq<Datagram>, clilen: nat)
    requires InSocket(sock, done, arrived) && Fit(arrived, clilen)
    ensures sock != [] ==> |sock[0].from| <= clilen
  {
    assert sock != [] ==> sock[0] == arrived[done + 0];
  }

  /** A read fills the first free slot with the socket's first datagram. */
  lemma ReadKeeps(slots: seq<DG>, slots': seq<DG>, iget: nat, held: nat, sent: nat,
                  sock: seq<Datagram>, arrived: seq<Datagram>)
    requires InRing(slots, iget, held, sent, arrived) && InSocket(sock, sent + held, arrived)
    requires held < QSIZE && sock != [] && |slots'| == QSIZE
    requires var put := Slot(iget + held, QSIZE);
             slots' == slots[put := slots'[put]] && Holds(slots'[put], sock[0])
    ensures InRing(slots', iget, held + 1, sent, arrived) && InSocket(sock[1..], sent + held + 1, arrived)
  {
    hide Holds;
    assert sock[0] == arrived[sent + held];
  }

  lemma OldestSlot(slots: seq<DG>, iget: nat, held: nat, sent: nat, arrived: seq<Datagram>)
    requires InRing(slots, iget, held, sent, arrived) && held > 0
    ensures sent < |arrived| && Holds(slots[iget], arrived[sent])
  {
    assert Age(iget, iget, QSIZE) == 0;
  }

  /** The oldest slot goes out. */
  lemma SendKeeps(slots: seq<DG>, iget: nat, held: nat, sent: seq<Datagram>, arrived: seq<Datagram>)
    requires InRing(slots, iget, held, |sent|, arrived) && Echoes(sent, arrived) && held > 0
    ensures |sent| < |arrived| && Echoes(sent + [Kept(arrived[|sent|])], arrived)
    ensures InRing(slots, Slot(iget + 1, QSIZE), held - 1, |sent| + 1, arrived)
  {
  }

  /** Datagrams that come in before the handler's first, second, ... recvfrom(). */
  type Arrivals = seq<seq<Datagram>>

  ghost predicate AllFit(arrivals: Arrivals, clilen: nat) {
    forall k | 0 <= k < |arrivals| :: Fit(arrivals[k], clilen)
  }

  /** Datagrams come in while SIGIO is deliverable; then the handler runs if it is pending. */
  datatype Interrupt = Interrupt(before: seq<Datagram>, during: Arrivals)

  ghost predicate FitAll(points: seq<Interrupt>, clilen: nat) {
    forall k | 0 <= k < |points| :: Fit(points[k].before, clilen) && AllFit(points[k].during, clilen)
  }

  datatype Status = Running | Quit | Asleep

  class Server {
    const clilen: nat
    const dg: array<DG>
    const cntread: array<nat>
    var iget: nat
    var iput: nat
    var nqueue: nat
    var sock: seq<Datagram>            // the socket's receive queue
    var pending: bool                  // SIGIO
    ghost var arrived: seq<Datagram>   // all datagrams so far
    ghost var sent: seq<Datagram>      // all echoes so far
    ghost var early: bool              // no SIGIO since the program has asked for it
    ghost const atStart: seq<Datagram> // what the socket had received by then

    /** Every datagram is echoed, in the ring or in the socket, in the order they came. The
        main loop has passed off slots that nqueue still counts. */
    ghost predicate Ring(off: nat)
      reads this, dg
    {
      && dg.Length == QSIZE && cntread.Length == QSIZE + 1
      && iget < QSIZE && off <= nqueue <= QSIZE && off <= 1
      && iput == Slot(iget + nqueue - off, QSIZE)
      && Buffers(dg[..], clilen) && Fit(arrived, clilen)
      && InRing(dg[..], iget, nqueue - off, |sent|, arrived)
      && InSocket(sock, |sent| + nqueue - off, arrived)
      && Echoes(sent, arrived)
    }

    /** Outside the handler: what waits in the socket has been signalled, unless it was there
        before the program asked for signals and none has come since; and the ring has room. */
    ghost predicate Steady(off: nat)
      reads this, dg
    {
      && Ring(off) && (sock != [] ==> pending || early) && nqueue < QSIZE
      && (early ==> nqueue == 0 && sent == [] && !pending && arrived == atStart)
    }

    /** Nothing waits in the socket and everything that came has been echoed, exactly unless
        the socket had datagrams before the program asked for SIGIO and none has come since. */
    ghost predicate AllEchoed()
      reads this
    {
      && (sock == [] <==> !early || atStart == [])
      && (|sent| == |arrived| <==> !early || atStart == [])
    }

    /** The state at FIOASYNC, with what the socket has received by then. */
    constructor (len: nat, queued: seq<Datagram>)
      requires Fit(queued, len)
      ensures Steady(0) && early && clilen == len && arrived == atStart == queued && sent == []
      ensures fresh(dg) && fresh(cntread)
    {
      clilen, atStart := len, queued;
      dg := new DG[QSIZE](_ => DG([], seq(len, _ => 0), len));
      cntread := new nat[QSIZE + 1](_ => 0);
      iget, iput, nqueue, sock, pending, arrived, sent, early := 0, 0, 0, queued, false, queued, [], true;
    }

    /** The network hands over datagrams and raises SIGIO. */
    method Arrive(ds: seq<Datagram>, ghost off: nat)
      requires Ring(off) && Fit(ds, clilen)
      modifies this`sock, this`pending, this`arrived, this`early
      ensures Ring(off) && arrived == old(arrived) + ds && sock == old(sock) + ds
      ensures pending == (old(pending) || ds != []) && early == (old(early) && ds == [])
    {
      hide InRing, InSocket, Echoes;
      ArriveKeeps(dg[..], iget, nqueue - off, sent, sock, arrived, ds);
      sock, arrived := sock + ds, arrived + ds;
      pending, early := pending || ds != [], early && ds == [];
    }

    /** recvfrom() into slot iput, with room for salen bytes of address; -1 is EWOULDBLOCK. */
    method Recvfrom() returns (len: int)
      requires Buffers(dg[..], clilen) && iput < QSIZE && dg[iput].salen == clilen
      requires sock != [] ==> |sock[0].from| <= clilen
      modifies this`sock, dg
      ensures len < 0 <==> old(sock) == []
      ensures len < 0 ==> sock == old(sock) && dg[..] == old(dg[..])
      ensures len >= 0 ==> sock == old(sock)[1..] && Holds(dg[iput], old(sock)[0])
      ensures len >= 0 ==>
                var d := old(sock)[0];
                && len == |dg[iput].data| == Min(|d.data|, 4096)
                && dg[iput].data == d.data[..len] && dg[iput].sa[..dg[iput].salen] == d.from
      ensures Buffers(dg[..], clilen) && dg[..] == old(dg[..])[iput := dg[iput]]
    {
      if sock == [] {
        return -1;
      }
      var d := Kept(sock[0]);
      var room := Min(|d.from|, dg[iput].salen);
      dg[iput] := DG(d.data, d.from[..room] + dg[iput].sa[room..], |d.from|);
      sock := sock[1..];
      len := |d.data|;
    }

    /** One turn of the handler's loop. */
    method ReadOne(ds: seq<Datagram>, ghost off: nat) returns (more: bool)
      requires Ring(off) && nqueue < QSIZE && Fit(ds, clilen)
      modifies this`iput, this`nqueue, this`sock, this`pending, this`arrived, this`early, dg
      ensures Ring(off) && arrived == old(arrived) + ds
      ensures nqueue == old(nqueue) + (if more then 1 else 0) && pending == (old(pending) || ds != [])
      ensures early == (old(early) && ds == [])
      ensures more <==> old(sock) + ds != []
      ensures !more ==> sock == []
      ensures dg[..] == old(dg[..])[old(iput) := dg[old(iput)]]
    {
      hide InRing, InSocket, Echoes, Holds, Fit, Buffers;
      Arrive(ds, off);
      more := FillSlot(off);
    }

    /** Prepares slot iput, reads into it and, if that worked, counts it. */
    method FillSlot(ghost off: nat) returns (more: bool)
      requires Ring(off) && nqueue < QSIZE
      modifies this`iput, this`nqueue, this`sock, dg
      ensures Ring(off) && nqueue == old(nqueue) + (if more then 1 else 0)
      ensures more <==> old(sock) != []
      ensures !more ==> sock == []
      ensures dg[..] == old(dg[..])[old(iput) := dg[old(iput)]]
    {
      hide InRing, InSocket, Echoes, Holds, Fit, Buffers;
      FirstInSocket(sock, |sent| + nqueue - off, arrived, clilen);
      ghost var slots, held, queued := dg[..], nqueue - off, sock;
      FreeSlot(slots, dg[iput].(salen := clilen), iget, held, |sent|, arrived);
      BuffersKept(slots, iput, dg[iput].(salen := clilen), clilen);
      dg[iput] := dg[iput].(salen := clilen);
      slots := slots[iput := dg[iput]];
      assert dg[..] == slots;
      var len := Recvfrom();
      more := len >= 0;
      if more {
        ReadKeeps(slots, dg[..], iget, held, |sent|, queued, arrived);
        nqueue := nqueue + 1;
        iput := iput + 1;
        if iput >= QSIZE {
          iput := 0;
        }
      }
    }

    /** sig_io: reads until nothing is left. It quits exactly when the ring is full,
        whether or not there is more to read. */
    method SigIo(arrivals: Arrivals, ghost off: nat) returns (quit: bool, ghost nread: nat)
      requires Ring(off) && nqueue < QSIZE && AllFit(arrivals, clilen) && !early
      modifies this`iput, this`nqueue, this`sock, this`pending, this`arrived, this`early, dg, cntread
      ensures Ring(off) && old(arrived) <= arrived && !early
      ensures nqueue == old(nqueue) + nread <= QSIZE
      ensures quit <==> nqueue == 8
      ensures !quit ==> sock == []
      ensures arrivals == [] ==> pending == old(pending)
      ensures Untouched(old(dg[..]), dg[..], iget, old(nqueue) - off)
      ensures cntread[..] == if quit then old(cntread[..]) else old(cntread[..])[nread := old(cntread[..])[nread] + 1]
    {
      hide Ring, AllFit, Untouched;
      RingFacts(off);
      var n;
      quit, n := ReadAll(arrivals, off);
      nread := n;
      if !quit {
        cntread[n] := cntread[n] + 1;
      }
    }

    lemma RingFacts(off: nat)
      requires Ring(off)
      ensures cntread.Length == QSIZE + 1 && nqueue <= QSIZE
    {
    }

    /** The handler's loop. */
    method ReadAll(arrivals: Arrivals, ghost off: nat) returns (quit: bool, nread: nat)
      requires Ring(off) && nqueue < QSIZE && AllFit(arrivals, clilen) && !early
      modifies this`iput, this`nqueue, this`sock, this`pending, this`arrived, this`early, dg
      ensures Ring(off) && old(arrived) <= arrived && !early
      ensures nqueue == old(nqueue) + nread <= QSIZE
      ensures quit <==> nqueue == 8
      ensures !quit ==> sock == []
      ensures arrivals == [] ==> pending == old(pending)
      ensures Untouched(old(dg[..]), dg[..], iget, old(nqueue) - off)
    {
      hide InRing, InSocket, Echoes, Fit, Buffers;
      var k := 0;
      nread := 0;
      while true
        invariant Ring(off) && old(arrived) <= arrived && !early
        invariant nqueue == old(nqueue) + nread <= QSIZE
        invariant Untouched(old(dg[..]), dg[..], iget, old(nqueue) - off)
        invariant arrivals == [] ==> pending == old(pending)
        decreases QSIZE - nqueue
      {
        if nqueue >= QSIZE {
          return true, nread;
        }
        ghost var slots := dg[..];
        NothingFits(clilen);
        var more := ReadOne(if k < |arrivals| then arrivals[k] else [], off);
        StillUntouched(old(dg[..]), slots, dg[..], iget, old(nqueue) - off, old(nqueue) + nread - off);
        if !more {
          return false, nread;
        }
        k, nread := k + 1, nread + 1;
      }
    }

    /** A point at which SIGIO is not blocked. */
    method Unblocked(points: seq<Interrupt>, ghost off: nat) returns (quit: bool)
      requires Steady(off) && FitAll(points, clilen)
      modifies this`iput, this`nqueue, this`sock, this`pending, this`arrived, this`early, dg, cntread
      ensures Ring(off) && old(arrived) <= arrived && nqueue >= old(nqueue)
      ensures quit <==> nqueue == 8
      ensures !quit ==> Steady(off)
      ensures Untouched(old(dg[..]), dg[..], iget, old(nqueue) - off)
    {
      hide InRing, InSocket, Echoes, Fit, AllFit, Buffers;
      var i := 0;
      while i < |points|
        invariant Steady(off) && old(arrived) <= arrived && nqueue >= old(nqueue)
        invariant Untouched(old(dg[..]), dg[..], iget, old(nqueue) - off)
      {
        ghost var slots, held := dg[..], nqueue - off;
        Arrive(points[i].before, off);
        if pending {
          pending := false;
          var full, _ := SigIo(points[i].during, off);
          UntouchedTwice(old(dg[..]), slots, dg[..], iget, old(nqueue) - off, held);
          if full {
            return true;
          }
        }
        i := i + 1;
      }
      quit := false;
    }

    /** while (nqueue == 0) sigsuspend(): asleep if nothing is pending and nothing more comes. */
    method AwaitDatagram(wakes: seq<Interrupt>) returns (r: Status)
      requires Steady(0) && FitAll(wakes, clilen)
      modifies this`iput, this`nqueue, this`sock, this`pending, this`arrived, this`early, dg, cntread
      ensures Ring(0) && old(arrived) <= arrived
      ensures r.Running? ==> Steady(0) && nqueue > 0
      ensures r.Quit? <==> nqueue == 8
      ensures r.Asleep? ==> Steady(0) && nqueue == 0 && !pending && AllEchoed()
    {
      hide InRing, Echoes, Fit, AllFit, Buffers;
      NothingFits(clilen);
      var i := 0;
      while nqueue == 0
        invariant i <= |wakes| && Steady(0) && old(arrived) <= arrived
        decreases |wakes| - i, pending
      {
        var wake := if i < |wakes| then wakes[i] else Interrupt([], []);
        Arrive(wake.before, 0);
        if pending {
          pending := false;
          var full, _ := SigIo(wake.during, 0);
          if full {
            return Quit;
          }
        } else if i == |wakes| {
          return Asleep;
        }
        i := if i < |wakes| then i + 1 else i;
      }
      r := Running;
    }

    /** sendto() of the oldest slot. SIGIO can come before it, between its reads of the address
        and of the data, and after it; the slot does not change under it. */
    method Sendto(points: seq<seq<Interrupt>>) returns (quit: bool, echo: Datagram)
      requires Steady(0) && nqueue > 0
      requires |points| == 4 && forall k | 0 <= k < 4 :: FitAll(points[k], clilen)
      modifies this`iput, this`nqueue, this`sock, this`pending, this`arrived, this`early, dg, cntread
      ensures Ring(0) && old(arrived) <= arrived && nqueue > 0
      ensures quit <==> nqueue == 8
      ensures !quit ==> Steady(0) && echo == Kept(arrived[|sent|])
    {
      hide InSocket, Echoes, Fit, FitAll, AllFit, Buffers, Untouched;
      echo := Datagram([], []);
      quit := Unblocked(points[0], 0);
      if quit {
        return;
      }
      OldestSlot(dg[..], iget, nqueue, |sent|, arrived);
      var to := dg[iget].sa[..dg[iget].salen];
      quit := Unblocked(points[1], 0);
      if quit {
        return;
      }
      OldestSlot(dg[..], iget, nqueue, |sent|, arrived);
      echo := Datagram(dg[iget].data, to);
      quit := Unblocked(points[2], 0);
    }

    /** ++iget, when the oldest datagram has gone out. */
    method Advance(ghost echo: Datagram)
      requires Steady(0) && nqueue > 0 && echo == Kept(arrived[|sent|])
      modifies this`iget, this`sent
      ensures Steady(1) && sent == old(sent) + [echo]
    {
      hide InRing, InSocket, Echoes, Fit, Buffers;
      SendKeeps(dg[..], iget, nqueue, sent, arrived);
      iget := iget + 1;
      if iget >= QSIZE {
        iget := 0;
      }
      sent := sent + [echo];
    }

    /** One turn of the main loop; SIGIO is also deliverable after iget has moved on, while
        nqueue has not. */
    method Turn(wakes: seq<Interrupt>, points: seq<seq<Interrupt>>) returns (r: Status)
      requires Steady(0) && FitAll(wakes, clilen)
      requires |points| == 4 && forall k | 0 <= k < 4 :: FitAll(points[k], clilen)
      modifies this, dg, cntread
      ensures old(arrived) <= arrived && old(sent) <= sent
      ensures |sent| <= |arrived| && forall j | 0 <= j < |sent| ::
                && sent[j].from == arrived[j].from
                && (|arrived[j].data| <= 4096 ==> sent[j].data == arrived[j].data)
                && (|arrived[j].data| > 4096 ==> sent[j].data == arrived[j].data[..4096])
      ensures r.Running? ==> Steady(0) && |sent| == old(|sent|) + 1
      ensures r.Asleep? ==> Steady(0) && sent == old(sent) && nqueue == 0 && AllEchoed()
      ensures r.Quit? ==> nqueue == 8 && (Ring(0) || Ring(1))
    {
      hide InRing, InSocket, Echoes, Fit, FitAll, AllFit, Buffers, Content, Holds, Untouched, Kept;
      r := AwaitDatagram(wakes);
      EchoesInFull(sent, arrived);
      if !r.Running? {
        return;
      }
      var full, echo := Sendto(points);
      EchoesInFull(sent, arrived);
      if full {
        return Quit;
      }
      Advance(echo);
      full := Unblocked(points[3], 1);
      EchoesInFull(sent, arrived);
      if full {
        return Quit;
      }
      nqueue := nqueue - 1;
    }
  }

  /** When SIGIO comes during one turn of the main loop. */
  datatype Script = Script(wakes: seq<Interrupt>, points: seq<seq<Interrupt>>)

  ghost predicate Playable(script: Script, clilen: nat) {
    && FitAll(script.wakes, clilen) && |script.points| == 4
    && forall k | 0 <= k < 4 :: FitAll(script.points[k], clilen)
  }

  /** The endless loop, as long as the scripts last: one echo a turn, every echo right and in
      order, and asleep only when all that has come is echoed. */
  method DgEcho(server: Server, scripts: seq<Script>) returns (r: Status)
    requires server.Steady(0) && forall k | 0 <= k < |scripts| :: Playable(scripts[k], server.clilen)
    modifies server, server.dg, server.cntread
    ensures old(server.arrived) <= server.arrived && |server.sent| <= |server.arrived|
    ensures forall j | 0 <= j < |server.sent| ::
              && server.sent[j].from == server.arrived[j].from
              && (|server.arrived[j].data| <= 4096 ==> server.sent[j].data == server.arrived[j].data)
              && (|server.arrived[j].data| > 4096 ==> server.sent[j].data == server.arrived[j].data[..4096])
    ensures r.Running? ==> server.Steady(0) && |server.sent| == old(|server.sent|) + |scripts|
    ensures r.Asleep? ==> server.Steady(0) && server.nqueue == 0 && server.AllEchoed()
    ensures r.Quit? ==> server.nqueue == 8
  {
    hide InRing, InSocket, Buffers, FitAll, AllFit, Echoes;
    r := Running;
    var i := 0;
    while i < |scripts|
      invariant i <= |scripts| && r.Running? && server.Steady(0) && old(server.arrived) <= server.arrived
      invariant |server.sent| == old(|server.sent|) + i
    {
      r := server.Turn(scripts[i].wakes, scripts[i].points);
      if !r.Running? {
        return;
      }
      i := i + 1;
    }
    EchoesInFull(server.sent, server.arrived);
  }

  /** The slots that were in the ring are as they were. */
  ghost predicate Untouched(slots: seq<DG>, slots': seq<DG>, iget: nat, held: int) {
    && |slots| == |slots'| == QSIZE && iget < QSIZE
    && forall k | 0 <= k < QSIZE && Age(k, iget, QSIZE) < held :: slots'[k] == slots[k]
  }

  lemma StillUntouched(slots: seq<DG>, slots': seq<DG>, slots'': seq<DG>,
                       iget: nat, held: nat, now: nat)
    requires Untouched(slots, slots', iget, held) && held <= now < QSIZE && |slots''| == QSIZE
    requires var put := Slot(iget + now, QSIZE); slots'' == slots'[put := slots''[put]]
    ensures Untouched(slots, slots'', iget, held)
  {
  }

  lemma UntouchedTwice(slots: seq<DG>, slots': seq<DG>, slots'': seq<DG>,
                       iget: nat, held: int, more: int)
    requires Untouched(slots, slots', iget, held) && Untouched(slots', slots'', iget, more) && held <= more
    ensures Untouched(slots, slots'', iget, held)
  {
  }

  lemma NothingFits(clilen: nat)
    ensures Fit([], clilen) && AllFit([], clilen)
  {
  }
}
