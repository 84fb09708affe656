/** The reliable request-reply client over UDP: dg_send_recv of rtt/dg_send_recv.c, with the
    echo server of rtt/dg_echo.c and a network that loses, repeats and reorders datagrams. */
module SendRecv {
  import opened Base
  import opened Rtt

  const WRAP := 0x1_0000_0000
  const HDRSZ := 8
  const MAXLINE := 4096

  /** One transmission: the header's two fields and the data. The number of the call and the
      time are the model's own marks; they are not on the wire. */
  datatype Packet = Packet(call: nat, seqno: nat, ts: nat, sentAt: nat, data: seq<byte>)

  /** What can happen to a waiting call. Deliver(k) brings the echo of transmission k: any
      one ever made, at any time, any number of times or never. */
  datatype Event =
    | Alarm(now: nat)
    | Deliver(k: nat, now: nat)
    | Runt(n: nat, seqno: nat, ts: nat) // a datagram shorter than the header

  datatype Outcome = Reply(data: seq<byte>) | GaveUp | Waiting

  /** rtt_ts: milliseconds since the base, in 32 bits. */
  function Stamp(now: nat, base: nat): (ts: nat)
    ensures ts < WRAP && (0 <= now - 1000 * base < WRAP ==> ts == now - 1000 * base)
  {
    (now - 1000 * base) % WRAP
  }

  function Cut(data: seq<byte>, room: nat): (c: seq<byte>)
    ensures |data| <= room ==> c == data
  {
    if |data| <= room then data else data[..room]
  }

  /** What the client gets of a payload that went through the echo server's buffer of
      MAXLINE bytes into its own buffer. */
  function Echoed(data: seq<byte>, inbytes: nat): (e: seq<byte>)
    ensures |data| <= inbytes && HDRSZ + |data| <= MAXLINE ==> e == data
  {
    Cut(Cut(data, MAXLINE - HDRSZ), inbytes)
  }

  // ------------------------------------------- sequence numbers

  ghost predicate Sent(wire: seq<Packet>, call: nat) {
    exists k | 0 <= k < |wire| :: wire[k].call == call
  }

  /** Calls are numbered from 1 and each has transmitted something. */
  ghost predicate WireInv(wire: seq<Packet>, calls: nat) {
    && (forall k | 0 <= k < |wire| :: 1 <= wire[k].call <= calls && wire[k].seqno == wire[k].call % WRAP)
    && (forall c | 1 <= c <= calls :: Sent(wire, c))
  }

  /** The header's check lets through echoes of this call only, exactly as long as there
      have been no more than 2^32 calls. */
  lemma OnlyOwnEchoesMatch(wire: seq<Packet>, calls: nat)
    requires WireInv(wire, calls)
    ensures (forall k | 0 <= k < |wire| && wire[k].seqno == calls % WRAP :: wire[k].call == calls)
            <==> calls <= WRAP
  {
    if calls <= WRAP {
      forall k | 0 <= k < |wire| && wire[k].seqno == calls % WRAP
        ensures wire[k].call == calls
      {
        SameResidue(wire[k].call, calls);
      }
    } else {
      assert Sent(wire, calls - WRAP);
      var k :| 0 <= k < |wire| && wire[k].call == calls - WRAP;
      assert wire[k].seqno == calls % WRAP && wire[k].call != calls;
    }
  }

  lemma SameResidue(c: nat, d: nat)
    requires 1 <= c <= d <= WRAP && c % WRAP == d % WRAP
    ensures c == d
  {
  }

  /** The difference of two stamps is the time between them, whatever the base. */
  lemma StampsMeasure(sentAt: nat, now: nat, base: nat)
    ensures (Stamp(now, base) - Stamp(sentAt, base)) % WRAP == (now - sentAt) % WRAP
    ensures 0 <= now - sentAt < WRAP ==> (Stamp(now, base) - Stamp(sentAt, base)) % WRAP == now - sentAt
  {
    var x, y := now - 1000 * base, sentAt - 1000 * base;
    assert x == x / WRAP * WRAP + x % WRAP && y == y / WRAP * WRAP + y % WRAP;
    Shift(x % WRAP - y % WRAP, x / WRAP - y / WRAP);
    Small(now - sentAt);
  }

  lemma Shift(x: int, q: int)
    ensures (x + q * WRAP) % WRAP == x % WRAP
  {
    var y := x + q * WRAP;
    assert y == (x / WRAP + q) * WRAP + x % WRAP;
  }

  lemma Small(x: int)
    ensures 0 <= x < WRAP ==> x % WRAP == x
  {
  }

  lemma WireGrows(wire: seq<Packet>, calls: nat, p: Packet)
    requires calls >= 1 && (WireInv(wire, calls) || WireInv(wire, calls - 1))
    requires p.call == calls && p.seqno == calls % WRAP
    ensures WireInv(wire + [p], calls)
  {
    var more := wire + [p];
    assert more[|wire|].call == calls;
    forall c | 1 <= c < calls
      ensures Sent(more, c)
    {
      assert Sent(wire, c);
      var k :| 0 <= k < |wire| && wire[k].call == c;
      assert more[k].call == c;
    }
  }

  // ------------------------------------------- what a call has seen

  /** When the call transmitted or was told to: at its start and at each alarm. */
  function Clocks(start: nat, events: seq<Event>, at: nat): (c: seq<nat>)
    requires at <= |events|
    ensures |c| >= 1
  {
    if at == 0 then [start]
    else Clocks(start, events, at - 1) + if events[at - 1].Alarm? then [events[at - 1].now] else []
  }

  /** One call: what it sends, and the transmissions made before it. */
  datatype Call = Call(number: nat, before: nat, start: nat, base: nat, outbuff: seq<byte>)

  /** The j-th transmission of a call. */
  function Transmission(c: Call, now: nat): Packet {
    Packet(c.number, c.number % WRAP, Stamp(now, c.base), now, c.outbuff)
  }

  /** A call's transmissions: one at each clock, four at most. */
  ghost predicate Transmitted(c: Call, events: seq<Event>, at: nat, wire: seq<Packet>)
    requires at <= |events|
  {
    var clocks := Clocks(c.start, events, at);
    && |wire| == c.before + Min(|clocks|, MAXNREXMT + 1)
    && forall j | c.before <= j < |wire| :: wire[j] == Transmission(c, clocks[j - c.before])
  }

  /** Event j brings a datagram that is on the wire by then and has the sequence number. */
  ghost predicate Answers(c: Call, events: seq<Event>, j: nat, wire: seq<Packet>)
    requires j < |events|
  {
    var e := events[j];
    && e.Deliver? && e.k < |wire| && e.k < c.before + |Clocks(c.start, events, j)|
    && wire[e.k].seqno == c.number % WRAP
  }

  ghost predicate NoAnswer(c: Call, events: seq<Event>, at: nat, wire: seq<Packet>)
    requires at <= |events|
  {
    forall j | 0 <= j < at :: !Answers(c, events, j, wire)
  }

  lemma {:induction false} ClocksGrow(start: nat, events: seq<Event>, j: nat, at: nat)
    requires j <= at <= |events|
    ensures |Clocks(start, events, j)| <= |Clocks(start, events, at)|
    decreases at
  {
    if j < at {
      ClocksGrow(start, events, j, at - 1);
    }
  }

  /** What was no answer does not become one by a later transmission. */
  lemma StillNoAnswer(c: Call, events: seq<Event>, at: nat, wire: seq<Packet>, more: seq<Packet>)
    requires at <= |events| && NoAnswer(c, events, at, wire) && wire <= more
    requires |Clocks(c.start, events, at)| <= MAXNREXMT + 1 && Transmitted(c, events, at, wire)
    ensures NoAnswer(c, events, at, more)
  {
    forall j | 0 <= j < at
      ensures !Answers(c, events, j, more)
    {
      ClocksGrow(c.start, events, j, at);
      assert !Answers(c, events, j, wire);
    }
  }

  /** Why a call ended after the first at events. */
  ghost predicate Ended(c: Call, events: seq<Event>, at: nat, wire: seq<Packet>, inbytes: nat, r: Outcome)
    requires at <= |events|
  {
    var alarms := |Clocks(c.start, events, at)| - 1;
    match r
    case Waiting => at == |events| && alarms <= MAXNREXMT && NoAnswer(c, events, at, wire)
    case GaveUp =>
      at > 0 && events[at - 1].Alarm? && alarms == MAXNREXMT + 1 && NoAnswer(c, events, at, wire)
    case Reply(data) =>
      && at > 0 && alarms <= MAXNREXMT && NoAnswer(c, events, at - 1, wire)
      && Answers(c, events, at - 1, wire)
      && data == Echoed(wire[events[at - 1].k].data, inbytes)
  }

  /** The echo of one of the call's own transmissions, made by then, ends the call at once. */
  lemma OwnEchoEnds(c: Call, events: seq<Event>, at: nat, wire: seq<Packet>, inbytes: nat, r: Outcome, j: nat)
    requires at <= |events| && Ended(c, events, at, wire, inbytes, r) && Transmitted(c, events, at, wire)
    requires j < |events| && events[j].Deliver?
    requires c.before <= events[j].k < c.before + |Clocks(c.start, events, j)|
    ensures at <= j || (at == j + 1 && r.Reply?)
  {
    if at > j {
      ClocksGrow(c.start, events, j, at - 1);
      ClocksStep(c.start, events, at);
      assert Answers(c, events, j, wire);
    }
  }

  lemma ClocksStep(start: nat, events: seq<Event>, at: nat)
    requires 0 < at <= |events|
    ensures |Clocks(start, events, at)| == |Clocks(start, events, at - 1)| + if events[at - 1].Alarm? then 1 else 0
  {
  }

  /** The reply is this call's own payload, and what was measured is the time since one
      of this call's own transmissions. */
  ghost predicate Own(c: Call, events: seq<Event>, at: nat, wire: seq<Packet>, inbytes: nat, data: seq<byte>)
    requires 0 < at <= |events| && events[at - 1].Deliver? && events[at - 1].k < |wire|
  {
    var p, now := wire[events[at - 1].k], events[at - 1].now;
    && data <= c.outbuff && |data| == Min(|c.outbuff|, Min(4088, inbytes))
    && p.call == c.number && p.sentAt in Clocks(c.start, events, at)
    && (Stamp(now, c.base) - p.ts) % WRAP == (now - p.sentAt) % WRAP
  }

  /** What came before the call, and the call's own part of the wire. */
  lemma ReplyIsOwn(c: Call, events: seq<Event>, at: nat, before: seq<Packet>, wire: seq<Packet>,
                   inbytes: nat, data: seq<byte>)
    requires 1 <= c.number <= WRAP && at <= |events| && Ended(c, events, at, wire, inbytes, Reply(data))
    requires before <= wire && |before| == c.before && WireInv(before, c.number - 1) && WireInv(wire, c.number)
    requires Transmitted(c, events, at, wire)
    ensures Own(c, events, at, wire, inbytes, data)
  {
    var k := events[at - 1].k;
    OnlyOwnEchoesMatch(wire, c.number);
    assert wire[k].call == c.number;
    assert forall j | 0 <= j < c.before :: wire[j] == before[j];
    StampsMeasure(wire[k].sentAt, events[at - 1].now, c.base);
  }

  class Network {
    var wire: seq<Packet>

    constructor ()
      ensures wire == []
    {
      wire := [];
    }

    method Sendmsg(p: Packet)
      modifies this
      ensures wire == old(wire) + [p]
    {
      wire := wire + [p];
    }

    /** The datagram an event brings: its size, its header and its data. */
    method Recvmsg(e: Event, inbytes: nat) returns (n: nat, seqno: nat, ts: nat, data: seq<byte>)
      requires !e.Alarm? && (e.Deliver? ==> e.k < |wire|)
      ensures e.Runt? ==> n == Min(e.n, HDRSZ - 1)
      ensures e.Deliver? ==>
                && seqno == wire[e.k].seqno && ts == wire[e.k].ts
                && data == Echoed(wire[e.k].data, inbytes) && n == HDRSZ + |data|
    {
      match e
      case Runt(size, s, t) =>
        n, seqno, ts, data := Min(size, HDRSZ - 1), s, t, [];
      case Deliver(k, _) =>
        var p := wire[k];
        data := Echoed(p.data, inbytes);
        n, seqno, ts := HDRSZ + |data|, p.seqno, p.ts;
    }
  }

  class Client {
    const net: Network
    const rttinfo: RttInfo
    var rttinit: bool
    var seqno: nat               // sendhdr.seq
    var calls: nat               // how often dg_send_recv was called
    ghost var longest: real      // the longest time measured
    ghost var rto0: real         // the timeout the last call started with
    ghost var alarms: seq<int>   // the alarms the last call has set

    /** Between two calls. */
    ghost predicate Idle()
      reads this, net, rttinfo
    {
      && seqno == calls % WRAP && WireInv(net.wire, calls) && longest >= 0.0
      && (rttinit ==> Bounded(rttinfo.Est(), longest) && rttinfo.rto == Rto(rttinfo.Est()))
    }

    constructor ()
      ensures Idle() && calls == 0 && net.wire == [] && fresh(net) && fresh(rttinfo)
    {
      net := new Network();
      rttinfo := new RttInfo();
      rttinit, seqno, calls, longest, rto0, alarms := false, 0, 0, 0.0, 0.0, [];
    }

    /** The first part of a call: the estimators, unless they are there, and the sequence number. */
    method Begin(start: nat)
      requires Idle()
      modifies this, rttinfo
      ensures rttinit && calls == old(calls) + 1 && seqno == calls % WRAP && longest == old(longest)
      ensures rttinfo.Est() == (if old(rttinit) then old(rttinfo.Est()) else INITIAL)
      ensures rttinfo.base == (if old(rttinit) then old(rttinfo.base) else start / 1000)
      ensures Bounded(rttinfo.Est(), longest) && rttinfo.rto == Rto(rttinfo.Est()) == rto0
      ensures rttinfo.nrexmt == 0 && alarms == []
    {
      if !rttinit {
        rttinfo.Init(start);
        rttinit := true;
      }
      seqno := (seqno + 1) % WRAP;
      calls := calls + 1;
      rttinfo.NewPack();
      rto0, alarms := rttinfo.rto, [];
    }

    /** sendagain: transmits and sets the alarm. */
    method Send(now: nat, outbuff: seq<byte>, ghost c: Call)
      requires c.number == calls >= 1 && c.outbuff == outbuff && c.base == rttinfo.base
      requires seqno == calls % WRAP && (WireInv(net.wire, calls) || WireInv(net.wire, calls - 1))
      requires rttinfo.rto == Backoff(rto0, |alarms|) && alarms == Alarms(rto0, |alarms|)
      modifies net, this`alarms
      ensures net.wire == old(net.wire) + [Transmission(c, now)] && WireInv(net.wire, calls)
      ensures |alarms| == old(|alarms|) + 1 && alarms == Alarms(rto0, |alarms|)
    {
      WireGrows(net.wire, calls, Transmission(c, now));
      net.Sendmsg(Packet(calls, seqno, Stamp(now, rttinfo.base), now, outbuff));
      var seconds := rttinfo.Start();
      SecondsAreNearest(rttinfo.rto, seconds);
      alarms := alarms + [seconds];
    }

    /** The call has gone through the first i events and goes on. */
    ghost predicate Underway(c: Call, events: seq<Event>, i: nat, before: seq<Packet>)
      reads this, net, rttinfo
    {
      && i <= |events| && c.number == calls >= 1 && seqno == calls % WRAP && c.before == |before|
      && rttinit && rttinfo.base == c.base && RXTMIN <= rto0 <= RXTMAX
      && rttinfo.nrexmt == |Clocks(c.start, events, i)| - 1 <= MAXNREXMT
      && |alarms| == |Clocks(c.start, events, i)| && alarms == Alarms(rto0, |alarms|)
      && rttinfo.rto == Backoff(rto0, |alarms| - 1)
      && before <= net.wire && WireInv(net.wire, calls) && Transmitted(c, events, i, net.wire)
      && NoAnswer(c, events, i, net.wire)
    }

    /** The call up to its first wait. */
    method StartCall(outbuff: seq<byte>, start: nat, ghost events: seq<Event>) returns (ghost c: Call)
      requires Idle()
      modifies this, net, rttinfo
      ensures Underway(c, events, 0, old(net.wire)) && calls == old(calls) + 1
      ensures c == Call(calls, old(|net.wire|), start, rttinfo.base, outbuff)
      ensures rttinfo.base == (if old(rttinit) then old(rttinfo.base) else start / 1000)
      ensures rttinfo.Est() == (if old(rttinit) then old(rttinfo.Est()) else INITIAL)
      ensures Bounded(rttinfo.Est(), longest) && rto0 == Rto(rttinfo.Est())
    {
      hide Update, Rto, Stamp, WireInv, Transmission;
      Begin(start);
      c := Call(calls, |net.wire|, start, rttinfo.base, outbuff);
      FirstTimeout(rto0);
      Send(start, outbuff, c);
    }

    /** The branch for a timeout. */
    method OnAlarm(outbuff: seq<byte>, ghost c: Call, events: seq<Event>, i: nat, ghost before: seq<Packet>)
      returns (gaveUp: bool)
      requires i < |events| && events[i].Alarm? && Underway(c, events, i, before) && c.outbuff == outbuff
      modifies this`rttinit, this`alarms, net, rttinfo`rto, rttinfo`nrexmt
      ensures !gaveUp ==> Underway(c, events, i + 1, before)
      ensures gaveUp ==> !rttinit && net.wire == old(net.wire) && alarms == old(alarms)
      ensures gaveUp <==> |Clocks(c.start, events, i + 1)| == MAXNREXMT + 2
    {
      gaveUp := rttinfo.Timeout();
      if gaveUp {
        rttinit := false;
        return;
      }
      ghost var wire := net.wire;
      Send(events[i].now, outbuff, c);
      StillNoAnswer(c, events, i, wire, net.wire);
    }

    /** The loop's turn for a datagram; a Deliver of a transmission not yet made brings none. */
    method OnDatagram(inbytes: nat, ghost c: Call, events: seq<Event>, i: nat, ghost before: seq<Packet>)
      returns (got: bool, data: seq<byte>)
      requires i < |events| && !events[i].Alarm? && Underway(c, events, i, before)
      requires Bounded(rttinfo.Est(), longest)
      modifies this`longest, rttinfo`rtt, rttinfo`srtt, rttinfo`rttvar, rttinfo`rto
      ensures got <==> Answers(c, events, i, net.wire)
      ensures got <==> events[i].Deliver? && events[i].k < |net.wire|
                       && net.wire[events[i].k].seqno == calls % 0x1_0000_0000
      ensures !got ==> Underway(c, events, i + 1, before)
      ensures !got ==> rttinfo.Est() == old(rttinfo.Est()) && longest == old(longest)
      ensures got ==>
                var p := net.wire[events[i].k];
                var ms := (Stamp(events[i].now, c.base) - p.ts) % WRAP;
                && data == Echoed(p.data, inbytes)
                && rttinfo.Est() == Update(old(rttinfo.Est()), ms as real / 1000.0)
                && rttinfo.rto == Rto(rttinfo.Est()) && Bounded(rttinfo.Est(), longest)
    {
      var e := events[i];
      got, data := false, [];
      if e.Runt? || e.k < |net.wire| {
        var n, recvSeqno, recvTs, echo := net.Recvmsg(e, inbytes);
        if n >= HDRSZ && recvSeqno == seqno {
          var ms := (Stamp(e.now, rttinfo.base) - recvTs) % WRAP;
          UpdateBounded(rttinfo.Est(), ms as real / 1000.0, longest);
          rttinfo.Stop(ms);
          longest := Larger(longest, ms as real / 1000.0);
          got, data := true, echo;
        }
      }
    }

    /** dg_send_recv: it ends after the first at of the events, or still waits after all. */
    method DgSendRecv(outbuff: seq<byte>, inbytes: nat, start: nat, events: seq<Event>)
      returns (r: Outcome, ghost at: nat, ghost c: Call)
      requires Idle()
      modifies this, net, rttinfo
      ensures c.number == calls == old(calls) + 1 && c.before == old(|net.wire|)
      ensures c.start == start && c.outbuff == outbuff
      ensures c.base == (if old(rttinit) then old(rttinfo.base) else start / 1000)
      ensures old(net.wire) <= net.wire && WireInv(net.wire, calls)
      ensures at <= |events| && Ended(c, events, at, net.wire, inbytes, r)
      ensures Transmitted(c, events, at, net.wire)
      ensures RXTMIN <= rto0 <= RXTMAX && alarms == Alarms(rto0, |net.wire| - c.before)
      ensures rto0 == Rto(if old(rttinit) then old(rttinfo.Est()) else INITIAL)
      ensures r.GaveUp? ==> !rttinit && 30 <= Total(alarms) <= 900
      ensures r.Reply? ==>
                var ms := (Stamp(events[at - 1].now, c.base) - net.wire[events[at - 1].k].ts) % WRAP;
                var e := if old(rttinit) then old(rttinfo.Est()) else Estimate(0.0, 0.75);
                && 8.0 * (rttinfo.srtt - e.srtt) == ms as real / 1000.0 - e.srtt
                && 4.0 * (rttinfo.rttvar - e.rttvar) == Abs(ms as real / 1000.0 - e.srtt) - e.rttvar
      ensures r.Reply? && calls <= WRAP ==> Own(c, events, at, net.wire, inbytes, r.data)
      ensures !r.Waiting? ==> Idle()
    {
      hide Backoff, Update, Rto, Total, Stamp, Echoed, WireInv, Own, Ended, Transmitted, NoAnswer, Clocks;
      ghost var before := net.wire;
      c := StartCall(outbuff, start, events);
      ghost var est := rttinfo.Est();
      at := 0;
      var i := 0;
      while i < |events|
        invariant at == i && Underway(c, events, i, before)
        invariant rttinfo.Est() == est && Bounded(est, longest)
        invariant calls == old(calls) + 1 && rto0 == Rto(est)
      {
        at := i + 1;
        if events[i].Alarm? {
          EndGaveUp(c, events, i, net.wire, inbytes);
          var gaveUp := OnAlarm(outbuff, c, events, i, before);
          if gaveUp {
            PatienceIsBounded(rto0);
            return GaveUp, at, c;
          }
        } else {
          var got, data := OnDatagram(inbytes, c, events, i, before);
          if got {
            ghost var ms := (Stamp(events[i].now, c.base) - net.wire[events[i].k].ts) % WRAP;
            UpdateLaw(est, ms as real / 1000.0);
            EndReply(c, events, i, net.wire, inbytes, data);
            if calls <= WRAP {
              ReplyIsOwn(c, events, at, before, net.wire, inbytes, data);
            }
            return Reply(data), at, c;
          }
        }
        i := i + 1;
      }
      EndWaiting(c, events, net.wire, inbytes);
      r := Waiting;
    }
  }

  lemma EndWaiting(c: Call, events: seq<Event>, wire: seq<Packet>, inbytes: nat)
    requires NoAnswer(c, events, |events|, wire) && |Clocks(c.start, events, |events|)| <= MAXNREXMT + 1
    requires Transmitted(c, events, |events|, wire)
    ensures Ended(c, events, |events|, wire, inbytes, Waiting)
    ensures |wire| == c.before + |Clocks(c.start, events, |events|)|
  {
  }

  lemma EndGaveUp(c: Call, events: seq<Event>, i: nat, wire: seq<Packet>, inbytes: nat)
    requires i < |events| && events[i].Alarm? && NoAnswer(c, events, i, wire) && Transmitted(c, events, i, wire)
    ensures |Clocks(c.start, events, i + 1)| == MAXNREXMT + 2 ==>
              && Ended(c, events, i + 1, wire, inbytes, GaveUp) && Transmitted(c, events, i + 1, wire)
              && |wire| == c.before + |Clocks(c.start, events, i)| == c.before + MAXNREXMT + 1
  {
    assert !Answers(c, events, i, wire);
  }

  lemma EndReply(c: Call, events: seq<Event>, i: nat, wire: seq<Packet>, inbytes: nat, data: seq<byte>)
    requires i < |events| && NoAnswer(c, events, i, wire) && Transmitted(c, events, i, wire)
    requires |Clocks(c.start, events, i)| <= MAXNREXMT + 1
    requires Answers(c, events, i, wire) && data == Echoed(wire[events[i].k].data, inbytes)
    ensures Ended(c, events, i + 1, wire, inbytes, Reply(data)) && Transmitted(c, events, i + 1, wire)
    ensures |wire| == c.before + |Clocks(c.start, events, i)|
  {
  }

  /** dg_cli: the lines go out one by one and what comes back is printed. The echo server's
      buffer also holds the header, so it cuts a line over 4088 bytes. */
  method DgCli(client: Client, lines: seq<seq<byte>>, starts: seq<nat>, schedules: seq<seq<Event>>)
    returns (printed: seq<seq<byte>>)
    requires client.Idle() && client.calls + |lines| <= WRAP && |lines| == |starts| == |schedules|
    modifies client, client.net, client.rttinfo
    ensures |printed| <= |lines| && forall j | 0 <= j < |printed| ::
              printed[j] <= lines[j] && |printed[j]| == Min(|lines[j]|, 4088)
    ensures client.calls == old(client.calls) + Min(|printed| + 1, |lines|)
  {
    hide Echoed;
    printed := [];
    var i := 0;
    while i < |lines|
      invariant i == |printed| <= |lines| && client.Idle() && client.calls == old(client.calls) + i
      invariant forall j | 0 <= j < i :: printed[j] <= lines[j] && |printed[j]| == Min(|lines[j]|, 4088)
    {
      var r, _, _ := client.DgSendRecv(lines[i], MAXLINE, starts[i], schedules[i]);
      if !r.Reply? {
        return;
      }
      printed := printed + [r.data];
      i := i + 1;
    }
  }

  lemma FirstTimeout(rto: real)
    ensures Backoff(rto, 0) == rto && Alarms(rto, 0) == []
  {
  }
}
