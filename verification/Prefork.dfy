/** The preforked server that passes descriptors to its children:
    the parent's loop of server/serv05.c and the children of server/child05.c.

    The protocol is a step system over the parent's table and the two directions of each
    child's pipe. Every interleaving of children with the parent is a trace of events. */
module Prefork {
  import opened Base

  type Conn = nat

  /** Where a child is in its loop: blocked in read_fd, in web_child, or about to write. */
  datatype Phase = Waiting | Serving(conn: Conn) | Replying

  /** One entry of the parent's table, and the child behind it. */
  datatype Child = Child(
    status: nat,          // child_status, 0 = ready
    count: nat,           // child_count
    down: seq<Conn>,      // descriptors in flight to the child
    phase: Phase,
    served: seq<Conn>,    // connections the child has finished
    up: nat               // ready bytes in flight to the parent
  )

  datatype State = State(
    navail: int,
    kids: seq<Child>,
    accepted: seq<Conn>,  // connections accepted so far, in order
    quit: bool            // the parent gave up with "no available children"
  )

  datatype Event =
    | Receive(i: nat)     // the child gets a descriptor from its pipe
    | Serve(i: nat)       // web_child returns and the child closes the connection
    | Reply(i: nat)       // the child tells the parent that it is ready again
    | Dispatch(conn: Conn) // the parent accepts and hands the connection out
    | Collect(i: nat)     // the parent reads a ready byte

  predicate ByChild(e: Event) {
    e.Receive? || e.Serve? || e.Reply?
  }

  function Init(n: nat): State {
    State(n, seq(n, _ => Child(0, 0, [], Waiting, [], 0)), [], false)
  }

  /** The first child the parent's table shows as free, or the number of children. */
  function FirstFree(kids: seq<Child>, i: nat): (f: nat)
    requires i <= |kids|
    ensures i <= f <= |kids|
    ensures f < |kids| ==> kids[f].status == 0
    ensures forall k | i <= k < f :: kids[k].status != 0
    decreases |kids| - i
  {
    if i == |kids| || kids[i].status == 0 then i else FirstFree(kids, i + 1)
  }

  /** When an event can happen. The parent listens only while navail > 0. */
  predicate Enabled(s: State, e: Event) {
    match e
    case Receive(i) => i < |s.kids| && s.kids[i].phase.Waiting? && s.kids[i].down != []
    case Serve(i) => i < |s.kids| && s.kids[i].phase.Serving?
    case Reply(i) => i < |s.kids| && s.kids[i].phase.Replying?
    case Dispatch(_) => s.navail > 0
    case Collect(i) => i < |s.kids| && s.kids[i].up > 0
  }

  function Apply(s: State, e: Event): (t: State)
    requires Enabled(s, e)
    ensures |t.kids| == |s.kids|
  {
    match e
    case Receive(i) =>
      var k := s.kids[i];
      s.(kids := s.kids[i := k.(phase := Serving(k.down[0]), down := k.down[1..])])
    case Serve(i) =>
      var k := s.kids[i];
      s.(kids := s.kids[i := k.(phase := Replying, served := k.served + [k.phase.conn])])
    case Reply(i) =>
      s.(kids := s.kids[i := s.kids[i].(phase := Waiting, up := s.kids[i].up + 1)])
    case Dispatch(conn) =>
      var i := FirstFree(s.kids, 0);
      if i == |s.kids| then s.(quit := true)
      else
        var k := s.kids[i];
        State(s.navail - 1,
              s.kids[i := k.(status := 1, count := k.count + 1, down := k.down + [conn])],
              s.accepted + [conn], s.quit)
    case Collect(i) =>
      State(s.navail + 1, s.kids[i := s.kids[i].(status := 0, up := s.kids[i].up - 1)], s.accepted, s.quit)
  }

  /** The state after a trace, if each of its events was enabled. */
  function Run(n: nat, trace: seq<Event>): (s: Option<State>)
    ensures s.Some? ==> |s.value.kids| == n
  {
    if trace == [] then Some(Init(n))
    else
      var before := Run(n, trace[..|trace| - 1]);
      if before.Some? && Enabled(before.value, trace[|trace| - 1])
      then Some(Apply(before.value, trace[|trace| - 1])) else None
  }

  // ------------------------------------------- the invariant

  /** The connections a child has been given, oldest first. */
  function Given(k: Child): seq<Conn> {
    k.served + (if k.phase.Serving? then [k.phase.conn] else []) + k.down
  }

  /** A free child is idle with both directions of its pipe empty; a busy one has exactly
      one of a descriptor in flight, a request in service and a ready byte in flight. */
  ghost predicate ChildInv(k: Child) {
    && k.count == |Given(k)|
    && (k.status == 0 ==> k.down == [] && k.phase.Waiting? && k.up == 0)
    && (k.status != 0 ==>
          || (|k.down| == 1 && k.phase.Waiting? && k.up == 0)
          || (k.down == [] && !k.phase.Waiting? && k.up == 0)
          || (k.down == [] && k.phase.Waiting? && k.up == 1))
  }

  function Free(kids: seq<Child>): nat {
    if kids == [] then 0 else Free(kids[..|kids| - 1]) + if kids[|kids| - 1].status == 0 then 1 else 0
  }

  function AllGiven(kids: seq<Child>): multiset<Conn> {
    if kids == [] then multiset{} else AllGiven(kids[..|kids| - 1]) + multiset(Given(kids[|kids| - 1]))
  }

  ghost predicate Inv(s: State) {
    && s.navail == Free(s.kids)
    && (forall i | 0 <= i < |s.kids| :: ChildInv(s.kids[i]))
    && multiset(s.accepted) == AllGiven(s.kids)
    && !s.quit
  }

  lemma {:induction false} FreeUpdate(kids: seq<Child>, i: nat, k: Child)
    requires i < |kids|
    ensures Free(kids[i := k]) ==
            Free(kids) - (if kids[i].status == 0 then 1 else 0) + (if k.status == 0 then 1 else 0)
    decreases |kids|
  {
    var n := |kids| - 1;
    if i == n {
      assert kids[i := k][..n] == kids[..n];
    } else {
      FreeUpdate(kids[..n], i, k);
      assert kids[i := k][..n] == kids[..n][i := k];
    }
  }

  lemma {:induction false} AllGivenUpdate(kids: seq<Child>, i: nat, k: Child, more: multiset<Conn>)
    requires i < |kids| && multiset(Given(k)) == multiset(Given(kids[i])) + more
    ensures AllGiven(kids[i := k]) == AllGiven(kids) + more
    decreases |kids|
  {
    hide Given;
    var n := |kids| - 1;
    if i == n {
      assert kids[i := k][..n] == kids[..n];
    } else {
      AllGivenUpdate(kids[..n], i, k, more);
      assert kids[i := k][..n] == kids[..n][i := k];
    }
  }

  lemma SomeFree(kids: seq<Child>)
    ensures Free(kids) > 0 <==> FirstFree(kids, 0) < |kids|
  {
    var f := FirstFree(kids, 0);
    NoneFree(kids);
  }

  lemma {:induction false} NoneFree(kids: seq<Child>)
    ensures Free(kids) == 0 <==> forall k | 0 <= k < |kids| :: kids[k].status != 0
  {
    if kids != [] {
      NoneFree(kids[..|kids| - 1]);
    }
  }

  lemma InitInv(n: nat)
    ensures Inv(Init(n))
  {
    InitFree(Init(n).kids);
    assert multiset(Init(n).accepted) == multiset{};
  }

  lemma {:induction false} InitFree(kids: seq<Child>)
    requires forall i | 0 <= i < |kids| :: kids[i] == Child(0, 0, [], Waiting, [], 0)
    ensures Free(kids) == |kids| && AllGiven(kids) == multiset{}
  {
    if kids != [] {
      InitFree(kids[..|kids| - 1]);
    }
  }

  /** Every event of the parent and of any child keeps the invariant. */
  lemma StepKeepsInv(s: State, e: Event)
    requires Inv(s) && Enabled(s, e)
    ensures Inv(Apply(s, e))
  {
    if e.Dispatch? {
      DispatchKeepsInv(s, e.conn);
    } else {
      var t := Apply(s, e);
      GivenAfter(s.kids[e.i], t.kids[e.i], e);
      OneChildChanges(s, t, e.i, multiset{});
    }
  }

  lemma DispatchKeepsInv(s: State, conn: Conn)
    requires Inv(s) && s.navail > 0
    ensures Inv(Apply(s, Dispatch(conn)))
  {
    SomeFree(s.kids);
    var i, t := FirstFree(s.kids, 0), Apply(s, Dispatch(conn));
    GivenAfter(s.kids[i], t.kids[i], Dispatch(conn));
    OneChildChanges(s, t, i, multiset{conn});
  }

  /** Only one child's entry changes, and what it has been given grows by at most the new connection. */
  lemma OneChildChanges(s: State, t: State, i: nat, more: multiset<Conn>)
    requires Inv(s) && i < |s.kids| == |t.kids| && t.kids == s.kids[i := t.kids[i]] && !t.quit
    requires ChildInv(t.kids[i])
    requires multiset(Given(t.kids[i])) == multiset(Given(s.kids[i])) + more
    requires multiset(t.accepted) == multiset(s.accepted) + more
    requires t.navail == s.navail - (if s.kids[i].status == 0 then 1 else 0) + (if t.kids[i].status == 0 then 1 else 0)
    ensures Inv(t)
  {
    FreeUpdate(s.kids, i, t.kids[i]);
    AllGivenUpdate(s.kids, i, t.kids[i], more);
  }

  lemma GivenAfter(k: Child, k': Child, e: Event)
    requires ChildInv(k)
    requires match e
             case Receive(_) => k.phase.Waiting? && k.down != []
                                && k' == k.(phase := Serving(k.down[0]), down := k.down[1..])
             case Serve(_) => k.phase.Serving? && k' == k.(phase := Replying, served := k.served + [k.phase.conn])
             case Reply(_) => k.phase.Replying? && k' == k.(phase := Waiting, up := k.up + 1)
             case Dispatch(conn) => k.status == 0
                                    && k' == k.(status := 1, count := k.count + 1, down := k.down + [conn])
             case Collect(_) => k.up > 0 && k' == k.(status := 0, up := k.up - 1)
    ensures ChildInv(k')
    ensures Given(k') == if e.Dispatch? then Given(k) + [e.conn] else Given(k)
  {
  }

  /** Over every run, whatever the interleaving. */
  lemma {:induction false} RunKeepsInv(n: nat, trace: seq<Event>)
    requires Run(n, trace).Some?
    ensures Inv(Run(n, trace).value)
  {
    if trace == [] {
      InitInv(n);
    } else {
      var before := trace[..|trace| - 1];
      RunKeepsInv(n, before);
      StepKeepsInv(Run(n, before).value, trace[|trace| - 1]);
    }
  }

  // ------------------------------------------- what every run guarantees

  /** "no available children" is unreachable, and every accepted connection is with exactly
      one child: all that was accepted, no more and no less, is what the children were given. */
  lemma RunIsSafe(n: nat, trace: seq<Event>)
    requires Run(n, trace).Some?
    ensures var s := Run(n, trace).value;
            && !s.quit
            && s.navail == Free(s.kids)
            && (s.navail > 0 ==> FirstFree(s.kids, 0) < n)
            && multiset(s.accepted) == AllGiven(s.kids)
            && forall i | 0 <= i < n :: s.kids[i].count == |Given(s.kids[i])|
  {
    RunKeepsInv(n, trace);
    SomeFree(Run(n, trace).value.kids);
  }

  lemma SomeChildIsFree(n: nat, trace: seq<Event>, s: State)
    requires Run(n, trace) == Some(s) && s.navail > 0
    ensures FirstFree(s.kids, 0) < n
  {
    RunIsSafe(n, trace);
  }

  /** No connection is given to two children. */
  lemma GivenOnce(n: nat, trace: seq<Event>, i: nat, j: nat, conn: Conn)
    requires Run(n, trace).Some? && i < j < n
    requires var s := Run(n, trace).value;
             && multiset(s.accepted)[conn] <= 1
             && conn in Given(s.kids[i])
    ensures conn !in Given(Run(n, trace).value.kids[j])
  {
    RunKeepsInv(n, trace);
    var kids := Run(n, trace).value.kids;
    if conn in Given(kids[j]) {
      GivenTwice(kids, i, j, conn);
    }
  }

  lemma InMultiset(given: seq<Conn>, conn: Conn)
    requires conn in given
    ensures multiset(given)[conn] >= 1
  {
  }

  lemma {:induction false} GivenTwice(kids: seq<Child>, i: nat, j: nat, conn: Conn)
    requires i < j < |kids| && conn in Given(kids[i]) && conn in Given(kids[j])
    ensures AllGiven(kids)[conn] >= 2
    decreases |kids|
  {
    hide Given;
    var before, last := kids[..|kids| - 1], kids[|kids| - 1];
    AllGivenSnoc(before, last, conn);
    assert kids == before + [last];
    if j == |kids| - 1 {
      GivenOnceAtLeast(before, i, conn);
    } else {
      GivenTwice(before, i, j, conn);
    }
  }

  lemma AllGivenSnoc(before: seq<Child>, last: Child, conn: Conn)
    ensures AllGiven(before + [last])[conn] >= AllGiven(before)[conn] + (if conn in Given(last) then 1 else 0)
  {
    assert (before + [last])[..|before|] == before;
    if conn in Given(last) {
      InMultiset(Given(last), conn);
    }
  }

  lemma {:induction false} GivenOnceAtLeast(kids: seq<Child>, i: nat, conn: Conn)
    requires i < |kids| && conn in Given(kids[i])
    ensures AllGiven(kids)[conn] >= 1
    decreases |kids|
  {
    hide Given;
    var before, last := kids[..|kids| - 1], kids[|kids| - 1];
    AllGivenSnoc(before, last, conn);
    assert kids == before + [last];
    if i < |kids| - 1 {
      GivenOnceAtLeast(before, i, conn);
    }
  }

  /** With at least one child the system is never stuck: the parent can accept, or some
      child or its ready byte can move. */
  lemma NeverStuck(n: nat, trace: seq<Event>)
    requires n >= 1 && Run(n, trace).Some?
    ensures exists e :: Run(n, trace + [e]).Some?
  {
    RunKeepsInv(n, trace);
    var e := SomeEvent(Run(n, trace).value);
    assert (trace + [e])[..|trace|] == trace;
    assert Run(n, trace + [e]).Some?;
  }

  lemma SomeEvent(s: State) returns (e: Event)
    requires Inv(s) && |s.kids| >= 1
    ensures Enabled(s, e)
  {
    if s.navail > 0 {
      e := Dispatch(0);
    } else {
      var k := s.kids[0];
      NoneFree(s.kids);
      assert ChildInv(k) && k.status != 0;
      e := if k.up > 0 then Collect(0)
           else if k.phase.Serving? then Serve(0)
           else if k.phase.Replying? then Reply(0)
           else Receive(0);
    }
  }

  // ------------------------------------------- the parent's loop

  /** What the parent keeps of a child in shared memory. */
  datatype Entry = Entry(childStatus: nat, childCount: nat)

  /** The ready byte of every child in ready, each once and in the order of the table. */
  ghost predicate EachOnce(done: seq<Event>, ready: set<nat>) {
    && |done| == |ready|
    && (forall j | 0 <= j < |done| :: done[j].Collect? && done[j].i in ready)
    && (forall j, k | 0 <= j < k < |done| :: done[j].i < done[k].i)
    && (forall i | i in ready :: Collect(i) in done)
  }

  lemma OneMoreTaken(done: seq<Event>, taken: set<nat>, i: nat)
    requires EachOnce(done, taken) && forall j | j in taken :: j < i
    ensures EachOnce(done + [Collect(i)], taken + {i})
  {
    var more := done + [Collect(i)];
    assert more[|done|] == Collect(i);
    forall j | j in taken
      ensures Collect(j) in more
    {
      assert Collect(j) in done;
    }
  }

  /** The ready children the scan has still to come to. */
  ghost predicate Ahead(rest: set<nat>, ready: set<nat>, i: nat) {
    forall j :: j in rest <==> j in ready && j >= i
  }

  lemma ScanStart(ready: set<nat>)
    ensures Ahead(ready, ready, 0) && EachOnce([], ready - ready)
  {
  }

  lemma ScanHas(ready: set<nat>, rest: set<nat>, i: nat, kids: seq<Child>)
    requires Ahead(rest, ready, i)
    requires Written(kids, rest)
    ensures i in ready <==> i in rest
    ensures i in ready ==> i < |kids| && kids[i].up > 0
  {
  }

  lemma ScanTakes(done: seq<Event>, ready: set<nat>, rest: set<nat>, i: nat)
    requires Ahead(rest, ready, i) && i in ready && EachOnce(done, ready - rest)
    ensures Ahead(rest - {i}, ready, i + 1) && |rest - {i}| == |rest| - 1
    ensures EachOnce(done + [Collect(i)], ready - (rest - {i}))
  {
    OneMoreTaken(done, ready - rest, i);
    assert ready - rest + {i} == ready - (rest - {i});
  }

  lemma ScanPasses(ready: set<nat>, rest: set<nat>, i: nat)
    requires Ahead(rest, ready, i) && i !in ready
    ensures Ahead(rest, ready, i + 1)
  {
  }

  /** The ready bytes the scan has still to read are there. */
  ghost predicate Written(kids: seq<Child>, rest: set<nat>) {
    forall j | j in rest :: j < |kids| && kids[j].up > 0
  }

  lemma StillWritten(kids: seq<Child>, later: seq<Child>, rest: set<nat>, left: set<nat>)
    requires Written(kids, rest) && |kids| == |later| && left <= rest
    requires forall j | 0 <= j < |kids| && j in left :: later[j].up >= kids[j].up
    ensures Written(later, left)
  {
  }

  lemma ScanEnds(done: seq<Event>, ready: set<nat>, rest: set<nat>, kids: seq<Child>, i: nat)
    requires EachOnce(done, ready - rest) && Ahead(rest, ready, i) && Written(kids, rest)
    requires i == |kids|
    ensures EachOnce(done, ready)
  {
    assert rest == {};
    ScanStops(done, ready, rest);
  }

  lemma ScanStops(done: seq<Event>, ready: set<nat>, rest: set<nat>)
    requires EachOnce(done, ready - rest) && |rest| == 0
    ensures EachOnce(done, ready)
  {
    assert ready - rest == ready;
  }

  ghost function ParentEvents(trace: seq<Event>): seq<Event> {
    if trace == [] then []
    else ParentEvents(trace[..|trace| - 1]) + if ByChild(trace[|trace| - 1]) then [] else [trace[|trace| - 1]]
  }

  lemma TraceGrows(n: nat, trace: seq<Event>, e: Event)
    requires Run(n, trace).Some? && Enabled(Run(n, trace).value, e)
    ensures Run(n, trace + [e]) == Some(Apply(Run(n, trace).value, e))
    ensures ParentEvents(trace + [e]) == ParentEvents(trace) + (if ByChild(e) then [] else [e])
  {
    assert (trace + [e])[..|trace|] == trace;
  }

  class Parent {
    const nchildren: nat
    var navail: int
    const cptr: array<Entry>
    ghost var trace: seq<Event>
    ghost var state: State        // where the trace has led
    ghost var acts: seq<Event>    // the parent's own events in the trace

    /** The parent's variables are those of the state its trace leads to. */
    ghost predicate Valid()
      reads this, cptr
    {
      && Run(nchildren, trace) == Some(state) && acts == ParentEvents(trace)
      && navail == state.navail && cptr.Length == nchildren == |state.kids|
      && forall i | 0 <= i < nchildren ::
           cptr[i] == Entry(state.kids[i].status, state.kids[i].count)
    }

    /** child_make for every child. */
    constructor (n: nat)
      ensures Valid() && nchildren == n && trace == [] && fresh(cptr)
    {
      nchildren, navail, trace, acts, state := n, n, [], [], Init(n);
      cptr := new Entry[n](_ => Entry(0, 0));
    }

    /** Any number of children's steps, in any order, between two steps of the parent. */
    ghost method Interfere(sched: seq<Event>)
      requires Valid()
      modifies this`trace, this`state
      ensures Valid() && old(trace) <= trace
      ensures forall i | 0 <= i < nchildren :: state.kids[i].up >= old(state.kids[i].up)
    {
      hide Run, ParentEvents;
      for j := 0 to |sched|
        invariant Valid() && old(trace) <= trace
        invariant forall i | 0 <= i < nchildren :: state.kids[i].up >= old(state.kids[i].up)
      {
        var e := sched[j];
        if ByChild(e) && Enabled(state, e) {
          TraceGrows(nchildren, trace, e);
          trace, state := trace + [e], Apply(state, e);
        }
      }
    }

    /** The search for a child to hand a connection to. */
    method FindFree() returns (i: nat)
      requires Valid()
      ensures i == FirstFree(state.kids, 0)
    {
      i := 0;
      while i < nchildren
        invariant i <= nchildren && FirstFree(state.kids, i) == FirstFree(state.kids, 0)
      {
        if cptr[i].childStatus == 0 {
          break;
        }
        i := i + 1;
      }
    }

    /** The connection goes to child i: the entry is marked, the descriptor written to the pipe. */
    method HandOut(i: nat, conn: Conn)
      requires Valid() && navail > 0 && i == FirstFree(state.kids, 0) && i < nchildren
      modifies this, cptr
      ensures Valid() && trace == old(trace) + [Dispatch(conn)] && acts == old(acts) + [Dispatch(conn)]
      ensures navail == old(navail) - 1
      ensures var k := old(state.kids[i]);
              state.kids == old(state.kids)[i := k.(status := 1, count := k.count + 1, down := k.down + [conn])]
    {
      hide Run, ParentEvents;
      TraceGrows(nchildren, trace, Dispatch(conn));
      cptr[i] := Entry(1, cptr[i].childCount + 1);
      navail := navail - 1;
      trace, state := trace + [Dispatch(conn)], Apply(state, Dispatch(conn));
      acts := acts + [Dispatch(conn)];
    }

    /** The ready byte of child i is read and the entry marked as available. */
    method TakeReady(i: nat)
      requires Valid() && i < nchildren && state.kids[i].up > 0
      modifies this, cptr
      ensures Valid() && trace == old(trace) + [Collect(i)] && acts == old(acts) + [Collect(i)]
      ensures navail == old(navail) + 1
      ensures var k := old(state.kids[i]); state.kids == old(state.kids)[i := k.(status := 0, up := k.up - 1)]
    {
      hide Run, ParentEvents;
      TraceGrows(nchildren, trace, Collect(i));
      cptr[i] := Entry(0, cptr[i].childCount);
      navail := navail + 1;
      trace, state := trace + [Collect(i)], Apply(state, Collect(i));
      acts := acts + [Collect(i)];
    }

    /** The scan of the children's pipes, which stops once every descriptor select()
        reported has been dealt with: no ready child is skipped. */
    method CollectReady(ready: set<nat>, reported: nat, ghost scheds: seq<seq<Event>>) returns (ghost done: seq<Event>)
      requires Valid() && reported == |ready| && Written(state.kids, ready)
      requires |scheds| >= nchildren
      modifies this, cptr
      ensures Valid() && old(trace) <= trace
      ensures acts == old(acts) + done && EachOnce(done, ready)
    {
      hide Run, ParentEvents, Apply, Enabled, EachOnce, Ahead, Written;
      ghost var rest := ready;
      done := [];
      ScanStart(ready);
      var i, nsel := 0, reported;
      while i < nchildren
        invariant i <= nchildren && Valid() && old(trace) <= trace
        invariant Ahead(rest, ready, i) && nsel == |rest|
        invariant Written(state.kids, rest)
        invariant acts == old(acts) + done && EachOnce(done, ready - rest)
      {
        ghost var kids := state.kids;
        Interfere(scheds[i]);
        StillWritten(kids, state.kids, rest, rest);
        ScanHas(ready, rest, i, state.kids);
        if i in ready {
          kids := state.kids;
          TakeReady(i);
          StillWritten(kids, state.kids, rest, rest - {i});
          ScanTakes(done, ready, rest, i);
          Associate(old(acts), done, [Collect(i)]);
          done, rest := done + [Collect(i)], rest - {i};
          nsel := nsel - 1;
          if nsel == 0 {
            ScanStops(done, ready, rest);
            return;
          }
        } else {
          ScanPasses(ready, rest, i);
        }
        i := i + 1;
      }
      ScanEnds(done, ready, rest, state.kids, i);
    }

    /** One turn of the loop. listen and ready are what select() reports; it was asked for
        the listening socket only if navail > 0. Before each step of the parent the children
        run as the next schedule says. */
    method Round(listen: bool, conn: Conn, ready: set<nat>, ghost scheds: seq<seq<Event>>)
      returns (quit: bool, ghost done: seq<Event>)
      requires Valid() && (listen ==> navail > 0)
      requires forall i | i in ready :: i < nchildren && state.kids[i].up > 0
      requires |scheds| == nchildren + 1
      modifies this, cptr
      ensures Valid() && old(trace) <= trace && !quit
      ensures acts == old(acts) + (if listen then [Dispatch(conn)] else []) + done && EachOnce(done, ready)
    {
      hide Run, ParentEvents, Apply, Enabled;
      done := [];
      var nsel := |ready| + if listen then 1 else 0;
      Interfere(scheds[nchildren]);
      if listen {
        SomeChildIsFree(nchildren, trace, state);
        var i := FindFree();
        if i == nchildren {
          return true, [];
        }
        HandOut(i, conn);
        nsel := nsel - 1;
        if nsel == 0 {
          return false, [];
        }
      }
      assert Written(state.kids, ready);
      done := CollectReady(ready, nsel, scheds);
      quit := false;
    }
  }
}
