/** The prethreaded server whose main thread accepts and hands descriptors to a pool:
    server/serv08.c and the pool's threads of server/pthread08.c. */
module ThreadPool {
  import opened CondVar
  import opened Ring

  const MAXNCLI := 32

  /** Everything but the ring itself. */
  datatype State = State(
    accepted: seq<int>,   // all descriptors handed over, in order
    taken: seq<int>,      // all descriptors that threads have taken, in order
    pool: Sync,
    counts: seq<nat>,     // thread_count of each thread
    due: set<Tid>,        // the threads between their unlock and the increment after it
    quit: bool            // the main thread gave up with "iput = iget"
  )

  /** One step of the main thread or of a thread of the pool under the mutex, an increment of
      a thread's own counter, or a wakeup without a signal. chosen is whom the signal wakes. */
  datatype Event =
    | Accept(connfd: int, chosen: set<Tid>)
    | Serve(t: Tid)
    | Count(t: Tid)
    | Spurious(t: Tid)

  function Init(nthreads: nat): State {
    State([], [], Sync({}, {}), seq(nthreads, _ => 0), {}, false)
  }

  function Items(s: State): int {
    |s.accepted| - |s.taken|
  }

  predicate Enabled(s: State, e: Event) {
    && !s.quit
    && match e
       case Accept(_, chosen) => CanSignal(s.pool, chosen)
       case Serve(t) => t < |s.counts| && t !in s.pool.waiting && t !in s.due
       case Count(t) => t < |s.counts| && t in s.due
       case Spurious(t) => t in s.pool.waiting
  }

  /** The main thread gives up when 31 descriptors wait: one more would make a full ring
      look empty. */
  function Apply(s: State, e: Event): State
    requires Enabled(s, e)
  {
    match e
    case Accept(connfd, chosen) =>
      if Items(s) == MAXNCLI - 1 then s.(quit := true)
      else s.(accepted := s.accepted + [connfd], pool := Wakeup(s.pool, chosen))
    case Serve(t) =>
      if Items(s) <= 0 then s.(pool := Block(s.pool, t))
      else s.(taken := s.taken + [s.accepted[|s.taken|]], pool := Resume(s.pool, t),
              due := s.due + {t})
    case Count(t) => s.(counts := s.counts[t := s.counts[t] + 1], due := s.due - {t})
    case Spurious(t) => s.(pool := Wakeup(s.pool, {t}))
  }

  /** A schedule; a step that cannot happen when it is due is left out. */
  function Run(s: State, schedule: seq<Event>): State {
    if schedule == [] then s
    else
      var before, e := Run(s, schedule[..|schedule| - 1]), schedule[|schedule| - 1];
      if Enabled(before, e) then Apply(before, e) else before
  }

  function Total(counts: seq<nat>): nat {
    if counts == [] then 0 else Total(counts[..|counts| - 1]) + counts[|counts| - 1]
  }

  lemma {:induction false} TotalZero(counts: seq<nat>)
    requires forall k | 0 <= k < |counts| :: counts[k] == 0
    ensures Total(counts) == 0
  {
    if counts != [] {
      TotalZero(counts[..|counts| - 1]);
    }
  }

  lemma {:induction false} TotalUpdate(counts: seq<nat>, i: nat, x: nat)
    requires i < |counts|
    ensures Total(counts[i := x]) == Total(counts) - counts[i] + x
  {
    var n := |counts| - 1;
    if i == n {
      assert counts[i := x][..n] == counts[..n];
    } else {
      TotalUpdate(counts[..n], i, x);
      assert counts[i := x][..n] == counts[..n][i := x];
    }
  }

  lemma OneMore(due: set<Tid>, t: Tid)
    requires t !in due
    ensures |due + {t}| == |due| + 1
  {
  }

  ghost predicate Inv(s: State) {
    && s.taken <= s.accepted && Items(s) < MAXNCLI
    && Alert(s.pool, Items(s)) && Total(s.counts) + |s.due| == |s.taken|
    && (s.quit ==> Items(s) == MAXNCLI - 1)
  }

  /** What was handed over or taken stays so. */
  ghost predicate Grows(s: State, t: State) {
    s.accepted <= t.accepted && s.taken <= t.taken
  }

  lemma StepKeepsInv(s: State, e: Event)
    requires Inv(s) && Enabled(s, e)
    ensures Inv(Apply(s, e)) && Grows(s, Apply(s, e))
  {
    hide Inv, Apply, Enabled;
    match e
    case Accept(connfd, chosen) => AcceptKeepsInv(s, connfd, chosen);
    case Serve(t) => ServeKeepsInv(s, t);
    case Count(t) => CountKeepsInv(s, t);
    case Spurious(t) => SpuriousKeepsInv(s, t);
  }

  lemma AcceptKeepsInv(s: State, connfd: int, chosen: set<Tid>)
    requires Inv(s) && Enabled(s, Accept(connfd, chosen))
    ensures Inv(Apply(s, Accept(connfd, chosen))) && Grows(s, Apply(s, Accept(connfd, chosen)))
  {
    hide Alert, Wakeup, Total;
    WakeupKeeps(s.pool, chosen, Items(s));
  }

  lemma ServeKeepsInv(s: State, t: Tid)
    requires Inv(s) && Enabled(s, Serve(t))
    ensures Inv(Apply(s, Serve(t))) && Grows(s, Apply(s, Serve(t)))
  {
    hide Alert, Resume, Block, Total;
    ResumeKeeps(s.pool, t, Items(s));
    OneMore(s.due, t);
  }

  lemma CountKeepsInv(s: State, t: Tid)
    requires Inv(s) && Enabled(s, Count(t))
    ensures Inv(Apply(s, Count(t))) && Grows(s, Apply(s, Count(t)))
  {
    hide Alert, Total;
    TotalUpdate(s.counts, t, s.counts[t] + 1);
    OneMore(s.due - {t}, t);
    assert s.due == (s.due - {t}) + {t};
  }

  lemma SpuriousKeepsInv(s: State, t: Tid)
    requires Inv(s) && Enabled(s, Spurious(t))
    ensures Inv(Apply(s, Spurious(t))) && Grows(s, Apply(s, Spurious(t)))
  {
    hide Alert, Wakeup, Total;
    WakeupKeeps(s.pool, {t}, Items(s));
  }

  /** For any number of threads, every interleaving and all spurious wakeups: descriptors leave
      once each and in order, and a blocked thread faces no more descriptors than there are
      threads about to run. The counters, which are read without the mutex, are short of the
      descriptors taken by one for each thread that has not got to its increment yet, so they
      are right exactly when there is none. */
  lemma {:induction false} RunIsSafe(nthreads: nat, schedule: seq<Event>)
    ensures var s := Run(Init(nthreads), schedule);
            && Inv(s)
            && (s.pool.waiting != {} ==> Items(s) <= |s.pool.woken|)
            && (s.pool.waiting != {} && s.pool.woken == {} ==> s.taken == s.accepted)
            && |s.taken| - Total(s.counts) == |s.due|
            && (Total(s.counts) == |s.taken| <==> s.due == {})
  {
    hide Enabled, Apply;
    if schedule == [] {
      TotalZero(Init(nthreads).counts);
    } else {
      var before := schedule[..|schedule| - 1];
      RunIsSafe(nthreads, before);
      var s, e := Run(Init(nthreads), before), schedule[|schedule| - 1];
      if Enabled(s, e) {
        StepKeepsInv(s, e);
      }
    }
  }

  class Server {
    const clifd: array<int>
    var iget: nat
    var iput: nat
    const cond: Cond
    const threadCount: array<nat>
    ghost var accepted: seq<int>
    ghost var taken: seq<int>
    ghost var due: set<Tid>
    ghost var quit: bool

    ghost function View(): State
      reads this, cond, threadCount
    {
      State(accepted, taken, cond.State(), threadCount[..], due, quit)
    }

    /** The ring holds the descriptors handed over and not taken. Equal indices mean that it
        is empty, so it holds one less than it has slots. */
    ghost predicate Queue()
      reads this, clifd
    {
      && clifd.Length == MAXNCLI && Fifo(clifd[..], iget, iput, accepted, taken)
      && taken <= accepted && |accepted| - |taken| < MAXNCLI
    }

    ghost predicate Valid()
      reads this, clifd, cond, threadCount
    {
      Queue() && Inv(View()) && !quit
    }

    constructor (nthreads: nat)
      ensures Valid() && View() == Init(nthreads) && fresh(clifd) && fresh(cond) && fresh(threadCount)
    {
      clifd := new int[MAXNCLI];
      threadCount := new nat[nthreads](_ => 0);
      iget, iput, accepted, taken, due, quit := 0, 0, [], [], {}, false;
      cond := new Cond();
      new;
      FifoStart(clifd[..]);
      TotalZero(threadCount[..]);
      assert threadCount[..] == Init(nthreads).counts;
    }

    /** The main thread's step for one connection. */
    method Hand(connfd: int, chosen: set<Tid>) returns (full: bool)
      requires Valid() && Enabled(View(), Accept(connfd, chosen))
      modifies this`iput, this`accepted, this`quit, clifd, cond
      ensures View() == Apply(old(View()), Accept(connfd, chosen)) && Inv(View())
      ensures full <==> old(|accepted| - |taken|) == 31
      ensures !full ==> Valid() && accepted == old(accepted) + [connfd]
    {
      hide Fifo, Total, Inv, Alert;
      StepKeepsInv(View(), Accept(connfd, chosen));
      FifoPut(clifd[..], iget, iput, accepted, taken, connfd);
      ghost var slots := clifd[..][iput := connfd];
      clifd[iput] := connfd;
      assert clifd[..] == slots;
      iput := iput + 1;
      if iput == MAXNCLI {
        iput := 0;
      }
      FifoEmpty(clifd[..], iget, iput, accepted + [connfd], taken);
      if iput == iget {
        quit := true;
        return true;
      }
      accepted := accepted + [connfd];
      cond.Wake(chosen);
      full := false;
    }

    /** A pool thread's step under the mutex. */
    method Take(t: Tid) returns (done: bool, connfd: int)
      requires Valid() && Enabled(View(), Serve(t))
      modifies this`iget, this`taken, this`due, cond
      ensures Valid() && View() == Apply(old(View()), Serve(t))
      ensures done <==> old(|taken|) < |accepted|
      ensures done ==> connfd == accepted[old(|taken|)]
      ensures done <==> taken == old(taken) + [connfd]
      ensures !done <==> t in cond.waiting
    {
      hide Fifo, Total, Inv, Alert;
      StepKeepsInv(View(), Serve(t));
      FifoEmpty(clifd[..], iget, iput, accepted, taken);
      if iget == iput {
        cond.Wait(t);
        return false, 0;
      }
      cond.Leave(t);
      connfd := Fetch();
      due := due + {t};
      done := true;
    }

    /** thread_count++, after the unlock; no other thread touches this counter. */
    method CountOne(t: Tid)
      requires Valid() && Enabled(View(), Count(t))
      modifies this`due, threadCount
      ensures Valid() && View() == Apply(old(View()), Count(t))
      ensures threadCount[t] == old(threadCount[t]) + 1
    {
      hide Fifo, Total, Inv, Alert;
      StepKeepsInv(View(), Count(t));
      ghost var counts := threadCount[..][t := threadCount[t] + 1];
      threadCount[t] := threadCount[t] + 1;
      assert threadCount[..] == counts;
      due := due - {t};
    }

    method Fetch() returns (connfd: int)
      requires Queue() && |taken| < |accepted|
      modifies this`iget, this`taken
      ensures Queue() && taken == old(taken) + [connfd] && connfd == accepted[old(|taken|)]
    {
      hide Fifo;
      FifoGet(clifd[..], iget, iput, accepted, taken);
      connfd := clifd[iget];
      iget := iget + 1;
      if iget == MAXNCLI {
        iget := 0;
      }
      taken := taken + [connfd];
    }

    /** A wait that returns without a signal. */
    method WakeUp(t: Tid)
      requires Valid() && Enabled(View(), Spurious(t))
      modifies cond
      ensures Valid() && View() == Apply(old(View()), Spurious(t))
    {
      hide Fifo, Total, Inv, Alert;
      StepKeepsInv(View(), Spurious(t));
      cond.Wake({t});
    }
  }
}
