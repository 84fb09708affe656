/** Processes that write characters in turn into a shared mapping: the loop of exercise4/incr.c
    with the file lock of exercise4/lock.c. */
module SharedWriter {
  import opened Base

  const SIZE := 100000

  /** Where a process is: before the lock, holding it, between the unlock and the lock of its
      spin, holding it again, or gone. */
  datatype Place = Outside | Entered | Spinning | Retesting | Gone

  /** A process, its character and the turns of its loop that are left. */
  datatype Process = Process(c: char, left: nat, at: Place)

  predicate Holds(p: Process) {
    p.at.Entered? || p.at.Retesting?
  }

  /** Past the capacity check, but its character is not written yet. */
  predicate Passed(p: Process) {
    p.at.Spinning? || p.at.Retesting?
  }

  function CountPassed(ps: seq<Process>): (n: nat)
    ensures n <= |ps|
  {
    if ps == [] then 0 else CountPassed(ps[..|ps| - 1]) + if Passed(ps[|ps| - 1]) then 1 else 0
  }

  lemma {:induction false} PassedUpdate(ps: seq<Process>, i: nat, p: Process)
    requires i < |ps|
    ensures CountPassed(ps[i := p]) ==
            CountPassed(ps) - (if Passed(ps[i]) then 1 else 0) + (if Passed(p) then 1 else 0)
    ensures !Passed(ps[i]) ==> CountPassed(ps) < |ps|
  {
    var n := |ps| - 1;
    if i == n {
      assert ps[i := p][..n] == ps[..n];
    } else {
      PassedUpdate(ps[..n], i, p);
      assert ps[i := p][..n] == ps[..n][i := p];
    }
  }

  lemma {:induction false} NonePassed(ps: seq<Process>)
    requires forall k | 0 <= k < |ps| :: !Passed(ps[k])
    ensures CountPassed(ps) == 0
  {
    if ps != [] {
      NonePassed(ps[..|ps| - 1]);
    }
  }

  /** The turns of their loops that the processes have left. */
  function TurnsLeft(ps: seq<Process>): nat {
    if ps == [] then 0 else TurnsLeft(ps[..|ps| - 1]) + ps[|ps| - 1].left
  }

  lemma {:induction false} TurnsUpdate(ps: seq<Process>, i: nat, p: Process)
    requires i < |ps|
    ensures TurnsLeft(ps[i := p]) == TurnsLeft(ps) - ps[i].left + p.left
  {
    var n := |ps| - 1;
    if i == n {
      assert ps[i := p][..n] == ps[..n];
    } else {
      TurnsUpdate(ps[..n], i, p);
      assert ps[i := p][..n] == ps[..n][i := p];
    }
  }

  /** Because the capacity is checked before the spin and not after it, each process that was
      spinning when the counter got to the end can still go one further. */
  ghost predicate Bounded(counter: int, ps: seq<Process>) {
    counter >= SIZE - 1 ==> counter + CountPassed(ps) <= SIZE - 1 + |ps| - 1
  }

  /** Neighbours differ among the characters written. */
  ghost predicate Alternates(cells: seq<char>, counter: int) {
    0 <= counter <= |cells| && forall k | 0 < k < counter :: cells[k] != cells[k - 1]
  }

  /** The mapping, the processes and the lock. */
  datatype State = State(
    counter: int,            // *iptr
    cells: seq<char>,        // *cptr, and what is behind it
    procs: seq<Process>,
    holder: Option<nat>      // who has the lock
  )

  function Init(ps: seq<Process>): State {
    State(0, seq(SIZE + |ps|, _ => '\0'), ps, None)
  }

  /** my_lock_wait() can return for a process: nobody has the lock. */
  predicate CanLock(s: State, i: nat) {
    && s.holder.None? && i < |s.procs|
    && (s.procs[i].at.Spinning? || (s.procs[i].at.Outside? && s.procs[i].left > 0))
  }

  predicate InCritical(s: State, i: nat) {
    s.holder == Some(i) && i < |s.procs| && Holds(s.procs[i]) && 0 <= s.counter < |s.cells|
  }

  function Placed(s: State, i: nat, p: Process, holder: Option<nat>): State
    requires i < |s.procs|
  {
    s.(procs := s.procs[i := p], holder := holder)
  }

  /** One step of process i: the lock, or all that it has the lock for and the unlock. */
  function Step(s: State, i: nat): State {
    if CanLock(s, i) then
      Placed(s, i, s.procs[i].(at := if s.procs[i].at.Spinning? then Retesting else Entered), Some(i))
    else if InCritical(s, i) then
      var p := s.procs[i];
      if p.at.Entered? && s.counter >= SIZE - 1 then Placed(s, i, p.(at := Gone), None)
      else if s.counter > 0 && s.cells[s.counter - 1] == p.c then Placed(s, i, p.(at := Spinning), None)
      else Placed(s, i, p.(at := Outside, left := Max(p.left - 1, 0)), None)
           .(counter := s.counter + 1, cells := s.cells[s.counter := p.c])
    else s
  }

  function Run(s: State, schedule: seq<nat>): State {
    if schedule == [] then s else Step(Run(s, schedule[..|schedule| - 1]), schedule[|schedule| - 1])
  }

  ghost predicate Inv(s: State) {
    && |s.procs| >= 1 && |s.cells| == SIZE + |s.procs|
    && Alternates(s.cells, s.counter) && Bounded(s.counter, s.procs)
    && s.counter <= (SIZE - 1) + (|s.procs| - 1)
    && (forall i | 0 <= i < |s.procs| && Holds(s.procs[i]) :: s.holder == Some(i))
    && (s.holder.Some? ==> InCritical(s, s.holder.value))
    && (forall i | 0 <= i < |s.procs| && (Holds(s.procs[i]) || Passed(s.procs[i])) :: s.procs[i].left > 0)
  }

  /** What has been written stays. */
  ghost predicate Extends(s: State, t: State) {
    && 0 <= s.counter <= t.counter && |s.cells| == |t.cells| && s.counter <= |s.cells|
    && |s.procs| == |t.procs|
    && forall k | 0 <= k < s.counter :: t.cells[k] == s.cells[k]
  }

  lemma StepKeepsInv(s: State, i: nat)
    requires Inv(s)
    ensures Inv(Step(s, i)) && Extends(s, Step(s, i))
    ensures Step(s, i).counter + TurnsLeft(Step(s, i).procs) == s.counter + TurnsLeft(s.procs)
  {
    hide CountPassed, TurnsLeft;
    if i < |s.procs| {
      TurnsUpdate(s.procs, i, Step(s, i).procs[i]);
      PassedUpdate(s.procs, i, Step(s, i).procs[i]);
    }
  }

  /** For every interleaving of any number of processes: no two neighbours are equal, nothing
      written changes, each character written takes one turn of some loop, and the counter stays
      within SIZE - 1 and one more for each process but one; so with one or two processes no
      write goes past the SIZE characters. */
  lemma {:induction false} RunIsSafe(ps: seq<Process>, schedule: seq<nat>, more: seq<nat>)
    requires |ps| >= 1 && forall k | 0 <= k < |ps| :: ps[k].at.Outside?
    ensures var s, t := Run(Init(ps), schedule), Run(Init(ps), schedule + more);
            && Inv(s) && Inv(t) && Extends(s, t) && |s.procs| == |ps|
            && t.counter <= 99999 + (|ps| - 1) && (|ps| <= 2 ==> t.counter <= 100000)
            && t.counter + TurnsLeft(t.procs) == TurnsLeft(ps)
    decreases |more|, |schedule|
  {
    hide Inv, Step, TurnsLeft;
    if more != [] {
      var before := more[..|more| - 1];
      RunIsSafe(ps, schedule, before);
      assert (schedule + more)[..|schedule + more| - 1] == schedule + before;
      StepKeepsInv(Run(Init(ps), schedule + before), more[|more| - 1]);
    } else {
      assert schedule + more == schedule;
      if schedule == [] {
        InitInv(ps);
      } else {
        RunIsSafe(ps, schedule[..|schedule| - 1], []);
        assert schedule[..|schedule| - 1] + [] == schedule[..|schedule| - 1];
        StepKeepsInv(Run(Init(ps), schedule[..|schedule| - 1]), schedule[|schedule| - 1]);
      }
      InvBounds(Run(Init(ps), schedule));
    }
    InvBounds(Run(Init(ps), schedule + more));
  }

  lemma InitInv(ps: seq<Process>)
    requires |ps| >= 1 && forall k | 0 <= k < |ps| :: ps[k].at.Outside?
    ensures Inv(Init(ps))
  {
    NonePassed(ps);
  }

  lemma InsideHasTurn(s: State, i: nat)
    requires Inv(s) && InCritical(s, i)
    ensures s.procs[i].left > 0
  {
  }

  /** The lock is never kept, and once it is free it can go to every process that spins and to
      every one that has a turn left. */
  lemma LockGoesOn(s: State, i: nat)
    requires Inv(s) && i < |s.procs|
    ensures s.holder == Some(i) ==> Step(s, i).holder.None?
    ensures s.holder.None? ==>
              var p := s.procs[i];
              if p.at.Spinning? || (p.at.Outside? && p.left > 0) then Step(s, i).holder == Some(i)
              else Step(s, i) == s
  {
  }

  lemma InvBounds(s: State)
    requires Inv(s)
    ensures Extends(s, s) && s.counter <= (SIZE - 1) + (|s.procs| - 1)
  {
  }

  class Mapping {
    var counter: int
    const cells: array<char>
    const procs: array<Process>
    var holder: Option<nat>

    ghost function View(): State
      reads this, cells, procs
    {
      State(counter, cells[..], procs[..], holder)
    }

    /** The mapping as it is initialised, with processes that are about to start their loops. */
    constructor (ps: seq<Process>)
      requires |ps| >= 1 && forall k | 0 <= k < |ps| :: ps[k].at.Outside?
      ensures View() == Init(ps) && Inv(View()) && fresh(cells) && fresh(procs)
    {
      counter, holder := 0, None;
      cells := new char[SIZE + |ps|](_ => '\0');
      procs := new Process[|ps|](k requires 0 <= k < |ps| => ps[k]);
      new;
      assert procs[..] == ps && cells[..] == Init(ps).cells;
      InitInv(ps);
    }

    /** my_lock_wait() returns. */
    method LockWait(i: nat)
      requires Inv(View()) && CanLock(View(), i)
      modifies this`holder, procs
      ensures View() == Step(old(View()), i) && Inv(View())
      ensures holder == Some(i) && Holds(procs[i])
      ensures forall k | 0 <= k < procs.Length && k != i :: procs[k] == old(procs[k])
    {
      hide Inv, Alternates, Bounded;
      StepKeepsInv(View(), i);
      ghost var next := Step(View(), i);
      holder := Some(i);
      procs[i] := procs[i].(at := if procs[i].at.Spinning? then Retesting else Entered);
      assert procs[..] == next.procs;
    }

    /** From the return of one my_lock_wait() to the next my_lock_release(). */
    method Critical(i: nat)
      requires Inv(View()) && InCritical(View(), i)
      modifies this, cells, procs
      ensures View() == Step(old(View()), i) && Inv(View())
      ensures holder.None? && Extends(old(View()), View()) && counter <= old(counter) + 1
      ensures var p := old(procs[i]);
              if p.at.Entered? && old(counter) >= 99999 then
                counter == old(counter) && procs[i] == p.(at := Gone)
              else if old(counter) > 0 && cells[old(counter) - 1] == p.c then
                counter == old(counter) && procs[i] == p.(at := Spinning)
              else
                && counter == old(counter) + 1 && cells[old(counter)] == p.c
                && procs[i] == p.(at := Outside, left := p.left - 1)
    {
      hide Inv, Alternates, Bounded;
      StepKeepsInv(View(), i);
      InsideHasTurn(View(), i);
      ghost var next := Step(View(), i);
      var p := procs[i];
      if p.at.Entered? && counter >= SIZE - 1 {
        procs[i] := p.(at := Gone);
      } else if counter != 0 && cells[counter - 1] == p.c {
        // cells[counter - 1] is also read when the counter is 0, and not used
        procs[i] := p.(at := Spinning);
      } else {
        cells[counter] := p.c;
        counter := counter + 1;
        procs[i] := p.(at := Outside, left := Max(p.left - 1, 0));
      }
      holder := None;
      assert procs[..] == next.procs && cells[..] == next.cells;
    }
  }

  /** The processes run as a schedule says; a process that cannot go on waits. */
  method Interleave(m: Mapping, schedule: seq<nat>)
    requires Inv(m.View())
    modifies m, m.cells, m.procs
    ensures m.View() == Run(old(m.View()), schedule) && Inv(m.View())
  {
    hide Inv, Step;
    ghost var start := m.View();
    var n := 0;
    while n < |schedule|
      invariant n <= |schedule| && Inv(m.View()) && m.View() == Run(start, schedule[..n])
    {
      RunStep(start, schedule, n);
      var i := schedule[n];
      HolderIsInside(m.View());
      if m.holder == Some(i) {
        m.Critical(i);
      } else if m.holder.None? && i < m.procs.Length
                && (m.procs[i].at.Spinning? || (m.procs[i].at.Outside? && m.procs[i].left > 0)) {
        m.LockWait(i);
      } else {
        NoStep(m.View(), i);
      }
      n := n + 1;
    }
    assert schedule[..|schedule|] == schedule;
  }

  lemma RunStep(s: State, schedule: seq<nat>, n: nat)
    requires n < |schedule|
    ensures Run(s, schedule[..n + 1]) == Step(Run(s, schedule[..n]), schedule[n])
    ensures Run(s, schedule[..0]) == s
  {
    assert schedule[..n + 1][..n] == schedule[..n];
  }

  lemma HolderIsInside(s: State)
    requires Inv(s)
    ensures s.holder.Some? ==> InCritical(s, s.holder.value)
  {
  }

  lemma NoStep(s: State, i: nat)
    requires !CanLock(s, i) && s.holder != Some(i)
    ensures Step(s, i) == s
  {
  }

  // ------------------------------------------- when the counter passes the check's limit

  /** A process takes the lock and does what it has it for. */
  function Go(s: State, i: nat): State {
    Step(Step(s, i), i)
  }

  lemma RunGo(s: State, schedule: seq<nat>, i: nat)
    ensures Run(s, schedule + [i, i]) == Go(Run(s, schedule), i)
  {
    hide Step;
    assert (schedule + [i, i])[..|schedule| + 1] == schedule + [i];
    assert (schedule + [i])[..|schedule|] == schedule;
  }

  /** A process that is past the check and whose character is not the last one written. */
  ghost predicate CanStillWrite(s: State, i: nat) {
    && i < |s.procs| && 0 < s.counter <= |s.cells|
    && Passed(s.procs[i]) && s.procs[i].c != s.cells[s.counter - 1]
  }

  /** Once the counter is at the limit, it can grow further in some interleaving exactly if
      some process that passed the check has a character other than the last one. */
  lemma PassesTheLimit(s: State)
    requires Inv(s) && s.counter >= SIZE - 1
    ensures (exists schedule :: Run(s, schedule).counter > s.counter) <==> exists i :: CanStillWrite(s, i)
  {
    if i :| CanStillWrite(s, i) {
      var schedule := WritesOn(s, i);
    }
    if forall i :: !CanStillWrite(s, i) {
      forall schedule
        ensures Run(s, schedule).counter == s.counter
      {
        StaysAtLimit(s, schedule);
      }
    }
  }

  /** Whoever has the lock finishes first; then process i writes, if the holder has not. */
  lemma WritesOn(s: State, i: nat) returns (schedule: seq<nat>)
    requires Inv(s) && s.counter >= SIZE - 1 && CanStillWrite(s, i)
    ensures Run(s, schedule).counter > s.counter
  {
    hide Step, Inv, CanStillWrite;
    if s.holder.None? {
      SpinnerWrites(s, i);
      RunGo(s, [], i);
      schedule := [] + [i, i];
    } else {
      var h := s.holder.value;
      HolderFirst(s, h, i);
      schedule := [h];
      assert [h][..0] == [];
      assert Run(s, schedule) == Step(s, h);
      if Step(s, h).counter == s.counter {
        SpinnerWrites(Step(s, h), i);
        RunGo(s, schedule, i);
        schedule := schedule + [i, i];
      }
    }
  }

  lemma SpinnerWrites(s: State, i: nat)
    requires Inv(s) && s.holder.None? && CanStillWrite(s, i)
    ensures Go(s, i).counter == s.counter + 1
  {
    hide CountPassed;
    assert !Holds(s.procs[i]);
  }

  lemma HolderFirst(s: State, h: nat, i: nat)
    requires Inv(s) && s.counter >= SIZE - 1 && s.holder == Some(h) && CanStillWrite(s, i)
    ensures var t := Step(s, h);
            t.counter > s.counter || (t.counter == s.counter && Inv(t) && t.holder.None? && CanStillWrite(t, i))
  {
    hide CountPassed, Bounded;
    StepKeepsInv(s, h);
    assert InCritical(s, h);
  }

  /** Everybody past the check waits for another character than the last, and nobody brings one. */
  ghost predicate AtLimit(s: State, counter: int) {
    s.counter == counter >= SIZE - 1 && forall i :: !CanStillWrite(s, i)
  }

  lemma {:induction false} StaysAtLimit(s: State, schedule: seq<nat>)
    requires AtLimit(s, s.counter)
    ensures AtLimit(Run(s, schedule), s.counter)
  {
    hide Step, AtLimit;
    if schedule != [] {
      var before := schedule[..|schedule| - 1];
      StaysAtLimit(s, before);
      StepAtLimit(Run(s, before), s.counter, schedule[|schedule| - 1]);
    }
  }

  lemma StepAtLimit(s: State, counter: int, i: nat)
    requires AtLimit(s, counter)
    ensures AtLimit(Step(s, i), counter)
  {
    assert !CanStillWrite(s, i);
    forall j
      ensures !CanStillWrite(Step(s, i), j)
    {
      assert !CanStillWrite(s, j);
    }
  }

  // ------------------------------------------- the bound is reached, for any number of processes

  function Letter(i: nat): char {
    if i % 2 == 0 then 'a' else 'b'
  }

  /** Processes with alternating characters and turns enough. */
  function Crew(n: nat): (ps: seq<Process>)
    ensures |ps| == n && forall k | 0 <= k < n :: ps[k].at.Outside?
  {
    seq(n, i requires i >= 0 => Process(Letter(i), SIZE, Outside))
  }

  /** The crew after k characters, with some of it parked in the spin. */
  ghost predicate Parked(s: State, n: nat, k: nat, parked: set<nat>) {
    && |s.procs| == n && |s.cells| == SIZE + n && s.holder.None? && s.counter == k < |s.cells|
    && forall i | 0 <= i < n ::
         && s.procs[i].c == Letter(i) && s.procs[i].left >= SIZE - k
         && s.procs[i].at == if i in parked then Spinning else Outside
  }

  /** A process outside, whose character is not the last one, writes it. */
  lemma Writes(s: State, n: nat, k: nat, parked: set<nat>, i: nat)
    requires Parked(s, n, k, parked) && i < n && i !in parked && k < SIZE - 1
    requires k > 0 ==> s.cells[k - 1] != Letter(i)
    ensures Parked(Go(s, i), n, k + 1, parked) && Go(s, i).cells[k] == Letter(i)
  {
  }

  /** A process outside, whose character is the last one, passes the check and spins. */
  lemma Parks(s: State, n: nat, k: nat, parked: set<nat>, i: nat)
    requires Parked(s, n, k, parked) && i < n && i !in parked && 0 < k < SIZE - 1
    requires s.cells[k - 1] == Letter(i)
    ensures Parked(Go(s, i), n, k, parked + {i}) && Go(s, i).cells == s.cells
  {
  }

  /** A parked process, whose character is not the last one, writes it without a check. */
  lemma Resumes(s: State, n: nat, k: nat, parked: set<nat>, i: nat)
    requires Parked(s, n, k, parked) && i < n && i in parked && 0 < k < SIZE + n - 1
    requires s.cells[k - 1] != Letter(i)
    ensures Parked(Go(s, i), n, k + 1, parked - {i}) && Go(s, i).cells[k] == Letter(i)
  {
  }

  /** Processes 0 and 1 take turns. */
  lemma {:induction false} TakeTurns(n: nat, m: nat) returns (schedule: seq<nat>)
    requires n >= 2 && 2 * m <= SIZE - 2
    ensures var s := Run(Init(Crew(n)), schedule);
            Parked(s, n, 2 * m, {}) && (m > 0 ==> s.cells[2 * m - 1] == 'b')
  {
    hide Step, Parked;
    schedule := [];
    if m == 0 {
      NobodyParked(n);
    } else {
      schedule := TakeTurns(n, m - 1);
      schedule := LetWrite(n, schedule, 2 * m - 2, {}, 0);
      schedule := LetWrite(n, schedule, 2 * m - 1, {}, 1);
    }
  }

  lemma NobodyParked(n: nat)
    ensures Parked(Init(Crew(n)), n, 0, {})
  {
  }

  lemma LetWrite(n: nat, before: seq<nat>, k: nat, parked: set<nat>, i: nat)
    returns (schedule: seq<nat>)
    requires Parked(Run(Init(Crew(n)), before), n, k, parked)
    requires i < n && i !in parked && k < SIZE - 1
    requires k > 0 ==> LastOf(Run(Init(Crew(n)), before), k) != Letter(i)
    ensures var s := Run(Init(Crew(n)), schedule);
            Parked(s, n, k + 1, parked) && LastOf(s, k + 1) == Letter(i)
  {
    hide Step, Parked;
    RunGo(Init(Crew(n)), before, i);
    ParkedLength(Run(Init(Crew(n)), before), n, k, parked);
    Writes(Run(Init(Crew(n)), before), n, k, parked, i);
    schedule := before + [i, i];
    ParkedLength(Run(Init(Crew(n)), schedule), n, k + 1, parked);
  }

  /** The k-th character. */
  function LastOf(s: State, k: nat): char {
    if 0 < k <= |s.cells| then s.cells[k - 1] else '\0'
  }

  lemma ParkedLength(s: State, n: nat, k: nat, parked: set<nat>)
    requires Parked(s, n, k, parked)
    ensures k < |s.cells| == SIZE + n && s.counter == k
  {
  }

  /** From process j on, everybody whose character is the last one parks. */
  lemma {:induction false} ParkFrom(n: nat, before: seq<nat>, k: nat, parked: set<nat>, j: nat)
    returns (schedule: seq<nat>, more: set<nat>)
    requires Parked(Run(Init(Crew(n)), before), n, k, parked) && j <= n && 0 < k < SIZE - 1
    requires forall i | j <= i < n && LastOf(Run(Init(Crew(n)), before), k) == Letter(i) :: i !in parked
    ensures var s, t := Run(Init(Crew(n)), before), Run(Init(Crew(n)), schedule);
            Parked(t, n, k, more) && LastOf(t, k) == LastOf(s, k)
    ensures forall i :: i in more <==>
              i in parked || (j <= i < n && LastOf(Run(Init(Crew(n)), before), k) == Letter(i))
    decreases n - j
  {
    hide Step, Parked;
    var s := Run(Init(Crew(n)), before);
    ParkedLength(s, n, k, parked);
    if j == n {
      schedule, more := before, parked;
    } else if LastOf(s, k) == Letter(j) {
      RunGo(Init(Crew(n)), before, j);
      Parks(s, n, k, parked, j);
      schedule, more := ParkFrom(n, before + [j, j], k, parked + {j}, j + 1);
    } else {
      schedule, more := ParkFrom(n, before, k, parked, j + 1);
    }
  }

  /** The parked processes go on one by one, each with the other character than the one before. */
  lemma {:induction false} ResumeFrom(n: nat, before: seq<nat>, parked: set<nat>, j: nat) returns (schedule: seq<nat>)
    requires 1 <= j <= n && Parked(Run(Init(Crew(n)), before), n, SIZE - 2 + j, parked)
    requires LastOf(Run(Init(Crew(n)), before), SIZE - 2 + j) == Letter(j - 1)
    requires forall i | j <= i < n :: i in parked
    ensures Run(Init(Crew(n)), schedule).counter == (SIZE - 1) + (n - 1)
    decreases n - j
  {
    hide Step, Parked;
    var s, k := Run(Init(Crew(n)), before), SIZE - 2 + j;
    ParkedLength(s, n, k, parked);
    schedule := before;
    if j < n {
      RunGo(Init(Crew(n)), before, j);
      Resumes(s, n, k, parked, j);
      ParkedLength(Go(s, j), n, k + 1, parked - {j});
      schedule := ResumeFrom(n, before + [j, j], parked - {j}, j + 1);
    }
  }

  /** The bound of RunIsSafe is reached by any number of processes from two on: all but the
      first pass the check and park, each when its own character is the last one; the first
      fills the last place that the check leaves, and the others follow in turn. */
  lemma BoundIsReached(n: nat)
    requires n >= 2
    ensures exists ps: seq<Process>, schedule: seq<nat> ::
              && |ps| == n && (forall k | 0 <= k < n :: ps[k].at.Outside?)
              && Run(Init(ps), schedule).counter == 99999 + (n - 1)
  {
    hide Step, Parked;
    var parked: set<nat>;
    var schedule := TakeTurns(n, (SIZE - 4) / 2);
    schedule := LetWrite(n, schedule, SIZE - 4, {}, 0);
    schedule, parked := ParkFrom(n, schedule, SIZE - 3, {}, 2);
    schedule := LetWrite(n, schedule, SIZE - 3, parked, 1);
    schedule, parked := ParkFrom(n, schedule, SIZE - 2, parked, 1);
    schedule := LetWrite(n, schedule, SIZE - 2, parked, 0);
    schedule := ResumeFrom(n, schedule, parked, 1);
    assert Run(Init(Crew(n)), schedule).counter == (SIZE - 1) + (n - 1);
  }
}
