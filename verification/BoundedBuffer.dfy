/** The bounded buffer of threads/example03.c: one mutex, two condition variables, any number
    of producers and consumers. */
module BoundedBuffer {
  import opened CondVar
  import opened Ring

  const BUFFSIZE := 10

  /** Everything but the ring itself. vals are the values of calls to produce() that wait. */
  datatype State = State(
    produced: seq<int>,   // all items put in, in order
    consumed: seq<int>,   // all items taken out, in order
    consumers: Sync,
    producers: Sync,
    vals: map<Tid, int>
  )

  /** One step of some thread: what it does in one go under the mutex, from its lock or the
      return of its wait to its next wait or to its end. chosen is whom its signal wakes. */
  datatype Event =
    | Put(t: Tid, val: int, chosen: set<Tid>)
    | Take(t: Tid, chosen: set<Tid>)
    | Spurious(t: Tid)

  const INIT := State([], [], Sync({}, {}), Sync({}, {}), map[])

  function Items(s: State): int {
    |s.produced| - |s.consumed|
  }

  predicate Enabled(s: State, e: Event) {
    match e
    case Put(t, val, chosen) =>
      && t !in s.producers.waiting && t !in s.consumers.waiting + s.consumers.woken
      && CanSignal(s.consumers, chosen) && (t in s.vals ==> s.vals[t] == val)
    case Take(t, chosen) =>
      && t !in s.consumers.waiting && t !in s.producers.waiting + s.producers.woken
      && CanSignal(s.producers, chosen)
    case Spurious(t) => t in s.consumers.waiting || t in s.producers.waiting
  }

  function Apply(s: State, e: Event): State {
    match e
    case Put(t, val, chosen) =>
      if Items(s) >= BUFFSIZE then s.(producers := Block(s.producers, t), vals := s.vals[t := val])
      else s.(produced := s.produced + [val], producers := Resume(s.producers, t),
              consumers := Wakeup(s.consumers, chosen), vals := s.vals - {t})
    case Take(t, chosen) =>
      if Items(s) <= 0 then s.(consumers := Block(s.consumers, t))
      else s.(consumed := s.consumed + [s.produced[|s.consumed|]], consumers := Resume(s.consumers, t),
              producers := Wakeup(s.producers, chosen))
    case Spurious(t) =>
      if t in s.consumers.waiting then s.(consumers := Wakeup(s.consumers, {t}))
      else s.(producers := Wakeup(s.producers, {t}))
  }

  /** A schedule; a step that cannot happen when it is due is left out. */
  function Run(s: State, schedule: seq<Event>): State {
    if schedule == [] then s
    else
      var before, e := Run(s, schedule[..|schedule| - 1]), schedule[|schedule| - 1];
      if Enabled(before, e) then Apply(before, e) else before
  }

  ghost predicate Inv(s: State) {
    && s.consumed <= s.produced && Items(s) <= BUFFSIZE
    && Alert(s.consumers, Items(s)) && Alert(s.producers, BUFFSIZE - Items(s))
    && ItemsHeld(s)
  }

  /** The items that wait are those of the producers inside a wait. */
  ghost predicate ItemsHeld(s: State) {
    s.vals.Keys == s.producers.waiting + s.producers.woken
  }

  /** An item that waits to be put in goes in when its producer has room, and is not changed
      by anything else. */
  ghost predicate ItemsWait(s: State, t: State, e: Event) {
    && (forall p | p in s.vals && !(e.Put? && e.t == p) :: p in t.vals && t.vals[p] == s.vals[p])
    && (e.Put? ==> if Items(s) < 10 then t.produced == s.produced + [e.val] && e.t !in t.vals
                   else t.produced == s.produced && e.t in t.vals && t.vals[e.t] == e.val)
    && (!e.Put? ==> t.produced == s.produced && t.vals == s.vals)
  }

  lemma StepKeepsItems(s: State, e: Event)
    requires Enabled(s, e) && ItemsHeld(s)
    ensures ItemsHeld(Apply(s, e)) && ItemsWait(s, Apply(s, e), e)
  {
    hide Wakeup, Resume, Block;
    match e
    case Put(t, _, _) => Inside(s.producers, t);
    case Take(_, chosen) => Woken(s.producers, chosen);
    case Spurious(t) =>
      if t !in s.consumers.waiting {
        Woken(s.producers, {t});
      }
  }

  lemma StepKeepsInv(s: State, e: Event)
    requires Inv(s) && Enabled(s, e)
    ensures Inv(Apply(s, e))
    ensures s.produced <= Apply(s, e).produced && s.consumed <= Apply(s, e).consumed
  {
    hide Alert, Wakeup, Resume, Block, ItemsHeld;
    var n := Items(s);
    StepKeepsItems(s, e);
    match e
    case Put(t, val, chosen) =>
      ResumeKeeps(s.producers, t, BUFFSIZE - n);
      WakeupKeeps(s.consumers, chosen, n);
    case Take(t, chosen) =>
      ResumeKeeps(s.consumers, t, n);
      WakeupKeeps(s.producers, chosen, BUFFSIZE - n);
    case Spurious(t) =>
      if t in s.consumers.waiting {
        WakeupKeeps(s.consumers, {t}, n);
      } else {
        WakeupKeeps(s.producers, {t}, BUFFSIZE - n);
      }
  }

  /** For any number of threads, every interleaving, every choice of whom a signal wakes and
      all spurious wakeups: items leave once each and in order, at most BUFFSIZE of them are
      inside, and a blocked consumer faces no more items than there are consumers about to
      run, as a blocked producer faces no more room than there are producers about to run. */
  lemma {:induction false} RunIsSafe(schedule: seq<Event>)
    ensures var s := Run(INIT, schedule);
            && Inv(s)
            && (s.consumers.waiting != {} ==> Items(s) <= |s.consumers.woken|)
            && (s.producers.waiting != {} ==> BUFFSIZE - Items(s) <= |s.producers.woken|)
  {
    hide Enabled, Apply;
    if schedule != [] {
      var before := schedule[..|schedule| - 1];
      RunIsSafe(before);
      var s, e := Run(INIT, before), schedule[|schedule| - 1];
      if Enabled(s, e) {
        StepKeepsInv(s, e);
      }
    }
  }

  /** So the threads never all block: with nobody about to run, only an empty buffer keeps
      consumers blocked and only a full one producers, never both. */
  lemma NeverAllBlocked(schedule: seq<Event>)
    ensures var s := Run(INIT, schedule);
            s.consumers.woken + s.producers.woken == {} ==>
              && (s.consumers.waiting != {} ==> Items(s) == 0)
              && (s.producers.waiting != {} ==> Items(s) == BUFFSIZE)
              && (s.consumers.waiting == {} || s.producers.waiting == {})
  {
    hide Run;
    RunIsSafe(schedule);
  }

  class Buffer {
    const b_buf: array<int>
    var b_nitems: int
    var b_nextget: nat
    var b_nextput: nat
    const consumer: Cond
    const producer: Cond
    ghost var produced: seq<int>
    ghost var consumed: seq<int>
    ghost var vals: map<Tid, int>

    ghost function View(): State
      reads this, consumer, producer
    {
      State(produced, consumed, consumer.State(), producer.State(), vals)
    }

    /** The buffer holds exactly the items put in and not taken out, in order. */
    ghost predicate Queue()
      reads this, b_buf
    {
      && b_buf.Length == BUFFSIZE && Fifo(b_buf[..], b_nextget, b_nextput, produced, consumed)
      && consumed <= produced && b_nitems == |produced| - |consumed|
    }

    ghost predicate Valid()
      reads this, b_buf, consumer, producer
    {
      Queue() && Inv(View()) && consumer != producer
    }

    constructor ()
      ensures Valid() && View() == INIT && fresh(b_buf) && fresh(consumer) && fresh(producer)
    {
      b_buf := new int[BUFFSIZE];
      b_nitems, b_nextget, b_nextput, produced, consumed, vals := 0, 0, 0, [], [], map[];
      consumer := new Cond();
      producer := new Cond();
      new;
      FifoStart(b_buf[..]);
    }

    /** There is room: no slot with an item in it is overwritten. */
    method Store(val: int)
      requires Queue() && b_nitems < BUFFSIZE
      modifies this`b_nitems, this`b_nextput, this`produced, b_buf
      ensures Queue() && produced == old(produced) + [val]
    {
      hide Fifo;
      FifoPut(b_buf[..], b_nextget, b_nextput, produced, consumed, val);
      ghost var slots := b_buf[..][b_nextput := val];
      b_buf[b_nextput] := val;
      assert b_buf[..] == slots;
      b_nextput := b_nextput + 1;
      if b_nextput >= BUFFSIZE {
        b_nextput := 0;
      }
      b_nitems := b_nitems + 1;
      produced := produced + [val];
    }

    /** There is data: the oldest item comes out. */
    method Fetch() returns (val: int)
      requires Queue() && b_nitems > 0
      modifies this`b_nitems, this`b_nextget, this`consumed
      ensures Queue() && consumed == old(consumed) + [val] && val == produced[old(|consumed|)]
    {
      hide Fifo;
      FifoGet(b_buf[..], b_nextget, b_nextput, produced, consumed);
      val := b_buf[b_nextget];
      b_nextget := b_nextget + 1;
      if b_nextget >= BUFFSIZE {
        b_nextget := 0;
      }
      b_nitems := b_nitems - 1;
      consumed := consumed + [val];
    }

    /** One step of produce(): whether it is done, or waits. */
    method Produce(t: Tid, val: int, chosen: set<Tid>) returns (done: bool)
      requires Valid() && Enabled(View(), Put(t, val, chosen))
      modifies this`b_nitems, this`b_nextput, this`produced, this`vals, b_buf, consumer, producer
      ensures Valid() && View() == Apply(old(View()), Put(t, val, chosen))
      ensures done <==> old(b_nitems) < 10
      ensures done <==> produced == old(produced) + [val]
      ensures !done <==> t in producer.waiting
    {
      hide Fifo, Inv, Alert;
      ghost var s := View();
      StepKeepsInv(s, Put(t, val, chosen));
      if b_nitems >= BUFFSIZE {
        producer.Wait(t);
        vals := vals[t := val];
        return false;
      }
      producer.Leave(t);
      Store(val);
      consumer.Wake(chosen);
      vals := vals - {t};
      done := true;
    }

    /** One step of consume(). */
    method Consume(t: Tid, chosen: set<Tid>) returns (done: bool, val: int)
      requires Valid() && Enabled(View(), Take(t, chosen))
      modifies this`b_nitems, this`b_nextget, this`consumed, consumer, producer
      ensures Valid() && View() == Apply(old(View()), Take(t, chosen))
      ensures done <==> old(b_nitems) > 0
      ensures done ==> val == produced[old(|consumed|)]
      ensures done <==> consumed == old(consumed) + [val]
      ensures !done <==> t in consumer.waiting
    {
      hide Fifo, Inv, Alert;
      StepKeepsInv(View(), Take(t, chosen));
      if b_nitems <= 0 {
        consumer.Wait(t);
        return false, 0;
      }
      consumer.Leave(t);
      val := Fetch();
      producer.Wake(chosen);
      done := true;
    }

    /** A wait that returns without a signal. */
    method WakeUp(t: Tid)
      requires Valid() && Enabled(View(), Spurious(t))
      modifies consumer, producer
      ensures Valid() && View() == Apply(old(View()), Spurious(t))
    {
      hide Fifo, Inv, Alert;
      StepKeepsInv(View(), Spurious(t));
      if t in consumer.waiting {
        consumer.Wake({t});
      } else {
        producer.Wake({t});
      }
    }
  }
}
