/** A condition variable together with the mutex that its users hold around every call. */
module CondVar {
  type Tid = nat

  /** The threads that are blocked and not signalled, and those that are awake again, by a
      signal or for no reason, and have not got the mutex yet. */
  datatype Sync = Sync(waiting: set<Tid>, woken: set<Tid>)

  function Block(c: Sync, t: Tid): Sync {
    Sync(c.waiting + {t}, c.woken - {t})
  }

  function Resume(c: Sync, t: Tid): Sync {
    c.(woken := c.woken - {t})
  }

  function Wakeup(c: Sync, chosen: set<Tid>): Sync {
    Sync(c.waiting - chosen, c.woken + chosen)
  }

  /** pthread_cond_signal() wakes at least one of the waiting threads, if there is one. */
  predicate CanSignal(c: Sync, chosen: set<Tid>) {
    chosen <= c.waiting && (c.waiting != {} ==> chosen != {})
  }

  /** No wakeup is lost: while some thread is blocked and not signalled, there are at least
      as many woken threads that have not run yet as there are things to wake up for. */
  ghost predicate Alert(c: Sync, things: int) {
    c.waiting !! c.woken && (c.waiting != {} ==> things <= |c.woken|)
  }

  lemma Disjoint(a: set<Tid>, b: set<Tid>)
    requires a !! b
    ensures |a + b| == |a| + |b|
  {
  }

  /** A signal makes up for one more thing, a wakeup without a signal for none. */
  lemma WakeupKeeps(c: Sync, chosen: set<Tid>, things: int)
    requires Alert(c, things) && chosen <= c.waiting
    ensures Alert(Wakeup(c, chosen), things)
    ensures CanSignal(c, chosen) ==> Alert(Wakeup(c, chosen), things + 1)
  {
    Disjoint(c.woken, chosen);
    assert chosen != {} ==> |chosen| > 0;
  }

  /** A thread that goes on takes one thing; one that blocks has found none. */
  lemma ResumeKeeps(c: Sync, t: Tid, things: int)
    requires Alert(c, things) && t !in c.waiting
    ensures Alert(Resume(c, t), things - 1)
    ensures things <= 0 ==> Alert(Block(c, t), things)
  {
    if t in c.woken {
      assert c.woken == (c.woken - {t}) + {t};
      Disjoint(c.woken - {t}, {t});
    } else {
      assert c.woken - {t} == c.woken;
    }
  }

  /** Which threads are inside a wait: one enters or leaves, and a wakeup changes nothing. */
  lemma Inside(c: Sync, t: Tid)
    requires t !in c.waiting
    ensures Block(c, t).waiting + Block(c, t).woken == c.waiting + c.woken + {t}
    ensures Resume(c, t).waiting + Resume(c, t).woken == c.waiting + c.woken - {t}
  {
  }

  lemma Woken(c: Sync, chosen: set<Tid>)
    requires chosen <= c.waiting
    ensures Wakeup(c, chosen).waiting + Wakeup(c, chosen).woken == c.waiting + c.woken
  {
  }

  class Cond {
    var waiting: set<Tid>
    var woken: set<Tid>

    ghost function State(): Sync
      reads this
    {
      Sync(waiting, woken)
    }

    constructor ()
      ensures State() == Sync({}, {})
    {
      waiting, woken := {}, {};
    }

    /** pthread_cond_wait() up to the point where the thread blocks, maybe once more. */
    method Wait(t: Tid)
      modifies this
      ensures State() == Block(old(State()), t)
    {
      waiting, woken := waiting + {t}, woken - {t};
    }

    /** A thread that may have been awake goes on. */
    method Leave(t: Tid)
      modifies this`woken
      ensures State() == Resume(old(State()), t)
    {
      woken := woken - {t};
    }

    /** pthread_cond_signal(), or a wakeup without a signal. */
    method Wake(chosen: set<Tid>)
      modifies this
      ensures State() == Wakeup(old(State()), chosen)
    {
      waiting, woken := waiting - chosen, woken + chosen;
    }
  }
}
