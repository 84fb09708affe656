/** Circular buffers: indices that wrap at the end of an array of n slots. */
module Ring {
  /** An index that may have passed the end once. */
  function Slot(i: nat, n: nat): (s: nat)
    requires i < 2 * n
    ensures s == i % n
  {
    if i >= n then i - n else i
  }

  /** How many slots slot k comes after slot get. */
  function Age(k: nat, get: nat, n: nat): (a: nat)
    requires k < n && get < n
    ensures a < n && Slot(get + a, n) == k
  {
    if k >= get then k - get else k + n - get
  }

  /** The slots from get on hold these items, oldest first. */
  ghost predicate Contains<T>(slots: seq<T>, get: nat, items: seq<T>) {
    && get < |slots| && |items| <= |slots|
    && forall k | 0 <= k < |slots| && Age(k, get, |slots|) < |items| :: slots[k] == items[Age(k, get, |slots|)]
  }

  lemma PutKeeps<T>(slots: seq<T>, get: nat, items: seq<T>, x: T)
    requires Contains(slots, get, items) && |items| < |slots|
    ensures Contains(slots[Slot(get + |items|, |slots|) := x], get, items + [x])
  {
  }

  lemma GetKeeps<T>(slots: seq<T>, get: nat, items: seq<T>)
    requires Contains(slots, get, items) && items != []
    ensures slots[get] == items[0] && Contains(slots, Slot(get + 1, |slots|), items[1..])
  {
    assert Age(get, get, |slots|) == 0;
  }

  /** A ring as a queue: of all items put in, it holds those not taken out, from get to put. */
  ghost predicate Fifo<T>(slots: seq<T>, get: nat, put: nat, all: seq<T>, taken: seq<T>) {
    && get < |slots| && taken <= all && |all| - |taken| <= |slots|
    && Contains(slots, get, all[|taken|..])
    && put == Slot(get + |all| - |taken|, |slots|)
  }

  lemma FifoStart<T>(slots: seq<T>)
    requires |slots| > 0
    ensures Fifo(slots, 0, 0, [], [])
  {
  }

  /** A put into a ring with room touches no slot that is still to be read. */
  lemma FifoPut<T>(slots: seq<T>, get: nat, put: nat, all: seq<T>, taken: seq<T>, x: T)
    requires Fifo(slots, get, put, all, taken) && |all| - |taken| < |slots|
    ensures put < |slots| && Fifo(slots[put := x], get, Slot(put + 1, |slots|), all + [x], taken)
  {
    PutKeeps(slots, get, all[|taken|..], x);
    assert (all + [x])[|taken|..] == all[|taken|..] + [x];
  }

  /** A get takes out the oldest item. */
  lemma FifoGet<T>(slots: seq<T>, get: nat, put: nat, all: seq<T>, taken: seq<T>)
    requires Fifo(slots, get, put, all, taken) && |taken| < |all|
    ensures get < |slots| && slots[get] == all[|taken|]
    ensures Fifo(slots, Slot(get + 1, |slots|), put, all, taken + [slots[get]])
  {
    GetKeeps(slots, get, all[|taken|..]);
    assert all[|taken|..][1..] == all[|taken| + 1..];
  }

  /** With room for one more, equal indices mean an empty ring. */
  lemma FifoEmpty<T>(slots: seq<T>, get: nat, put: nat, all: seq<T>, taken: seq<T>)
    requires Fifo(slots, get, put, all, taken)
    ensures get < |slots| && taken <= all && |all| - |taken| <= |slots|
    ensures |all| - |taken| < |slots| ==> (get == put <==> |all| == |taken|)
    ensures |all| - |taken| == |slots| ==> get == put
  {
  }
}
