/**
 * The queue as its users see it: the sequence of elements from head to tail.
 * `Step` is the reference meaning of each call; the node chain in
 * `ConstantTimeQueue` is proved to implement it, and the scenarios of the
 * queue's unit tests are proved here once, on sequences.
 */
module QueueSpec {
  import opened Wrappers
  import opened Sequences

  /** The calls that change a queue. */
  datatype Op<T> = Enq(d: T) | Deq | Rem(d: T)

  /** What a call returns: nothing for enqueue, an element or null for dequeue, a flag for remove. */
  datatype Answer<T> = Done | Polled(value: Option<T>) | Found(found: bool)

  datatype Stepped<T> = Stepped(answer: Answer<T>, contents: seq<T>)

  /**
   * One call on contents `s`: enqueue appends at the tail (duplicates allowed),
   * dequeue takes the head or answers null when empty, remove deletes the first
   * equal element and says whether there was one.
   */
  function Step<T(==)>(s: seq<T>, op: Op<T>): Stepped<T>
  {
    match op
    case Enq(d) => Stepped(Done, s + [d])
    case Deq => if |s| == 0 then Stepped(Polled(None), s) else Stepped(Polled(Some(s[0])), s[1..])
    case Rem(d) => Stepped(Found(d in s), RemoveFirst(s, d))
  }

  datatype Trace<T> = Trace(answers: seq<Answer<T>>, contents: seq<T>)

  /** The answers of a sequence of calls, one per call, and the final contents. */
  function Run<T(==)>(s: seq<T>, ops: seq<Op<T>>): (r: Trace<T>)
    ensures |r.answers| == |ops|
    decreases |ops|
  {
    if |ops| == 0 then Trace([], s)
    else
      var first := Step(s, ops[0]);
      var rest := Run(first.contents, ops[1..]);
      Trace([first.answer] + rest.answers, rest.contents)
  }

  function Enqueues<T>(xs: seq<T>): (ops: seq<Op<T>>)
    ensures |ops| == |xs| && forall i :: 0 <= i < |xs| ==> ops[i] == Enq(xs[i])
  {
    Map(x => Enq(x), xs)
  }

  function Removes<T>(xs: seq<T>): (ops: seq<Op<T>>)
    ensures |ops| == |xs| && forall i :: 0 <= i < |xs| ==> ops[i] == Rem(xs[i])
  {
    Map(x => Rem(x), xs)
  }

  function Dequeues<T>(n: nat): (ops: seq<Op<T>>)
    ensures |ops| == n && forall i :: 0 <= i < n ==> ops[i] == Deq
  {
    seq(n, _ => Deq)
  }

  /** Running two batches of calls one after the other is running their concatenation. */
  lemma {:induction false} RunAppend<T>(s: seq<T>, a: seq<Op<T>>, b: seq<Op<T>>)
    ensures Run(s, a + b) ==
      var first := Run(s, a);
      var second := Run(first.contents, b);
      Trace(first.answers + second.answers, second.contents)
    decreases |a|
  {
    if |a| > 0 {
      assert (a + b)[0] == a[0];
      assert (a + b)[1..] == a[1..] + b;
      RunAppend(Step(s, a[0]).contents, a[1..], b);
    } else {
      assert a + b == b;
    }
  }

  /** Enqueueing appends in call order (test/QueueTest.java:15). */
  lemma {:induction false} EnqueuesAppend<T>(s: seq<T>, xs: seq<T>)
    ensures Run(s, Enqueues(xs)).contents == s + xs
    ensures forall i :: 0 <= i < |xs| ==> Run(s, Enqueues(xs)).answers[i] == Done
    decreases |xs|
  {
    if |xs| > 0 {
      assert Enqueues(xs)[1..] == Enqueues(xs[1..]);
      EnqueuesAppend(s + [xs[0]], xs[1..]);
      assert s + [xs[0]] + xs[1..] == s + xs;
    }
  }

  /** Dequeueing everything hands the elements back head first, then null. */
  lemma {:induction false} DequeuesInOrder<T>(s: seq<T>)
    ensures Run(s, Dequeues(|s|)).contents == []
    ensures forall i :: 0 <= i < |s| ==> Run(s, Dequeues(|s|)).answers[i] == Polled(Some(s[i]))
    decreases |s|
  {
    if |s| > 0 {
      assert Dequeues<T>(|s|)[1..] == Dequeues(|s[1..]|);
      DequeuesInOrder(s[1..]);
    }
  }

  /**
   * First-in first-out order: after enqueueing `xs` into an empty queue,
   * `|xs|` dequeues return `xs` in order and one more returns null
   * (test/QueueTest.java:25-36).
   */
  lemma FifoOrder<T>(xs: seq<T>)
    ensures var r := Run([], Enqueues(xs) + Dequeues(|xs|) + [Deq]);
      && r.contents == []
      && (forall i :: 0 <= i < |xs| ==> r.answers[|xs| + i] == Polled(Some(xs[i])))
      && r.answers[2 * |xs|] == Polled(None)
  {
    var e, d := Enqueues(xs), Dequeues<T>(|xs|);
    var first := Run([], e + d);
    assert first.contents == [] && |first.answers| == 2 * |xs|
      && forall i :: 0 <= i < |xs| ==> first.answers[|xs| + i] == Polled(Some(xs[i]))
    by {
      EnqueuesAppend([], xs);
      assert [] + xs == xs;
      DequeuesInOrder(xs);
      RunAppend([], e, d);
    }
    assert Run([], e + d + [Deq]) == Trace(first.answers + [Polled(None)], []) by {
      RunAppend([], e + d, [Deq]);
      DequeueEmpty<T>();
    }
  }

  /** Dequeueing from an empty queue answers null and leaves it empty. */
  lemma DequeueEmpty<T>()
    ensures Run<T>([], [Deq]) == Trace([Polled(None)], [])
  {
    var ops: seq<Op<T>> := [Deq];
    assert ops[1..] == [];
  }

  /** Removing `lo, ..., k - 1` in that order from `lo, ..., hi - 1` leaves `k, ..., hi - 1`. */
  lemma {:induction false} RemoveAscending(lo: int, k: int, hi: int)
    requires lo <= k <= hi
    ensures Run(Range(lo, hi), Removes(Range(lo, k))).contents == Range(k, hi)
    decreases k - lo
  {
    if lo < k {
      RemoveAscendingStep(lo, k, hi);
      RemoveAscending(lo + 1, k, hi);
    }
  }

  /** Each of those removals finds its element. */
  lemma {:induction false} RemoveAscendingFinds(lo: int, k: int, hi: int)
    requires lo <= k <= hi
    ensures forall i :: 0 <= i < k - lo ==> Run(Range(lo, hi), Removes(Range(lo, k))).answers[i] == Found(true)
    decreases k - lo
  {
    if lo < k {
      RemoveAscendingStep(lo, k, hi);
      RemoveAscendingFinds(lo + 1, k, hi);
      var rest := Run(Range(lo + 1, hi), Removes(Range(lo + 1, k))).answers;
      AllFoundCons(rest, k - lo - 1);
    }
  }

  /** One more `Found(true)` in front of a run of them. */
  lemma AllFoundCons<T>(rest: seq<Answer<T>>, n: nat)
    requires n <= |rest| && forall i :: 0 <= i < n ==> rest[i] == Found(true)
    ensures forall i :: 0 <= i < n + 1 ==> ([Found(true)] + rest)[i] == Found(true)
  {
  }

  /** The first removal of an ascending run finds the head and drops it. */
  lemma RemoveAscendingStep(lo: int, k: int, hi: int)
    requires lo < k <= hi
    ensures var rest := Run(Range(lo + 1, hi), Removes(Range(lo + 1, k)));
      Run(Range(lo, hi), Removes(Range(lo, k))) == Trace([Found(true)] + rest.answers, rest.contents)
  {
    var s, ops := Range(lo, hi), Removes(Range(lo, k));
    assert Step(s, ops[0]) == Stepped(Found(true), Range(lo + 1, hi)) by {
      assert ops[0] == Rem(lo);
      assert lo in s by { assert s[0] == lo; }
      RemoveHeadOfRange(lo, hi);
    }
    assert ops[1..] == Removes(Range(lo + 1, k));
  }

  lemma RemoveHeadOfRange(lo: int, hi: int)
    requires lo < hi
    ensures RemoveFirst(Range(lo, hi), lo) == Range(lo + 1, hi)
  {
    assert Range(lo, hi)[0] == lo;
    RemoveFirstAt(Range(lo, hi), 0);
    assert Range(lo, hi)[1..] == Range(lo + 1, hi);
  }

  /** Removing `n - 1, n - 2, ..., m` in that order from `0, ..., n - 1` leaves `0, ..., m - 1`. */
  lemma {:induction false} RemoveDescending(m: int, n: int)
    requires 0 <= m <= n
    ensures Run(Range(0, n), Removes(Reversed(Range(m, n)))).contents == Range(0, m)
    decreases n - m
  {
    if m < n {
      var ops := Removes(Reversed(Range(m, n)));
      assert ops[0] == Rem(n - 1);
      assert Range(0, n)[n - 1] == n - 1;
      RemoveFirstAt(Range(0, n), n - 1);
      assert RemoveFirst(Range(0, n), n - 1) == Range(0, n - 1);
      assert ops[1..] == Removes(Reversed(Range(m, n - 1)));
      RemoveDescending(m, n - 1);
    }
  }

  /** The elements of `s` last to first. */
  function Reversed<T>(s: seq<T>): (r: seq<T>)
    ensures |r| == |s| && forall i :: 0 <= i < |s| ==> r[i] == s[|s| - 1 - i]
  {
    seq(|s|, i requires 0 <= i < |s| => s[|s| - 1 - i])
  }

  /** Removing absent elements answers false and changes nothing, e.g. on an empty queue. */
  lemma {:induction false} RemoveAbsent<T>(s: seq<T>, xs: seq<T>)
    requires forall i :: 0 <= i < |xs| ==> xs[i] !in s
    ensures Run(s, Removes(xs)).contents == s
    ensures forall i :: 0 <= i < |xs| ==> Run(s, Removes(xs)).answers[i] == Found(false)
    decreases |xs|
  {
    if |xs| > 0 {
      assert Removes(xs)[1..] == Removes(xs[1..]);
      RemoveAbsent(s, xs[1..]);
    }
  }

  /**
   * The remove scenarios of test/QueueTest.java:44-73, for `n` elements
   * `0 .. n-1` (the test uses ten): removing all of them in order empties the
   * queue.
   */
  lemma RemoveEverything(n: nat)
    ensures Run(Range(0, n), Removes(Range(0, n))).contents == []
  {
    RemoveAscending(0, n, n);
  }

  /** Removing `0 .. k-1` leaves `k` at the head (the test removes 0..4 of ten and finds 5 first). */
  lemma RemoveFront(n: nat, k: nat)
    requires k < n
    ensures var r := Run(Range(0, n), Removes(Range(0, k))).contents;
      |r| > 0 && r[0] == k
  {
    RemoveAscending(0, k, n);
  }

  /**
   * Removing `n, n-1, ..., m` leaves `m - 1` at the tail: `n` is absent and
   * changes nothing (the test removes 10 down to 6 of ten and finds 5 last).
   */
  lemma RemoveBack(n: nat, m: nat)
    requires 0 < m <= n
    ensures var r := Run(Range(0, n), Removes(Reversed(Range(m, n + 1)))).contents;
      |r| > 0 && r[|r| - 1] == m - 1
  {
    var rest := Removes(Reversed(Range(m, n)));
    assert Removes(Reversed(Range(m, n + 1))) == [Rem(n)] + rest;
    RemoveAbsent(Range(0, n), [n]);
    RunAppend(Range(0, n), [Rem(n)], rest);
    RemoveDescending(m, n);
  }

  /** Removing from an empty queue leaves it empty, whatever is asked for. */
  lemma RemoveFromEmpty<T>(xs: seq<T>)
    ensures Run([], Removes(xs)).contents == []
  {
    RemoveAbsent([], xs);
  }

  /**
   * Removing two adjacent elements back to back leaves the rest in order, with
   * the same first and last element: `0 .. n-1` minus 1 then 2 is `0, 3 .. n-1`
   * (for `n = 7`, `[0, 3, 4, 5, 6]`).
   */
  lemma AdjacentRemoval(n: int)
    requires 3 <= n
    ensures Run(Range(0, n), [Rem(1), Rem(2)]).contents == [0] + Range(3, n)
  {
    var s := Range(0, n);
    var s1 := [0] + Range(2, n);
    assert RemoveFirst(s, 1) == s1 by {
      RemoveFirstAt(s, 1);
      assert s[..1] + s[2..] == s1;
    }
    assert RemoveFirst(s1, 2) == [0] + Range(3, n) by {
      RemoveFirstAt(s1, 1);
      assert s1[..1] + s1[2..] == [0] + Range(3, n);
    }
    RunPair(s, Rem(1), Rem(2));
  }

  /** Two calls in a row. */
  lemma RunPair<T>(s: seq<T>, a: Op<T>, b: Op<T>)
    ensures Run(s, [a, b]).contents == Step(Step(s, a).contents, b).contents
  {
    var ops := [a, b];
    var s1 := Step(s, a).contents;
    assert ops[1..] == [b] && [b][1..] == [];
    assert Run(s1, [b]).contents == Step(s1, b).contents;
  }
}
