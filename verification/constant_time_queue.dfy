/**
 * The singly linked `ConstantTimeQueue` as its fields are laid out: nodes live
 * in a heap addressed by index, a reference is `Some(index)` and `null` is
 * `None`. Every operation follows the Java branches one for one; the lemmas
 * show that, read from `head` along `next`, the chain behaves as the sequence
 * queue of `QueueSpec`.
 */
module ConstantTimeQueue {
  import opened Wrappers
  import opened Sequences
  import QueueSpec

  /** A node: its element and the reference to the following node. */
  datatype Node<T> = Node(data: T, next: Option<nat>)

  /**
   * The queue object: the heap of every node ever allocated (unlinked nodes
   * stay behind as garbage), the `head` and `tail` references and the `size`
   * field (src/ConstantTimeQueue.java:12-13).
   */
  datatype Queue<T> = Queue(heap: seq<Node<T>>, head: Option<nat>, tail: Option<nat>, size: int)

  /** `r` is null or refers to an allocated node. */
  predicate Points<T>(heap: seq<Node<T>>, r: Option<nat>) {
    r.None? || r.value < |heap|
  }

  /** No reference dangles, and head is null exactly when tail is. */
  predicate WellFormed<T>(q: Queue<T>) {
    && Points(q.heap, q.head)
    && Points(q.heap, q.tail)
    && (q.head.None? <==> q.tail.None?)
    && forall i :: 0 <= i < |q.heap| ==> Points(q.heap, q.heap[i].next)
  }

  /**
   * `p` lists the nodes met by following `next` from `head`: each exactly
   * once, the walk ends in null, and its last node is `tail`.
   */
  predicate Spine<T>(q: Queue<T>, p: seq<nat>) {
    && (forall i :: 0 <= i < |p| ==> p[i] < |q.heap|)
    && Distinct(p)
    && (forall i :: 0 <= i < |p| - 1 ==> q.heap[p[i]].next == Some(p[i + 1]))
    && if |p| == 0 then q.head.None? && q.tail.None?
       else q.head == Some(p[0]) && q.tail == Some(p[|p| - 1]) && q.heap[p[|p| - 1]].next.None?
  }

  /** The elements on the spine `p`, head first: what the queue holds. */
  function Contents<T>(q: Queue<T>, p: seq<nat>): (s: seq<T>)
    requires forall i :: 0 <= i < |p| ==> p[i] < |q.heap|
    ensures |s| == |p| && forall i :: 0 <= i < |p| ==> s[i] == q.heap[p[i]].data
  {
    seq(|p|, i requires 0 <= i < |p| => q.heap[p[i]].data)
  }

  /** `p` without its `i`-th entry. */
  function Cut<X>(p: seq<X>, i: nat): (c: seq<X>)
    requires i < |p|
    ensures |c| == |p| - 1
    ensures forall k :: 0 <= k < i ==> c[k] == p[k]
    ensures forall k :: i <= k < |c| ==> c[k] == p[k + 1]
  {
    p[..i] + p[i + 1..]
  }

  /** The constructor (src/ConstantTimeQueue.java:15-18): no nodes, size 0. */
  function Empty<T>(): (q: Queue<T>)
    ensures WellFormed(q) && Spine(q, []) && q.size == 0
  {
    Queue([], None, None, 0)
  }

  /** `size()` reads the field, which no other method writes (src/ConstantTimeQueue.java:55-57). */
  function Size<T>(q: Queue<T>): int
  {
    q.size
  }

  /**
   * `enqueue` (src/ConstantTimeQueue.java:20-27): allocate a node and link it
   * after the tail, in the three branches of the source.
   */
  function Enqueue<T>(q: Queue<T>, d: T): (r: Queue<T>)
    requires WellFormed(q)
    ensures WellFormed(r) && r.size == q.size
    ensures r.tail == Some(|q.heap|) && r.heap[|q.heap|] == Node(d, None)
  {
    var slot := |q.heap|;
    if q.head.None? then
      q.(heap := q.heap + [Node(d, None)], head := Some(slot), tail := Some(slot))
    else if q.head == q.tail then
      var h := q.head.value;
      q.(heap := q.heap[h := q.heap[h].(next := Some(slot))] + [Node(d, None)], tail := Some(slot))
    else
      var t := q.tail.value;
      q.(heap := q.heap[t := q.heap[t].(next := Some(slot))] + [Node(d, None)], tail := Some(slot))
  }

  /**
   * Advance head to its successor, clearing tail when the queue becomes
   * empty; shared by `remove` and `dequeue`.
   */
  function AdvanceHead<T>(q: Queue<T>): (r: Queue<T>)
    requires WellFormed(q) && q.head.Some?
    ensures WellFormed(r) && r.size == q.size && r.heap == q.heap
  {
    var next := q.heap[q.head.value].next;
    q.(head := next, tail := if next.None? then None else q.tail)
  }

  datatype Dequeued<T> = Dequeued(value: Option<T>, queue: Queue<T>)

  /** `dequeue` (src/ConstantTimeQueue.java:47-53): null on an empty queue, else the head's element. */
  function Dequeue<T>(q: Queue<T>): (r: Dequeued<T>)
    requires WellFormed(q)
    ensures WellFormed(r.queue) && r.queue.size == q.size
    ensures r.value.None? <==> q.head.None?
    ensures q.head.None? ==> r.queue == q
  {
    if q.head.None? then Dequeued(None, q)
    else Dequeued(Some(q.heap[q.head.value].data), AdvanceHead(q))
  }

  datatype Removal<T> = Removal(found: bool, queue: Queue<T>)

  /**
   * `remove` (src/ConstantTimeQueue.java:29-45): false on an empty queue,
   * unlink the head if it holds `d`, otherwise scan the rest.
   */
  function Remove<T(==)>(q: Queue<T>, d: T): (r: Removal<T>)
    requires WellFormed(q)
    ensures WellFormed(r.queue) && r.queue.size == q.size
    ensures !r.found ==> r.queue == q
  {
    if q.head.None? then Removal(false, q)
    else if q.heap[q.head.value].data == d then Removal(true, AdvanceHead(q))
    else RemoveAfter(q, q.head.value, d, 0)
  }

  /**
   * The scan loop of `remove` (src/ConstantTimeQueue.java:36-43): `pointer`
   * has been checked; if its successor holds `d`, bypass the successor (moving
   * `tail` back when the successor was the tail), else advance. `visited`
   * counts the nodes passed so far; a chain as the class builds it has fewer
   * nodes than the heap, so the bound never stops the scan early
   * (`SpineFitsHeap`).
   */
  function RemoveAfter<T(==)>(q: Queue<T>, pointer: nat, d: T, visited: nat): (r: Removal<T>)
    requires WellFormed(q) && pointer < |q.heap| && visited < |q.heap|
    ensures WellFormed(r.queue) && r.queue.size == q.size
    ensures !r.found ==> r.queue == q
    decreases |q.heap| - visited
  {
    match q.heap[pointer].next
    case None => Removal(false, q)
    case Some(next) =>
      if q.heap[next].data == d then Removal(true, Bypass(q, pointer, next))
      else if visited + 1 < |q.heap| then RemoveAfter(q, next, d, visited + 1)
      else Removal(false, q)
  }

  /**
   * Link `pointer` past its successor `next`, and move tail back to `pointer`
   * when `next` was the tail (src/ConstantTimeQueue.java:38-40).
   */
  function Bypass<T>(q: Queue<T>, pointer: nat, next: nat): (r: Queue<T>)
    requires WellFormed(q) && pointer < |q.heap| && next < |q.heap|
    ensures WellFormed(r) && r.size == q.size && |r.heap| == |q.heap| && r.head == q.head
    ensures forall x :: 0 <= x < |q.heap| ==> r.heap[x].data == q.heap[x].data
  {
    var tail := if q.tail == Some(next) then Some(pointer) else q.tail;
    q.(heap := q.heap[pointer := q.heap[pointer].(next := q.heap[next].next)], tail := tail)
  }

  /**
   * `toString` (src/ConstantTimeQueue.java:59-67): walk from head to null,
   * appending each element's text and a `", "` after every element but the
   * last. `show` is the element type's `toString`.
   */
  method ToString<T>(q: Queue<T>, show: T -> string, ghost p: seq<nat>) returns (text: string)
    requires WellFormed(q) && Spine(q, p)
    ensures text == Join(Map(show, Contents(q, p)), ", ")
  {
    ghost var shown := Map(show, Contents(q, p));
    text := "";
    var pointer := q.head;
    ghost var i := 0;
    while pointer.Some?
      invariant 0 <= i <= |p|
      invariant pointer == if i < |p| then Some(p[i]) else None
      invariant text == Join(shown[..i], ", ") + (if 0 < i < |p| then ", " else "")
      decreases |p| - i
    {
      var node := q.heap[pointer.value];
      assert shown[..i + 1] == shown[..i] + [show(node.data)];
      text := text + show(node.data);
      if node.next.Some? {
        text := text + ", ";
      }
      pointer := node.next;
      i := i + 1;
    }
    assert shown[..i] == shown;
  }

  // ---------------------------------------------------------------------
  // The chain is a queue
  // ---------------------------------------------------------------------

  /** Distinct node indices below `n` number at most `n`. */
  lemma {:induction false} DistinctBelow(p: seq<nat>, n: nat)
    requires Distinct(p) && forall i :: 0 <= i < |p| ==> p[i] < n
    ensures |p| <= n
    decreases n
  {
    if |p| > 0 {
      assert p[0] < n;
      if n - 1 in p {
        var k := FirstIndex(p, n - 1);
        var c := Cut(p, k);
        forall i | 0 <= i < |c| ensures c[i] < n - 1 {
          if i < k { assert p[i] != p[k]; } else { assert p[i + 1] != p[k]; }
        }
        forall i, j | 0 <= i < j < |c| ensures c[i] != c[j] {
          if j < k {
          } else if i < k {
            assert c[i] == p[i] && c[j] == p[j + 1];
          } else {
            assert c[i] == p[i + 1] && c[j] == p[j + 1];
          }
        }
        DistinctBelow(c, n - 1);
      } else {
        assert forall i :: 0 <= i < |p| ==> p[i] != n - 1;
        DistinctBelow(p, n - 1);
      }
    }
  }

  /** A spine never has more nodes than the heap. */
  lemma SpineFitsHeap<T>(q: Queue<T>, p: seq<nat>)
    requires Spine(q, p)
    ensures |p| <= |q.heap|
  {
    DistinctBelow(p, |q.heap|);
  }

  /** The spine is determined by the object: following `next` from `head` has one outcome. */
  lemma SpineUnique<T>(q: Queue<T>, p1: seq<nat>, p2: seq<nat>)
    requires Spine(q, p1) && Spine(q, p2)
    ensures p1 == p2
  {
    if |p1| > 0 && |p2| > 0 {
      var i := 0;
      while i < |p1| && i < |p2|
        invariant 0 <= i <= |p1| && i <= |p2|
        invariant p1[..i] == p2[..i]
        invariant i < |p1| && i < |p2| ==> p1[i] == p2[i]
      {
        if i + 1 < |p1| && i + 1 < |p2| {
          assert q.heap[p1[i]].next == Some(p1[i + 1]);
          assert q.heap[p2[i]].next == Some(p2[i + 1]);
        }
        assert p1[..i + 1] == p2[..i + 1];
        i := i + 1;
      }
      assert p1 == p1[..i] && p2 == p2[..i];
    }
  }

  /** `enqueue` appends its element: the new node becomes the last of the spine. */
  lemma EnqueueAppends<T>(q: Queue<T>, p: seq<nat>, d: T)
    requires WellFormed(q) && Spine(q, p)
    ensures Spine(Enqueue(q, d), p + [|q.heap|])
    ensures Contents(Enqueue(q, d), p + [|q.heap|]) == Contents(q, p) + [d]
  {
    var r, n, p' := Enqueue(q, d), |q.heap|, p + [|q.heap|];
    if |p| > 0 {
      var t := p[|p| - 1];
      assert q.head == q.tail ==> q.head.value == t;
      assert r.heap == q.heap[t := q.heap[t].(next := Some(n))] + [Node(d, None)];
      forall i | 0 <= i < |p| - 1 ensures r.heap[p[i]] == q.heap[p[i]] {
        assert p[i] != t;
      }
      forall i | 0 <= i < |p'| - 1 ensures r.heap[p'[i]].next == Some(p'[i + 1]) {
        if i < |p| - 1 {
          assert q.heap[p[i]].next == Some(p[i + 1]);
        }
      }
    }
    assert forall i :: 0 <= i < |p| ==> p[i] != n;
  }

  /** Advancing the head drops the first node of the spine. */
  lemma AdvanceHeadDropsFirst<T>(q: Queue<T>, p: seq<nat>)
    requires WellFormed(q) && Spine(q, p) && |p| > 0
    ensures Spine(AdvanceHead(q), p[1..])
    ensures Contents(AdvanceHead(q), p[1..]) == Contents(q, p)[1..]
  {
    if |p| > 1 {
      assert q.heap[p[0]].next == Some(p[1]);
    }
  }

  /** `dequeue` returns the first element and leaves the rest, or null when empty. */
  lemma DequeueTakesHead<T>(q: Queue<T>, p: seq<nat>)
    requires WellFormed(q) && Spine(q, p)
    ensures var r := Dequeue(q);
      if |p| == 0 then r.value == None && r.queue == q
      else (r.value == Some(Contents(q, p)[0]) && Spine(r.queue, p[1..])
            && Contents(r.queue, p[1..]) == Contents(q, p)[1..])
  {
    if |p| > 0 {
      AdvanceHeadDropsFirst(q, p);
    }
  }

  /** Bypassing the successor of spine node `j` cuts that successor out of the spine. */
  lemma UnlinkAfter<T>(q: Queue<T>, p: seq<nat>, j: nat)
    requires WellFormed(q) && Spine(q, p) && j + 1 < |p|
    ensures p[j] < |q.heap| && p[j + 1] < |q.heap|
    ensures p[j] < |q.heap| && p[j + 1] < |q.heap| && var r := Bypass(q, p[j], p[j + 1]);
      Spine(r, Cut(p, j + 1)) && Contents(r, Cut(p, j + 1)) == Cut(Contents(q, p), j + 1)
  {
    var r, c := Bypass(q, p[j], p[j + 1]), Cut(p, j + 1);
    CutDistinct(p, j + 1);
    BypassLinks(q, p, j);
    assert r.head == Some(c[0]) && r.tail == Some(c[|c| - 1]) && r.heap[c[|c| - 1]].next.None? by {
      if j + 2 < |p| {
        assert p[|p| - 1] != p[j];
      }
    }
  }

  /** Cutting an entry out of a sequence without duplicates leaves one without duplicates. */
  lemma CutDistinct<X>(p: seq<X>, j: nat)
    requires Distinct(p) && j < |p|
    ensures Distinct(Cut(p, j))
  {
    var c := Cut(p, j);
    forall i, k | 0 <= i < k < |c| ensures c[i] != c[k] {
      if k < j {
      } else if i < j {
        assert c[i] == p[i] && c[k] == p[k + 1];
      } else {
        assert c[i] == p[i + 1] && c[k] == p[k + 1];
      }
    }
  }

  /** After the bypass, each node of the cut spine links to the next one. */
  lemma BypassLinks<T>(q: Queue<T>, p: seq<nat>, j: nat)
    requires WellFormed(q) && Spine(q, p) && j + 1 < |p|
    ensures p[j] < |q.heap| && p[j + 1] < |q.heap|
    ensures p[j] < |q.heap| && p[j + 1] < |q.heap| && var r, c := Bypass(q, p[j], p[j + 1]), Cut(p, j + 1);
      forall i :: 0 <= i < |c| - 1 ==> r.heap[c[i]].next == Some(c[i + 1])
  {
    var r, c := Bypass(q, p[j], p[j + 1]), Cut(p, j + 1);
    forall i | 0 <= i < |c| - 1 ensures r.heap[c[i]].next == Some(c[i + 1]) {
      if i < j {
        assert p[i] != p[j] && q.heap[p[i]].next == Some(p[i + 1]);
      } else if i == j {
        assert q.heap[p[j + 1]].next == Some(p[j + 2]);
      } else {
        assert p[i + 1] != p[j] && q.heap[p[i + 1]].next == Some(p[i + 2]);
      }
    }
  }

  /**
   * The scan from spine node `j`, when no node up to `j` holds `d`, finds the
   * first occurrence of `d` after it and cuts exactly that node out.
   */
  lemma {:induction false} RemoveAfterCutsFirst<T>(q: Queue<T>, p: seq<nat>, d: T, j: nat)
    requires WellFormed(q) && Spine(q, p) && j < |p|
    requires forall k :: 0 <= k <= j ==> q.heap[p[k]].data != d
    ensures j < |q.heap|
    ensures j < |q.heap| && var s, r := Contents(q, p), RemoveAfter(q, p[j], d, j);
      && r.found == (d in s)
      && (d in s ==> Spine(r.queue, Cut(p, FirstIndex(s, d))))
      && (d in s ==> Contents(r.queue, Cut(p, FirstIndex(s, d))) == RemoveFirst(s, d))
    decreases |p| - j
  {
    SpineFitsHeap(q, p);
    var s := Contents(q, p);
    if j + 1 == |p| {
      assert forall k :: 0 <= k < |s| ==> s[k] != d;
    } else {
      assert q.heap[p[j]].next == Some(p[j + 1]);
      if s[j + 1] == d {
        assert FirstIndex(s, d) == j + 1;
        RemoveFirstCuts(s, d);
        UnlinkAfter(q, p, j);
      } else {
        RemoveAfterCutsFirst(q, p, d, j + 1);
      }
    }
  }

  /** `remove` deletes the first occurrence of `d` and reports whether there was one. */
  lemma RemoveDeletesFirst<T>(q: Queue<T>, p: seq<nat>, d: T)
    requires WellFormed(q) && Spine(q, p)
    ensures var s := Contents(q, p); var r := Remove(q, d);
      && r.found == (d in s)
      && (d in s ==> Spine(r.queue, Cut(p, FirstIndex(s, d))))
      && (d in s ==> Contents(r.queue, Cut(p, FirstIndex(s, d))) == RemoveFirst(s, d))
  {
    var s := Contents(q, p);
    if |p| > 0 {
      if s[0] == d {
        assert FirstIndex(s, d) == 0;
        RemoveFirstCuts(s, d);
        AdvanceHeadDropsFirst(q, p);
      } else {
        RemoveAfterCutsFirst(q, p, d, 0);
      }
    }
  }

  // ---------------------------------------------------------------------
  // Sequences of calls
  // ---------------------------------------------------------------------

  datatype ChainStepped<T> = ChainStepped(answer: QueueSpec.Answer<T>, queue: Queue<T>)

  /** One call on the object, with what it returns. */
  function Step<T(==)>(q: Queue<T>, op: QueueSpec.Op<T>): (r: ChainStepped<T>)
    requires WellFormed(q)
    ensures WellFormed(r.queue) && r.queue.size == q.size
  {
    match op
    case Enq(d) => ChainStepped(QueueSpec.Done, Enqueue(q, d))
    case Deq => var r := Dequeue(q); ChainStepped(QueueSpec.Polled(r.value), r.queue)
    case Rem(d) => var r := Remove(q, d); ChainStepped(QueueSpec.Found(r.found), r.queue)
  }

  /** The spine after one call, as the lemmas above compute it. */
  ghost function SpineAfter<T>(q: Queue<T>, p: seq<nat>, op: QueueSpec.Op<T>): seq<nat>
    requires Spine(q, p)
  {
    match op
    case Enq(_) => p + [|q.heap|]
    case Deq => if |p| == 0 then p else p[1..]
    case Rem(d) =>
      var s := Contents(q, p);
      if d in s then Cut(p, FirstIndex(s, d)) else p
  }

  /** Each call returns what the sequence queue returns and leaves the contents it leaves. */
  lemma StepRefines<T>(q: Queue<T>, p: seq<nat>, op: QueueSpec.Op<T>)
    requires WellFormed(q) && Spine(q, p)
    ensures var r, spec := Step(q, op), QueueSpec.Step(Contents(q, p), op);
      && r.answer == spec.answer
      && Spine(r.queue, SpineAfter(q, p, op))
      && Contents(r.queue, SpineAfter(q, p, op)) == spec.contents
  {
    match op
    case Enq(d) => EnqueueAppends(q, p, d);
    case Deq => DequeueTakesHead(q, p);
    case Rem(d) =>
      RemoveDeletesFirst(q, p, d);
      var s := Contents(q, p);
      if d in s {
        var k := FirstIndex(s, d);
        assert Cut(s, k) == s[..k] + s[k + 1..];
      }
  }

  datatype ChainTrace<T> = ChainTrace(answers: seq<QueueSpec.Answer<T>>, queue: Queue<T>)

  /** A sequence of calls on the object. */
  function Run<T(==)>(q: Queue<T>, ops: seq<QueueSpec.Op<T>>): (r: ChainTrace<T>)
    requires WellFormed(q)
    ensures WellFormed(r.queue) && |r.answers| == |ops|
    decreases |ops|
  {
    if |ops| == 0 then ChainTrace([], q)
    else
      var first := Step(q, ops[0]);
      var rest := Run(first.queue, ops[1..]);
      ChainTrace([first.answer] + rest.answers, rest.queue)
  }

  ghost function SpineAfterRun<T>(q: Queue<T>, p: seq<nat>, ops: seq<QueueSpec.Op<T>>): seq<nat>
    requires WellFormed(q) && Spine(q, p)
    decreases |ops|
  {
    if |ops| == 0 then p
    else
      StepRefines(q, p, ops[0]);
      SpineAfterRun(Step(q, ops[0]).queue, SpineAfter(q, p, ops[0]), ops[1..])
  }

  /**
   * Any sequence of calls on the object returns what the sequence queue
   * returns, keeps a valid chain, and leaves the same contents.
   */
  lemma {:induction false} RunRefines<T>(q: Queue<T>, p: seq<nat>, ops: seq<QueueSpec.Op<T>>)
    requires WellFormed(q) && Spine(q, p)
    ensures var r, spec := Run(q, ops), QueueSpec.Run(Contents(q, p), ops);
      && r.answers == spec.answers
      && Spine(r.queue, SpineAfterRun(q, p, ops))
      && Contents(r.queue, SpineAfterRun(q, p, ops)) == spec.contents
    decreases |ops|
  {
    if |ops| > 0 {
      StepRefines(q, p, ops[0]);
      RunRefines(Step(q, ops[0]).queue, SpineAfter(q, p, ops[0]), ops[1..]);
    }
  }

  /**
   * From a new queue, every sequence of calls behaves as the sequence queue,
   * and `size()` still answers 0: the field is never updated.
   */
  lemma FromEmpty<T>(ops: seq<QueueSpec.Op<T>>)
    ensures var r := Run(Empty(), ops);
      && r.answers == QueueSpec.Run([], ops).answers
      && Spine(r.queue, SpineAfterRun(Empty(), [], ops))
      && Contents(r.queue, SpineAfterRun(Empty(), [], ops)) == QueueSpec.Run([], ops).contents
      && Size(r.queue) == 0
  {
    RunRefines(Empty<T>(), [], ops);
    assert Contents(Empty<T>(), []) == [];
    SizeKept(Empty<T>(), ops);
  }

  /** No call writes the `size` field. */
  lemma {:induction false} SizeKept<T>(q: Queue<T>, ops: seq<QueueSpec.Op<T>>)
    requires WellFormed(q)
    ensures Size(Run(q, ops).queue) == Size(q)
    decreases |ops|
  {
    if |ops| > 0 {
      SizeKept(Step(q, ops[0]).queue, ops[1..]);
    }
  }

  /** `size()` disagrees with the contents as soon as one element is enqueued. */
  lemma SizeIsStale<T>(d: T)
    ensures var q := Enqueue(Empty(), d);
      Size(q) == 0 && Spine(q, [0]) && Contents(q, [0]) == [d]
  {
    EnqueueAppends(Empty(), [], d);
  }

  /**
   * test/QueueTest.java:13-17: enqueueing 'a' to 'e' into a new queue leaves
   * the chain holding them in order; with `ToString`'s contract and
   * `ShowLetters`, its text is "a, b, c, d, e".
   */
  lemma EnqueueLetters()
    ensures var ops := QueueSpec.Enqueues("abcde");
      && Spine(Run(Empty(), ops).queue, SpineAfterRun(Empty(), [], ops))
      && Contents(Run(Empty(), ops).queue, SpineAfterRun(Empty(), [], ops)) == "abcde"
  {
    FromEmpty(QueueSpec.Enqueues("abcde"));
    QueueSpec.EnqueuesAppend([], "abcde");
    assert [] + "abcde" == "abcde";
  }

  /** Showing each character as itself, the elements 'a' to 'e' join to "a, b, c, d, e". */
  lemma ShowLetters()
    ensures Join(Map(c => [c], "abcde"), ", ") == "a, b, c, d, e"
  {
    var sep := ", ";
    assert Map(c => [c], "abcde") == ["a"] + ["b"] + ["c"] + ["d"] + ["e"];
    JoinSnoc(["a"], "b", sep);
    JoinSnoc(["a"] + ["b"], "c", sep);
    JoinSnoc(["a"] + ["b"] + ["c"], "d", sep);
    JoinSnoc(["a"] + ["b"] + ["c"] + ["d"], "e", sep);
  }
}
