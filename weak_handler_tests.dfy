/**
 * The scenarios of WeakHandlerTest, run one step at a time: the message loop fires a wrapper only
 * when a scenario says so (`Dispatch`), and the threads of the concurrent tests take their turns
 * one after another.
 */
module WeakHandlerTests {
  import opened Sequences
  import opened Chain
  import opened Handler

  /**
   * Walks the chain from the node after the sentinel head to the end, following `next`, and
   * collects the task of every node it passes: exactly the pending tasks, newest first.
   */
  method WalkChain(h: WeakHandler) returns (walked: seq<Runnable?>)
    requires h.Valid()
    ensures walked == h.Pending()
  {
    ghost var nodes := h.nodes;
    assert LinkedAt(nodes, 0);
    var ref := h.runnables.next;
    walked := [];
    ghost var j := 1;
    while ref != null
      invariant 1 <= j <= |nodes|
      invariant ref == if j < |nodes| then nodes[j] else null
      invariant |walked| == j - 1 && forall k :: 0 <= k < j - 1 ==> walked[k] == nodes[k + 1].runnable
      decreases |nodes| - j
    {
      assert LinkedAt(nodes, j);
      walked := walked + [ref.runnable];
      ref := ref.next;
      j := j + 1;
    }
    assert forall k :: 0 <= k < |walked| ==> walked[k] == h.Pending()[k];
  }

  /** A task posted with a delay runs when the loop fires its wrapper, and is then no longer pending. */
  method PostDelayedScenario() returns (r: Runnable, ran: Runnable?, h: WeakHandler)
    ensures ran == r
    ensures h.Valid() && h.Pending() == [] && h.exec.queue == []
  {
    h := new WeakHandler();
    r := new Runnable();
    ghost var w := h.PostDelayed(r, 300);
    ran := h.Dispatch(0);
    assert multiset(h.Pending()) == multiset{};
  }

  /** A task posted and then removed before the loop fires it leaves nothing to fire: it never runs. */
  method RemoveCallbacksScenario() returns (r: Runnable, h: WeakHandler)
    ensures h.Valid() && h.Pending() == [] && h.exec.queue == []
  {
    h := new WeakHandler();
    r := new Runnable();
    ghost var w := h.PostDelayed(r, 300);
    assert h.exec.queue == [w] && h.Pending() == [r];
    h.RemoveCallbacks(r);
    assert Without([w], w) == [];
  }

  /**
   * Posts `count` new tasks, then removes each of them in the order they were posted: each removal
   * finds its task, and at the end nothing is pending and nothing is queued.
   */
  method RemoveEachScenario(count: nat) returns (runnables: seq<Runnable>, h: WeakHandler)
    ensures |runnables| == count
    ensures h.Valid() && h.Pending() == [] && h.exec.queue == []
  {
    h, runnables := PostEach(count);
    RemoveEach(h, runnables);
  }

  /**
   * A new handler with `count` new, distinct tasks posted to it one after another: they are
   * pending newest first.
   */
  method PostEach(count: nat) returns (h: WeakHandler, runnables: seq<Runnable>)
    ensures fresh(h) && fresh(h.exec) && fresh(h.runnables)
    ensures forall j :: 0 <= j < |h.nodes| ==> fresh(h.nodes[j])
    ensures h.Valid() && |runnables| == count && h.Pending() == Reversed(runnables)
    ensures forall p, q :: 0 <= p < q < |runnables| ==> runnables[p] != runnables[q]
  {
    h := new WeakHandler();
    runnables := [];
    while |runnables| < count
      invariant fresh(h) && fresh(h.exec) && fresh(h.runnables)
      invariant h.Valid() && forall j :: 0 <= j < |h.nodes| ==> fresh(h.nodes[j])
      invariant |runnables| <= count
      invariant h.Pending() == Reversed(runnables)
      invariant forall p, q :: 0 <= p < q < |runnables| ==> runnables[p] != runnables[q]
    {
      var r := new Runnable();
      ghost var prior := h.nodes;
      ghost var w := h.Post(r);
      InsertAtElements(prior, 1, h.nodes[1]);
      assert r !in runnables;
      ReversedSnoc(runnables, r);
      runnables := runnables + [r];
    }
  }

  /**
   * Removes the distinct pending tasks `runnables` in the order they were posted, oldest first:
   * each time the node of the task removed is the last one of the chain, and at the end nothing
   * is pending and nothing is queued.
   */
  method RemoveEach(h: WeakHandler, runnables: seq<Runnable>)
    requires h.Valid() && h.Pending() == Reversed(runnables)
    requires forall p, q :: 0 <= p < q < |runnables| ==> runnables[p] != runnables[q]
    modifies h`nodes, h.nodes`prev, h.nodes`next, h.exec`queue
    ensures h.Valid() && h.Pending() == [] && h.exec.queue == []
  {
    var i := 0;
    while i < |runnables|
      invariant h.Valid() && i <= |runnables|
      invariant |h.nodes| <= |old(h.nodes)| && forall j :: 0 <= j < |h.nodes| ==> h.nodes[j] == old(h.nodes)[j]
      invariant h.Pending() == Reversed(runnables[i..])
    {
      RemoveOldestCallback(h, runnables, i);
      i := i + 1;
    }
  }

  /** One step of `RemoveEach`: removing the task at `i`, the oldest pending one, drops the last node. */
  method RemoveOldestCallback(h: WeakHandler, runnables: seq<Runnable>, i: nat)
    requires h.Valid() && i < |runnables| && h.Pending() == Reversed(runnables[i..])
    requires forall p, q :: 0 <= p < q < |runnables| ==> runnables[p] != runnables[q]
    modifies h`nodes, h.nodes`prev, h.nodes`next, h.exec`queue
    ensures h.Valid() && h.Pending() == Reversed(runnables[i + 1..])
    ensures h.nodes == old(h.nodes)[..|old(h.nodes)| - 1]
  {
    ghost var before := h.nodes;
    RemoveOldest(runnables, i);
    MatchPending(before, runnables[i]);
    assert Match(before, 0, runnables[i]) == |before| - 1;
    h.RemoveCallbacks(runnables[i]);
  }

  /**
   * Among distinct tasks posted in the order `runnables`, pending newest first from position `i`
   * on, the task at `i` is the oldest pending one: it stands last, and taking it out leaves the
   * tasks from `i + 1` on.
   */
  lemma RemoveOldest(runnables: seq<Runnable>, i: nat)
    requires i < |runnables|
    requires forall p, q :: 0 <= p < q < |runnables| ==> runnables[p] != runnables[q]
    ensures var pending, x := Reversed(runnables[i..]), runnables[i];
      x in pending && IndexOf(pending, x) == |runnables| - 1 - i
      && RemoveFirst(pending, x) == Reversed(runnables[i + 1..])
  {
    var rest, x := runnables[i + 1..], runnables[i];
    assert runnables[i..] == [x] + rest;
    assert ([x] + rest)[1..] == rest;
    var pending := Reversed(runnables[i..]);
    assert pending == Reversed(rest) + [x];
    assert x !in Reversed(rest);
    IndexOfFirst(pending, |rest|, x);
    RemoveFirstLast(Reversed(rest), x);
  }

  /**
   * One task is posted and fired, so that it is running; then `count` more new tasks are posted.
   * A walk of the chain then meets each of those tasks exactly once, newest first, and nothing
   * else: not the running task, whose node left the chain when it was fired.
   */
  method PostWhileRunningScenario(count: nat) returns (running: Runnable, ran: Runnable?, added: seq<Runnable>, walked: seq<Runnable?>)
    ensures ran == running && |added| == count
    ensures walked == Reversed(added) && multiset(walked) == multiset(added)
    ensures running !in walked && running !in added
    ensures forall p, q :: 0 <= p < q < |walked| ==> walked[p] != walked[q]
  {
    var h;
    h, running, ran := FireFirst();
    added := [];
    while |added| < count
      invariant fresh(h) && fresh(h.exec) && fresh(h.runnables)
      invariant h.Valid() && forall j :: 0 <= j < |h.nodes| ==> fresh(h.nodes[j])
      invariant |added| <= count && running !in added
      invariant h.Pending() == Reversed(added)
      invariant forall p, q :: 0 <= p < q < |added| ==> added[p] != added[q]
    {
      var r := new Runnable();
      ghost var prior := h.nodes;
      ghost var w := h.Post(r);
      InsertAtElements(prior, 1, h.nodes[1]);
      assert r !in added;
      ReversedSnoc(added, r);
      added := added + [r];
    }
    walked := WalkChain(h);
    ReversedMultiset(added);
  }

  /** A new handler, with one new task posted to it and then fired: nothing is left pending. */
  method FireFirst() returns (h: WeakHandler, running: Runnable, ran: Runnable?)
    ensures fresh(h) && fresh(h.exec) && fresh(h.runnables) && fresh(running)
    ensures h.Valid() && h.nodes == [h.runnables] && h.exec.queue == []
    ensures ran == running
  {
    h := new WeakHandler();
    running := new Runnable();
    ghost var w := h.Post(running);
    ghost var posted := h.nodes;
    ran := h.Dispatch(0);
    RemoveAtInsertAt([h.runnables], 1, posted[1]);
  }
}
