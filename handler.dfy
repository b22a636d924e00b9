/**
 * The WeakHandler facade. It owns the sentinel head of a chain (`runnables`) and an `ExecHandler`
 * (`exec`), the message loop's handler, whose queue of pending wrappers is a sequence.
 * Posting a task puts a new node right after the head and queues the node's wrapper; removing a
 * task unlinks the first node holding it and takes that wrapper out of the queue; the loop fires
 * a queued wrapper by taking it out of the queue and running it.
 */
module Handler {
  import opened Sequences
  import opened Chain

  /**
   * The queue holds the wrappers of the nodes after the head in the order they were posted, which
   * is the reverse of chain order: the oldest first, the newest (right after the head) last.
   */
  ghost predicate Queued(queue: seq<WeakRunnable>, nodes: seq<ChainedRef>) {
    |queue| + 1 == |nodes| && forall i :: 0 <= i < |queue| ==> queue[i] == nodes[|queue| - i].wrapper
  }

  /** Each queued wrapper refers back to its node, the one `Queued` puts it with. */
  ghost predicate Refs(queue: seq<WeakRunnable>, nodes: seq<ChainedRef>)
    reads queue`reference
  {
    |queue| + 1 == |nodes| && forall i :: 0 <= i < |queue| ==> queue[i].reference == nodes[|queue| - i]
  }

  /** The node carries a task, and its wrapper was made for that task. */
  ghost predicate Carries(n: ChainedRef) {
    n.runnable != null && n.wrapper.delegate == n.runnable
  }

  /**
   * The shape of the handler's state: the chain starts at the task-less head, every node after it
   * carries a task, each node's wrapper is made for that task, and the queue is as `Queued` says.
   */
  ghost predicate Shape(head: ChainedRef, nodes: seq<ChainedRef>, queue: seq<WeakRunnable>) {
    |nodes| >= 1 && nodes[0] == head && head.runnable == null
    && (forall i :: 1 <= i < |nodes| ==> Carries(nodes[i]))
    && Queued(queue, nodes)
  }

  /** What posting does to the chain and the queue, apart from the links themselves. */
  lemma PostShape(head: ChainedRef, before: seq<ChainedRef>, c: ChainedRef, queue: seq<WeakRunnable>)
    requires Shape(head, before, queue) && Refs(queue, before)
    requires c.runnable != null && c.wrapper.delegate == c.runnable && c.wrapper.reference == c
    ensures var after := InsertAt(before, 1, c);
      Shape(head, after, queue + [c.wrapper]) && Refs(queue + [c.wrapper], after)
      && Runnables(after[1..]) == [c.runnable] + Runnables(before[1..])
  {
    var after := InsertAt(before, 1, c);
    assert after[1..] == [c] + before[1..];
  }

  /**
   * What unlinking the node at position `m` does to the chain and the queue, apart from the links
   * themselves: its wrapper leaves its place in the queue.
   */
  lemma RemoveShape(head: ChainedRef, nodes: seq<ChainedRef>, m: nat, queue: seq<WeakRunnable>)
    requires 1 <= m < |nodes| && Distinct(nodes)
    requires Shape(head, nodes, queue) && Refs(queue, nodes)
    ensures var j := |nodes| - 1 - m;
      j < |queue| && queue[j] == nodes[m].wrapper && queue[j].reference == nodes[m]
      && Without(queue, nodes[m].wrapper) == RemoveAt(queue, j)
      && Shape(head, RemoveAt(nodes, m), RemoveAt(queue, j)) && Refs(RemoveAt(queue, j), RemoveAt(nodes, m))
  {
    var j := |nodes| - 1 - m;
    DistinctElements(nodes);
    forall p, q | 0 <= p < q < |queue|
      ensures queue[p] != queue[q]
    {
      assert queue[p].reference == nodes[|queue| - p] && queue[q].reference == nodes[|queue| - q];
    }
    ElementsDistinct(queue);
    WithoutAt(queue, j);
    RemoveQueued(queue, nodes, m);
  }

  /** Unlinking the node at position `m` takes its wrapper out of its place in the queue. */
  lemma RemoveQueued(queue: seq<WeakRunnable>, nodes: seq<ChainedRef>, m: nat)
    requires 1 <= m < |nodes| && |queue| + 1 == |nodes|
    ensures var queue', nodes' := RemoveAt(queue, |nodes| - 1 - m), RemoveAt(nodes, m);
      forall i :: 0 <= i < |queue'| ==>
        (queue'[i] == queue[if i < |nodes| - 1 - m then i else i + 1]
         && nodes'[|queue'| - i] == nodes[|queue| - (if i < |nodes| - 1 - m then i else i + 1)])
  {
  }

  /** Unlinking the node at position `m` takes its task out of its place among the pending tasks. */
  lemma RemovePending(nodes: seq<ChainedRef>, m: nat)
    requires 1 <= m < |nodes|
    ensures Runnables(RemoveAt(nodes, m)[1..]) == RemoveAt(Runnables(nodes[1..]), m - 1)
  {
    assert RemoveAt(nodes, m)[1..] == RemoveAt(nodes[1..], m - 1);
  }

  /**
   * Unlinking the first node after the head that holds `r` (found by `Match`) takes the first
   * occurrence of `r` out of the pending tasks; when no node holds it nothing is unlinked.
   */
  lemma MatchPending(nodes: seq<ChainedRef>, r: Runnable?)
    requires |nodes| >= 1
    ensures var m, pending := Match(nodes, 0, r), Runnables(nodes[1..]);
      (m == -1 <==> r !in pending)
      && (m != -1 ==> m == 1 + IndexOf(pending, r))
      && Runnables(Detach(nodes, m)[1..]) == RemoveFirst(pending, r)
  {
    var m, pending := Match(nodes, 0, r), Runnables(nodes[1..]);
    RemoveFirstAt(pending, r);
    if m != -1 {
      RemovePending(nodes, m);
    }
  }

  /** Unlinking the node at position `m` takes one copy of its task out of the pending tasks. */
  lemma RemovePendingMultiset(nodes: seq<ChainedRef>, m: nat)
    requires 1 <= m < |nodes|
    ensures multiset(Runnables(RemoveAt(nodes, m)[1..])) + multiset{nodes[m].runnable}
      == multiset(Runnables(nodes[1..]))
  {
    RemovePending(nodes, m);
    RemoveAtMultiset(Runnables(nodes[1..]), m - 1);
  }

  /**
   * WeakHandler.ExecHandler, the android.os.Handler that does the real posting. Only its message
   * queue is modelled: the wrappers waiting to be fired, in the order they were posted.
   */
  class ExecHandler {
    var queue: seq<WeakRunnable>

    constructor ()
      ensures queue == []
    {
      queue := [];
    }

    /** Queues `w` behind everything already waiting. */
    method Post(w: WeakRunnable)
      modifies `queue
      ensures queue == old(queue) + [w]
    {
      queue := queue + [w];
    }

    /** Drops every queued copy of `w`. */
    method RemoveCallbacks(w: WeakRunnable)
      modifies `queue
      ensures queue == Without(old(queue), w)
    {
      queue := Without(queue, w);
    }

    /** The loop takes the wrapper at position `i` out of the queue to fire it. */
    method Take(i: nat) returns (w: WeakRunnable)
      requires i < |queue|
      modifies `queue
      ensures w == old(queue)[i] && queue == RemoveAt(old(queue), i)
    {
      w := queue[i];
      queue := RemoveAt(queue, i);
    }
  }

  class WeakHandler {
    /** The sentinel head: it carries no task, and the pending nodes follow it. */
    const runnables: ChainedRef
    /** The handler the wrappers are posted to. */
    const exec: ExecHandler
    /** The chain from the head to its last node. */
    ghost var nodes: seq<ChainedRef>

    /**
     * The chain starts at the task-less head and is linked, and the queue holds the wrappers of
     * the nodes after the head, oldest first, each referring back to its node.
     */
    ghost predicate Valid()
      reads `nodes, nodes`prev, nodes`next, exec`queue, exec.queue`reference
    {
      Consistent(exec.queue)
    }

    /** `Valid`, were the queue `queue`. */
    ghost predicate Consistent(queue: seq<WeakRunnable>)
      reads `nodes, nodes`prev, nodes`next, queue`reference
    {
      Shape(runnables, nodes, queue) && Linked(nodes) && Refs(queue, nodes)
    }

    /** The tasks posted and neither removed nor fired, in chain order (newest first). */
    ghost function Pending(): (pending: seq<Runnable?>)
      reads `nodes
      requires |nodes| >= 1
    {
      Runnables(nodes[1..])
    }

    /** A handler with a fresh head, nothing pending and nothing queued. */
    constructor ()
      ensures Valid() && fresh(exec) && fresh(runnables) && nodes == [runnables]
      ensures Pending() == [] && exec.queue == []
    {
      runnables := new ChainedRef(null);
      exec := new ExecHandler();
      new;
      nodes := [runnables];
    }

    /** Wraps `r` in a new node placed directly after the head, and returns the node's wrapper. */
    method WrapRunnable(r: Runnable) returns (w: WeakRunnable)
      requires Valid()
      modifies `nodes, nodes`prev, nodes`next
      ensures Consistent(exec.queue + [w])
      ensures Pending() == [r] + old(Pending())
      ensures fresh(w) && w.delegate == r
      ensures fresh(nodes[1]) && nodes == InsertAt(old(nodes), 1, nodes[1])
    {
      var hardRef := new ChainedRef(r);
      PostShape(runnables, nodes, hardRef, exec.queue);
      Attach(hardRef);
      w := hardRef.wrapper;
    }

    /** The chain half of `WrapRunnable`: links the new node `n` in directly after the head. */
    method Attach(n: ChainedRef)
      requires Valid() && n !in nodes && Carries(n) && n.wrapper.reference == n
      modifies `nodes, nodes`prev, nodes`next, n`prev, n`next
      ensures Consistent(exec.queue + [n.wrapper])
      ensures nodes == InsertAt(old(nodes), 1, n)
    {
      ghost var before := nodes;
      PostShape(runnables, before, n, exec.queue);
      nodes := InsertAt(nodes, 1, n);
      runnables.InsertAbove(n, before, 0);
    }

    /** Posts `r`: wraps it in a new node and queues the node's wrapper. */
    method Post(r: Runnable) returns (ghost w: WeakRunnable)
      requires Valid()
      modifies `nodes, nodes`prev, nodes`next, exec`queue
      ensures Valid()
      ensures Pending() == [r] + old(Pending())
      ensures exec.queue == old(exec.queue) + [w] && fresh(w) && w.delegate == r
      ensures fresh(nodes[1]) && nodes == InsertAt(old(nodes), 1, nodes[1])
    {
      var wrapped := WrapRunnable(r);
      exec.Post(wrapped);
      w := wrapped;
    }

    /** As `Post`; the delay only tells the loop when to fire, which is not modelled. */
    method PostDelayed(r: Runnable, delayMillis: nat) returns (ghost w: WeakRunnable)
      requires Valid()
      modifies `nodes, nodes`prev, nodes`next, exec`queue
      ensures Valid()
      ensures Pending() == [r] + old(Pending())
      ensures exec.queue == old(exec.queue) + [w] && fresh(w) && w.delegate == r
      ensures fresh(nodes[1]) && nodes == InsertAt(old(nodes), 1, nodes[1])
    {
      w := Post(r);
    }

    /**
     * The chain half of `RemoveCallbacks`: unlinks the first pending node holding `r` itself and
     * returns its wrapper, which the queue then no longer needs; null when no pending node holds `r`.
     */
    method Unlink(r: Runnable?) returns (w: WeakRunnable?)
      requires Valid()
      modifies `nodes, nodes`prev, nodes`next
      ensures w == null <==> r !in old(Pending())
      ensures w == null ==> Consistent(exec.queue)
      ensures w != null ==>
        (Consistent(Without<WeakRunnable>(exec.queue, w))
         && w == old(nodes)[1 + IndexOf(old(Pending()), r)].wrapper)
      ensures Pending() == RemoveFirst(old(Pending()), r)
      ensures nodes == Detach(old(nodes), Match(old(nodes), 0, r))
    {
      ghost var m := Match(nodes, 0, r);
      ghost var before := nodes;
      MatchPending(before, r);
      w := runnables.RemoveRunnable(r, before, 0);
      nodes := Detach(nodes, m);
      if m != -1 {
        UnlinkedConsistent(before, m);
      }
    }

    /**
     * Once the pending node at position `m` of the chain `before` is unlinked, the state is
     * consistent with that node's wrapper dropped from the queue.
     */
    lemma UnlinkedConsistent(before: seq<ChainedRef>, m: nat)
      requires 1 <= m < |before| && Distinct(before)
      requires Shape(runnables, before, exec.queue) && Refs(exec.queue, before)
      requires nodes == RemoveAt(before, m) && Linked(nodes)
      ensures Consistent(Without(exec.queue, before[m].wrapper))
    {
      RemoveShape(runnables, before, m, exec.queue);
    }

    /**
     * Unlinks the first pending node holding `r` itself and drops that node's wrapper from the
     * queue; when no pending node holds `r`, nothing changes.
     */
    method RemoveCallbacks(r: Runnable?)
      requires Valid()
      modifies `nodes, nodes`prev, nodes`next, exec`queue
      ensures Valid()
      ensures Pending() == RemoveFirst(old(Pending()), r)
      ensures r !in old(Pending()) ==> exec.queue == old(exec.queue)
      ensures r in old(Pending()) ==>
        exec.queue == Without(old(exec.queue), old(nodes)[1 + IndexOf(old(Pending()), r)].wrapper)
      ensures nodes == Detach(old(nodes), Match(old(nodes), 0, r))
    {
      var w := Unlink(r);
      if w != null {
        exec.RemoveCallbacks(w);
      }
    }

    /**
     * The message loop fires the wrapper queued at position `i`: it leaves the queue, its node
     * leaves the chain, and its task runs. While the handler is in use its chain holds the node
     * and the node holds the task, so both weak references still have their referents.
     */
    method Dispatch(i: nat) returns (ran: Runnable?)
      requires Valid() && i < |exec.queue|
      modifies `nodes, nodes`prev, nodes`next, exec`queue
      ensures Valid()
      ensures exec.queue == RemoveAt(old(exec.queue), i)
      ensures ran != null && ran == old(exec.queue)[i].delegate
      ensures multiset(Pending()) + multiset{ran} == multiset(old(Pending()))
      ensures old(exec.queue)[i].reference !in nodes
      ensures nodes == RemoveAt(old(nodes), |old(nodes)| - 1 - i)
    {
      ghost var k := |nodes| - 1 - i;
      ghost var before, queue := nodes, exec.queue;
      var w := exec.Take(i);
      ran := w.Run(before, k, true, true);
      nodes := RemoveAt(before, k);
      RemoveShape(runnables, before, k, queue);
      RemovePendingMultiset(before, k);
      DistinctRemoveAt(before, k);
      assert |before| - 1 - k == i;
      assert Consistent(RemoveAt(queue, i));
    }
  }
}
