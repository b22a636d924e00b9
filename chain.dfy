/**
 * The intrusive doubly linked chain behind WeakHandler: `ChainedRef` nodes, each holding a task
 * and the `WeakRunnable` wrapper made for it when the node is built.
 *
 * A chain is described by a ghost sequence of nodes from its first node to its last; `Linked`
 * says that the `prev`/`next` fields of exactly those nodes spell out that sequence. The lock the
 * nodes share is not modelled: every operation here runs to completion before the next starts.
 */
module Chain {
  import opened Sequences

  /** A task with object identity (java.lang.Runnable); what running it does is not modelled. */
  class Runnable {
    constructor () {}
  }

  /**
   * The `prev`/`next` fields of the nodes in `nodes` link them, in that order, into one chain:
   * no node occurs twice, and each node points back at the one before it (the first at null)
   * and on to the one after it (the last at null).
   */
  ghost predicate Linked(nodes: seq<ChainedRef>)
    reads nodes`prev, nodes`next
  {
    Distinct(nodes) && forall i :: 0 <= i < |nodes| ==> LinkedAt(nodes, i)
  }

  /** The links of the node at position `i` agree with the chain `nodes`. */
  ghost predicate LinkedAt(nodes: seq<ChainedRef>, i: nat)
    requires i < |nodes|
    reads nodes`prev, nodes`next
  {
    nodes[i].prev == (if i == 0 then null else nodes[i - 1])
    && nodes[i].next == (if i + 1 == |nodes| then null else nodes[i + 1])
  }

  /**
   * Where node `n` stands with respect to the chain `nodes`: at position `k`, or (`k == -1`)
   * outside it and detached, with both links null.
   */
  ghost predicate Position(nodes: seq<ChainedRef>, k: int, n: ChainedRef)
    reads n`prev, n`next
  {
    if k == -1 then n !in nodes && n.prev == null && n.next == null
    else 0 <= k < |nodes| && nodes[k] == n
  }

  /** The chain once the node at position `k` is unlinked (no change for a detached node). */
  ghost function Detach(nodes: seq<ChainedRef>, k: int): (r: seq<ChainedRef>)
    requires k == -1 || 0 <= k < |nodes|
  {
    if k == -1 then nodes else RemoveAt(nodes, k)
  }

  /**
   * The position of the first node after position `k` whose task is `obj` itself, or -1 when
   * no node after `k` holds it.
   */
  ghost function Match(nodes: seq<ChainedRef>, k: nat, obj: Runnable?): (m: int)
    requires k < |nodes|
    ensures m == -1 || k < m < |nodes|
  {
    var s := Runnables(nodes[k + 1..]);
    if obj in s then k + 1 + IndexOf(s, obj) else -1
  }

  /**
   * `Match` finds the first node after `k` holding `obj`: it gives -1 exactly when no node
   * after `k` holds it, and otherwise a position holding it with none between `k` and it.
   */
  lemma MatchFirst(nodes: seq<ChainedRef>, k: nat, obj: Runnable?)
    requires k < |nodes|
    ensures var m := Match(nodes, k, obj);
      (m == -1 <==> forall i :: k < i < |nodes| ==> nodes[i].runnable != obj)
      && (m != -1 ==> nodes[m].runnable == obj && forall i :: k < i < m ==> nodes[i].runnable != obj)
  {
    var s := Runnables(nodes[k + 1..]);
    if obj in s {
      IndexOfBefore(s, obj);
      var m := Match(nodes, k, obj);
      forall i | k < i < m
        ensures nodes[i].runnable != obj
      {
        assert nodes[i].runnable == s[i - k - 1];
      }
    } else {
      forall i | k < i < |nodes|
        ensures nodes[i].runnable != obj
      {
        assert nodes[i].runnable == s[i - k - 1];
      }
    }
  }

  /** The first node after `k` holding `obj` is the one `Match` finds. */
  lemma MatchAt(nodes: seq<ChainedRef>, k: nat, obj: Runnable?, j: nat)
    requires k < j < |nodes| && nodes[j].runnable == obj
    requires forall i :: k < i < j ==> nodes[i].runnable != obj
    ensures Match(nodes, k, obj) == j
  {
    var s := Runnables(nodes[k + 1..]);
    assert s[j - k - 1] == obj;
    IndexOfFirst(s, j - k - 1, obj);
  }

  /** The tasks the nodes hold, in chain order. */
  function Runnables(nodes: seq<ChainedRef>): (rs: seq<Runnable?>)
    ensures |rs| == |nodes|
    ensures forall i :: 0 <= i < |nodes| ==> rs[i] == nodes[i].runnable
  {
    seq(|nodes|, i requires 0 <= i < |nodes| => nodes[i].runnable)
  }

  /**
   * WeakHandler.WeakRunnable: what is actually handed to the message loop. It refers weakly to
   * the task (`delegate`) and to the node it was made for (`reference`).
   */
  class WeakRunnable {
    const delegate: Runnable?
    var reference: ChainedRef?

    constructor (delegate: Runnable?)
      ensures this.delegate == delegate && reference == null
    {
      this.delegate := delegate;
      reference := null;
    }

    /**
     * Fired by the message loop. Whether each weak reference still has its referent is chosen by
     * the garbage collector, and is a parameter here. The node, if still there, is unlinked
     * first; then the task, if still there, runs, which is modelled by returning it.
     */
    method Run(ghost nodes: seq<ChainedRef>, ghost k: int, delegateAlive: bool, referenceAlive: bool)
      returns (ran: Runnable?)
      requires Linked(nodes)
      requires reference != null && Position(nodes, k, reference)
      modifies reference`prev, reference`next, nodes`prev, nodes`next
      ensures ran == if delegateAlive then delegate else null
      ensures Linked(if referenceAlive then Detach(nodes, k) else nodes)
      ensures referenceAlive || k == -1 ==> reference.prev == null && reference.next == null
      ensures !referenceAlive ==> unchanged(reference) && unchanged(nodes)
    {
      var task := if delegateAlive then delegate else null;
      var node := if referenceAlive then reference else null;
      if node != null {
        var _ := node.Remove(nodes, k);
      }
      ran := task;
    }
  }

  /** WeakHandler.ChainedRef: one node of the chain. */
  class ChainedRef {
    var next: ChainedRef?
    var prev: ChainedRef?
    const runnable: Runnable?
    const wrapper: WeakRunnable

    /** A detached node for task `r`, with a new wrapper that refers back to it. */
    constructor (r: Runnable?)
      ensures runnable == r && next == null && prev == null
      ensures fresh(wrapper) && wrapper.delegate == r && wrapper.reference == this
    {
      runnable := r;
      next, prev := null, null;
      wrapper := new WeakRunnable(r);
      new;
      wrapper.reference := this;
    }

    /** Puts `candidate` into the chain directly after this node. */
    method InsertAbove(candidate: ChainedRef, ghost nodes: seq<ChainedRef>, ghost k: nat)
      requires Linked(nodes) && k < |nodes| && nodes[k] == this && candidate !in nodes
      modifies candidate`prev, candidate`next, nodes`prev, nodes`next
      ensures Linked(InsertAt(nodes, k + 1, candidate))
    {
      assert LinkedAt(nodes, k);
      DistinctElements(nodes);
      DistinctInsertAt(nodes, k + 1, candidate);
      if next != null {
        next.prev := candidate;
      }
      candidate.next := next;
      next := candidate;
      candidate.prev := this;
      ghost var r := InsertAt(nodes, k + 1, candidate);
      forall i | 0 <= i < |r|
        ensures LinkedAt(r, i)
      {
        if i <= k {
          assert old(LinkedAt(nodes, i));
        } else if i > k + 1 {
          assert old(LinkedAt(nodes, i - 1));
        }
      }
    }

    /**
     * Unlinks this node: its neighbours are joined to each other and its own links are cleared.
     * On a node that is already detached this changes nothing. Returns the node's wrapper.
     */
    method Remove(ghost nodes: seq<ChainedRef>, ghost k: int) returns (w: WeakRunnable)
      requires Linked(nodes) && Position(nodes, k, this)
      modifies `prev, `next, nodes`prev, nodes`next
      ensures Linked(Detach(nodes, k))
      ensures prev == null && next == null
      ensures w == wrapper
    {
      if k != -1 {
        assert LinkedAt(nodes, k);
        DistinctElements(nodes);
        DistinctRemoveAt(nodes, k);
      }
      if prev != null {
        prev.next := next;
      }
      if next != null {
        next.prev := prev;
      }
      prev, next := null, null;
      w := wrapper;
      if k != -1 {
        ghost var r := RemoveAt(nodes, k);
        forall i | 0 <= i < |r|
          ensures LinkedAt(r, i)
        {
          assert old(LinkedAt(nodes, if i < k then i else i + 1));
        }
      }
    }

    /**
     * Searches the nodes after this one, following `next`, for the first whose task is `obj`
     * itself (identity, not equality). That node is unlinked and its wrapper returned; with no
     * such node the result is null and the chain is as it was.
     */
    method RemoveRunnable(obj: Runnable?, ghost nodes: seq<ChainedRef>, ghost k: nat) returns (w: WeakRunnable?)
      requires Linked(nodes) && k < |nodes| && nodes[k] == this
      modifies nodes`prev, nodes`next
      ensures var m := Match(nodes, k, obj);
        Linked(Detach(nodes, m)) && w == (if m == -1 then null else nodes[m].wrapper)
      ensures var m := Match(nodes, k, obj);
        m != -1 ==> nodes[m].prev == null && nodes[m].next == null
    {
      assert LinkedAt(nodes, k);
      var curr := next;
      ghost var j := k + 1;
      while curr != null && curr.runnable != obj
        invariant k < j <= |nodes|
        invariant curr == if j < |nodes| then nodes[j] else null
        invariant forall i :: k < i < j ==> nodes[i].runnable != obj
        decreases |nodes| - j
      {
        assert LinkedAt(nodes, j);
        curr := curr.next;
        j := j + 1;
      }
      if curr == null {
        MatchFirst(nodes, k, obj);
        w := null;
      } else {
        MatchAt(nodes, k, obj, j);
        w := curr.Remove(nodes, j);
      }
    }
  }
}
