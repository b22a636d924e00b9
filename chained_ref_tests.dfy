/**
 * The scenarios of WeakHandlerChainedRefTest, on three nodes: a head and two nodes put in after it,
 * first `first` and then `second`. Each scenario states what the test asserts about the links and
 * the wrappers afterwards.
 */
module ChainedRefTests {
  import opened Sequences
  import opened Chain

  /**
   * The test fixture: three nodes, each for its own new task, with `first` and then `second`
   * put in directly after `head`, which leaves the chain head, second, first.
   */
  method SetUp() returns (head: ChainedRef, first: ChainedRef, second: ChainedRef, ghost nodes: seq<ChainedRef>)
    ensures fresh(head) && fresh(first) && fresh(second)
    ensures head.runnable != first.runnable && first.runnable != second.runnable && second.runnable != head.runnable
    ensures nodes == [head, second, first] && Linked(nodes)
  {
    head, first := SetUpFirst();
    var secondRunnable := new Runnable();
    second := new ChainedRef(secondRunnable);
    ghost var two := [head, first];
    nodes := [head, second, first];
    InsertAfterHead(head, first, second);
    head.InsertAbove(second, two, 0);
  }

  /** The first half of `SetUp`: `first` put in directly after `head`, each for its own new task. */
  method SetUpFirst() returns (head: ChainedRef, first: ChainedRef)
    ensures fresh(head) && fresh(first) && head.runnable != null && first.runnable != null
    ensures head.runnable != first.runnable && Linked([head, first])
  {
    var headRunnable := new Runnable();
    var firstRunnable := new Runnable();
    head := new ChainedRef(headRunnable);
    first := new ChainedRef(firstRunnable);
    ghost var one := [head];
    InsertAfterHead(head, first, first);
    ElementsDistinct(one);
    assert LinkedAt(one, 0);
    head.InsertAbove(first, one, 0);
  }

  /** Putting `x` and then `y` in after `h`, as `SetUp` does, spelled out position by position. */
  lemma InsertAfterHead<T>(h: T, x: T, y: T)
    ensures InsertAt([h], 1, x) == [h, x] && InsertAt([h, x], 1, y) == [h, y, x]
  {
    assert [h, x][..1] == [h] && [h, x][1..] == [x];
  }

  /** After the two insertions the chain reads head, second, first forwards and backwards. */
  method InsertAboveScenario() returns (head: ChainedRef, first: ChainedRef, second: ChainedRef)
    ensures head.next == second && second.next == first && first.next == null
    ensures head.prev == null && first.prev == second && second.prev == head
  {
    ghost var nodes;
    head, first, second, nodes := SetUp();
    assert LinkedAt(nodes, 0) && LinkedAt(nodes, 1) && LinkedAt(nodes, 2);
  }

  /** Unlinking the last node clears its links and leaves second as the last node. */
  method RemoveFirstScenario() returns (head: ChainedRef, first: ChainedRef, second: ChainedRef, w: WeakRunnable)
    ensures first.next == null && first.prev == null
    ensures head.next == second && second.prev == head && second.next == null
    ensures w == first.wrapper
  {
    ghost var nodes;
    head, first, second, nodes := SetUp();
    w := first.Remove(nodes, 2);
    ghost var after := RemoveAt(nodes, 2);
    assert after == [head, second];
    assert LinkedAt(after, 0) && LinkedAt(after, 1);
  }

  /** Unlinking the middle node joins head and first to each other and clears its links. */
  method RemoveSecondScenario() returns (head: ChainedRef, first: ChainedRef, second: ChainedRef, w: WeakRunnable)
    ensures second.next == null && second.prev == null
    ensures head.next == first && first.next == null && first.prev == head
    ensures w == second.wrapper
  {
    ghost var nodes;
    head, first, second, nodes := SetUp();
    w := second.Remove(nodes, 1);
    ghost var after := RemoveAt(nodes, 1);
    assert after == [head, first];
    assert LinkedAt(after, 0) && LinkedAt(after, 1);
  }

  /** Removing first's task from the head gives back first's own wrapper and unlinks first. */
  method RemoveFirstByRunnableScenario() returns (head: ChainedRef, first: ChainedRef, second: ChainedRef, w: WeakRunnable?)
    ensures w == first.wrapper
    ensures head.next == second && second.prev == head && second.next == null
  {
    ghost var nodes;
    head, first, second, nodes := SetUp();
    MatchAt(nodes, 0, first.runnable, 2);
    w := head.RemoveRunnable(first.runnable, nodes, 0);
    ghost var after := RemoveAt(nodes, 2);
    assert after == [head, second];
    assert LinkedAt(after, 0) && LinkedAt(after, 1);
  }

  /** Removing second's task from the head gives back second's own wrapper and unlinks second. */
  method RemoveSecondByRunnableScenario() returns (head: ChainedRef, first: ChainedRef, second: ChainedRef, w: WeakRunnable?)
    ensures w == second.wrapper
    ensures head.next == first && first.prev == head
  {
    ghost var nodes;
    head, first, second, nodes := SetUp();
    MatchAt(nodes, 0, second.runnable, 1);
    w := head.RemoveRunnable(second.runnable, nodes, 0);
    ghost var after := RemoveAt(nodes, 1);
    assert after == [head, first];
    assert LinkedAt(after, 0) && LinkedAt(after, 1);
  }

  /** Removing a task no node holds (a new object) gives null and leaves every link alone. */
  method RemoveUnexistentRunnableScenario() returns (head: ChainedRef, first: ChainedRef, second: ChainedRef, w: WeakRunnable?)
    ensures w == null
    ensures head.next == second && first.next == null && first.prev == second && second.prev == head
  {
    ghost var nodes;
    head, first, second, nodes := SetUp();
    var other := new Runnable();
    MatchFirst(nodes, 0, other);
    w := head.RemoveRunnable(other, nodes, 0);
    assert LinkedAt(nodes, 0) && LinkedAt(nodes, 1) && LinkedAt(nodes, 2);
  }
}
