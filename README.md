# WeakHandler's chained references, in Dafny

WeakHandler is a wrapper around `android.os.Handler`. It hands the message loop a `WeakRunnable`
for each posted task instead of the task itself. The wrapper refers weakly to the task, so a
pending message does not keep the task's owner alive. Someone still has to hold the task strongly
while it is pending. That is the handler's chain of `ChainedRef` nodes:

- one node per pending task, hanging off a task-less sentinel head (`mRunnables`);
- each node made with its own wrapper, fixed when the node is built;
- each node doubly linked through `prev` and `next`.

How the operations work:

- **Posting** wraps the task in a new node, puts the node directly after the head, and posts the
  node's wrapper to the underlying handler.
- **`removeCallbacks(r)`** searches the nodes after the head for the first one holding `r`
  itself. The match is by identity. It unlinks that node and removes its wrapper from the
  underlying handler.
- **Firing** happens when the loop runs a wrapper. The wrapper first unlinks its node, if it can
  still reach it, and then runs the task, if it is still there.

The model is imperative, as the code is. The files are:

- `chain.dfy`: `ChainedRef` and `WeakRunnable` are classes.
  - `ChainedRef` keeps `next`, `prev`, its task `runnable` and its `wrapper`. The shared lock
    the constructor takes is dropped (see "## Left out").
  - `WeakRunnable`'s two weak references become a constant `delegate` (the task) and a
    variable `reference` (the node). Whether their referents are still alive is a parameter of
    `Run`.
  - `InsertAbove`, `Remove` and `RemoveRunnable` update `prev` and `next` in place.
  - `RemoveRunnable` walks `next` in a loop.
  - A chain is described by a ghost sequence of its nodes. `Linked(nodes)` says that the links
    of exactly those nodes spell out that sequence, in both directions, with no node twice.
- `handler.dfy`: the facade `WeakHandler`.
  - It owns the head, a ghost `nodes` for its chain and an `ExecHandler`.
  - The `ExecHandler` is the underlying handler. It is reduced to its message queue, a sequence
    of wrappers.
  - `Valid()` ties the two together. The chain starts at the task-less head. Every later node
    carries its task, with its wrapper made for that task. The queue holds exactly those
    wrappers, oldest first, each referring back to its node.
  - `Pending()` is the list of tasks the chain holds, newest first.
- `sequences.dfy`: the sequence functions the contracts use (`InsertAt`, `RemoveAt`,
  `RemoveFirst`, `Without`, `Reversed`, `IndexOf`) and their lemmas.
- `chained_ref_tests.dfy`, `weak_handler_tests.dfy`: the repository's two test classes, as
  methods. Each one's `ensures` states what the test asserts, so the verifier proves that the
  assertions hold.

The code of `WeakHandler.java` is not part of this model: only its two test classes are.
Where the tests leave behaviour open, the model makes these assumptions about `WeakHandler.java`:

- `remove(Runnable)` on the head searches from `head.next`, so the head itself is never matched.
- `remove()` on a node that is already detached changes nothing.
- The facade's head carries no task (it is built with a null task).

## Model

| member | source | states |
|---|---|---|
| Chain.ChainedRef.constructor | src/androidTest/java/com/badoo/mobile/util/WeakHandlerChainedRefTest.java:45-69 | a new node starts detached and holds its task, together with a new wrapper for that task that refers back to the node; `wrapper` is a constant, so it is the one object some later operation returns |
| Chain.ChainedRef.InsertAbove | src/androidTest/java/com/badoo/mobile/util/WeakHandlerChainedRefTest.java:64-65 | the candidate ends up directly after the receiver; after it, the whole chain, both links of every node included, is exactly the old chain with the candidate put in at the next position |
| Chain.ChainedRef.Remove | src/androidTest/java/com/badoo/mobile/util/WeakHandlerChainedRefTest.java:84-104 | the node's own links are cleared, its neighbours are joined to each other (the chain is the old one without this node, fully linked), and the result is the node's own wrapper; a detached node leaves the chain unchanged |
| Chain.ChainedRef.RemoveRunnable | src/androidTest/java/com/badoo/mobile/util/WeakHandlerChainedRefTest.java:106-128 | the first node after the receiver that holds `obj` itself (`Match`) is unlinked and cleared, and its own wrapper is returned; when no such node exists the result is null and every link is unchanged |
| Chain.MatchFirst | src/androidTest/java/com/badoo/mobile/util/WeakHandlerChainedRefTest.java:106-128 | `Match` is -1 exactly when no node after the receiver holds the object; otherwise it gives a node holding it with no node holding it in between |
| Chain.MatchAt | src/androidTest/java/com/badoo/mobile/util/WeakHandlerChainedRefTest.java:106-119 | the first node after the receiver that holds the object is the one `Match` finds |
| Chain.WeakRunnable.Run | src/androidTest/java/com/badoo/mobile/util/WeakHandlerTest.java:77-91 | if the node is still reachable it is unlinked first (the chain loses exactly that node, and the node is cleared); the task runs exactly when it is still reachable |
| Chain.WeakRunnable.constructor | src/androidTest/java/com/badoo/mobile/util/WeakHandlerChainedRefTest.java:44-69 | a new wrapper holds the task it is made for and no node yet; `ChainedRef`'s constructor then points it at its node |
| ChainedRefTests.SetUp | src/androidTest/java/com/badoo/mobile/util/WeakHandlerChainedRefTest.java:37-70 | three new nodes for three different tasks; after inserting first and then second after head, the chain is head, second, first and fully linked |
| ChainedRefTests.SetUpFirst | src/androidTest/java/com/badoo/mobile/util/WeakHandlerChainedRefTest.java:41-64 | the first insertion of the fixture: head and first, for two different tasks, linked as head, first |
| ChainedRefTests.InsertAboveScenario | src/androidTest/java/com/badoo/mobile/util/WeakHandlerChainedRefTest.java:72-81 | forwards from head: second, first, then null; backwards: head.prev is null, first.prev is second, second.prev is head |
| ChainedRefTests.RemoveFirstScenario | src/androidTest/java/com/badoo/mobile/util/WeakHandlerChainedRefTest.java:83-92 | after `first.remove()` first has no links, and second follows head and is the last node |
| ChainedRefTests.RemoveSecondScenario | src/androidTest/java/com/badoo/mobile/util/WeakHandlerChainedRefTest.java:94-104 | after `second.remove()` second has no links, and first follows head both ways and is the last node |
| ChainedRefTests.RemoveFirstByRunnableScenario | src/androidTest/java/com/badoo/mobile/util/WeakHandlerChainedRefTest.java:106-112 | `head.remove(firstRunnable)` returns first's own wrapper, and second follows head both ways and is the last node |
| ChainedRefTests.RemoveSecondByRunnableScenario | src/androidTest/java/com/badoo/mobile/util/WeakHandlerChainedRefTest.java:114-119 | `head.remove(secondRunnable)` returns second's own wrapper, and first follows head both ways |
| ChainedRefTests.RemoveUnexistentRunnableScenario | src/androidTest/java/com/badoo/mobile/util/WeakHandlerChainedRefTest.java:121-128 | removing a new task object that no node holds returns null, and all four links the test reads are as before |
| Handler.ExecHandler.constructor | src/androidTest/java/com/badoo/mobile/util/WeakHandlerTest.java:64-68 | stands in for the `android.os.Handler` a new `WeakHandler` posts to: its message queue starts empty |
| Handler.ExecHandler.Post | src/androidTest/java/com/badoo/mobile/util/WeakHandlerTest.java:82-88 | stands in for the underlying handler's `post`/`postDelayed`: the wrapper is queued behind everything already waiting, and nothing else in the queue changes |
| Handler.ExecHandler.RemoveCallbacks | src/androidTest/java/com/badoo/mobile/util/WeakHandlerTest.java:110-111 | stands in for the underlying handler's `removeCallbacks`: every queued copy of the wrapper, and only those, leaves the queue, in an order-keeping way |
| Handler.ExecHandler.Take | src/androidTest/java/com/badoo/mobile/util/WeakHandlerTest.java:164 | stands in for the loop taking a message to fire: the result is the wrapper at that queue position, and the queue loses exactly that position |
| Handler.WeakHandler.constructor | src/androidTest/java/com/badoo/mobile/util/WeakHandlerTest.java:64-68 | a new handler is valid: its chain is just the new task-less head, nothing is pending and nothing is queued |
| Handler.WeakHandler.WrapRunnable | src/androidTest/java/com/badoo/mobile/util/WeakHandlerTest.java:142-145 | a new node for `r` is placed directly after the head, so `r` becomes the newest pending task; the result is that node's new wrapper, made for `r` |
| Handler.WeakHandler.Attach | src/androidTest/java/com/badoo/mobile/util/WeakHandlerTest.java:142-145 | linking a new node in after the head keeps the handler consistent once its wrapper is queued, and the chain gains exactly that node at position 1 |
| Handler.WeakHandler.Post | src/androidTest/java/com/badoo/mobile/util/WeakHandlerTest.java:142-145 | the handler stays valid, `r` becomes the newest pending task, and exactly one new wrapper for `r` is queued behind the others |
| Handler.WeakHandler.PostDelayed | src/androidTest/java/com/badoo/mobile/util/WeakHandlerTest.java:82-88 | as `Post`: the delay only decides when the loop fires the wrapper |
| Handler.WeakHandler.Unlink | src/androidTest/java/com/badoo/mobile/util/WeakHandlerTest.java:110-111 | the result is null exactly when `r` is not pending; otherwise the first pending node holding `r` is unlinked and its own wrapper returned; the pending tasks lose exactly the first occurrence of `r` |
| Handler.WeakHandler.UnlinkedConsistent | src/androidTest/java/com/badoo/mobile/util/WeakHandlerTest.java:110-113 | once a pending node is unlinked, the handler is consistent with that node's wrapper gone from the queue |
| Handler.WeakHandler.RemoveCallbacks | src/androidTest/java/com/badoo/mobile/util/WeakHandlerTest.java:110-113 | the handler stays valid and the pending tasks lose exactly the first occurrence of `r`; the queue then loses that node's wrapper and nothing else, and when `r` is not pending nothing changes |
| Handler.WeakHandler.Dispatch | src/androidTest/java/com/badoo/mobile/util/WeakHandlerTest.java:164-183 | firing a queued wrapper takes it out of the queue, runs exactly the task it was made for, and removes that task's node from the chain; the handler stays valid and the pending tasks lose exactly one copy of that task |
| Handler.PostShape | src/androidTest/java/com/badoo/mobile/util/WeakHandlerTest.java:142-145 | putting a node for a task in after the head keeps the shape of the state with its wrapper queued last, and makes its task the first pending one |
| Handler.RemoveShape | src/androidTest/java/com/badoo/mobile/util/WeakHandlerTest.java:146-150 | the wrapper of the pending node at position `m` is queued exactly once, at position `|nodes| - 1 - m`; dropping it from the queue and the node from the chain keeps the shape |
| Handler.MatchPending | src/androidTest/java/com/badoo/mobile/util/WeakHandlerTest.java:146-150 | the search from the head finds nothing exactly when the task is not pending; otherwise it finds the node of its first pending occurrence, and unlinking that node takes exactly that occurrence out of the pending tasks |
| Handler.RemovePendingMultiset | src/androidTest/java/com/badoo/mobile/util/WeakHandlerTest.java:181-187 | unlinking a node takes exactly one copy of its task out of the pending tasks |
| Sequences.RemoveFirstAt | src/androidTest/java/com/badoo/mobile/util/WeakHandlerTest.java:110-111 | removing the first occurrence changes nothing when the element is absent, and otherwise takes out exactly the position `IndexOf` finds |
| Sequences.RemoveFirstMultiset | src/androidTest/java/com/badoo/mobile/util/WeakHandlerTest.java:146-150 | removing the first occurrence takes out exactly one copy when the element is there, and none otherwise |
| Sequences.WithoutMembers | src/androidTest/java/com/badoo/mobile/util/WeakHandlerTest.java:110-113 | what is left after dropping a wrapper from the queue is exactly the other queued wrappers; the dropped one can no longer be fired |
| Sequences.WithoutAt | src/androidTest/java/com/badoo/mobile/util/WeakHandlerTest.java:110-113 | in a queue without repetitions, dropping every copy of a wrapper is dropping its one position |
| WeakHandlerTests.WalkChain | src/androidTest/java/com/badoo/mobile/util/WeakHandlerTest.java:181-187 | following `next` from `mRunnables.next` to null collects exactly the pending tasks, in chain order (newest first), and never the head's |
| WeakHandlerTests.PostDelayedScenario | src/androidTest/java/com/badoo/mobile/util/WeakHandlerTest.java:77-91 | a task posted with a delay runs when the loop fires its wrapper, and afterwards nothing is pending or queued |
| WeakHandlerTests.RemoveCallbacksScenario | src/androidTest/java/com/badoo/mobile/util/WeakHandlerTest.java:97-113 | after posting and then removing a task, nothing is pending and nothing is queued, so no wrapper is left whose firing could run it |
| WeakHandlerTests.RemoveEachScenario | src/androidTest/java/com/badoo/mobile/util/WeakHandlerTest.java:141-150 | `count` new tasks are posted and then each one is removed, in posting order; at the end the handler is valid with nothing pending and nothing queued (that each removal finds its task and drops the last node is the contract of `RemoveOldestCallback`) |
| WeakHandlerTests.PostEach | src/androidTest/java/com/badoo/mobile/util/WeakHandlerTest.java:141-145 | posting `count` new tasks to a new handler leaves them all pending, newest first, and different from each other |
| WeakHandlerTests.RemoveEach | src/androidTest/java/com/badoo/mobile/util/WeakHandlerTest.java:147-150 | removing the distinct pending tasks in posting order leaves nothing pending and nothing queued |
| WeakHandlerTests.RemoveOldestCallback | src/androidTest/java/com/badoo/mobile/util/WeakHandlerTest.java:147-148 | removing the oldest pending task unlinks the last node of the chain, and the tasks posted after it stay pending |
| WeakHandlerTests.RemoveOldest | src/androidTest/java/com/badoo/mobile/util/WeakHandlerTest.java:147-148 | the oldest pending task stands last in pending order, and removing its first occurrence leaves the tasks posted after it |
| WeakHandlerTests.FireFirst | src/androidTest/java/com/badoo/mobile/util/WeakHandlerTest.java:164 | a task posted to a new handler and then fired runs, and leaves only the head in the chain and nothing queued |
| WeakHandlerTests.PostWhileRunningScenario | src/androidTest/java/com/badoo/mobile/util/WeakHandlerTest.java:158-188 | with one task fired and running, `count` more new tasks are posted; the walk from `mRunnables.next` then meets exactly those tasks, newest first, with the same multiset and no task twice, and never the running task |

## Left out

- The message loop is not modelled: no thread, no timing, no `getLooper().quit()`. What remains
  is its queue of wrappers, and the `Dispatch` step that fires the wrapper at a given position now.
- `PostDelayed`: the delay is accepted and then ignored. It only decides when the loop fires,
  and time is not modelled, so the 300 ms windows of the tests are left out.
- Concurrency is left out: the shared lock, the thread pool, latches, atomics, and the
  uncaught-exception handler. Every operation runs to completion before the next one starts. In
  the tests that post from several threads, the threads take their turns one after another.
- Garbage collection is left out. `WeakRunnable.Run` takes as parameters whether each weak
  reference still has its referent. `Dispatch` passes true for both, because a handler in use
  holds the node in its chain and the task in its node.
- Chain.WeakRunnable.Run: the wrapper's reference to its node is required to be set. The
  constructor of `ChainedRef` sets it, so every wrapper the handler queues satisfies this.
- Handler.WeakHandler.Valid: it says nothing about the head's own wrapper, which is never
  queued and never fired.
- Posting a null task is left out: it throws `NullPointerException`, and here the parameter's
  type excludes null. `removeCallbacks(null)` is modelled, and finds nothing, because no pending
  node holds null.
- The boolean result of the underlying handler's `post` is left out: the model's queue always
  accepts the wrapper.
- The rest of WeakHandler's interface is not part of this model. That covers messages, the other
  `post` variants and `removeCallbacksAndMessages`. No test exercises it.
- Node pooling, free lists and a cancel-all operation are left out. The repository's tests do not
  use them, and the `ChainedRef` the tests build has no pool.
- The `toString` overrides of the tests are left out.
- The `Lock` a `ChainedRef` is built with is left out, because every operation runs alone (see
  concurrency above), so there is nothing for it to guard.
