# Pairing-heap priority queue

A Dafny model of the pairing heap in `PairingPQ.hpp`. The heap is a forest
written in leftmost-child, right-sibling form: every node has a value `elt`,
a `child` link to its leftmost child and a `sibling` link to the next child
of its parent. It also has a `pre` link with two meanings: for a leftmost
child it points to the parent, otherwise to the left sibling. The queue
itself keeps only a `root` pointer and a node count `numNodes`.

The model keeps the source's imperative form. `PairingHeap.PairingPQ` is a
class whose fields are the columns of a node arena:
- a node pointer is an index into `elt`, `child`, `sibling` and `pre`;
- `Null` (-1) stands for `nullptr`;
- `root` and `numNodes` are the source's two members.

Three ghost fields carry the proof:
- `parent`, the tree parent of each node;
- `ord`, a rank that drops along every `child` and `sibling` link, so that no
  link chain is cyclic;
- `live`, the set of nodes in use.

The class invariant `Valid()` says that `live` is one heap-ordered tree under
`root`, with consistent links, and that `numNodes == |live|`. `Contents()` is
the multiset of values of the live nodes.

The modules are:
- `PairingForest` (`forest.dfy`): the arena as a value (`Graph`), the link
  and heap-order invariants, reachability (`Below`), the children list of a
  node (`Kids`) and the multiset of values (`Values`).
- `PairingSteps` (`steps.dfy`): each pointer rewiring of the source as a pure
  function on `Graph`, with lemmas that the rewiring keeps the invariants.
  These are `MeldGraph` for `meld`, `Detach` for the loop in `pop`,
  `Raise`/`Cut` for `updateElt`, `Isolate` for the loop in `collectAllNode`
  and `Extend` for `new Node`.
- `PairingHeap` (`pairing_pq.dfy`): the class. Each method changes its fields
  as the source does. The rewiring methods (`Meld`, `NewNode`, `LinkNew`,
  `DetachChildren`, `CutNode`, `RelinkUpdated`, `UpdateElt`, `IsolateNode`
  and `CollectVisit`) are proved to leave exactly the `Graph` that the
  matching function of `PairingSteps` computes from the old state.
  `UnlinkSibling`, one round of the loop in `pop`, states its change as a
  direct update of the old `Graph`; `PairingSteps.DetachNext` ties that
  update to `Detach`.
  The other operations (`AddNode`, `Push`, `Pop`, `MeldChildren`, `MeldRoot`,
  `UpdatePriorities`, `CollectAllNode` and the copy methods) are proved to
  keep the invariant and to change the values exactly as the source does.

The comparison functor is fixed to the default `std::less` on `int`:
`Compare(a, b)` is `a < b`. A node whose value is greater is more extreme, so
the top is a maximum.

## Model

| member | source | states |
|---|---|---|
| PairingHeap.PairingPQ.constructor | PairingPQ.hpp:52-57 | A new queue is valid, empty, has a null root and a zero count. |
| PairingHeap.PairingPQ.EmptyValid | PairingPQ.hpp:55-56 | A null root with no nodes and a zero count satisfies the invariant and holds no value. |
| PairingHeap.PairingPQ.FromSeq | PairingPQ.hpp:63-72 | The range constructor yields a valid queue holding exactly the multiset of the range, with the range's length as its count. |
| PairingHeap.PairingPQ.PushAll | PairingPQ.hpp:69-71 | Pushing a sequence keeps the invariant, adds the sequence's multiset to the contents and its length to the count. |
| PairingHeap.PairingPQ.PushNext | PairingPQ.hpp:70 | One round of the range loop turns "contents = start + first i values" into "start + first i+1 values" and counts one more. |
| PairingHeap.PairingPQ.Copy | PairingPQ.hpp:77-85 | The copy is valid, holds the same multiset of values and the same count as the original. |
| PairingHeap.PairingPQ.CopyAll | PairingPQ.hpp:82-84 | Copying from the original's root into an empty queue yields the original's contents and count. |
| PairingHeap.PairingPQ.AllBelowRoot | PairingPQ.hpp:297-303 | Every live node is reachable from the root through `child` and `sibling` links, so the recursive copy visits them all. |
| PairingHeap.PairingPQ.CopyFrom | PairingPQ.hpp:297-303 | `copyPairingPQ(n)` keeps the invariant and adds exactly the values reachable from `n` through `child` and `sibling`; a null node adds nothing. |
| PairingForest.CopyStep | PairingPQ.hpp:298-302 | The values reachable from a node are its own value plus those reachable from its child and from its sibling; both links are in the tree and have a lower rank, so the recursion terminates. |
| PairingForest.BelowValues | PairingPQ.hpp:300-302 | The values below a node split as its own, those below its child and those below its sibling. |
| PairingForest.BelowSplit | PairingPQ.hpp:300-302 | A node is below neither its child nor its sibling, and the parts below child and sibling are disjoint: no value is copied twice. |
| PairingForest.BelowRoot | PairingPQ.hpp:297-303 | In a single tree, every node is reachable from the root. |
| PairingHeap.PairingPQ.Assign | PairingPQ.hpp:90-104 | After assignment the queue is valid and holds the right-hand side's old contents and count; on self-assignment that means it keeps its own. |
| PairingHeap.PairingPQ.TakeNodes | PairingPQ.hpp:96-100 | The swap with the temporary copy leaves this queue valid, with the copy's values and live nodes, hence its contents, and its count. |
| PairingHeap.PairingPQ.Meld | PairingPQ.hpp:268-295 | `meld(a, b)` with a null argument returns the other and changes nothing. Otherwise it leaves exactly the arena `MeldGraph` describes and returns the winner. Values, root, count and live set are unchanged. |
| PairingSteps.Winner | PairingPQ.hpp:268-295 | The melded root is one of the arguments. A null argument yields the other. For two nodes, the winner's value is at least as extreme as both, and a tie goes to `a`. |
| PairingSteps.MeldShape | PairingPQ.hpp:272-294 | Melding two distinct roots hangs the loser as the winner's new leftmost child. The loser's `sibling` takes the winner's old first child, whose `pre` becomes the loser. The loser's `pre` is the winner. No other `child`, `sibling` or `pre` link and no value changes. |
| PairingSteps.MeldWellFormed | PairingPQ.hpp:268-295 | Melding the first two trees of a heap-ordered forest gives a heap-ordered forest whose roots are the rest plus the winner. |
| PairingHeap.PairingPQ.NewNode | PairingPQ.hpp:249 | `new Node(val)` appends one slot holding `val` with null links and makes it live. |
| PairingHeap.PairingPQ.AddNode | PairingPQ.hpp:247-253 | `addNode` returns a fresh node holding `val`, now live. It keeps the invariant, adds one to the count and adds `val` to the contents. No other value changes, and the root is not null. |
| PairingHeap.PairingPQ.LinkNew | PairingPQ.hpp:249-252 | The allocation, meld and count leave the arena `MeldGraph(Extend(old, val), root, new)` with the winner as root and one more node counted. |
| PairingHeap.PairingPQ.Linked | PairingPQ.hpp:249-252 | That state is a valid heap whose contents are the old contents plus `val`, and the new node was not live before. |
| PairingSteps.AddNodeSound | PairingPQ.hpp:247-253 | Adding a node and melding it with the root of a well-formed heap gives a well-formed single tree with a non-null root. |
| PairingForest.ValuesAppend | PairingPQ.hpp:249-251 | A new slot holding `v` adds exactly `v` to the multiset of values. |
| PairingHeap.PairingPQ.Push | PairingPQ.hpp:138 | `push` keeps the invariant, adds one to the count and adds the value to the contents. Like `addNode`, it appends one live node holding the value, so every existing node stays live with its value. |
| PairingHeap.PairingPQ.MeldRoot | PairingPQ.hpp:361-367 | Pairwise melding of a non-empty work list of trees, front to back with each winner appended, ends with one well-formed tree over the same nodes and values. |
| PairingSteps.MeldFront | PairingPQ.hpp:362-366 | One round of `meldRoot` turns a forest of at least two trees into a forest with one tree fewer: the rest of the list plus the winner. |
| PairingHeap.PairingPQ.Pop | PairingPQ.hpp:148-174 | `pop` on a non-empty queue keeps the invariant and retires the root: one fewer node and count. The contents lose one copy of the old top value; no value changes. The queue becomes empty exactly when the root had no child. |
| PairingSteps.LoneRoot | PairingPQ.hpp:155-156 | A root without a child is the only node, so clearing the root leaves an empty, valid heap. |
| PairingForest.ValuesRemove | PairingPQ.hpp:170-173 | Retiring a live node removes exactly its value from the multiset. |
| PairingHeap.PairingPQ.MeldChildren | PairingPQ.hpp:157-171 | With a root that has children: unlinking them, retiring the root and melding them gives one well-formed tree over the other nodes, with unchanged values. |
| PairingHeap.PairingPQ.DetachChildren | PairingPQ.hpp:159-166 | The loop queues the root's children in sibling order, exactly the list `Kids`. It clears each one's `sibling` and `pre` and changes nothing else. |
| PairingHeap.PairingPQ.UnlinkSibling | PairingPQ.hpp:161-163 | One loop round clears exactly one child's `sibling` and `pre`. |
| PairingSteps.DetachNext | PairingPQ.hpp:160-165 | Each round takes the next child of the sibling chain. The chain still to visit shrinks, and the arena after the round is `Detach` of one more child. |
| PairingSteps.DetachWellFormed | PairingPQ.hpp:158-166 | Detaching every child of the root and dropping the root leaves a heap-ordered forest whose roots are those children. |
| PairingForest.KidsExact | PairingPQ.hpp:159-166 | The children list walked by `pop` holds exactly the nodes whose parent is the root. |
| PairingHeap.PairingPQ.UpdateElt | PairingPQ.hpp:216-237 | `updateElt` on a live node with a value at least as extreme keeps the invariant, the live set and the count. It replaces one copy of the old value by the new one and stores the new value at that node only. A non-root node has a `pre`. The new arena is `UpdateGraph`. |
| PairingHeap.PairingPQ.RelinkUpdated | PairingPQ.hpp:218-236 | Storing the value and, off the root, cutting the node and melding it with the root leaves exactly `UpdateGraph` and `UpdateRoot`. |
| PairingHeap.PairingPQ.UpdateEltReady | PairingPQ.hpp:212-237 | Under the precondition of `updateElt` the heap is non-empty, a non-root node has a `pre`, and the update yields a well-formed tree. The contents change by swapping one value. |
| PairingHeap.PairingPQ.CutNode | PairingPQ.hpp:221-234 | The splice redirects the right sibling's `pre` and the `child` of the parent (leftmost child) or the `sibling` of the left sibling. It leaves the node with null `sibling` and `pre`; this is exactly `Cut`. |
| PairingSteps.UpdateEltSound | PairingPQ.hpp:216-237 | Raising a node's value and, if it is not the root, cutting it out and melding it with the root keeps a well-formed single tree. |
| PairingSteps.RaiseRoot | PairingPQ.hpp:218-219 | Raising the root's value keeps heap order. |
| PairingSteps.CutWellFormed | PairingPQ.hpp:221-234 | Cutting a raised non-root node out of its sibling list leaves a heap-ordered forest of two trees: the old root and the node. |
| PairingSteps.UpdateBelowRoot | PairingPQ.hpp:221-236 | The cut node melded with the root gives a well-formed single tree. |
| PairingForest.ValuesUpdate | PairingPQ.hpp:218 | Overwriting a live node's value swaps exactly one copy of the old value for the new one. |
| PairingHeap.PairingPQ.UpdatePriorities | PairingPQ.hpp:126-130 | Starting from a single tree whose values may be out of order, `updatePriorities` restores heap order. It keeps every node, its value, the count and the contents. An empty queue is left as is. |
| PairingHeap.PairingPQ.CollectAllNode | PairingPQ.hpp:334-359 | Visiting every node with the explicit stack, clearing its links and melding it into a new tree gives a valid heap over the same nodes and values. |
| PairingHeap.PairingPQ.CollectVisit | PairingPQ.hpp:341-356 | One round pops the top of the stack, then pushes its child and then its sibling when non-null. It isolates the node and melds it into the tree being built. |
| PairingHeap.PairingPQ.IsolateNode | PairingPQ.hpp:352-354 | Clearing a node's `sibling`, `pre` and `child` leaves exactly `Isolate`. |
| PairingSteps.CollectStart | PairingPQ.hpp:335-337 | Before the loop the stack holds only the root, nothing is visited and the new tree is empty. |
| PairingSteps.CollectStep | PairingPQ.hpp:339-357 | Each round visits a node not visited before whose links are still the original ones. Visited nodes form a heap-ordered tree, and unvisited ones are exactly those reachable from the stack. |
| PairingSteps.CollectDone | PairingPQ.hpp:339-358 | When the stack is empty every node has been visited and they form one well-formed tree. |
| PairingHeap.PairingPQ.Top | PairingPQ.hpp:183-190 | `top` underflows exactly when the queue is empty. Otherwise it returns a value in the queue that no value in the queue exceeds. |
| PairingHeap.PairingPQ.TopMax | PairingPQ.hpp:189 | The root is live, and no value in the queue is more extreme than the root's. |
| PairingForest.RootDominates | PairingPQ.hpp:183-190 | In a heap-ordered tree, no node is more extreme than the root. |
| PairingHeap.PairingPQ.Size | PairingPQ.hpp:195-198 | `size` is the number of values in the queue. |
| PairingHeap.PairingPQ.CountIsSize | PairingPQ.hpp:197 | The kept count equals the number of values held. |
| PairingForest.ValuesCount | PairingPQ.hpp:197 | The multiset of values of a set of nodes has as many elements as the set has nodes. |
| PairingHeap.PairingPQ.Empty | PairingPQ.hpp:202-205 | `empty` holds exactly when the queue holds no value, and exactly when the count is zero. |
| PairingHeap.PairingPQ.EmptyIffNoRoot | PairingPQ.hpp:202-205 | The root is null exactly when no node is live. |
| PairingHeap.PairingPQ.RootIn | PairingPQ.hpp:261 | A non-null root is a live node with no parent. |
| PairingForest.SingleRoot | PairingPQ.hpp:261 | In a single tree the root has no parent and is the only parentless node. |

## Left out

- Deallocation: `delete oldRoot` in `pop`, `deletePairingPQ` and the destructor are not modelled. A popped node keeps its arena slot but leaves `live`, and no method reads it again.
- The move constructor and move assignment are defaulted member-wise moves with no code of their own.
- The comparison functor is fixed to `std::less<int>`. The generic element type, the generic functor, and the swap of `compare` in the copy assignment are not modelled.
- `top` on an empty queue throws `std::underflow_error`. The model returns `Underflow` instead.
- PairingHeap.PairingPQ.Pop: requires a non-empty queue. The source's emptiness check is commented out, and popping an empty queue dereferences a null root.
- PairingHeap.PairingPQ.UpdateElt: requires a live node of this queue and a value at least as extreme as the old one. The source does not check this, and a violation breaks heap order silently.
- PairingHeap.PairingPQ.UpdatePriorities: requires the links to form one correct tree, with values in any order. How values come to be out of order (mutation behind the queue's back) is outside the model. The contract does not state the shape of the rebuilt tree.
- PairingHeap.PairingPQ.MeldRoot: states that the result is one well-formed tree over the same nodes. It does not state which node ends up at the root.
- Amortized running time is not modelled.
- `numNodes` is a `std::size_t` and is modelled as an unbounded `nat`; wrap-around is not modelled.
- Allocation failure of `new Node` is not modelled.
- Node handles (`Node *`) are arena indices with no owner, so the model cannot tell a handle of another queue from an index that is live in this one. `UpdateElt` requires only that the index be live in this queue; misuse across queues is not modelled.
- `Eecs281PQ.hpp`, the abstract base class, is not part of this model.
