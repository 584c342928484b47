/**
 * The pairing-heap priority queue of PairingPQ.hpp as a class over a node
 * arena. A node pointer is an index into the arena's columns; `root` and
 * `numNodes` are the two members the source keeps. The ghost columns `parent`
 * and `ord` and the ghost set `live` of nodes in use carry the proof.
 */
module PairingHeap {
  import opened PairingForest
  import opened PairingSteps

  /** What `top` hands back: the most extreme value, or the underflow the
      source throws on an empty heap. */
  datatype TopResult = Underflow | Value(value: int)

  /** Pushing the next element of `xs` onto what a prefix of `xs` added to
      `m` gives what the next prefix adds. */
  lemma PrefixStep(m: multiset<int>, xs: seq<int>, i: int)
    requires 0 <= i < |xs|
    ensures m + multiset(xs[..i]) + multiset{xs[i]} == m + multiset(xs[..i + 1])
  {
    assert xs[..i + 1] == xs[..i] + [xs[i]];
  }

  /** The whole of `xs` is its longest prefix. */
  lemma PrefixFull(xs: seq<int>)
    ensures multiset(xs[..|xs|]) == multiset(xs)
  {
    assert xs[..|xs|] == xs;
  }

  /** The values copied so far, then a node's own value, then those below
      its child and below its sibling, make up the values so far plus all of
      those below the node. */
  lemma Regroup(m: multiset<int>, e: multiset<int>, c: multiset<int>, s: multiset<int>)
    ensures m + e + c + s == m + (e + c + s)
  {
  }

  class PairingPQ {
    var elt: seq<int>
    var child: seq<int>
    var sibling: seq<int>
    var pre: seq<int>
    var root: int
    var numNodes: nat
    ghost var parent: seq<int>
    ghost var ord: seq<nat>
    ghost var live: set<int>

    /** The arena as one value. */
    ghost function G(): Graph
      reads this
    {
      Graph(elt, child, sibling, pre, parent, ord)
    }

    /** The trees the heap holds: none, or the one under `root`. */
    ghost function Roots(): seq<int>
      reads this
    {
      if root == Null then [] else [root]
    }

    /** The links form a single tree under `root` (or nothing at all) and the
        count is right, but the values may be out of heap order. */
    ghost predicate Shaped()
      reads this
    {
      Forest(G(), live, Roots()) && numNodes == |live|
    }

    /** The class invariant: a shaped, heap-ordered pairing heap. */
    ghost predicate Valid()
      reads this
    {
      WellFormed(G(), live, Roots()) && numNodes == |live|
    }

    /** The multiset of values in the queue. */
    ghost function Contents(): multiset<int>
      reads this
    {
      Values(elt, live)
    }

    /** An empty heap. */
    constructor()
      ensures Valid() && Contents() == multiset{} && root == Null && numNodes == 0
      ensures elt == []
    {
      elt, child, sibling, pre := [], [], [], [];
      parent, ord := [], [];
      root := Null;
      numNodes := 0;
      live := {};
      new;
      ValuesEmpty(elt, 0);
    }

    /** The range constructor: an empty heap into which every value of `xs`
        is pushed, in order. */
    constructor FromSeq(xs: seq<int>)
      ensures Valid()
      ensures Contents() == multiset(xs) && numNodes == |xs|
    {
      elt, child, sibling, pre := [], [], [], [];
      parent, ord := [], [];
      root := Null;
      numNodes := 0;
      live := {};
      new;
      EmptyValid();
      PushAll(xs);
    }

    /** The loop of the range constructor: pushes the values of `xs` one by
        one. */
    method PushAll(xs: seq<int>)
      requires Valid()
      modifies this
      ensures Valid()
      ensures Contents() == old(Contents()) + multiset(xs) && numNodes == old(numNodes) + |xs|
    {
      ghost var m0, n0 := Contents(), numNodes;
      var i := 0;
      while i < |xs|
        invariant 0 <= i <= |xs| && Valid()
        invariant Contents() == m0 + multiset(xs[..i]) && numNodes == n0 + i
      {
        PushNext(m0, xs, i);
        i := i + 1;
      }
      PrefixFull(xs);
    }

    /** One round of the loop in the range constructor: pushes `xs[i]`. */
    method PushNext(ghost m0: multiset<int>, xs: seq<int>, i: int)
      requires Valid() && 0 <= i < |xs| && Contents() == m0 + multiset(xs[..i])
      modifies this
      ensures Valid() && Contents() == m0 + multiset(xs[..i + 1])
      ensures numNodes == old(numNodes) + 1
    {
      PrefixStep(m0, xs, i);
      Push(xs[i]);
    }

    /** The copy constructor: an empty heap into which `copyPairingPQ` pushes
        every value of `other`. The copy has its own arena; `other` is only
        read. */
    constructor Copy(other: PairingPQ)
      requires other.Valid()
      ensures Valid()
      ensures Contents() == other.Contents() && numNodes == other.numNodes
    {
      elt, child, sibling, pre := [], [], [], [];
      parent, ord := [], [];
      root := Null;
      numNodes := 0;
      live := {};
      new;
      EmptyValid();
      CopyAll(other);
    }

    /** The body of the copy constructor once the heap is empty:
        `copyPairingPQ(other.root)`. */
    method CopyAll(other: PairingPQ)
      requires Valid() && Contents() == multiset{} && other.Valid() && other != this
      modifies this
      ensures Valid()
      ensures Contents() == other.Contents() && numNodes == other.numNodes
    {
      other.AllBelowRoot();
      other.CountIsSize();
      CopyFrom(other, other.G(), other.live, other.root);
      CountIsSize();
    }

    /** A heap with no node is valid and holds nothing. */
    lemma EmptyValid()
      requires elt == [] && child == [] && sibling == [] && pre == [] && parent == [] && ord == []
      requires root == Null && numNodes == 0 && live == {}
      ensures Valid() && Contents() == multiset{}
    {
      ValuesEmpty(elt, 0);
    }

    /** The count kept by the heap is the number of values it holds. */
    lemma CountIsSize()
      requires Valid()
      ensures numNodes == |Contents()|
    {
      ValuesCount(elt, live);
    }

    /** Every node in use is reachable from the root through `child` and
        `sibling` links, which is what `copyPairingPQ` walks. */
    lemma AllBelowRoot()
      requires Valid()
      ensures Link(live, root) && Below(G(), live, root) == live
    {
      if root == Null {
        EmptyIffNoRoot();
      } else {
        assert Roots() == [root];
        BelowRoot(G(), live, root);
      }
    }

    /** `copyPairingPQ(otherNode)`: pushes the value of `otherNode`, then
        copies below its leftmost child and below its right sibling; a null
        node adds nothing. `og` and `oS` name the arena and the nodes of
        `other`, which the copy only reads. */
    method CopyFrom(other: PairingPQ, ghost og: Graph, ghost oS: set<int>, x: int)
      requires Valid() && other != this
      requires other.G() == og && other.live == oS && LinksOK(og, oS) && Link(oS, x)
      modifies this
      ensures Valid()
      ensures Contents() == old(Contents()) + Values(og.elt, Below(og, oS, x))
      decreases if x == Null then 0 else og.ord[x] + 1
    {
      if x == Null {
        ValuesEmpty(og.elt, |og.elt|);
        return;
      }
      ghost var vc, vs := Values(og.elt, Below(og, oS, og.child[x])), Values(og.elt, Below(og, oS, og.sibling[x]));
      CopyStep(og, oS, x);
      Push(other.elt[x]);
      ghost var m1 := Contents();
      if other.child[x] != Null {
        CopyFrom(other, og, oS, other.child[x]);
      }
      assert Contents() == m1 + vc;
      if other.sibling[x] != Null {
        CopyFrom(other, og, oS, other.sibling[x]);
      }
      assert Contents() == m1 + vc + vs;
      Regroup(old(Contents()), multiset{og.elt[x]}, vc, vs);
    }

    /** The copy assignment: unless `rhs` is this very heap, builds a copy of
        `rhs` and takes over its nodes and count. */
    method Assign(rhs: PairingPQ)
      requires Valid() && rhs.Valid()
      modifies this
      ensures Valid()
      ensures Contents() == old(rhs.Contents()) && numNodes == old(rhs.numNodes)
    {
      if this != rhs {
        var temp := new PairingPQ.Copy(rhs);
        TakeNodes(temp);
      }
    }

    /** The swap in the copy assignment, on this side: this heap takes over
        the nodes, the root and the count of `temp`. */
    method TakeNodes(temp: PairingPQ)
      requires temp.Valid() && temp != this
      modifies this
      ensures Valid()
      ensures elt == temp.elt && live == temp.live
      ensures Contents() == temp.Contents() && numNodes == temp.numNodes
    {
      elt, child, sibling, pre := temp.elt, temp.child, temp.sibling, temp.pre;
      parent, ord, live := temp.parent, temp.ord, temp.live;
      root := temp.root;
      numNodes := temp.numNodes;
      assert G() == temp.G() && Roots() == temp.Roots();
    }

    /** `meld(a, b)`: hangs the less extreme of two tree roots below the other
        and returns the one that stays a root; a null argument gives back the
        other argument and changes nothing. */
    method Meld(a: int, b: int) returns (r: int)
      requires Sized(G()) && Null <= a < |elt| && Null <= b < |elt|
      modifies this
      ensures G() == MeldGraph(old(G()), a, b)
      ensures r == Winner(old(G()), a, b)
      ensures a == Null ==> r == b && G() == old(G())
      ensures b == Null ==> r == a && G() == old(G())
      ensures elt == old(elt)
      ensures root == old(root) && numNodes == old(numNodes) && live == old(live)
    {
      if a == Null {
        return b;
      }
      if b == Null {
        return a;
      }
      // The source spells out the two outcomes of the comparison as two
      // mirror-image branches; `w` is the node that stays a root, `l` the one
      // hung below it as its new leftmost child.
      var w, l := if Compare(elt[a], elt[b]) then b else a, if Compare(elt[a], elt[b]) then a else b;
      ghost var k := ord[a] + ord[b] + 1;
      sibling := sibling[l := child[w]];
      child := child[w := l];
      pre := pre[l := w];
      if sibling[l] != Null {
        pre := pre[sibling[l] := l];
      }
      parent := parent[l := w];
      ord := ord[l := k][w := k + 1];
      return w;
    }

    /** `new Node(val)`: one more arena slot, holding `val`, with null links. */
    method NewNode(v: int) returns (node: int)
      modifies this
      ensures node == old(|elt|)
      ensures G() == Extend(old(G()), v) && live == old(live) + {node}
      ensures root == old(root) && numNodes == old(numNodes)
    {
      node := |elt|;
      elt := elt + [v];
      child := child + [Null];
      sibling := sibling + [Null];
      pre := pre + [Null];
      parent := parent + [Null];
      ord := ord + [0];
      live := live + {node};
    }

    /** `addNode(val)`: allocates a node holding `val`, melds it with the
        root, counts it, and hands back its id, which stays valid until the
        node is popped. */
    method AddNode(v: int) returns (node: int)
      requires Valid()
      modifies this
      ensures Valid()
      ensures node == old(|elt|) && node !in old(live) && node in live
      ensures elt == old(elt) + [v] && elt[node] == v
      ensures live == old(live) + {node}
      ensures numNodes == old(numNodes) + 1
      ensures Contents() == old(Contents()) + multiset{v}
      ensures root != Null
    {
      ghost var g0, r0, S0 := G(), root, live;
      RootIn();
      node := LinkNew(v);
      Linked(g0, S0, r0, v, node);
    }

    /** The state `LinkNew` leaves behind a valid heap holding one value more. */
    lemma Linked(g0: Graph, S0: set<int>, r0: int, v: int, node: int)
      requires WellFormed(g0, S0, if r0 == Null then [] else [r0])
      requires |S0| + 1 == numNodes && node == |g0.elt| && live == S0 + {node}
      requires Sized(Extend(g0, v)) && Null <= r0 < node
      requires G() == MeldGraph(Extend(g0, v), r0, node)
      requires root == Winner(Extend(g0, v), r0, node)
      ensures Valid() && root != Null && node !in S0
      ensures Contents() == Values(g0.elt, S0) + multiset{v}
    {
      AddNodeSound(g0, S0, r0, v);
      ValuesAppend(g0.elt, S0, v);
      assert Roots() == [root];
    }

    /** The body of `addNode` on the links alone: a new node, melded with the
        root, and counted. */
    method LinkNew(v: int) returns (node: int)
      requires Sized(G()) && Null <= root < |elt|
      modifies this
      ensures node == old(|elt|) && live == old(live) + {node} && elt == old(elt) + [v]
      ensures Sized(Extend(old(G()), v))
      ensures G() == MeldGraph(Extend(old(G()), v), old(root), node)
      ensures root == Winner(Extend(old(G()), v), old(root), node)
      ensures numNodes == old(numNodes) + 1
    {
      node := NewNode(v);
      root := Meld(root, node);
      numNodes := numNodes + 1;
    }

    /** `push(val)`: `addNode` without the handle. */
    method Push(v: int)
      requires Valid()
      modifies this
      ensures Valid()
      ensures elt == old(elt) + [v] && live == old(live) + {old(|elt|)}
      ensures numNodes == old(numNodes) + 1
      ensures Contents() == old(Contents()) + multiset{v}
    {
      var _ := AddNode(v);
    }

    /** `meldRoot(queue)`: melds the trees of a work list pairwise, front to
        back, appending each winner, until one tree holds them all. */
    method MeldRoot(queue: seq<int>) returns (q: seq<int>)
      requires WellFormed(G(), live, queue) && |queue| >= 1
      modifies this
      ensures |q| == 1 && WellFormed(G(), live, q)
      ensures elt == old(elt) && live == old(live)
      ensures root == old(root) && numNodes == old(numNodes)
    {
      q := queue;
      while |q| > 1
        invariant 1 <= |q| && WellFormed(G(), live, q)
        invariant elt == old(elt) && live == old(live)
        invariant root == old(root) && numNodes == old(numNodes)
        decreases |q|
      {
        MeldFront(G(), live, q);
        var first := q[0];
        var second := q[1];
        q := q[2..];
        var m := Meld(first, second);
        q := q + [m];
      }
    }

    /** `pop()`: removes the root. Its children are unlinked into a work
        list, which `meldRoot` melds back into a single tree; a childless root
        leaves the heap empty. */
    method Pop()
      requires Valid() && root != Null
      modifies this
      ensures Valid()
      ensures elt == old(elt)
      ensures live == old(live) - {old(root)}
      ensures numNodes == old(numNodes) - 1
      ensures Contents() == old(Contents()) - multiset{old(elt[root])}
      ensures root == Null <==> old(child[root]) == Null
    {
      RootIn();
      ghost var g0, S0 := G(), live;
      assert WellFormed(g0, S0, [root]);
      ValuesRemove(elt, S0, root);
      var oldRoot := root;
      if child[root] == Null {
        LoneRoot(g0, S0, oldRoot);
        root := Null;
        live := S0 - {oldRoot};
      } else {
        root := MeldChildren(oldRoot);
        assert Roots() == [root];
      }
      numNodes := numNodes - 1;
    }

    /** The branch of `pop` for a root with children: unlinks them, retires
        the root and melds the children back into one tree, whose root it
        returns. */
    method MeldChildren(r: int) returns (w: int)
      requires WellFormed(G(), live, [r]) && r in live && child[r] != Null
      modifies this
      ensures w != Null && WellFormed(G(), live, [w])
      ensures elt == old(elt) && live == old(live) - {r}
      ensures root == old(root) && numNodes == old(numNodes)
    {
      ghost var g0, S0 := G(), live;
      ghost var ks := Kids(g0, S0, r);
      assert ks != [] by {
        assert ks == Chain(g0, S0, g0.child[r]);
      }
      DetachWellFormed(g0, S0, r);
      var candidates := DetachChildren(r);
      live := S0 - {r};
      assert WellFormed(G(), live, candidates);
      candidates := MeldRoot(candidates);
      w := candidates[0];
      assert candidates == [w];
    }

    /** The first half of `pop`: walks the sibling list of the root's
        children, clearing each one's `sibling` and `pre` and queueing it. */
    method DetachChildren(r: int) returns (candidates: seq<int>)
      requires LinksOK(G(), live) && r in live
      modifies this
      ensures candidates == Kids(old(G()), old(live), r)
      ensures G() == Detach(old(G()), Elements(candidates))
      ensures live == old(live) && root == old(root) && numNodes == old(numNodes)
    {
      ghost var g0, S0 := G(), live;
      ghost var ks := Kids(g0, S0, r);
      var c := child[r];
      candidates := [];
      while c != Null
        invariant Link(S0, c) && candidates + Chain(g0, S0, c) == ks
        invariant G() == Detach(g0, Elements(candidates))
        invariant live == S0 && root == old(root) && numNodes == old(numNodes)
        decreases |Chain(g0, S0, c)|
      {
        DetachNext(g0, S0, r, candidates, c);
        var s := sibling[c];
        UnlinkSibling(c);
        candidates := candidates + [c];
        c := s;
      }
    }

    /** One round of the loop in `pop`: clears a child's `sibling` and `pre`
        (and its ghost `parent`), leaving it a tree root of its own. */
    method UnlinkSibling(c: int)
      requires 0 <= c < |sibling| && c < |pre| && c < |parent|
      modifies this
      ensures G() == old(G()).(sibling := old(sibling)[c := Null], pre := old(pre)[c := Null],
                               parent := old(parent)[c := Null])
      ensures live == old(live) && root == old(root) && numNodes == old(numNodes)
    {
      sibling := sibling[c := Null];
      pre := pre[c := Null];
      parent := parent[c := Null];
    }

    /** `updateElt(node, new_value)`: gives a node in use a value at least as
        extreme as its old one. A non-root node is cut out of its sibling list,
        taking its subtree along, and melded with the root. */
    method UpdateElt(node: int, v: int)
      requires Valid() && node in live && !Compare(v, elt[node])
      modifies this
      ensures Valid()
      ensures elt == old(elt)[node := v]
      ensures live == old(live) && numNodes == old(numNodes)
      ensures Contents() == old(Contents()) - multiset{old(elt[node])} + multiset{v}
      ensures 0 <= old(root) < |elt| && (node != old(root) ==> old(pre[node]) != Null)
      ensures G() == UpdateGraph(old(G()), old(root), node, v)
      ensures root == UpdateRoot(old(G()), old(root), node, v)
    {
      ghost var g0, r0 := G(), root;
      UpdateEltReady(node, v);
      RelinkUpdated(node, v);
      assert Roots() == [UpdateRoot(g0, r0, node, v)];
    }

    /** The body of `updateElt` on the links alone: stores the value and, off
        the root, cuts the node out and melds it with the root. */
    method RelinkUpdated(node: int, v: int)
      requires Sized(G()) && 0 <= root < |elt| && 0 <= node < |elt|
      requires node != root ==> pre[node] != Null && Sized(Cut(Raise(G(), node, v), node))
      modifies this
      ensures G() == UpdateGraph(old(G()), old(root), node, v)
      ensures root == UpdateRoot(old(G()), old(root), node, v)
      ensures live == old(live) && numNodes == old(numNodes)
    {
      ghost var g0 := G();
      elt := elt[node := v];
      if node != root {
        assert G() == Raise(g0, node, v);
        CutNode(node);
        root := Meld(root, node);
      }
    }

    /** What `UpdateElt` relies on: the heap is not empty, the node has a
        `pre` unless it is the root, and the update keeps the invariant. */
    lemma UpdateEltReady(node: int, v: int)
      requires Valid() && node in live && !Compare(v, elt[node])
      ensures Sized(G()) && 0 <= root < |elt| && 0 <= node < |elt|
      ensures node != root ==> pre[node] != Null && Sized(Cut(Raise(G(), node, v), node))
      ensures WellFormed(UpdateGraph(G(), root, node, v), live, [UpdateRoot(G(), root, node, v)])
      ensures Values(elt[node := v], live) == Contents() - multiset{elt[node]} + multiset{v}
    {
      EmptyIffNoRoot();
      RootIn();
      assert Roots() == [root];
      UpdateEltSound(G(), live, root, node, v);
      ValuesUpdate(elt, live, node, v);
    }

    /** The splice in `updateElt`: unlinks a non-root node from its sibling
        list, together with its subtree, and leaves it a parentless root. */
    method CutNode(node: int)
      requires Sized(G()) && 0 <= node < |elt| && pre[node] != Null
      modifies this
      ensures G() == Cut(old(G()), node)
      ensures root == old(root) && numNodes == old(numNodes) && live == old(live)
    {
      var s := sibling[node];
      var p := pre[node];
      if s != Null {
        pre := pre[s := p];
      }
      if child[p] != node {
        sibling := sibling[p := s];
      } else {
        child := child[p := s];
      }
      sibling := sibling[node := Null];
      pre := pre[node := Null];
      parent := parent[node := Null];
    }

    /** `updatePriorities()`: rebuilds heap order after the values of the
        nodes have changed behind the heap's back, keeping every node and its
        value; an empty heap is left alone. */
    method UpdatePriorities()
      requires Shaped()
      modifies this
      ensures Valid()
      ensures elt == old(elt) && live == old(live) && numNodes == old(numNodes)
      ensures Contents() == old(Contents())
    {
      if root == Null {
        EmptyIffNoRoot();
        return;
      }
      CollectAllNode();
    }

    /** `collectAllNode()`: visits every node with an explicit stack, clears
        its links and melds it, alone, into a new tree. */
    method CollectAllNode()
      requires Shaped() && root != Null
      modifies this
      ensures Valid()
      ensures elt == old(elt) && live == old(live) && numNodes == old(numNodes)
    {
      RootIn();
      ghost var g0, S := G(), live;
      assert Roots() == [root];
      CollectStart(g0, S, root);
      var stack := [root];
      root := Null;
      ghost var P: set<int> := {};
      while stack != []
        invariant Collecting(g0, S, G(), P, root, stack)
        invariant live == S && numNodes == old(numNodes)
        decreases |S - P|
      {
        ghost var g, r := G(), root;
        CollectStep(g0, S, g, P, r, stack);
        ghost var x, rest := stack[|stack| - 1], stack[..|stack| - 1];
        stack := CollectVisit(stack);
        assert stack == PushSuccessors(g0, rest, x);
        P := P + {x};
      }
      CollectDone(g0, S, G(), P, root);
      assert Roots() == [root];
    }

    /** One round of the loop in `collectAllNode()`: pops the top of the
        stack, pushes its child and its next sibling, isolates it and melds it
        into the tree being built. */
    method CollectVisit(stack: seq<int>) returns (stack': seq<int>)
      requires Sized(G()) && stack != [] && 0 <= stack[|stack| - 1] < |elt| && Null <= root < |elt|
      requires Sized(Isolate(G(), stack[|stack| - 1]))
      modifies this
      ensures var x := stack[|stack| - 1];
        && stack' == PushSuccessors(old(G()), stack[..|stack| - 1], x)
        && G() == MeldGraph(Isolate(old(G()), x), old(root), x)
        && root == Winner(Isolate(old(G()), x), old(root), x)
      ensures live == old(live) && numNodes == old(numNodes)
    {
      var current := stack[|stack| - 1];
      stack' := stack[..|stack| - 1];
      if child[current] != Null {
        stack' := stack' + [child[current]];
      }
      if sibling[current] != Null {
        stack' := stack' + [sibling[current]];
      }
      IsolateNode(current);
      root := Meld(root, current);
    }

    /** The clearing of one node's links in `collectAllNode()`: the node
        keeps its value and loses its child, sibling and predecessor. */
    method IsolateNode(x: int)
      requires Sized(G()) && 0 <= x < |elt|
      modifies this
      ensures G() == Isolate(old(G()), x)
      ensures root == old(root) && numNodes == old(numNodes) && live == old(live)
    {
      sibling := sibling[x := Null];
      pre := pre[x := Null];
      child := child[x := Null];
      parent := parent[x := Null];
    }

    /** `top()`: the value at the root, which no value in the queue exceeds;
        an empty queue underflows. */
    function Top(): (r: TopResult)
      requires Valid()
      reads this
      ensures r == Underflow <==> Contents() == multiset{}
      ensures r.Value? ==> r.value in Contents()
      ensures r.Value? ==> forall v | v in Contents() :: !Compare(r.value, v)
    {
      if root == Null then
        EmptyIffNoRoot();
        ValuesEmpty(elt, |elt|);
        Underflow
      else
        RootDominates(G(), live, root);
        ValuesHas(elt, live, |elt|, elt[root]);
        TopMax();
        Value(elt[root])
    }

    /** No stored value is more extreme than the root's. */
    lemma TopMax()
      requires Valid() && root != Null
      ensures root in live && 0 <= root < |elt|
      ensures forall v | v in Contents() :: !Compare(elt[root], v)
    {
      RootDominates(G(), live, root);
      forall v | v in Contents() ensures !Compare(elt[root], v) {
        ValuesHas(elt, live, |elt|, v);
      }
    }

    /** `size()`: the number of values in the queue. */
    function Size(): (r: nat)
      requires Valid()
      reads this
      ensures r == |Contents()|
    {
      ValuesCount(elt, live);
      numNodes
    }

    /** `empty()`: whether the root is null, which is exactly when the queue
        holds no value and the count is zero. */
    function Empty(): (r: bool)
      requires Valid()
      reads this
      ensures r <==> Contents() == multiset{}
      ensures r <==> numNodes == 0
    {
      ValuesCount(elt, live);
      EmptyIffNoRoot();
      root == Null
    }

    /** A non-null root is a parentless node in use. */
    lemma RootIn()
      requires Shaped()
      ensures root != Null ==> root in live && 0 <= root < |elt| && parent[root] == Null
    {
      if root != Null {
        assert Roots()[0] == root;
      }
    }

    /** The root is null exactly when no node is in use. */
    lemma EmptyIffNoRoot()
      requires Shaped()
      ensures root == Null <==> live == {}
    {
      RootIn();
      if root == Null && live != {} {
        var r := SomeRoot(G(), live);
      }
    }
  }
}
