/**
 * The node arena of a pairing heap, and the invariants that make it a
 * heap-ordered forest.
 *
 * Node ids index the arena; `Null` plays the part of `nullptr`. Every node has
 * a value `elt` and three links: `child` (leftmost child), `sibling` (next
 * sibling to the right) and `pre` (the parent for a leftmost child, the left
 * sibling otherwise). Two ghost columns explain the links: `parent` (the tree
 * parent, `Null` for a tree root) and `ord`, a rank that strictly drops from a
 * node to its child and to its right sibling, so that no link chain is cyclic.
 * A set `S` of node ids says which arena slots are in use.
 */
module PairingForest {

  /** The null link. */
  const Null: int := -1

  /** The heap's comparison functor, the default `std::less`: `Compare(a, b)`
      holds when `b` is more extreme than `a`, so the top is a maximum. */
  predicate Compare(a: int, b: int) {
    a < b
  }

  datatype Graph = Graph(
    elt: seq<int>,
    child: seq<int>,
    sibling: seq<int>,
    pre: seq<int>,
    parent: seq<int>,
    ord: seq<nat>)

  /** Every entry of a link column names one of `size` arena slots, or `Null`. */
  ghost predicate Refs(col: seq<int>, size: int) {
    forall n | 0 <= n < |col| :: Null <= col[n] < size
  }

  /** Every column has one entry per arena slot and every link names a slot or `Null`. */
  ghost predicate Sized(g: Graph) {
    && |g.child| == |g.elt| && |g.sibling| == |g.elt| && |g.pre| == |g.elt|
    && |g.parent| == |g.elt| && |g.ord| == |g.elt|
    && Refs(g.child, |g.elt|) && Refs(g.sibling, |g.elt|)
    && Refs(g.pre, |g.elt|) && Refs(g.parent, |g.elt|)
  }

  /** `x` is null or a node of `S`. */
  predicate Link(S: set<int>, x: int) {
    x == Null || x in S
  }

  /** The nodes of `S` are arena slots and link only to nodes of `S`. */
  ghost predicate Closed(g: Graph, S: set<int>) {
    && Sized(g)
    && (forall n | n in S :: 0 <= n < |g.elt|)
    && (forall n {:trigger g.child[n]} | n in S :: Link(S, g.child[n]))
    && (forall n {:trigger g.sibling[n]} | n in S :: Link(S, g.sibling[n]))
    && (forall n {:trigger g.pre[n]} | n in S :: Link(S, g.pre[n]))
    && (forall n {:trigger g.parent[n]} | n in S :: Link(S, g.parent[n]))
  }

  /** A leftmost child knows its parent, through both `parent` and `pre`. */
  ghost predicate ChildLinked(g: Graph, S: set<int>)
    requires Closed(g, S)
  {
    forall n {:trigger g.child[n]} | n in S && g.child[n] != Null ::
      g.parent[g.child[n]] == n && g.pre[g.child[n]] == n
  }

  /** A right sibling shares the parent, points back with `pre` and has a lower rank. */
  ghost predicate SiblingLinked(g: Graph, S: set<int>)
    requires Closed(g, S)
  {
    forall n {:trigger g.sibling[n]} | n in S && g.sibling[n] != Null ::
      && g.parent[g.sibling[n]] == g.parent[n]
      && g.pre[g.sibling[n]] == n
      && g.ord[g.sibling[n]] < g.ord[n]
  }

  /** The dual meaning of `pre`: a tree root has neither `pre` nor `sibling`; any
      other node has a lower rank than its parent, and `pre` is either the parent
      (whose `child` is the node) or a left sibling (whose `sibling` is the node). */
  ghost predicate PreLinked(g: Graph, S: set<int>)
    requires Closed(g, S)
  {
    forall n {:trigger g.pre[n]} | n in S ::
      if g.parent[n] == Null then g.pre[n] == Null && g.sibling[n] == Null
      else
        && g.ord[n] < g.ord[g.parent[n]]
        && ((g.pre[n] == g.parent[n] && g.child[g.pre[n]] == n) ||
            (g.pre[n] != g.parent[n] && g.pre[n] != Null &&
             g.parent[g.pre[n]] == g.parent[n] && g.sibling[g.pre[n]] == n))
  }

  ghost predicate LinksOK(g: Graph, S: set<int>) {
    Closed(g, S) && ChildLinked(g, S) && SiblingLinked(g, S) && PreLinked(g, S)
  }

  /** Heap order: no node is more extreme than its parent. */
  ghost predicate HeapOrdered(g: Graph, S: set<int>)
    requires Closed(g, S)
  {
    forall n {:trigger g.parent[n]} | n in S && g.parent[n] != Null :: !Compare(g.elt[g.parent[n]], g.elt[n])
  }

  /** `S` is a forest whose tree roots are exactly the distinct ids in `roots`. */
  ghost predicate Forest(g: Graph, S: set<int>, roots: seq<int>) {
    && LinksOK(g, S)
    && (forall i | 0 <= i < |roots| :: roots[i] in S && g.parent[roots[i]] == Null)
    && (forall i, j | 0 <= i < j < |roots| :: roots[i] != roots[j])
    && (forall n | n in S && g.parent[n] == Null :: n in roots)
  }

  /** A forest as above that is also heap-ordered. */
  ghost predicate WellFormed(g: Graph, S: set<int>, roots: seq<int>) {
    Forest(g, S, roots) && HeapOrdered(g, S)
  }

  /** The nodes reachable from `x` through `child` and `sibling` links: the
      subtree of `x` together with the subtrees of its right siblings. */
  ghost function Below(g: Graph, S: set<int>, x: int): (r: set<int>)
    requires LinksOK(g, S) && Link(S, x)
    ensures r <= S
    decreases if x == Null then 0 else g.ord[x] + 1
  {
    if x == Null then {}
    else
      assert g.child[x] != Null ==> g.ord[g.child[x]] < g.ord[x];
      {x} + Below(g, S, g.child[x]) + Below(g, S, g.sibling[x])
  }

  /** The sibling list that starts at `x`, left to right. */
  ghost function Chain(g: Graph, S: set<int>, x: int): (r: seq<int>)
    requires LinksOK(g, S) && Link(S, x)
    ensures forall i | 0 <= i < |r| :: r[i] in S
    ensures x != Null ==> forall i | 0 <= i < |r| :: g.parent[r[i]] == g.parent[x]
    ensures forall i, j | 0 <= i < j < |r| :: g.ord[r[j]] < g.ord[r[i]]
    decreases if x == Null then 0 else g.ord[x] + 1
  {
    if x == Null then []
    else
      var t := Chain(g, S, g.sibling[x]);
      assert g.sibling[x] != Null ==> g.parent[g.sibling[x]] == g.parent[x];
      assert forall j | 0 <= j < |t| :: g.ord[t[j]] < g.ord[x] by {
        forall j | 0 <= j < |t| ensures g.ord[t[j]] < g.ord[x] {
          assert 0 < j ==> g.ord[t[j]] < g.ord[t[0]];
        }
      }
      [x] + t
  }

  /** The children of `p`, leftmost first. */
  ghost function Kids(g: Graph, S: set<int>, p: int): seq<int>
    requires LinksOK(g, S) && p in S
  {
    Chain(g, S, g.child[p])
  }

  /** A node that is not a tree root has its parent in use, a lower rank than
      the parent, and a `pre` link. */
  lemma ParentRank(g: Graph, S: set<int>, n: int)
    requires LinksOK(g, S) && n in S
    ensures g.parent[n] != Null ==> g.parent[n] in S && g.ord[n] < g.ord[g.parent[n]] && g.pre[n] in S
  {
    assert Link(S, g.parent[n]);
    assert Link(S, g.pre[n]);
  }

  /** Walking right along a sibling list stays in the list. */
  lemma {:induction false} ChainNext(g: Graph, S: set<int>, x: int, s: int)
    requires LinksOK(g, S) && Link(S, x)
    requires s in Chain(g, S, x) && g.sibling[s] != Null
    ensures g.sibling[s] in Chain(g, S, x)
    decreases if x == Null then 0 else g.ord[x] + 1
  {
    if s != x {
      ChainNext(g, S, g.sibling[x], s);
    }
  }

  /** Every child of `p` is on the list that starts at `p`'s leftmost child:
      following `pre` leftwards from a child always reaches the parent's `child`. */
  lemma {:induction false} KidsComplete(g: Graph, S: set<int>, n: int)
    requires LinksOK(g, S) && n in S && g.parent[n] != Null
    ensures n in Kids(g, S, g.parent[n])
    decreases (g.ord[g.parent[n]] as int) - g.ord[n]
  {
    ParentRank(g, S, n);
    var p := g.parent[n];
    if g.pre[n] != p {
      var s := g.pre[n];
      KidsComplete(g, S, s);
      ChainNext(g, S, g.child[p], s);
    }
  }

  /** The children of `p` are exactly the nodes whose parent is `p`. */
  lemma KidsExact(g: Graph, S: set<int>, p: int, n: int)
    requires LinksOK(g, S) && p in S && n in S
    ensures n in Kids(g, S, p) <==> g.parent[n] == p
  {
    if g.parent[n] == p {
      KidsComplete(g, S, n);
    }
  }

  lemma {:induction false} ChainInBelow(g: Graph, S: set<int>, x: int, y: int)
    requires LinksOK(g, S) && Link(S, x) && y in Chain(g, S, x)
    ensures y in Below(g, S, x)
    decreases if x == Null then 0 else g.ord[x] + 1
  {
    if y != x {
      ChainInBelow(g, S, g.sibling[x], y);
    }
  }

  /** Rank never grows along `child` and `sibling` links. */
  lemma {:induction false} BelowOrd(g: Graph, S: set<int>, x: int, y: int)
    requires LinksOK(g, S) && Link(S, x) && y in Below(g, S, x)
    ensures x != Null && g.ord[y] <= g.ord[x]
    decreases if x == Null then 0 else g.ord[x] + 1
  {
    if y != x {
      if y in Below(g, S, g.child[x]) {
        BelowOrd(g, S, g.child[x], y);
      } else {
        BelowOrd(g, S, g.sibling[x], y);
      }
    }
  }

  /** `Below` is closed under reachability. */
  lemma {:induction false} BelowTrans(g: Graph, S: set<int>, x: int, y: int)
    requires LinksOK(g, S) && Link(S, x) && y in Below(g, S, x)
    ensures Below(g, S, y) <= Below(g, S, x)
    decreases if x == Null then 0 else g.ord[x] + 1
  {
    if y != x {
      if y in Below(g, S, g.child[x]) {
        BelowTrans(g, S, g.child[x], y);
      } else {
        BelowTrans(g, S, g.sibling[x], y);
      }
    }
  }

  /** Inside the region below `x`, `pre` leads back towards `x`. */
  lemma {:induction false} BelowPre(g: Graph, S: set<int>, x: int, y: int)
    requires LinksOK(g, S) && Link(S, x) && y in Below(g, S, x) && y != x
    ensures g.pre[y] in Below(g, S, x)
    decreases if x == Null then 0 else g.ord[x] + 1
  {
    var c, s := g.child[x], g.sibling[x];
    if y in Below(g, S, c) {
      if y != c {
        BelowPre(g, S, c, y);
      }
    } else {
      if y != s {
        BelowPre(g, S, s, y);
      }
    }
  }

  /** A node has a higher rank than its `pre`-predecessor's successor: `pre` climbs in rank. */
  lemma PreClimbs(g: Graph, S: set<int>, y: int)
    requires LinksOK(g, S) && y in S && g.pre[y] != Null
    ensures g.ord[y] < g.ord[g.pre[y]]
  {
  }

  /** Two regions that share a node are nested, since `pre` is a function. */
  lemma {:induction false} BelowNested(g: Graph, S: set<int>, a: int, b: int, n: int)
    requires LinksOK(g, S) && Link(S, a) && Link(S, b)
    requires n in Below(g, S, a) && n in Below(g, S, b)
    ensures a in Below(g, S, b) || b in Below(g, S, a)
    decreases (g.ord[a] as int) - g.ord[n]
  {
    BelowOrd(g, S, a, n);
    if n != a && n != b {
      BelowPre(g, S, a, n);
      BelowPre(g, S, b, n);
      PreClimbs(g, S, n);
      BelowOrd(g, S, a, g.pre[n]);
      BelowNested(g, S, a, b, g.pre[n]);
    }
  }

  /** The region below a node splits into the node itself, its children's
      region and its right siblings' region, with no overlap. */
  lemma BelowSplit(g: Graph, S: set<int>, x: int)
    requires LinksOK(g, S) && x in S
    ensures x !in Below(g, S, g.child[x])
    ensures x !in Below(g, S, g.sibling[x])
    ensures Below(g, S, g.child[x]) !! Below(g, S, g.sibling[x])
  {
    var c, s := g.child[x], g.sibling[x];
    if x in Below(g, S, c) {
      BelowOrd(g, S, c, x);
    }
    if x in Below(g, S, s) {
      BelowOrd(g, S, s, x);
    }
    forall n | n in Below(g, S, c) && n in Below(g, S, s) ensures false {
      BelowNested(g, S, c, s, n);
      BelowOrd(g, S, c, n);
      BelowOrd(g, S, s, n);
      assert g.parent[c] == x && g.pre[c] == x && g.pre[s] == x;
      ParentRank(g, S, c);
      ParentRank(g, S, x);
      if c in Below(g, S, s) {
        BelowPre(g, S, s, c);
        BelowOrd(g, S, s, x);
      } else {
        BelowPre(g, S, c, s);
        BelowOrd(g, S, c, x);
      }
    }
  }

  /** The largest rank in the first `k` arena slots. */
  function MaxRank(ord: seq<nat>, k: nat): (B: nat)
    requires k <= |ord|
    ensures forall n | 0 <= n < k :: ord[n] <= B
  {
    if k == 0 then 0
    else if ord[k - 1] <= MaxRank(ord, k - 1) then MaxRank(ord, k - 1)
    else ord[k - 1]
  }

  lemma Pick(S: set<int>) returns (x: int)
    requires S != {}
    ensures x in S
  {
    if forall y :: y !in S {
      assert false;
    }
    x :| x in S;
  }

  lemma {:induction false} ClimbToRoot(g: Graph, S: set<int>, n: int, B: nat) returns (r: int)
    requires LinksOK(g, S) && n in S
    requires forall m | m in S :: g.ord[m] <= B
    ensures r in S && g.parent[r] == Null
    decreases B - g.ord[n]
  {
    ParentRank(g, S, n);
    if g.parent[n] == Null {
      r := n;
    } else {
      r := ClimbToRoot(g, S, g.parent[n], B);
    }
  }

  /** A non-empty region has a tree root, since ranks climb along `parent`. */
  lemma SomeRoot(g: Graph, S: set<int>) returns (r: int)
    requires LinksOK(g, S) && S != {}
    ensures r in S && g.parent[r] == Null
  {
    var n := Pick(S);
    r := ClimbToRoot(g, S, n, MaxRank(g.ord, |g.ord|));
  }

  /** The one root of a single tree is in use, has no parent, and is the only such node. */
  lemma SingleRoot(g: Graph, S: set<int>, root: int)
    requires Forest(g, S, [root])
    ensures root in S && g.parent[root] == Null
    ensures forall n | n in S && g.parent[n] == Null :: n == root
  {
    assert [root][0] == root;
  }

  lemma {:induction false} BelowRootFrom(g: Graph, S: set<int>, root: int, n: int, B: nat)
    requires Forest(g, S, [root]) && root in S && n in S
    requires forall m | m in S :: g.ord[m] <= B
    ensures n in Below(g, S, root)
    decreases B - g.ord[n]
  {
    SingleRoot(g, S, root);
    var p := g.parent[n];
    if p != Null {
      ParentRank(g, S, n);
      BelowRootFrom(g, S, root, p, B);
      KidsComplete(g, S, n);
      ChainInBelow(g, S, g.child[p], n);
      assert Below(g, S, g.child[p]) <= Below(g, S, p);
      BelowTrans(g, S, root, p);
    } else {
      assert n == root;
    }
  }

  /** Count consistency: in a single tree, every node in use is
      reachable from the root through `child` and `sibling` links, and nothing else is. */
  lemma BelowRoot(g: Graph, S: set<int>, root: int)
    requires Forest(g, S, [root])
    ensures root in S && Below(g, S, root) == S
  {
    SingleRoot(g, S, root);
    var B := MaxRank(g.ord, |g.ord|);
    forall n | n in S ensures n in Below(g, S, root) {
      BelowRootFrom(g, S, root, n, B);
    }
  }

  lemma {:induction false} DominatesFrom(g: Graph, S: set<int>, root: int, n: int, B: nat)
    requires WellFormed(g, S, [root]) && root in S && n in S
    requires forall m | m in S :: g.ord[m] <= B
    ensures !Compare(g.elt[root], g.elt[n])
    decreases B - g.ord[n]
  {
    SingleRoot(g, S, root);
    var p := g.parent[n];
    if p != Null {
      ParentRank(g, S, n);
      DominatesFrom(g, S, root, p, B);
    } else {
      assert n == root;
    }
  }

  /** Heap order makes the root of a single tree at least as extreme as every node. */
  lemma RootDominates(g: Graph, S: set<int>, root: int)
    requires WellFormed(g, S, [root])
    ensures root in S && forall n | n in S :: !Compare(g.elt[root], g.elt[n])
  {
    SingleRoot(g, S, root);
    var B := MaxRank(g.ord, |g.ord|);
    forall n | n in S ensures !Compare(g.elt[root], g.elt[n]) {
      DominatesFrom(g, S, root, n, B);
    }
  }

  /** The nodes reachable from the entries of a work stack. */
  ghost function UnionBelow(g: Graph, S: set<int>, st: seq<int>): (r: set<int>)
    requires LinksOK(g, S) && forall i | 0 <= i < |st| :: st[i] in S
    ensures r <= S
  {
    if st == [] then {}
    else UnionBelow(g, S, st[..|st| - 1]) + Below(g, S, st[|st| - 1])
  }

  /** The regions of a work stack's entries do not overlap. */
  ghost predicate Separate(g: Graph, S: set<int>, st: seq<int>)
    requires LinksOK(g, S) && forall i | 0 <= i < |st| :: st[i] in S
  {
    st == [] ||
      (Separate(g, S, st[..|st| - 1]) &&
       UnionBelow(g, S, st[..|st| - 1]) !! Below(g, S, st[|st| - 1]))
  }

  /** The stack after pushing `y`, which a traversal skips when it is null. */
  function PushLink(st: seq<int>, y: int): seq<int> {
    if y != Null then st + [y] else st
  }

  /** What a traversal's stack holds after visiting `x` on top of `rest`: its
      leftmost child, then its right sibling, each only when it is not null. */
  function PushSuccessors(g: Graph, rest: seq<int>, x: int): seq<int>
    requires 0 <= x < |g.child| && 0 <= x < |g.sibling|
  {
    PushLink(PushLink(rest, g.child[x]), g.sibling[x])
  }

  /** Pushing a node whose region misses the regions already on the stack. */
  lemma SeparatePush(g: Graph, S: set<int>, st: seq<int>, y: int)
    requires LinksOK(g, S) && Link(S, y) && forall i | 0 <= i < |st| :: st[i] in S
    requires Separate(g, S, st) && UnionBelow(g, S, st) !! Below(g, S, y)
    ensures forall i | 0 <= i < |PushLink(st, y)| :: PushLink(st, y)[i] in S
    ensures Separate(g, S, PushLink(st, y))
    ensures UnionBelow(g, S, PushLink(st, y)) == UnionBelow(g, S, st) + Below(g, S, y)
  {
    if y != Null {
      assert (st + [y])[..|st|] == st;
    }
  }

  /** One step of a depth-first traversal with an explicit stack: popping `x`
      and pushing its successors removes exactly `x` from the nodes still to
      visit, and the regions stay separate. */
  lemma {:induction false} StackStep(g: Graph, S: set<int>, st: seq<int>)
    requires LinksOK(g, S) && st != [] && forall i | 0 <= i < |st| :: st[i] in S
    requires Separate(g, S, st)
    ensures var x, rest := st[|st| - 1], st[..|st| - 1];
      && x in UnionBelow(g, S, st)
      && (forall i | 0 <= i < |PushSuccessors(g, rest, x)| :: PushSuccessors(g, rest, x)[i] in S)
      && Separate(g, S, PushSuccessors(g, rest, x))
      && UnionBelow(g, S, PushSuccessors(g, rest, x)) == UnionBelow(g, S, st) - {x}
  {
    var x, rest := st[|st| - 1], st[..|st| - 1];
    assert forall i | 0 <= i < |rest| :: rest[i] in S;
    var c, s := g.child[x], g.sibling[x];
    assert Link(S, c) && Link(S, s);
    BelowSplit(g, S, x);
    var U := UnionBelow(g, S, rest);
    var Bc, Bs := Below(g, S, c), Below(g, S, s);
    assert Below(g, S, x) == {x} + Bc + Bs;
    assert U !! Below(g, S, x);
    SeparatePush(g, S, rest, c);
    var st1 := PushLink(rest, c);
    SeparatePush(g, S, st1, s);
    assert x !in U && x !in Bc && x !in Bs;
  }

  /** The values stored in the first `k` arena slots that are in use. */
  ghost function ValuesUpTo(elt: seq<int>, S: set<int>, k: nat): multiset<int>
    requires k <= |elt|
  {
    if k == 0 then multiset{}
    else ValuesUpTo(elt, S, k - 1) + (if k - 1 in S then multiset{elt[k - 1]} else multiset{})
  }

  /** The multiset of values held by the nodes in use. */
  ghost function Values(elt: seq<int>, S: set<int>): multiset<int> {
    ValuesUpTo(elt, S, |elt|)
  }

  lemma {:induction false} ValuesAddOne(elt: seq<int>, S: set<int>, x: int, k: nat)
    requires k <= |elt| && 0 <= x && x !in S
    ensures x < k ==> ValuesUpTo(elt, S + {x}, k) == ValuesUpTo(elt, S, k) + multiset{elt[x]}
    ensures k <= x ==> ValuesUpTo(elt, S + {x}, k) == ValuesUpTo(elt, S, k)
  {
    if k > 0 {
      ValuesAddOne(elt, S, x, k - 1);
      if k - 1 == x {
        ValuesAddAt(elt, S, x, k);
      } else {
        ValuesAddPast(elt, S, x, k);
      }
    }
  }

  /** The step of `ValuesAddOne` at the added node itself. */
  lemma ValuesAddAt(elt: seq<int>, S: set<int>, x: int, k: nat)
    requires 0 < k <= |elt| && x == k - 1 && x !in S
    requires ValuesUpTo(elt, S + {x}, k - 1) == ValuesUpTo(elt, S, k - 1)
    ensures ValuesUpTo(elt, S + {x}, k) == ValuesUpTo(elt, S, k) + multiset{elt[x]}
  {
    assert x in S + {x};
  }

  /** The step of `ValuesAddOne` at any other node. */
  lemma ValuesAddPast(elt: seq<int>, S: set<int>, x: int, k: nat)
    requires 0 < k <= |elt| && 0 <= x && x != k - 1 && x !in S
    requires x < k - 1 ==> ValuesUpTo(elt, S + {x}, k - 1) == ValuesUpTo(elt, S, k - 1) + multiset{elt[x]}
    requires k - 1 <= x ==> ValuesUpTo(elt, S + {x}, k - 1) == ValuesUpTo(elt, S, k - 1)
    ensures x < k ==> ValuesUpTo(elt, S + {x}, k) == ValuesUpTo(elt, S, k) + multiset{elt[x]}
    ensures k <= x ==> ValuesUpTo(elt, S + {x}, k) == ValuesUpTo(elt, S, k)
  {
    var e := if k - 1 in S then multiset{elt[k - 1]} else multiset{};
    assert (k - 1 in S + {x}) == (k - 1 in S);
    assert ValuesUpTo(elt, S + {x}, k) == ValuesUpTo(elt, S + {x}, k - 1) + e;
  }

  lemma {:induction false} ValuesFrame(elt: seq<int>, elt': seq<int>, S: set<int>, k: nat)
    requires k <= |elt| && k <= |elt'|
    requires forall n | n in S && 0 <= n < k :: elt[n] == elt'[n]
    ensures ValuesUpTo(elt, S, k) == ValuesUpTo(elt', S, k)
  {
    if k > 0 {
      ValuesFrame(elt, elt', S, k - 1);
    }
  }

  lemma {:induction false} ValuesUnion(elt: seq<int>, A: set<int>, B: set<int>, k: nat)
    requires k <= |elt| && A !! B
    ensures ValuesUpTo(elt, A + B, k) == ValuesUpTo(elt, A, k) + ValuesUpTo(elt, B, k)
  {
    if k > 0 {
      ValuesUnion(elt, A, B, k - 1);
    }
  }

  /** Dropping a node from use removes exactly one copy of its value. */
  lemma ValuesRemove(elt: seq<int>, S: set<int>, x: int)
    requires x in S && 0 <= x < |elt|
    ensures Values(elt, S - {x}) == Values(elt, S) - multiset{elt[x]}
    ensures Values(elt, S) == Values(elt, S - {x}) + multiset{elt[x]}
  {
    ValuesAddOne(elt, S - {x}, x, |elt|);
    assert S - {x} + {x} == S;
  }

  /** Overwriting the value of a node in use replaces one copy of the old value by the new one. */
  lemma ValuesUpdate(elt: seq<int>, S: set<int>, x: int, v: int)
    requires x in S && 0 <= x < |elt|
    ensures Values(elt[x := v], S) == Values(elt, S) - multiset{elt[x]} + multiset{v}
  {
    ValuesRemove(elt, S, x);
    ValuesRemove(elt[x := v], S, x);
    ValuesFrame(elt, elt[x := v], S - {x}, |elt|);
  }

  /** A new arena slot, put in use, adds its value. */
  lemma ValuesAppend(elt: seq<int>, S: set<int>, v: int)
    requires forall n | n in S :: 0 <= n < |elt|
    ensures Values(elt + [v], S + {|elt|}) == Values(elt, S) + multiset{v}
  {
    var elt' := elt + [v];
    ValuesAddOne(elt', S, |elt|, |elt'|);
    assert ValuesUpTo(elt', S, |elt'|) == ValuesUpTo(elt', S, |elt|);
    ValuesFrame(elt, elt', S, |elt|);
  }

  /** The values below `x`: its own, those below its leftmost child and those
      below its right sibling. */
  lemma BelowValues(g: Graph, S: set<int>, x: int)
    requires LinksOK(g, S) && x in S
    ensures Values(g.elt, Below(g, S, x)) ==
      multiset{g.elt[x]} + Values(g.elt, Below(g, S, g.child[x])) + Values(g.elt, Below(g, S, g.sibling[x]))
  {
    BelowSplit(g, S, x);
    var C, D := Below(g, S, g.child[x]), Below(g, S, g.sibling[x]);
    assert Below(g, S, x) == {x} + C + D;
    ValuesUnion(g.elt, {x}, C, |g.elt|);
    ValuesUnion(g.elt, {x} + C, D, |g.elt|);
    ValuesSingle(g.elt, x);
  }

  /** One round of `copyPairingPQ` at `x`: both links lead to nodes of lower
      rank (or nowhere), and the values below `x` are its own and those below
      the two links; a null link contributes none. */
  lemma CopyStep(g: Graph, S: set<int>, x: int)
    requires LinksOK(g, S) && x in S
    ensures Link(S, g.child[x]) && Link(S, g.sibling[x])
    ensures g.child[x] != Null ==> g.ord[g.child[x]] < g.ord[x]
    ensures g.sibling[x] != Null ==> g.ord[g.sibling[x]] < g.ord[x]
    ensures g.child[x] == Null ==> Values(g.elt, Below(g, S, g.child[x])) == multiset{}
    ensures g.sibling[x] == Null ==> Values(g.elt, Below(g, S, g.sibling[x])) == multiset{}
    ensures Values(g.elt, Below(g, S, x)) ==
      multiset{g.elt[x]} + Values(g.elt, Below(g, S, g.child[x])) + Values(g.elt, Below(g, S, g.sibling[x]))
  {
    BelowValues(g, S, x);
    ValuesEmpty(g.elt, |g.elt|);
    if g.child[x] != Null {
      ParentRank(g, S, g.child[x]);
    }
  }

  lemma ValuesSingle(elt: seq<int>, x: int)
    requires 0 <= x < |elt|
    ensures Values(elt, {x}) == multiset{elt[x]}
  {
    ValuesAddOne(elt, {}, x, |elt|);
    ValuesEmpty(elt, |elt|);
    assert {} + {x} == {x};
  }

  lemma {:induction false} ValuesEmpty(elt: seq<int>, k: nat)
    requires k <= |elt|
    ensures ValuesUpTo(elt, {}, k) == multiset{}
  {
    if k > 0 {
      ValuesEmpty(elt, k - 1);
    }
  }

  /** A value is stored exactly when some node in use holds it. */
  lemma {:induction false} ValuesHas(elt: seq<int>, S: set<int>, k: nat, v: int)
    requires k <= |elt|
    ensures v in ValuesUpTo(elt, S, k) <==> exists n :: 0 <= n < k && n in S && elt[n] == v
  {
    if k > 0 {
      ValuesHas(elt, S, k - 1, v);
      if k - 1 in S && elt[k - 1] == v {
        assert v in ValuesUpTo(elt, S, k);
      }
    }
  }

  /** One stored value per node in use. */
  lemma {:induction false} ValuesCount(elt: seq<int>, S: set<int>)
    requires forall n | n in S :: 0 <= n < |elt|
    ensures |Values(elt, S)| == |S|
  {
    if S == {} {
      ValuesEmpty(elt, |elt|);
    } else {
      var x := Pick(S);
      ValuesRemove(elt, S, x);
      ValuesCount(elt, S - {x});
    }
  }

}
