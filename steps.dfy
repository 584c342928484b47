/**
 * The link rewirings a pairing heap performs, as functions from one arena
 * state to the next, and the lemmas that each keeps the forest invariants.
 */
module PairingSteps {
  import opened PairingForest

  /** The root that survives `meld(a, b)` (PairingPQ.hpp `meld`): the other
      argument when one is null; otherwise `b` when `compare(a, b)` says `b` is
      more extreme, and `a` otherwise, so a tie goes to the first argument. */
  function Winner(g: Graph, a: int, b: int): (w: int)
    requires Null <= a < |g.elt| && Null <= b < |g.elt|
    ensures w == a || w == b
    ensures a == Null ==> w == b
    ensures b == Null ==> w == a
    ensures a != Null && b != Null ==> !Compare(g.elt[w], g.elt[a]) && !Compare(g.elt[w], g.elt[b])
    ensures a != Null && b != Null && g.elt[a] == g.elt[b] ==> w == a
  {
    if a == Null then b
    else if b == Null then a
    else if Compare(g.elt[a], g.elt[b]) then b
    else a
  }

  /** The root that `meld(a, b)` hangs below the winner. */
  function Loser(g: Graph, a: int, b: int): int
    requires Null <= a < |g.elt| && Null <= b < |g.elt|
  {
    if Winner(g, a, b) == b then a else b
  }

  /** The arena after `meld(a, b)`: the loser becomes the winner's leftmost
      child, and the winner's former leftmost child becomes the loser's right
      sibling; `pre` of both is pointed at their new left neighbour. The ranks
      of the two roots grow so that the rank still drops along every link. */
  ghost function MeldGraph(g: Graph, a: int, b: int): Graph
    requires Sized(g) && Null <= a < |g.elt| && Null <= b < |g.elt|
  {
    if a == Null || b == Null then g
    else
      var w, l := Winner(g, a, b), Loser(g, a, b);
      var c := g.child[w];
      var k := g.ord[l] + g.ord[w] + 1;
      g.(child := g.child[w := l],
         sibling := g.sibling[l := c],
         pre := if c == Null then g.pre[l := w] else g.pre[l := w][c := l],
         parent := g.parent[l := w],
         ord := g.ord[l := k][w := k + 1])
  }

  /** Two distinct tree roots of a well-linked, heap-ordered arena region. */
  ghost predicate TwoRoots(g: Graph, S: set<int>, a: int, b: int) {
    && LinksOK(g, S) && HeapOrdered(g, S)
    && a in S && b in S && a != b
    && g.parent[a] == Null && g.parent[b] == Null
  }

  /** `meld(a, b)` on two distinct roots rewires exactly what the source
      spells out: the loser becomes the winner's leftmost child, the winner's
      former leftmost child becomes the loser's right sibling and points back
      to it, and the loser points back to the winner; no other `child`,
      `sibling` or `pre` changes, and no value does. */
  lemma MeldShape(g: Graph, S: set<int>, a: int, b: int)
    requires TwoRoots(g, S, a, b)
    ensures var g', w, l := MeldGraph(g, a, b), Winner(g, a, b), Loser(g, a, b);
      && g'.elt == g.elt && l != w && (l == a || l == b)
      && g'.child[w] == l && g'.sibling[l] == g.child[w] && g'.pre[l] == w
      && (g.child[w] != Null ==> g'.pre[g.child[w]] == l)
      && (forall n | 0 <= n < |g.elt| && n != w :: g'.child[n] == g.child[n])
      && (forall n | 0 <= n < |g.elt| && n != l :: g'.sibling[n] == g.sibling[n])
      && (forall n | 0 <= n < |g.elt| && n != l && n != g.child[w] :: g'.pre[n] == g.pre[n])
  {
    var w := Winner(g, a, b);
    var c := g.child[w];
    assert Link(S, c);
    assert c != Null ==> g.parent[c] == w;
  }

  lemma MeldClosed(g: Graph, S: set<int>, a: int, b: int)
    requires TwoRoots(g, S, a, b)
    ensures Closed(MeldGraph(g, a, b), S)
  {
    MeldSized(g, a, b);
    MeldLinks(g, S, a, b);
  }

  /** `meld` keeps every link inside the arena. */
  lemma MeldSized(g: Graph, a: int, b: int)
    requires Sized(g) && 0 <= a < |g.elt| && 0 <= b < |g.elt|
    ensures Sized(MeldGraph(g, a, b))
  {
    var g' := MeldGraph(g, a, b);
    forall n | 0 <= n < |g'.elt|
      ensures Null <= g'.child[n] < |g'.elt| && Null <= g'.sibling[n] < |g'.elt|
      ensures Null <= g'.pre[n] < |g'.elt| && Null <= g'.parent[n] < |g'.elt|
    {
      assert Null <= g.child[n] && Null <= g.sibling[n] && Null <= g.pre[n] && Null <= g.parent[n];
    }
  }

  /** `meld` links nodes in use only to nodes in use. */
  lemma MeldLinks(g: Graph, S: set<int>, a: int, b: int)
    requires TwoRoots(g, S, a, b)
    ensures forall n | n in S :: Link(S, MeldGraph(g, a, b).child[n]) && Link(S, MeldGraph(g, a, b).sibling[n])
    ensures forall n | n in S :: Link(S, MeldGraph(g, a, b).pre[n]) && Link(S, MeldGraph(g, a, b).parent[n])
  {
    var g' := MeldGraph(g, a, b);
    var w := Winner(g, a, b);
    assert Link(S, g.child[w]);
    forall n | n in S
      ensures Link(S, g'.child[n]) && Link(S, g'.sibling[n]) && Link(S, g'.pre[n]) && Link(S, g'.parent[n])
    {
      assert Link(S, g.child[n]) && Link(S, g.sibling[n]) && Link(S, g.pre[n]) && Link(S, g.parent[n]);
    }
  }

  lemma MeldChildLinked(g: Graph, S: set<int>, a: int, b: int)
    requires TwoRoots(g, S, a, b)
    ensures Closed(MeldGraph(g, a, b), S) && ChildLinked(MeldGraph(g, a, b), S)
  {
    MeldClosed(g, S, a, b);
    var g' := MeldGraph(g, a, b);
    var w, l := Winner(g, a, b), Loser(g, a, b);
    var c := g.child[w];
    assert g.pre[l] == Null;
    forall n | n in S && g'.child[n] != Null
      ensures g'.parent[g'.child[n]] == n && g'.pre[g'.child[n]] == n
    {
      if n != w {
        var x := g.child[n];
        assert g.parent[x] == n && g.pre[x] == n;
        assert x != l && x != c;
      }
    }
  }

  lemma MeldSiblingLinked(g: Graph, S: set<int>, a: int, b: int)
    requires TwoRoots(g, S, a, b)
    ensures Closed(MeldGraph(g, a, b), S) && SiblingLinked(MeldGraph(g, a, b), S)
  {
    MeldClosed(g, S, a, b);
    var g' := MeldGraph(g, a, b);
    var w, l := Winner(g, a, b), Loser(g, a, b);
    var c := g.child[w];
    assert g.pre[l] == Null && g.pre[w] == Null && g.sibling[w] == Null;
    assert c != Null ==> g.parent[c] == w && g.pre[c] == w && g.ord[c] < g.ord[w];
    forall n | n in S && g'.sibling[n] != Null
      ensures g'.parent[g'.sibling[n]] == g'.parent[n]
      ensures g'.pre[g'.sibling[n]] == n
      ensures g'.ord[g'.sibling[n]] < g'.ord[n]
    {
      if n != l {
        var x := g.sibling[n];
        assert g.pre[x] == n && g.parent[x] == g.parent[n] && g.ord[x] < g.ord[n];
        assert x != l && x != w && x != c;
      }
    }
  }

  lemma MeldPreLinked(g: Graph, S: set<int>, a: int, b: int)
    requires TwoRoots(g, S, a, b)
    ensures Closed(MeldGraph(g, a, b), S) && PreLinked(MeldGraph(g, a, b), S)
  {
    MeldClosed(g, S, a, b);
    var g' := MeldGraph(g, a, b);
    var w, l := Winner(g, a, b), Loser(g, a, b);
    var c := g.child[w];
    assert g.pre[l] == Null && g.pre[w] == Null && g.sibling[w] == Null && g.sibling[l] == Null;
    assert c != Null ==> g.parent[c] == w && g.pre[c] == w && g.ord[c] < g.ord[w];
    forall n | n in S
      ensures if g'.parent[n] == Null then g'.pre[n] == Null && g'.sibling[n] == Null
        else
          && g'.ord[n] < g'.ord[g'.parent[n]]
          && ((g'.pre[n] == g'.parent[n] && g'.child[g'.pre[n]] == n) ||
              (g'.pre[n] != g'.parent[n] && g'.pre[n] != Null &&
               g'.parent[g'.pre[n]] == g'.parent[n] && g'.sibling[g'.pre[n]] == n))
    {
      if n != l && n != w && n != c {
        var p, q := g.parent[n], g.pre[n];
        assert g'.parent[n] == p && g'.pre[n] == q && g'.ord[n] == g.ord[n];
        if p != Null {
          assert g.ord[n] < g.ord[p];
          assert q != Null;
          if q == p {
            assert g.child[q] == n;
          } else {
            assert g.parent[q] == p && g.sibling[q] == n && q != l;
          }
        }
      }
    }
  }

  lemma MeldHeapOrdered(g: Graph, S: set<int>, a: int, b: int)
    requires TwoRoots(g, S, a, b)
    ensures Closed(MeldGraph(g, a, b), S) && HeapOrdered(MeldGraph(g, a, b), S)
  {
    MeldClosed(g, S, a, b);
    var g' := MeldGraph(g, a, b);
    var l := Loser(g, a, b);
    forall n | n in S && g'.parent[n] != Null
      ensures !Compare(g'.elt[g'.parent[n]], g'.elt[n])
    {
      if n != l {
        assert g.parent[n] == g'.parent[n];
      }
    }
  }

  /** Melding the first two trees of a forest leaves a forest with one tree
      fewer, whose last tree is the winner; no value moves. */
  lemma MeldWellFormed(g: Graph, S: set<int>, a: int, b: int, rest: seq<int>)
    requires WellFormed(g, S, [a, b] + rest)
    ensures a in S && b in S && a != b
    ensures WellFormed(MeldGraph(g, a, b), S, rest + [Winner(g, a, b)])
    ensures MeldGraph(g, a, b).elt == g.elt
  {
    var roots := [a, b] + rest;
    assert roots[0] == a && roots[1] == b;
    assert TwoRoots(g, S, a, b);
    MeldChildLinked(g, S, a, b);
    MeldSiblingLinked(g, S, a, b);
    MeldPreLinked(g, S, a, b);
    MeldHeapOrdered(g, S, a, b);
    var g' := MeldGraph(g, a, b);
    var w, l := Winner(g, a, b), Loser(g, a, b);
    var roots' := rest + [w];
    forall i | 0 <= i < |roots'| ensures roots'[i] in S && g'.parent[roots'[i]] == Null {
      if i < |rest| {
        assert roots'[i] == roots[i + 2];
      }
    }
    forall i, j | 0 <= i < j < |roots'| ensures roots'[i] != roots'[j] {
      assert roots'[i] == roots[i + 2];
      if j < |rest| {
        assert roots'[j] == roots[j + 2];
      }
    }
    forall n | n in S && g'.parent[n] == Null ensures n in roots' {
      assert n != l;
      assert n in roots;
      if n != w {
        var i :| 0 <= i < |roots| && roots[i] == n;
        assert i >= 2 && roots'[i - 2] == n;
      }
    }
  }

  /** The arena after `node->elt = new_value`. */
  ghost function Raise(g: Graph, n: int, v: int): Graph
    requires 0 <= n < |g.elt|
  {
    g.(elt := g.elt[n := v])
  }

  /** A new value changes no link. */
  lemma RaiseLinks(g: Graph, S: set<int>, n: int, v: int)
    requires LinksOK(g, S) && 0 <= n < |g.elt|
    ensures LinksOK(Raise(g, n, v), S)
  {
    var g' := Raise(g, n, v);
    assert g'.child == g.child && g'.sibling == g.sibling && g'.pre == g.pre;
    assert g'.parent == g.parent && g'.ord == g.ord && |g'.elt| == |g.elt|;
    assert Closed(g', S);
    assert ChildLinked(g', S) by {
      forall m | m in S && g'.child[m] != Null
        ensures g'.parent[g'.child[m]] == m && g'.pre[g'.child[m]] == m
      {
        assert g.child[m] != Null;
      }
    }
    assert SiblingLinked(g', S) by {
      forall m | m in S && g'.sibling[m] != Null
        ensures g'.parent[g'.sibling[m]] == g'.parent[m] && g'.pre[g'.sibling[m]] == m
        ensures g'.ord[g'.sibling[m]] < g'.ord[m]
      {
        assert g.sibling[m] != Null;
      }
    }
    assert PreLinked(g', S) by {
      forall m | m in S
        ensures if g'.parent[m] == Null then g'.pre[m] == Null && g'.sibling[m] == Null
          else
            && g'.ord[m] < g'.ord[g'.parent[m]]
            && ((g'.pre[m] == g'.parent[m] && g'.child[g'.pre[m]] == m) ||
                (g'.pre[m] != g'.parent[m] && g'.pre[m] != Null &&
                 g'.parent[g'.pre[m]] == g'.parent[m] && g'.sibling[g'.pre[m]] == m))
      {
        assert g.pre[m] == g'.pre[m];
      }
    }
  }

  /** A more extreme value at the root of a single tree keeps heap order. */
  lemma RaiseRoot(g: Graph, S: set<int>, root: int, v: int)
    requires WellFormed(g, S, [root]) && root in S
    requires !Compare(v, g.elt[root])
    ensures WellFormed(Raise(g, root, v), S, [root])
  {
    var g' := Raise(g, root, v);
    assert [root][0] == root;
    RaiseLinks(g, S, root, v);
    forall n | n in S && g'.parent[n] != Null
      ensures !Compare(g'.elt[g'.parent[n]], g'.elt[n])
    {
      assert n != root;
      assert !Compare(g.elt[g.parent[n]], g.elt[n]);
    }
  }

  /** The arena after `updateElt` cuts `n` out of its sibling list: the right
      sibling's `pre` takes `n`'s `pre`; then, by the dual meaning of `pre`,
      either the parent's `child` or the left sibling's `sibling` skips `n`;
      finally `n` loses its `sibling` and `pre` and becomes a tree root. */
  ghost function Cut(g: Graph, n: int): Graph
    requires Sized(g) && 0 <= n < |g.elt| && g.pre[n] != Null
  {
    var s, p := g.sibling[n], g.pre[n];
    var pre1 := if s != Null then g.pre[s := p] else g.pre;
    var leftmost := g.child[p] == n;
    g.(child := if leftmost then g.child[p := s] else g.child,
       sibling := (if leftmost then g.sibling else g.sibling[p := s])[n := Null],
       pre := pre1[n := Null],
       parent := g.parent[n := Null])
  }

  /** Facts about the neighbourhood of a non-root node `n` that every part of
      the cut's proof uses. */
  lemma CutFacts(g: Graph, S: set<int>, n: int)
    requires LinksOK(g, S) && n in S && g.parent[n] != Null
    ensures g.pre[n] != Null && g.pre[n] in S && g.parent[n] in S
    ensures (g.child[g.pre[n]] == n) <==> (g.pre[n] == g.parent[n])
    ensures g.ord[n] < g.ord[g.parent[n]] && g.ord[n] < g.ord[g.pre[n]]
    ensures g.sibling[n] != Null ==>
      g.sibling[n] in S && g.pre[g.sibling[n]] == n && g.parent[g.sibling[n]] == g.parent[n] &&
      g.ord[g.sibling[n]] < g.ord[n]
    ensures g.sibling[g.parent[n]] != n
  {
    var p, P := g.pre[n], g.parent[n];
    ParentRank(g, S, P);
    if p != P {
      assert g.sibling[p] == n && g.parent[p] == P;
      assert g.child[p] != n;
    }
  }

  lemma CutClosed(g: Graph, S: set<int>, n: int)
    requires LinksOK(g, S) && n in S && g.parent[n] != Null
    ensures g.pre[n] != Null && Closed(Cut(g, n), S)
  {
    CutFacts(g, S, n);
    var g' := Cut(g, n);
    assert Sized(g');
    forall m | m in S
      ensures Link(S, g'.child[m]) && Link(S, g'.sibling[m]) && Link(S, g'.pre[m]) && Link(S, g'.parent[m])
    {
      assert Link(S, g.child[m]) && Link(S, g.sibling[m]) && Link(S, g.pre[m]) && Link(S, g.parent[m]);
    }
  }

  lemma CutChildLinked(g: Graph, S: set<int>, n: int)
    requires LinksOK(g, S) && n in S && g.parent[n] != Null
    ensures g.pre[n] != Null && Closed(Cut(g, n), S) && ChildLinked(Cut(g, n), S)
  {
    CutFacts(g, S, n);
    CutClosed(g, S, n);
    var g' := Cut(g, n);
    var s, p, P := g.sibling[n], g.pre[n], g.parent[n];
    var leftmost := g.child[p] == n;
    forall m | m in S && g'.child[m] != Null
      ensures g'.parent[g'.child[m]] == m && g'.pre[g'.child[m]] == m
    {
      if !(leftmost && m == p) {
        var x := g.child[m];
        assert g.parent[x] == m && g.pre[x] == m;
        assert x != n && x != s;
      }
    }
  }

  lemma CutSiblingLinked(g: Graph, S: set<int>, n: int)
    requires LinksOK(g, S) && n in S && g.parent[n] != Null
    ensures g.pre[n] != Null && Closed(Cut(g, n), S) && SiblingLinked(Cut(g, n), S)
  {
    CutFacts(g, S, n);
    CutClosed(g, S, n);
    var g' := Cut(g, n);
    var s, p, P := g.sibling[n], g.pre[n], g.parent[n];
    var leftmost := g.child[p] == n;
    forall m | m in S && g'.sibling[m] != Null
      ensures g'.parent[g'.sibling[m]] == g'.parent[m]
      ensures g'.pre[g'.sibling[m]] == m
      ensures g'.ord[g'.sibling[m]] < g'.ord[m]
    {
      if !(!leftmost && m == p) {
        var x := g.sibling[m];
        assert m != n;
        assert g.pre[x] == m && g.parent[x] == g.parent[m] && g.ord[x] < g.ord[m];
        assert x != n && x != s;
      }
    }
  }

  lemma CutPreLinked(g: Graph, S: set<int>, n: int)
    requires LinksOK(g, S) && n in S && g.parent[n] != Null
    ensures g.pre[n] != Null && Closed(Cut(g, n), S) && PreLinked(Cut(g, n), S)
  {
    CutFacts(g, S, n);
    CutClosed(g, S, n);
    var g' := Cut(g, n);
    var s, p, P := g.sibling[n], g.pre[n], g.parent[n];
    var leftmost := g.child[p] == n;
    forall m | m in S
      ensures if g'.parent[m] == Null then g'.pre[m] == Null && g'.sibling[m] == Null
        else
          && g'.ord[m] < g'.ord[g'.parent[m]]
          && ((g'.pre[m] == g'.parent[m] && g'.child[g'.pre[m]] == m) ||
              (g'.pre[m] != g'.parent[m] && g'.pre[m] != Null &&
               g'.parent[g'.pre[m]] == g'.parent[m] && g'.sibling[g'.pre[m]] == m))
    {
      if m != n && m != s {
        var q := g.pre[m];
        assert g'.pre[m] == q && g'.parent[m] == g.parent[m];
        if g.parent[m] == Null {
          assert !leftmost ==> m != p;
        } else {
          assert q != Null;
          if q == g.parent[m] {
            assert g.child[q] == m;
            assert !(leftmost && q == p);
          } else {
            assert g.parent[q] == g.parent[m] && g.sibling[q] == m;
            assert q != n && (!leftmost ==> q != p);
          }
        }
      }
    }
  }

  lemma CutLinks(g: Graph, S: set<int>, n: int)
    requires LinksOK(g, S) && n in S && g.parent[n] != Null
    ensures g.pre[n] != Null
    ensures LinksOK(Cut(g, n), S)
  {
    CutChildLinked(g, S, n);
    CutSiblingLinked(g, S, n);
    CutPreLinked(g, S, n);
  }

  /** `updateElt` (PairingPQ.hpp:216-237) before its final meld: overwriting a
      non-root node with a value at least as extreme and cutting it out leaves
      two heap-ordered trees, the old root's and the node's. */
  lemma CutWellFormed(g: Graph, S: set<int>, root: int, n: int, v: int)
    requires WellFormed(g, S, [root]) && n in S && n != root
    requires !Compare(v, g.elt[n])
    ensures g.pre[n] != Null && root in S
    ensures WellFormed(Cut(Raise(g, n, v), n), S, [root, n])
  {
    SingleRoot(g, S, root);
    var r := Raise(g, n, v);
    RaiseLinks(g, S, n, v);
    CutLinks(r, S, n);
    CutOrdered(g, S, n, v);
    CutRoots(g, S, root, n, v);
  }

  /** The cut keeps heap order: the node's new value is at least as extreme
      as its old one, which dominated its children, and it loses its parent. */
  lemma CutOrdered(g: Graph, S: set<int>, n: int, v: int)
    requires LinksOK(g, S) && HeapOrdered(g, S) && n in S && g.pre[n] != Null
    requires !Compare(v, g.elt[n]) && Closed(Cut(Raise(g, n, v), n), S)
    ensures HeapOrdered(Cut(Raise(g, n, v), n), S)
  {
    var g' := Cut(Raise(g, n, v), n);
    forall m | m in S && g'.parent[m] != Null
      ensures !Compare(g'.elt[g'.parent[m]], g'.elt[m])
    {
      assert m != n && g'.parent[m] == g.parent[m];
      assert !Compare(g.elt[g.parent[m]], g.elt[m]);
    }
  }

  /** After the cut the tree roots are the old root and the node. */
  lemma CutRoots(g: Graph, S: set<int>, root: int, n: int, v: int)
    requires Forest(g, S, [root]) && n in S && n != root && g.pre[n] != Null
    requires LinksOK(Cut(Raise(g, n, v), n), S)
    ensures Forest(Cut(Raise(g, n, v), n), S, [root, n])
  {
    SingleRoot(g, S, root);
    var g' := Cut(Raise(g, n, v), n);
    var roots := [root, n];
    forall m | m in S && g'.parent[m] == Null ensures m in roots {
      if m != n {
        assert g.parent[m] == Null;
      }
    }
  }

  /** The arena after `collectAllNode` clears every link of `n`. */
  ghost function Isolate(g: Graph, n: int): Graph
    requires Sized(g) && 0 <= n < |g.elt|
  {
    g.(child := g.child[n := Null], sibling := g.sibling[n := Null],
       pre := g.pre[n := Null], parent := g.parent[n := Null])
  }

  /** A node outside a forest, once isolated, joins it as one more tree. */
  lemma IsolateJoin(g: Graph, P: set<int>, roots: seq<int>, n: int)
    requires WellFormed(g, P, roots) && 0 <= n < |g.elt| && n !in P
    ensures WellFormed(Isolate(g, n), P + {n}, roots + [n])
  {
    IsolateClosed(g, P, n);
    IsolateLinked(g, P, n);
    IsolateOrdered(g, P, n);
    IsolateRoots(g, P, roots, n);
  }

  /** Clearing the links of a node outside the forest keeps every link in use. */
  lemma IsolateClosed(g: Graph, P: set<int>, n: int)
    requires Closed(g, P) && 0 <= n < |g.elt| && n !in P
    ensures Closed(Isolate(g, n), P + {n})
  {
    var g' := Isolate(g, n);
    var P' := P + {n};
    forall m | m in P'
      ensures Link(P', g'.child[m]) && Link(P', g'.sibling[m]) && Link(P', g'.pre[m]) && Link(P', g'.parent[m])
    {
      if m != n {
        assert Link(P, g.child[m]) && Link(P, g.sibling[m]) && Link(P, g.pre[m]) && Link(P, g.parent[m]);
      }
    }
  }

  /** An isolated node is a tree root of its own, and no other link changes. */
  lemma IsolateLinked(g: Graph, P: set<int>, n: int)
    requires LinksOK(g, P) && 0 <= n < |g.elt| && n !in P
    ensures Closed(Isolate(g, n), P + {n}) && LinksOK(Isolate(g, n), P + {n})
  {
    IsolateClosed(g, P, n);
    var g' := Isolate(g, n);
    var P' := P + {n};
    assert ChildLinked(g', P') by {
      forall m | m in P' && g'.child[m] != Null
        ensures g'.parent[g'.child[m]] == m && g'.pre[g'.child[m]] == m
      {
        assert g.child[m] in P;
      }
    }
    assert SiblingLinked(g', P') by {
      forall m | m in P' && g'.sibling[m] != Null
        ensures g'.parent[g'.sibling[m]] == g'.parent[m]
        ensures g'.pre[g'.sibling[m]] == m
        ensures g'.ord[g'.sibling[m]] < g'.ord[m]
      {
        assert g.sibling[m] in P;
      }
    }
    assert PreLinked(g', P') by {
      forall m | m in P'
        ensures if g'.parent[m] == Null then g'.pre[m] == Null && g'.sibling[m] == Null
          else
            && g'.ord[m] < g'.ord[g'.parent[m]]
            && ((g'.pre[m] == g'.parent[m] && g'.child[g'.pre[m]] == m) ||
                (g'.pre[m] != g'.parent[m] && g'.pre[m] != Null &&
                 g'.parent[g'.pre[m]] == g'.parent[m] && g'.sibling[g'.pre[m]] == m))
      {
        if m != n {
          ParentRank(g, P, m);
        }
      }
    }
  }

  /** A parentless isolated node adds no parent-child pair to check. */
  lemma IsolateOrdered(g: Graph, P: set<int>, n: int)
    requires Closed(g, P) && HeapOrdered(g, P) && 0 <= n < |g.elt| && n !in P
    ensures Closed(Isolate(g, n), P + {n}) && HeapOrdered(Isolate(g, n), P + {n})
  {
    IsolateClosed(g, P, n);
    var g' := Isolate(g, n);
    forall m | m in P + {n} && g'.parent[m] != Null
      ensures !Compare(g'.elt[g'.parent[m]], g'.elt[m])
    {
      assert g.parent[m] in P;
    }
  }

  /** The isolated node is one more tree root. */
  lemma IsolateRoots(g: Graph, P: set<int>, roots: seq<int>, n: int)
    requires Forest(g, P, roots) && 0 <= n < |g.elt| && n !in P
    ensures Forest(Isolate(g, n), P + {n}, roots + [n])
  {
    IsolateLinked(g, P, n);
    var g' := Isolate(g, n);
    var P' := P + {n};
    var roots' := roots + [n];
    forall i | 0 <= i < |roots'| ensures roots'[i] in P' && g'.parent[roots'[i]] == Null {
      if i < |roots| {
        assert roots'[i] == roots[i] && roots[i] in P;
      }
    }
    forall i, j | 0 <= i < j < |roots'| ensures roots'[i] != roots'[j] {
      assert roots'[i] == roots[i] && roots[i] in P;
    }
    forall m | m in P' && g'.parent[m] == Null ensures m in roots' {
      if m != n {
        assert m in roots;
      }
    }
  }

  /** Clears one column entry for every node of `D`. */
  function ClearAt(col: seq<int>, D: set<int>): (r: seq<int>)
    ensures |r| == |col|
    ensures forall i | 0 <= i < |col| :: r[i] == if i in D then Null else col[i]
  {
    seq(|col|, i requires 0 <= i < |col| => if i in D then Null else col[i])
  }

  /** The arena after `pop` has collected the old root's children `D` into its
      work list, clearing each one's `sibling` and `pre` as it goes. */
  ghost function Detach(g: Graph, D: set<int>): Graph {
    g.(sibling := ClearAt(g.sibling, D), pre := ClearAt(g.pre, D), parent := ClearAt(g.parent, D))
  }

  /** The set of entries of a sequence. */
  ghost function Elements(s: seq<int>): set<int> {
    set x | x in s
  }

  /** Which nodes `pop` detaches: exactly the children of the root; every
      other node but the root keeps a parent. */
  lemma DetachFacts(g: Graph, S: set<int>, r: int, m: int)
    requires WellFormed(g, S, [r]) && r in S && m in S
    ensures g.parent[r] == Null
    ensures m in Elements(Kids(g, S, r)) <==> g.parent[m] == r
    ensures m != r ==> g.parent[m] != Null
    ensures g.parent[m] != Null ==> g.parent[m] in S && g.ord[m] < g.ord[g.parent[m]] && g.pre[m] in S
  {
    SingleRoot(g, S, r);
    KidsExact(g, S, r, m);
    ParentRank(g, S, m);
  }

  lemma DetachClosed(g: Graph, S: set<int>, r: int)
    requires WellFormed(g, S, [r]) && r in S
    ensures Closed(Detach(g, Elements(Kids(g, S, r))), S - {r})
  {
    var D := Elements(Kids(g, S, r));
    var g' := Detach(g, D);
    var S' := S - {r};
    forall m | m in S'
      ensures Link(S', g'.child[m]) && Link(S', g'.sibling[m]) && Link(S', g'.pre[m]) && Link(S', g'.parent[m])
    {
      DetachFacts(g, S, r, m);
      assert Link(S, g.child[m]) && Link(S, g.sibling[m]) && Link(S, g.pre[m]) && Link(S, g.parent[m]);
      if g.child[m] != Null {
        DetachFacts(g, S, r, g.child[m]);
      }
      if m !in D {
        if g.sibling[m] != Null {
          DetachFacts(g, S, r, g.sibling[m]);
        }
        var q := g.pre[m];
        if q != g.parent[m] {
          DetachFacts(g, S, r, q);
        }
      }
    }
  }

  lemma DetachLinked(g: Graph, S: set<int>, r: int)
    requires WellFormed(g, S, [r]) && r in S
    ensures Closed(Detach(g, Elements(Kids(g, S, r))), S - {r})
    ensures ChildLinked(Detach(g, Elements(Kids(g, S, r))), S - {r})
    ensures SiblingLinked(Detach(g, Elements(Kids(g, S, r))), S - {r})
  {
    DetachClosed(g, S, r);
    var D := Elements(Kids(g, S, r));
    var g' := Detach(g, D);
    var S' := S - {r};
    forall m | m in S' && g'.child[m] != Null
      ensures g'.parent[g'.child[m]] == m && g'.pre[g'.child[m]] == m
    {
      var x := g.child[m];
      assert g.parent[x] == m && x in S;
      DetachFacts(g, S, r, x);
    }
    forall m | m in S' && g'.sibling[m] != Null
      ensures g'.parent[g'.sibling[m]] == g'.parent[m]
      ensures g'.pre[g'.sibling[m]] == m
      ensures g'.ord[g'.sibling[m]] < g'.ord[m]
    {
      DetachFacts(g, S, r, m);
      var x := g.sibling[m];
      assert g.parent[x] == g.parent[m] && x in S;
      DetachFacts(g, S, r, x);
    }
  }

  lemma DetachPreLinked(g: Graph, S: set<int>, r: int)
    requires WellFormed(g, S, [r]) && r in S
    ensures Closed(Detach(g, Elements(Kids(g, S, r))), S - {r})
    ensures PreLinked(Detach(g, Elements(Kids(g, S, r))), S - {r})
  {
    DetachClosed(g, S, r);
    var D := Elements(Kids(g, S, r));
    var g' := Detach(g, D);
    var S' := S - {r};
    forall m | m in S'
      ensures if g'.parent[m] == Null then g'.pre[m] == Null && g'.sibling[m] == Null
        else
          && g'.ord[m] < g'.ord[g'.parent[m]]
          && ((g'.pre[m] == g'.parent[m] && g'.child[g'.pre[m]] == m) ||
              (g'.pre[m] != g'.parent[m] && g'.pre[m] != Null &&
               g'.parent[g'.pre[m]] == g'.parent[m] && g'.sibling[g'.pre[m]] == m))
    {
      DetachFacts(g, S, r, m);
      if m !in D {
        var q := g.pre[m];
        if q != g.parent[m] {
          assert g.parent[q] == g.parent[m] && q in S;
          DetachFacts(g, S, r, q);
        }
      }
    }
  }

  /** Taking away the root of a single tree leaves a forest whose trees are the
      root's former children, in their left-to-right order, once their
      `sibling` and `pre` links are cleared. */
  lemma DetachWellFormed(g: Graph, S: set<int>, r: int)
    requires WellFormed(g, S, [r]) && r in S
    ensures WellFormed(Detach(g, Elements(Kids(g, S, r))), S - {r}, Kids(g, S, r))
  {
    SingleRoot(g, S, r);
    DetachLinked(g, S, r);
    DetachPreLinked(g, S, r);
    var ks := Kids(g, S, r);
    var D := Elements(ks);
    var g' := Detach(g, D);
    var S' := S - {r};
    assert HeapOrdered(g', S') by {
      forall m | m in S' && g'.parent[m] != Null
        ensures !Compare(g'.elt[g'.parent[m]], g'.elt[m])
      {
        assert g'.parent[m] == g.parent[m];
      }
    }
    forall i | 0 <= i < |ks| ensures ks[i] in S' && g'.parent[ks[i]] == Null {
      assert ks[i] in D;
    }
    forall i, j | 0 <= i < j < |ks| ensures ks[i] != ks[j] {
      assert g.ord[ks[j]] < g.ord[ks[i]];
    }
    forall m | m in S' && g'.parent[m] == Null ensures m in ks {
      DetachFacts(g, S, r, m);
    }
  }

  /** Clearing one more entry. */
  lemma ClearAtAdd(col: seq<int>, D: set<int>, c: int)
    requires 0 <= c < |col|
    ensures ClearAt(col, D + {c}) == ClearAt(col, D)[c := Null]
  {
  }

  /** Detaching one more node clears its `sibling`, `pre` and `parent`. */
  lemma DetachMore(g: Graph, ks: seq<int>, c: int)
    requires Sized(g) && 0 <= c < |g.elt|
    ensures Detach(g, Elements(ks + [c])) ==
      Detach(g, Elements(ks)).(sibling := Detach(g, Elements(ks)).sibling[c := Null],
                               pre := Detach(g, Elements(ks)).pre[c := Null],
                               parent := Detach(g, Elements(ks)).parent[c := Null])
  {
    assert Elements(ks + [c]) == Elements(ks) + {c};
    ClearAtAdd(g.sibling, Elements(ks), c);
    ClearAtAdd(g.pre, Elements(ks), c);
    ClearAtAdd(g.parent, Elements(ks), c);
  }

  /** The arena after `new Node(v)`: one more slot, holding `v`, with null links. */
  ghost function Extend(g: Graph, v: int): Graph {
    Graph(g.elt + [v], g.child + [Null], g.sibling + [Null], g.pre + [Null],
          g.parent + [Null], g.ord + [0])
  }

  /** A freshly allocated node joins a forest as one more single-node tree. */
  lemma ExtendJoin(g: Graph, P: set<int>, roots: seq<int>, v: int)
    requires WellFormed(g, P, roots)
    ensures |g.elt| !in P
    ensures WellFormed(Extend(g, v), P + {|g.elt|}, roots + [|g.elt|])
  {
    ExtendClosed(g, P, v);
    ExtendLinked(g, P, v);
    ExtendOrdered(g, P, v);
    ExtendRoots(g, P, roots, v);
  }

  /** The new slot's null links keep every link inside the arena and in use. */
  lemma ExtendClosed(g: Graph, P: set<int>, v: int)
    requires Closed(g, P)
    ensures |g.elt| !in P && Closed(Extend(g, v), P + {|g.elt|})
  {
    var g' := Extend(g, v);
    var N := |g.elt|;
    var P' := P + {N};
    assert Sized(g') by {
      forall n | 0 <= n < |g'.elt|
        ensures Null <= g'.child[n] < |g'.elt| && Null <= g'.sibling[n] < |g'.elt|
        ensures Null <= g'.pre[n] < |g'.elt| && Null <= g'.parent[n] < |g'.elt|
      {
        if n < N {
          assert Null <= g.child[n] < N && Null <= g.sibling[n] < N;
          assert Null <= g.pre[n] < N && Null <= g.parent[n] < N;
        }
      }
    }
    forall m | m in P'
      ensures Link(P', g'.child[m]) && Link(P', g'.sibling[m]) && Link(P', g'.pre[m]) && Link(P', g'.parent[m])
    {
      if m != N {
        assert Link(P, g.child[m]) && Link(P, g.sibling[m]) && Link(P, g.pre[m]) && Link(P, g.parent[m]);
      }
    }
  }

  /** The new slot is a tree root of its own, and no old link changes. */
  lemma ExtendLinked(g: Graph, P: set<int>, v: int)
    requires LinksOK(g, P)
    ensures |g.elt| !in P && LinksOK(Extend(g, v), P + {|g.elt|})
  {
    ExtendClosed(g, P, v);
    var g' := Extend(g, v);
    var N := |g.elt|;
    var P' := P + {N};
    assert ChildLinked(g', P') by {
      forall m | m in P' && g'.child[m] != Null
        ensures g'.parent[g'.child[m]] == m && g'.pre[g'.child[m]] == m
      {
        assert g.child[m] in P;
      }
    }
    assert SiblingLinked(g', P') by {
      forall m | m in P' && g'.sibling[m] != Null
        ensures g'.parent[g'.sibling[m]] == g'.parent[m]
        ensures g'.pre[g'.sibling[m]] == m
        ensures g'.ord[g'.sibling[m]] < g'.ord[m]
      {
        assert g.sibling[m] in P;
      }
    }
    assert PreLinked(g', P') by {
      forall m | m in P'
        ensures if g'.parent[m] == Null then g'.pre[m] == Null && g'.sibling[m] == Null
          else
            && g'.ord[m] < g'.ord[g'.parent[m]]
            && ((g'.pre[m] == g'.parent[m] && g'.child[g'.pre[m]] == m) ||
                (g'.pre[m] != g'.parent[m] && g'.pre[m] != Null &&
                 g'.parent[g'.pre[m]] == g'.parent[m] && g'.sibling[g'.pre[m]] == m))
      {
        if m != N {
          ParentRank(g, P, m);
        }
      }
    }
  }

  /** A parentless new node adds no parent-child pair to check. */
  lemma ExtendOrdered(g: Graph, P: set<int>, v: int)
    requires Closed(g, P) && HeapOrdered(g, P)
    ensures Closed(Extend(g, v), P + {|g.elt|}) && HeapOrdered(Extend(g, v), P + {|g.elt|})
  {
    ExtendClosed(g, P, v);
    var g' := Extend(g, v);
    forall m | m in P + {|g.elt|} && g'.parent[m] != Null
      ensures !Compare(g'.elt[g'.parent[m]], g'.elt[m])
    {
      assert g.parent[m] in P;
    }
  }

  /** The new node is one more tree root. */
  lemma ExtendRoots(g: Graph, P: set<int>, roots: seq<int>, v: int)
    requires Forest(g, P, roots)
    ensures Forest(Extend(g, v), P + {|g.elt|}, roots + [|g.elt|])
  {
    ExtendLinked(g, P, v);
    var g' := Extend(g, v);
    var N := |g.elt|;
    var P' := P + {N};
    var roots' := roots + [N];
    forall i | 0 <= i < |roots'| ensures roots'[i] in P' && g'.parent[roots'[i]] == Null {
      if i < |roots| {
        assert roots'[i] == roots[i] && roots[i] in P;
      }
    }
    forall i, j | 0 <= i < j < |roots'| ensures roots'[i] != roots'[j] {
      assert roots'[i] == roots[i] && roots[i] in P;
    }
    forall m | m in P' && g'.parent[m] == Null ensures m in roots' {
      if m != N {
        assert m in roots;
      }
    }
  }

  /** `addNode`: a fresh node melded with the root (or standing alone under a
      null root) leaves a single heap-ordered tree over one more node. */
  lemma AddNodeSound(g: Graph, S: set<int>, root: int, v: int)
    requires WellFormed(g, S, if root == Null then [] else [root])
    ensures Sized(Extend(g, v)) && |g.elt| !in S && Null <= root < |g.elt|
    ensures Winner(Extend(g, v), root, |g.elt|) != Null
    ensures WellFormed(MeldGraph(Extend(g, v), root, |g.elt|), S + {|g.elt|},
                       [Winner(Extend(g, v), root, |g.elt|)])
  {
    var N := |g.elt|;
    var R := if root == Null then [] else [root];
    if root != Null {
      assert R[0] == root;
    }
    ExtendJoin(g, S, R, v);
    if root != Null {
      assert R + [N] == [root, N] + [];
      MeldWellFormed(Extend(g, v), S + {N}, root, N, []);
      assert [] + [Winner(Extend(g, v), root, N)] == [Winner(Extend(g, v), root, N)];
    } else {
      assert R + [N] == [N];
    }
  }

  /** One round of `meldRoot`: melding the first two trees of the work list
      and appending the winner leaves a forest with one tree fewer. */
  lemma MeldFront(g: Graph, S: set<int>, q: seq<int>)
    requires WellFormed(g, S, q) && |q| >= 2
    ensures Sized(g) && 0 <= q[0] < |g.elt| && 0 <= q[1] < |g.elt|
    ensures WellFormed(MeldGraph(g, q[0], q[1]), S, q[2..] + [Winner(g, q[0], q[1])])
    ensures MeldGraph(g, q[0], q[1]).elt == g.elt
  {
    assert q == [q[0], q[1]] + q[2..];
    MeldWellFormed(g, S, q[0], q[1], q[2..]);
  }

  /** A root without children is the only node of its tree. */
  lemma LoneRoot(g: Graph, S: set<int>, r: int)
    requires WellFormed(g, S, [r]) && r in S && g.child[r] == Null
    ensures S == {r}
    ensures WellFormed(g, {}, [])
  {
    BelowRoot(g, S, r);
    SingleRoot(g, S, r);
    assert Link(S, g.pre[r]);
    assert g.sibling[r] == Null;
    assert Below(g, S, r) == {r};
  }

  /** One round of `pop`'s collection loop: the next child `c` is not yet in
      the work list, still has its original `sibling`, and unlinking it is
      one more detached node. */
  lemma DetachNext(g: Graph, S: set<int>, r: int, cs: seq<int>, c: int)
    requires LinksOK(g, S) && r in S && c in S
    requires cs + Chain(g, S, c) == Kids(g, S, r)
    ensures c !in Elements(cs) && 0 <= c < |g.elt| && Link(S, g.sibling[c])
    ensures cs + [c] + Chain(g, S, g.sibling[c]) == Kids(g, S, r)
    ensures |Chain(g, S, g.sibling[c])| < |Chain(g, S, c)|
    ensures Detach(g, Elements(cs)).sibling[c] == g.sibling[c]
    ensures Detach(g, Elements(cs + [c])) ==
      Detach(g, Elements(cs)).(sibling := Detach(g, Elements(cs)).sibling[c := Null],
                               pre := Detach(g, Elements(cs)).pre[c := Null],
                               parent := Detach(g, Elements(cs)).parent[c := Null])
  {
    var ks := Kids(g, S, r);
    assert Link(S, g.sibling[c]);
    var t := Chain(g, S, g.sibling[c]);
    assert Chain(g, S, c) == [c] + t;
    assert cs + [c] + t == cs + ([c] + t);
    assert ks[|cs|] == c;
    forall i | 0 <= i < |cs| ensures cs[i] != c {
      assert ks[i] == cs[i];
    }
    DetachMore(g, cs, c);
  }

  /** The arena after `updateElt(n, v)` on a heap rooted at `root`: a new
      value at the root stays in place; any other node is cut out and melded
      with the root. */
  ghost function UpdateGraph(g: Graph, root: int, n: int, v: int): Graph
    requires Sized(g) && 0 <= root < |g.elt| && 0 <= n < |g.elt|
    requires n != root ==> g.pre[n] != Null
  {
    if n == root then Raise(g, n, v)
    else MeldGraph(Cut(Raise(g, n, v), n), root, n)
  }

  /** The root after `updateElt(n, v)`: `n` takes over exactly when `v` is
      more extreme than the root's value. */
  function UpdateRoot(g: Graph, root: int, n: int, v: int): int
    requires 0 <= root < |g.elt|
  {
    if n == root then root
    else if Compare(g.elt[root], v) then n
    else root
  }

  /** `updateElt` below the root: the cut-out node melded back with the root
      leaves a single heap-ordered tree. */
  lemma UpdateBelowRoot(g: Graph, S: set<int>, root: int, n: int, v: int)
    requires WellFormed(g, S, [root]) && root in S && n in S && n != root
    requires !Compare(v, g.elt[n])
    ensures g.pre[n] != Null && Sized(Cut(Raise(g, n, v), n))
    ensures WellFormed(MeldGraph(Cut(Raise(g, n, v), n), root, n), S,
                       [Winner(Cut(Raise(g, n, v), n), root, n)])
  {
    CutWellFormed(g, S, root, n, v);
    var g' := Cut(Raise(g, n, v), n);
    assert [root, n] == [root, n] + [];
    MeldWellFormed(g', S, root, n, []);
  }

  /** `updateElt` keeps a single heap-ordered tree, with `v` at `n` and every
      other value where it was. */
  lemma UpdateEltSound(g: Graph, S: set<int>, root: int, n: int, v: int)
    requires WellFormed(g, S, [root]) && root in S && n in S
    requires !Compare(v, g.elt[n])
    ensures Sized(g) && 0 <= root < |g.elt| && 0 <= n < |g.elt|
    ensures n != root ==> g.pre[n] != Null && Sized(Cut(Raise(g, n, v), n))
    ensures UpdateGraph(g, root, n, v).elt == g.elt[n := v]
    ensures WellFormed(UpdateGraph(g, root, n, v), S, [UpdateRoot(g, root, n, v)])
  {
    if n == root {
      RaiseRoot(g, S, root, v);
    } else {
      UpdateBelowRoot(g, S, root, n, v);
      var g' := Cut(Raise(g, n, v), n);
      assert g'.elt[root] == g.elt[root] && g'.elt[n] == v;
    }
  }


  /** Node `m` has the same `child` and `sibling` in `g` as in `g0`. */
  ghost predicate SameLinks(g: Graph, g0: Graph, m: int)
    requires 0 <= m < |g.child| && 0 <= m < |g.sibling|
    requires 0 <= m < |g0.child| && 0 <= m < |g0.sibling|
  {
    g.child[m] == g0.child[m] && g.sibling[m] == g0.sibling[m]
  }

  /** The state of `collectAllNode` between rounds, over the arena `g0` it
      started from: the nodes still to visit are exactly the regions of the
      stack `st`, and have their original `child` and `sibling`; the nodes
      already visited, `P`, form one heap-ordered tree under `r` (none while
      `r` is null). */
  ghost predicate Collecting(g0: Graph, S: set<int>, g: Graph, P: set<int>, r: int, st: seq<int>) {
    CollectStack(g0, S, P, st) && CollectTree(g0, S, g, P, r)
  }

  /** The stack half of `Collecting`: the stack's regions cover exactly the
      nodes not yet visited, without overlap. */
  ghost predicate CollectStack(g0: Graph, S: set<int>, P: set<int>, st: seq<int>) {
    && LinksOK(g0, S)
    && (forall i | 0 <= i < |st| :: st[i] in S)
    && Separate(g0, S, st)
    && UnionBelow(g0, S, st) == S - P
  }

  /** The tree half of `Collecting`: the visited nodes form the new tree and
      the others still have their original links. */
  ghost predicate CollectTree(g0: Graph, S: set<int>, g: Graph, P: set<int>, r: int) {
    && LinksOK(g0, S)
    && P <= S
    && WellFormed(g, P, if r == Null then [] else [r])
    && (r != Null || P == {})
    && g.elt == g0.elt
    && (forall m | m in S - P :: SameLinks(g, g0, m))
  }

  /** The tree part of a `collectAllNode` round: an isolated node melded
      with the tree built so far (or standing alone) makes one tree more. */
  lemma CollectJoin(g: Graph, P: set<int>, r: int, x: int)
    requires WellFormed(g, P, if r == Null then [] else [r]) && 0 <= x < |g.elt| && x !in P
    ensures Sized(Isolate(g, x)) && Null <= r < |g.elt|
    ensures r != Null ==> r in P && Link(P, g.child[r])
    ensures WellFormed(MeldGraph(Isolate(g, x), r, x), P + {x}, [Winner(Isolate(g, x), r, x)])
  {
    var R := if r == Null then [] else [r];
    if r != Null {
      assert R[0] == r;
      assert Link(P, g.child[r]);
    }
    var gi := Isolate(g, x);
    IsolateJoin(g, P, R, x);
    if r != Null {
      assert R + [x] == [r, x] + [];
      MeldWellFormed(gi, P + {x}, r, x, []);
    } else {
      assert R + [x] == [x];
    }
  }

  /** A `collectAllNode` round changes no link of a node still to visit. */
  lemma CollectFrame(g0: Graph, S: set<int>, g: Graph, P: set<int>, r: int, x: int)
    requires Sized(g) && 0 <= x < |g.elt| && Sized(Isolate(g, x)) && Null <= r < |g.elt|
    requires LinksOK(g0, S) && g.elt == g0.elt
    requires r != Null ==> r in P && Link(P, g.child[r])
    requires forall m | m in S - P :: SameLinks(g, g0, m)
    ensures forall m | m in S - (P + {x}) :: SameLinks(MeldGraph(Isolate(g, x), r, x), g0, m)
  {
    var g' := MeldGraph(Isolate(g, x), r, x);
    forall m | m in S - (P + {x})
      ensures SameLinks(g', g0, m)
    {
      assert SameLinks(g, g0, m);
      if r != Null {
        assert m != r && m != x && m != g.child[r];
      }
    }
  }

  /** The stack half of a `collectAllNode` round: the popped node was not
      yet visited, and pushing its child and sibling keeps the stack's regions
      exact. */
  lemma CollectStackStep(g0: Graph, S: set<int>, P: set<int>, st: seq<int>)
    requires CollectStack(g0, S, P, st) && st != []
    ensures st[|st| - 1] in S - P
    ensures CollectStack(g0, S, P + {st[|st| - 1]}, PushSuccessors(g0, st[..|st| - 1], st[|st| - 1]))
  {
    var x, rest := st[|st| - 1], st[..|st| - 1];
    StackStep(g0, S, st);
    assert S - P - {x} == S - (P + {x});
  }

  /** The tree half of a `collectAllNode` round: the isolated node joins the
      new tree and the nodes still to visit keep their links. */
  lemma CollectTreeStep(g0: Graph, S: set<int>, g: Graph, P: set<int>, r: int, x: int)
    requires CollectTree(g0, S, g, P, r) && x in S - P
    ensures 0 <= x < |g.elt| && Sized(g) && Null <= r < |g.elt| && Sized(Isolate(g, x))
    ensures g.child[x] == g0.child[x] && g.sibling[x] == g0.sibling[x]
    ensures CollectTree(g0, S, MeldGraph(Isolate(g, x), r, x), P + {x}, Winner(Isolate(g, x), r, x))
  {
    assert SameLinks(g, g0, x);
    CollectJoin(g, P, r, x);
    CollectFrame(g0, S, g, P, r, x);
    assert Winner(Isolate(g, x), r, x) != Null;
  }

  /** One round of `collectAllNode`: pop `x`, push its child and sibling,
      clear all of its links and meld it with the tree built so far. */
  lemma CollectStep(g0: Graph, S: set<int>, g: Graph, P: set<int>, r: int, st: seq<int>)
    requires Collecting(g0, S, g, P, r, st) && st != []
    ensures var x := st[|st| - 1];
      && x in S && x !in P && 0 <= x < |g.elt| && Sized(g) && Null <= r < |g.elt|
      && Sized(Isolate(g, x))
      && g.child[x] == g0.child[x] && g.sibling[x] == g0.sibling[x]
      && Collecting(g0, S, MeldGraph(Isolate(g, x), r, x), P + {x},
                    Winner(Isolate(g, x), r, x), PushSuccessors(g0, st[..|st| - 1], x))
  {
    CollectStackStep(g0, S, P, st);
    CollectTreeStep(g0, S, g, P, r, st[|st| - 1]);
  }

  /** `collectAllNode` starts with the old root on the stack and nothing
      visited. */
  lemma CollectStart(g: Graph, S: set<int>, root: int)
    requires Forest(g, S, [root]) && root in S
    ensures Collecting(g, S, g, {}, Null, [root])
  {
    BelowRoot(g, S, root);
    assert [root][..0] == [];
  }

  /** When the stack runs empty every node has been visited and lies in the
      one tree that was built. */
  lemma CollectDone(g0: Graph, S: set<int>, g: Graph, P: set<int>, r: int)
    requires Collecting(g0, S, g, P, r, []) && S != {}
    ensures P == S && r != Null && WellFormed(g, S, [r])
  {
    assert S - P == {};
    forall x | x in S
      ensures x in P
    {
      assert x !in S - P;
    }
    assert P == S;
  }
}
