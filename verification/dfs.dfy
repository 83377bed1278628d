/**
 * Depth-first postorder with a visited set, over a directed graph given by
 * adjacency lists. This is the traversal both `Composite._toposort` and the
 * scheduler's `dfs_postorder_nodes` perform: roots are tried in order, a node
 * is marked visited on entry, its successors are visited in order, and it is
 * appended to the postorder once they are done. The visited set makes the
 * traversal terminate on cyclic graphs.
 */
module Dfs {
  import opened Common

  type Adjacency<N> = map<N, seq<N>>

  function Succ<N>(g: Adjacency<N>, n: N): seq<N>
  {
    if n in g then g[n] else []
  }

  /** Every node the traversal can reach from `roots`: they and all edge endpoints. */
  function Universe<N>(g: Adjacency<N>, roots: seq<N>): set<N>
  {
    Elems(roots) + g.Keys + (set n, m | n in g && m in g[n] :: m)
  }

  /** `U` contains every successor of its members. */
  ghost predicate Closed<N>(g: Adjacency<N>, U: set<N>)
  {
    forall n, m :: n in U && m in Succ(g, n) ==> m in U
  }

  datatype Walk<N> = Walk(visited: set<N>, post: seq<N>)

  /** The nodes appended to `r.post` after the prefix `w.post`. */
  function Added<N>(w: Walk<N>, r: Walk<N>): seq<N>
    requires |w.post| <= |r.post|
  {
    r.post[|w.post|..]
  }

  /** `r` extends `w`: more nodes visited, and exactly the newly visited nodes appended once each. */
  ghost predicate Extends<N>(w: Walk<N>, r: Walk<N>, U: set<N>)
  {
    && w.visited <= r.visited
    && r.visited <= w.visited + U
    && |w.post| <= |r.post|
    && r.post[..|w.post|] == w.post
    && Elems(Added(w, r)) == r.visited - w.visited
    && Distinct(Added(w, r))
  }

  lemma {:induction false} ExtendsTrans<N>(a: Walk<N>, b: Walk<N>, c: Walk<N>, U: set<N>)
    requires Extends(a, b, U) && Extends(b, c, U)
    ensures Extends(a, c, U)
  {
    var ab, bc, ac := Added(a, b), Added(b, c), Added(a, c);
    assert c.post[..|b.post|] == b.post;
    assert ac == ab + bc by {
      assert c.post == b.post + bc;
      assert b.post == a.post + ab;
    }
    assert Elems(ac) == Elems(ab) + Elems(bc);
    forall i, j | 0 <= i < j < |ac| ensures ac[i] != ac[j] {
      if j < |ab| {
      } else if i >= |ab| {
        assert ac[i] == bc[i - |ab|] && ac[j] == bc[j - |ab|];
      } else {
        assert ac[i] in Elems(ab) && ac[j] == bc[j - |ab|] && ac[j] in Elems(bc);
      }
    }
  }

  lemma {:induction false} SubsetCard<N>(X: set<N>, Y: set<N>)
    requires X <= Y
    ensures |X| <= |Y|
    decreases Y
  {
    if X != {} {
      var x :| x in X;
      SubsetCard(X - {x}, Y - {x});
    }
  }

  lemma CardSubset<N>(U: set<N>, A: set<N>, B: set<N>)
    requires A <= B
    ensures |U - B| <= |U - A|
  {
    SubsetCard(U - B, U - A);
  }

  /** Visit `n`: the recursive `_impl` of `_toposort` / one DFS tree of networkx. */
  function Visit<N>(g: Adjacency<N>, U: set<N>, n: N, w: Walk<N>): (r: Walk<N>)
    requires Closed(g, U) && n in U
    ensures Extends(w, r, U)
    ensures n in r.visited
    decreases |U - w.visited|, 0, 0
  {
    if n in w.visited then
      assert Added(w, w) == [];
      w
    else
      var w1 := Walk(w.visited + {n}, w.post);
      assert |U - w1.visited| < |U - w.visited| by {
        assert U - w1.visited == (U - w.visited) - {n};
      }
      var r1 := VisitAll(g, U, Succ(g, n), w1);
      Finish(w, r1, n, U);
      Walk(r1.visited, r1.post + [n])
  }

  /** Appending `n` once its successors are done keeps the walk an extension. */
  lemma Finish<N>(w: Walk<N>, r1: Walk<N>, n: N, U: set<N>)
    requires n !in w.visited && n in U
    requires Extends(Walk(w.visited + {n}, w.post), r1, U)
    ensures Extends(w, Walk(r1.visited, r1.post + [n]), U)
  {
    var w1 := Walk(w.visited + {n}, w.post);
    var r := Walk(r1.visited, r1.post + [n]);
    assert r1.post == w1.post + Added(w1, r1);
    assert Added(w, r) == Added(w1, r1) + [n];
    assert Elems(Added(w, r)) == Elems(Added(w1, r1)) + {n};
    assert n !in Elems(Added(w1, r1));
  }

  /** Visit each of `ns` in order. */
  function VisitAll<N>(g: Adjacency<N>, U: set<N>, ns: seq<N>, w: Walk<N>): (r: Walk<N>)
    requires Closed(g, U) && Elems(ns) <= U
    ensures Extends(w, r, U)
    ensures Elems(ns) <= r.visited
    decreases |U - w.visited|, 1, |ns|
  {
    if ns == [] then
      assert Added(w, w) == [];
      w
    else
      var w1 := Visit(g, U, ns[0], w);
      CardSubset(U, w.visited, w1.visited);
      var r := VisitAll(g, U, ns[1..], w1);
      ExtendsTrans(w, w1, r, U);
      assert Elems(ns) == {ns[0]} + Elems(ns[1..]);
      r
  }

  lemma UniverseClosed<N>(g: Adjacency<N>, roots: seq<N>)
    ensures Closed(g, Universe(g, roots))
    ensures Elems(roots) <= Universe(g, roots)
  {
    var U := Universe(g, roots);
    forall n, m | n in U && m in Succ(g, n) ensures m in U {
      assert n in g;
    }
  }

  /** The depth-first postorder from `roots`: every root, each node once (`PostorderReachable` says which nodes). */
  function Postorder<N>(g: Adjacency<N>, roots: seq<N>): (post: seq<N>)
    ensures Distinct(post)
    ensures Elems(roots) <= Elems(post) <= Universe(g, roots)
  {
    UniverseClosed(g, roots);
    var w0 := Walk({}, []);
    var r := VisitAll(g, Universe(g, roots), roots, w0);
    assert Added(w0, r) == r.post;
    r.post
  }

  /** `p` follows edges of `g`. */
  ghost predicate IsPath<N>(g: Adjacency<N>, p: seq<N>)
  {
    forall i :: 0 <= i < |p| - 1 ==> p[i + 1] in Succ(g, p[i])
  }

  // ---------------------------------------------------------------- reachability

  /** Some path of `g` leads from one of `roots` to `m`. */
  ghost predicate Reaches<N(!new)>(g: Adjacency<N>, roots: seq<N>, m: N)
  {
    exists p: seq<N> :: |p| >= 1 && p[0] in roots && p[|p| - 1] == m && IsPath(g, p)
  }

  lemma ReachRoot<N(!new)>(g: Adjacency<N>, roots: seq<N>, n: N)
    requires n in roots
    ensures Reaches(g, roots, n)
  {
    assert IsPath(g, [n]);
  }

  lemma ReachSucc<N(!new)>(g: Adjacency<N>, roots: seq<N>, n: N, m: N)
    requires Reaches(g, roots, n) && m in Succ(g, n)
    ensures Reaches(g, roots, m)
  {
    var p :| |p| >= 1 && p[0] in roots && p[|p| - 1] == n && IsPath(g, p);
    var q := p + [m];
    assert forall i :: 0 <= i < |q| - 1 ==> q[i + 1] in Succ(g, q[i]) by {
      forall i | 0 <= i < |q| - 1 ensures q[i + 1] in Succ(g, q[i]) {
        if i < |p| - 1 {
          assert q[i] == p[i] && q[i + 1] == p[i + 1];
        }
      }
    }
    assert IsPath(g, q) && q[0] == p[0];
  }

  /**
   * During the traversal every visited node is reachable, and every
   * finished node has all its successors visited.
   */
  ghost predicate ReachInv<N(!new)>(g: Adjacency<N>, roots: seq<N>, w: Walk<N>)
  {
    && (forall v :: v in w.visited ==> Reaches(g, roots, v))
    && (forall i, m :: 0 <= i < |w.post| && m in Succ(g, w.post[i]) ==> m in w.visited)
  }

  lemma {:induction false} VisitReach<N(!new)>(g: Adjacency<N>, U: set<N>, n: N, w: Walk<N>, roots: seq<N>)
    requires Closed(g, U) && n in U
    requires ReachInv(g, roots, w) && Reaches(g, roots, n)
    ensures ReachInv(g, roots, Visit(g, U, n, w))
    decreases |U - w.visited|, 0, 0
  {
    if n !in w.visited {
      var w1 := Walk(w.visited + {n}, w.post);
      assert |U - w1.visited| < |U - w.visited| by {
        assert U - w1.visited == (U - w.visited) - {n};
      }
      forall m | m in Succ(g, n) ensures Reaches(g, roots, m) {
        ReachSucc(g, roots, n, m);
      }
      VisitAllReach(g, U, Succ(g, n), w1, roots);
      var r1 := VisitAll(g, U, Succ(g, n), w1);
      FinishReach(g, roots, r1, n);
    }
  }

  /** Appending a node whose successors are all visited keeps the invariant. */
  lemma FinishReach<N(!new)>(g: Adjacency<N>, roots: seq<N>, r1: Walk<N>, n: N)
    requires ReachInv(g, roots, r1) && Elems(Succ(g, n)) <= r1.visited
    ensures ReachInv(g, roots, Walk(r1.visited, r1.post + [n]))
  {
    var post := r1.post + [n];
    forall i, m | 0 <= i < |post| && m in Succ(g, post[i]) ensures m in r1.visited {
      if i < |r1.post| {
        assert post[i] == r1.post[i];
      }
    }
  }

  lemma {:induction false} VisitAllReach<N(!new)>(g: Adjacency<N>, U: set<N>, ns: seq<N>, w: Walk<N>, roots: seq<N>)
    requires Closed(g, U) && Elems(ns) <= U
    requires ReachInv(g, roots, w) && forall m :: m in ns ==> Reaches(g, roots, m)
    ensures ReachInv(g, roots, VisitAll(g, U, ns, w))
    decreases |U - w.visited|, 1, |ns|
  {
    if ns != [] {
      VisitReach(g, U, ns[0], w, roots);
      var w1 := Visit(g, U, ns[0], w);
      CardSubset(U, w.visited, w1.visited);
      VisitAllReach(g, U, ns[1..], w1, roots);
    }
  }

  /** A path that starts in a successor-closed set stays in it. */
  lemma {:induction false} PathStaysIn<N>(g: Adjacency<N>, S: set<N>, p: seq<N>)
    requires Closed(g, S) && |p| >= 1 && p[0] in S && IsPath(g, p)
    ensures p[|p| - 1] in S
    decreases |p|
  {
    if |p| > 1 {
      var q := p[..|p| - 1];
      assert IsPath(g, q) by {
        forall i | 0 <= i < |q| - 1 ensures q[i + 1] in Succ(g, q[i]) {
          assert q[i] == p[i] && q[i + 1] == p[i + 1];
        }
      }
      PathStaysIn(g, S, q);
      assert p[|p| - 1] in Succ(g, p[|p| - 2]);
    }
  }

  /**
   * `dfs_postorder_nodes` lists exactly the nodes reachable from the roots:
   * a node is in the postorder iff some path leads to it from a root.
   */
  lemma PostorderReachable<N(!new)>(g: Adjacency<N>, roots: seq<N>, m: N)
    ensures m in Postorder(g, roots) <==> Reaches(g, roots, m)
  {
    UniverseClosed(g, roots);
    var U := Universe(g, roots);
    var w0 := Walk({}, []);
    forall n | n in roots ensures Reaches(g, roots, n) {
      ReachRoot(g, roots, n);
    }
    VisitAllReach(g, U, roots, w0, roots);
    var r := VisitAll(g, U, roots, w0);
    assert Added(w0, r) == r.post;
    assert r.post == Postorder(g, roots);
    var S := Elems(r.post);
    assert S == r.visited;
    forall v, x | v in S && x in Succ(g, v) ensures x in S {
      var i :| 0 <= i < |r.post| && r.post[i] == v;
    }
    if Reaches(g, roots, m) {
      var p :| |p| >= 1 && p[0] in roots && p[|p| - 1] == m && IsPath(g, p);
      PathStaysIn(g, S, p);
    }
  }

  /** No path of one or more edges returns to where it started. */
  ghost predicate Acyclic<N(!new)>(g: Adjacency<N>)
  {
    forall p: seq<N> :: |p| >= 2 && IsPath(g, p) ==> p[0] != p[|p| - 1]
  }

  /** Every node's successors occur earlier in `post`. */
  ghost predicate SuccessorsFirst<N>(g: Adjacency<N>, post: seq<N>)
  {
    forall i, m :: 0 <= i < |post| && m in Succ(g, post[i]) ==> m in post[..i]
  }

  /**
   * During the traversal the visited nodes are the finished ones and those on
   * the recursion stack; finished nodes have their successors finished first.
   */
  ghost predicate OnStackInv<N>(g: Adjacency<N>, w: Walk<N>, stack: seq<N>)
  {
    && w.visited == Elems(w.post) + Elems(stack)
    && Elems(w.post) !! Elems(stack)
    && SuccessorsFirst(g, w.post)
  }

  /** In an acyclic graph no edge leads from the top of the stack back into it. */
  lemma NoBackEdge<N(!new)>(g: Adjacency<N>, stack: seq<N>, m: N)
    requires Acyclic(g) && IsPath(g, stack) && |stack| > 0
    requires m in Succ(g, stack[|stack| - 1])
    ensures m !in stack
  {
    if m in stack {
      var k :| 0 <= k < |stack| && stack[k] == m;
      CycleThrough(g, stack, k, m);
      assert false;
    }
  }

  /** A stack path from `stack[k]` closed by an edge back to `stack[k]` is a cycle. */
  lemma CycleThrough<N>(g: Adjacency<N>, stack: seq<N>, k: nat, m: N)
    requires IsPath(g, stack) && k < |stack| && stack[k] == m
    requires m in Succ(g, stack[|stack| - 1])
    ensures var p := stack[k..] + [m]; |p| >= 2 && p[0] == p[|p| - 1] && IsPath(g, p)
  {
    var p := stack[k..] + [m];
    forall i | 0 <= i < |p| - 1 ensures p[i + 1] in Succ(g, p[i]) {
      if i < |p| - 2 {
        assert p[i] == stack[k + i] && p[i + 1] == stack[k + i + 1];
      }
    }
  }

  lemma {:induction false} VisitOrdered<N(!new)>(g: Adjacency<N>, U: set<N>, n: N, w: Walk<N>, stack: seq<N>)
    requires Closed(g, U) && n in U && Acyclic(g)
    requires OnStackInv(g, w, stack) && IsPath(g, stack + [n])
    ensures OnStackInv(g, Visit(g, U, n, w), stack)
    decreases |U - w.visited|, 0, 0
  {
    if n !in w.visited {
      var w1 := Walk(w.visited + {n}, w.post);
      var st := stack + [n];
      assert |U - w1.visited| < |U - w.visited| by {
        assert U - w1.visited == (U - w.visited) - {n};
      }
      Enter(g, w, n, stack);
      VisitAllOrdered(g, U, Succ(g, n), w1, st);
      var r1 := VisitAll(g, U, Succ(g, n), w1);
      SuccsFinished(g, r1, stack, n);
      FinishOrdered(g, r1, n, stack);
    }
  }

  /** Once the successors of the top of the stack are visited, none is on the stack: all are finished. */
  lemma SuccsFinished<N(!new)>(g: Adjacency<N>, r1: Walk<N>, stack: seq<N>, n: N)
    requires Acyclic(g) && IsPath(g, stack + [n]) && OnStackInv(g, r1, stack + [n])
    requires Elems(Succ(g, n)) <= r1.visited
    ensures forall m :: m in Succ(g, n) ==> m in Elems(r1.post)
  {
    var st := stack + [n];
    assert st[|st| - 1] == n;
    forall m | m in Succ(g, n) ensures m in Elems(r1.post) {
      NoBackEdge(g, st, m);
    }
  }

  /** Entering an unvisited node pushes it on the stack. */
  lemma Enter<N>(g: Adjacency<N>, w: Walk<N>, n: N, stack: seq<N>)
    requires OnStackInv(g, w, stack) && n !in w.visited && IsPath(g, stack + [n])
    ensures OnStackInv(g, Walk(w.visited + {n}, w.post), stack + [n])
    ensures forall m :: m in Succ(g, n) ==> IsPath(g, stack + [n] + [m])
  {
    assert Elems(stack + [n]) == Elems(stack) + {n};
    forall m | m in Succ(g, n) ensures IsPath(g, stack + [n] + [m]) {
      var p := stack + [n] + [m];
      forall i | 0 <= i < |p| - 1 ensures p[i + 1] in Succ(g, p[i]) {
        if i < |p| - 2 {
          assert p[i] == (stack + [n])[i] && p[i + 1] == (stack + [n])[i + 1];
        }
      }
    }
  }

  /** Appending a node whose successors are all finished keeps the invariant. */
  lemma FinishOrdered<N>(g: Adjacency<N>, r1: Walk<N>, n: N, stack: seq<N>)
    requires OnStackInv(g, r1, stack + [n]) && n !in stack
    requires forall m :: m in Succ(g, n) ==> m in Elems(r1.post)
    ensures OnStackInv(g, Walk(r1.visited, r1.post + [n]), stack)
  {
    var r := Walk(r1.visited, r1.post + [n]);
    forall i, m | 0 <= i < |r.post| && m in Succ(g, r.post[i]) ensures m in r.post[..i] {
      if i < |r1.post| {
        assert r.post[i] == r1.post[i] && r.post[..i] == r1.post[..i];
      } else {
        assert r.post[..i] == r1.post;
      }
    }
    assert Elems(r.post) == Elems(r1.post) + {n};
    assert Elems(stack + [n]) == Elems(stack) + {n};
  }

  lemma {:induction false} VisitAllOrdered<N(!new)>(g: Adjacency<N>, U: set<N>, ns: seq<N>, w: Walk<N>, stack: seq<N>)
    requires Closed(g, U) && Elems(ns) <= U && Acyclic(g)
    requires OnStackInv(g, w, stack)
    requires forall m :: m in ns ==> IsPath(g, stack + [m])
    ensures OnStackInv(g, VisitAll(g, U, ns, w), stack)
    decreases |U - w.visited|, 1, |ns|
  {
    if ns != [] {
      VisitOrdered(g, U, ns[0], w, stack);
      var w1 := Visit(g, U, ns[0], w);
      CardSubset(U, w.visited, w1.visited);
      VisitAllOrdered(g, U, ns[1..], w1, stack);
    }
  }

  /** In an acyclic graph the postorder lists every node after all of its successors. */
  lemma PostorderRespectsEdges<N(!new)>(g: Adjacency<N>, roots: seq<N>)
    requires Acyclic(g)
    ensures SuccessorsFirst(g, Postorder(g, roots))
  {
    UniverseClosed(g, roots);
    var U := Universe(g, roots);
    forall m | m in roots ensures IsPath(g, [] + [m]) {}
    VisitAllOrdered(g, U, roots, Walk({}, []), []);
  }
}
