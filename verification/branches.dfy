/**
 * `find_head_nodes` and `find_all_branches` (pages/4_Markers.py): the nodes
 * nothing points to, and the depth-first enumeration of the simple paths that
 * leave a node.
 */
module Branches {
  import opened Sequences
  import opened ConceptGraph

  // ---------------------------------------------------------------------
  // find_head_nodes
  // ---------------------------------------------------------------------

  /** How many of the nodes `us` have an edge to `n`; over all nodes this is `in_degree(n)`. */
  function InDegree(g: Graph, n: string, us: seq<string>): nat {
    if us == [] then 0
    else
      var u := us[|us| - 1];
      InDegree(g, n, us[..|us| - 1]) + (if u in g.succ && n in g.succ[u] then 1 else 0)
  }

  /** A node no edge points to. */
  ghost predicate IsHead(g: Graph, n: string) {
    n in g.succ && forall u :: u in g.succ ==> n !in g.succ[u]
  }

  /** The nodes among `us` whose in-degree is 0, in the order of `us`. */
  function HeadsAmong(g: Graph, us: seq<string>): seq<string> {
    if us == [] then []
    else
      var n := us[|us| - 1];
      HeadsAmong(g, us[..|us| - 1]) + (if InDegree(g, n, g.nodes) == 0 then [n] else [])
  }

  /** `find_head_nodes(G)`: the nodes of in-degree 0, in node order. */
  function FindHeadNodes(g: Graph): seq<string> {
    HeadsAmong(g, g.nodes)
  }

  /** `in_degree` is 0 exactly when no node among `us` has an edge to `n`. */
  lemma {:induction false} InDegreeZero(g: Graph, n: string, us: seq<string>)
    ensures InDegree(g, n, us) == 0 <==> forall u :: u in us && u in g.succ ==> n !in g.succ[u]
  {
    if us != [] {
      var init := us[..|us| - 1];
      InDegreeZero(g, n, init);
      assert us == init + [us[|us| - 1]];
    }
  }

  /** Helper: the filter keeps exactly the qualifying members of `us`, once each and in order. */
  lemma {:induction false} HeadsAmongSpec(g: Graph, us: seq<string>)
    requires NoDups(us)
    ensures forall n :: n in HeadsAmong(g, us) ==> n in us && InDegree(g, n, g.nodes) == 0
    ensures forall n :: n in us && InDegree(g, n, g.nodes) == 0 ==> n in HeadsAmong(g, us)
    ensures NoDups(HeadsAmong(g, us))
    ensures InFirstOccurrenceOrder(HeadsAmong(g, us), us)
  {
    if us != [] {
      var init := us[..|us| - 1];
      var n := us[|us| - 1];
      assert us == init + [n];
      HeadsAmongSpec(g, init);
      OrderSnoc(HeadsAmong(g, init), init, n);
    }
  }

  /** `find_head_nodes` returns exactly the heads, each once, in node order. */
  lemma FindHeadNodesSpec(g: Graph)
    requires g.Valid()
    ensures forall n :: n in FindHeadNodes(g) ==> IsHead(g, n)
    ensures forall n :: IsHead(g, n) ==> n in FindHeadNodes(g)
    ensures NoDups(FindHeadNodes(g))
    ensures InFirstOccurrenceOrder(FindHeadNodes(g), g.nodes)
  {
    HeadsAmongSpec(g, g.nodes);
    forall n | n in FindHeadNodes(g)
      ensures IsHead(g, n)
    {
      InDegreeZero(g, n, g.nodes);
    }
    forall n | IsHead(g, n)
      ensures n in FindHeadNodes(g)
    {
      InDegreeZero(g, n, g.nodes);
    }
  }

  /** A graph whose every node has an incoming edge has no head. */
  lemma NoHeadsWhenAllEntered(g: Graph)
    requires forall n :: n in g.nodes ==> exists u :: u in g.nodes && u in g.succ && n in g.succ[u]
    ensures FindHeadNodes(g) == []
  {
    forall n | n in g.nodes
      ensures InDegree(g, n, g.nodes) > 0
    {
      var u :| u in g.nodes && u in g.succ && n in g.succ[u];
      InDegreePositive(g, n, g.nodes, u);
    }
    HeadsAmongNone(g, g.nodes);
  }

  /** Helper: an edge from one of `us` counts towards the in-degree. */
  lemma InDegreePositive(g: Graph, n: string, us: seq<string>, u: string)
    requires u in us && u in g.succ && n in g.succ[u]
    ensures InDegree(g, n, us) > 0
  {
    InDegreeZero(g, n, us);
  }

  /** Helper: the filter keeps nothing when nothing qualifies. */
  lemma {:induction false} HeadsAmongNone(g: Graph, us: seq<string>)
    requires forall n :: n in us ==> InDegree(g, n, g.nodes) > 0
    ensures HeadsAmong(g, us) == []
  {
    if us != [] {
      HeadsAmongNone(g, us[..|us| - 1]);
    }
  }

  // ---------------------------------------------------------------------
  // find_all_branches
  // ---------------------------------------------------------------------

  /** The nodes on a path. */
  function Elems(path: seq<string>): set<string> {
    set x | x in path
  }

  /** The nodes a path has not visited yet; it shrinks with every step of the search. */
  function Unvisited(g: Graph, path: seq<string>): set<string> {
    g.succ.Keys - Elems(path)
  }

  /** Helper: stepping to a node off the path leaves fewer nodes to visit. */
  lemma UnvisitedShrinks(g: Graph, path: seq<string>, v: string)
    requires v in g.succ && v !in path
    ensures Unvisited(g, path + [v]) < Unvisited(g, path)
  {
    assert v in Unvisited(g, path) && v !in Unvisited(g, path + [v]);
  }

  /**
   * The branches `dfs(path)` appends, in the order it appends them: those of
   * every neighbour off the path, and then `path` itself when it has two or
   * more nodes.
   */
  function BranchesFrom(g: Graph, path: seq<string>): seq<seq<string>>
    requires g.Valid() && path != [] && path[|path| - 1] in g.succ
    decreases Unvisited(g, path), 1
  {
    Explore(g, path, g.succ[path[|path| - 1]]) + (if |path| > 1 then [path] else [])
  }

  /** The branches appended while the loop of `dfs(path)` walks the neighbours `nbrs`. */
  function Explore(g: Graph, path: seq<string>, nbrs: seq<string>): seq<seq<string>>
    requires g.Valid() && forall v :: v in nbrs ==> v in g.succ
    decreases Unvisited(g, path), 0, |nbrs|
  {
    if nbrs == [] then []
    else if nbrs[0] in path then Explore(g, path, nbrs[1..])
    else
      UnvisitedShrinks(g, path, nbrs[0]);
      BranchesFrom(g, path + [nbrs[0]]) + Explore(g, path, nbrs[1..])
  }

  /** The shared `branches` list that the nested `dfs` appends to. */
  class BranchList {
    var branches: seq<seq<string>>

    constructor()
      ensures branches == []
    {
      branches := [];
    }

    /** `dfs(path)`: appends the branches found from `path`. */
    method Dfs(g: Graph, path: seq<string>)
      requires g.Valid() && path != [] && path[|path| - 1] in g.succ
      modifies this
      ensures branches == old(branches) + BranchesFrom(g, path)
      decreases Unvisited(g, path)
    {
      var nbrs := g.succ[path[|path| - 1]];
      assert nbrs[0..] == nbrs;
      for i := 0 to |nbrs|
        invariant branches + Explore(g, path, nbrs[i..]) == old(branches) + Explore(g, path, nbrs)
      {
        ExploreStep(g, path, nbrs, i);
        if nbrs[i] !in path {
          UnvisitedShrinks(g, path, nbrs[i]);
          Dfs(g, path + [nbrs[i]]);
        }
      }
      ExploreEnd(g, path, nbrs);
      assert branches == old(branches) + Explore(g, path, nbrs);
      if |path| > 1 {
        branches := branches + [path];
      }
    }
  }

  /** Helper: after the neighbour loop nothing is left to explore, and the path itself comes last. */
  lemma ExploreEnd(g: Graph, path: seq<string>, nbrs: seq<string>)
    requires g.Valid() && path != [] && path[|path| - 1] in g.succ && nbrs == g.succ[path[|path| - 1]]
    ensures Explore(g, path, nbrs[|nbrs|..]) == []
    ensures BranchesFrom(g, path) == Explore(g, path, nbrs) + (if |path| > 1 then [path] else [])
  {
    assert nbrs[|nbrs|..] == [];
  }

  /** Helper: one turn of the neighbour loop. */
  lemma ExploreStep(g: Graph, path: seq<string>, nbrs: seq<string>, i: nat)
    requires g.Valid() && (forall v :: v in nbrs ==> v in g.succ) && i < |nbrs|
    ensures Explore(g, path, nbrs[i..])
      == (if nbrs[i] in path then [] else BranchesFrom(g, path + [nbrs[i]])) + Explore(g, path, nbrs[i + 1..])
  {
    assert nbrs[i..][1..] == nbrs[i + 1..];
  }

  /** `find_all_branches(G, start)`: every branch found from `start`, in the order found. */
  method FindAllBranches(g: Graph, start: string) returns (branches: seq<seq<string>>)
    requires g.Valid() && start in g.succ
    ensures branches == BranchesFrom(g, [start])
  {
    var list := new BranchList();
    list.Dfs(g, [start]);
    branches := list.branches;
  }

  // ---------------------------------------------------------------------
  // What the search finds
  // ---------------------------------------------------------------------

  /** A path of distinct nodes in which each node has an edge to the next. */
  ghost predicate IsSimplePath(g: Graph, p: seq<string>) {
    && p != []
    && NoDups(p)
    && (forall k :: 0 <= k < |p| ==> p[k] in g.succ)
    && (forall k :: 0 <= k < |p| - 1 ==> p[k + 1] in g.succ[p[k]])
  }

  /** Helper: a simple path followed by an edge to a node off it is a simple path. */
  lemma SimplePathStep(g: Graph, p: seq<string>, v: string)
    requires g.Valid() && IsSimplePath(g, p) && v in g.succ[p[|p| - 1]] && v !in p
    ensures IsSimplePath(g, p + [v])
  {
    var q := p + [v];
    forall k | 0 <= k < |q| - 1
      ensures q[k + 1] in g.succ[q[k]]
    {
      assert q[k] == p[k];
    }
  }

  /** Helper: whatever continues `p + [v]` continues `p` through `v`. */
  lemma ExtendsStep(b: seq<string>, p: seq<string>, v: string)
    requires b == p + [v] || Extends(b, p + [v])
    ensures Extends(b, p) && b[|p|] == v
  {
    assert b[..|p| + 1] == p + [v];
    assert b[..|p|] == b[..|p| + 1][..|p|];
  }

  /** Every branch found from a simple path is a simple path of two or more nodes that begins with it. */
  lemma {:induction false} BranchesShape(g: Graph, path: seq<string>)
    requires g.Valid() && IsSimplePath(g, path)
    ensures forall b :: b in BranchesFrom(g, path) ==>
      |b| >= 2 && (b == path || Extends(b, path)) && IsSimplePath(g, b)
    decreases Unvisited(g, path), 1
  {
    ExploreShape(g, path, g.succ[path[|path| - 1]]);
  }

  /** Helper: the branches found while walking `nbrs` each continue `path` through one of `nbrs`. */
  lemma {:induction false} ExploreShape(g: Graph, path: seq<string>, nbrs: seq<string>)
    requires g.Valid() && IsSimplePath(g, path)
    requires forall v :: v in nbrs ==> v in g.succ[path[|path| - 1]]
    ensures forall b :: b in Explore(g, path, nbrs) ==>
      Extends(b, path) && b[|path|] in nbrs && IsSimplePath(g, b)
    decreases Unvisited(g, path), 0, |nbrs|
  {
    if nbrs != [] {
      assert nbrs[0] in nbrs;
      assert forall w :: w in nbrs[1..] ==> w in nbrs;
      ExploreShape(g, path, nbrs[1..]);
      if nbrs[0] !in path {
        SubtreeShape(g, path, nbrs[0]);
      }
    }
  }

  /** Helper: the branches found through the neighbour `v` continue `path` through `v`. */
  lemma {:induction false} SubtreeShape(g: Graph, path: seq<string>, v: string)
    requires g.Valid() && IsSimplePath(g, path)
    requires v in g.succ[path[|path| - 1]] && v !in path
    ensures forall b :: b in BranchesFrom(g, path + [v]) ==>
      Extends(b, path) && b[|path|] == v && IsSimplePath(g, b)
    decreases Unvisited(g, path), 0, 0
  {
    UnvisitedShrinks(g, path, v);
    SimplePathStep(g, path, v);
    BranchesShape(g, path + [v]);
    forall b | b in BranchesFrom(g, path + [v])
      ensures Extends(b, path) && b[|path|] == v
    {
      ExtendsStep(b, path, v);
    }
  }

  /** Every simple path of two or more nodes that begins with `path` is found. */
  lemma {:induction false} BranchesComplete(g: Graph, path: seq<string>, b: seq<string>)
    requires g.Valid() && IsSimplePath(g, path) && IsSimplePath(g, b)
    requires |b| >= 2 && (b == path || Extends(b, path))
    ensures b in BranchesFrom(g, path)
    decreases |b| - |path|
  {
    if b != path {
      var v := b[|path|];
      NextOnPath(g, path, b);
      var next := path + [v];
      SimplePathStep(g, path, v);
      assert b[..|next|] == next;
      BranchesComplete(g, next, b);
      ExploreContains(g, path, g.succ[path[|path| - 1]], v, b);
    }
  }

  /** Helper: the node after `path` on a simple path that continues it is a neighbour off `path`. */
  lemma NextOnPath(g: Graph, path: seq<string>, b: seq<string>)
    requires IsSimplePath(g, path) && IsSimplePath(g, b) && Extends(b, path)
    ensures b[|path|] in g.succ[path[|path| - 1]] && b[|path|] !in path
  {
    var n := |path|;
    assert path[n - 1] == b[n - 1];
    forall k | 0 <= k < n
      ensures path[k] != b[n]
    {
      assert path[k] == b[k];
    }
  }

  /** Helper: the loop over `nbrs` collects the branches of every neighbour off the path. */
  lemma {:induction false} ExploreContains(g: Graph, path: seq<string>, nbrs: seq<string>, v: string, b: seq<string>)
    requires g.Valid() && forall w :: w in nbrs ==> w in g.succ
    requires v in nbrs && v !in path && b in BranchesFrom(g, path + [v])
    ensures b in Explore(g, path, nbrs)
    decreases |nbrs|
  {
    if nbrs[0] != v {
      ExploreContains(g, path, nbrs[1..], v, b);
    }
  }

  /** No branch is found twice. */
  lemma {:induction false} BranchesDistinct(g: Graph, path: seq<string>)
    requires g.Valid() && IsSimplePath(g, path)
    ensures NoDups(BranchesFrom(g, path))
    decreases Unvisited(g, path), 1
  {
    var nbrs := g.succ[path[|path| - 1]];
    ExploreDistinct(g, path, nbrs);
    ExploreShape(g, path, nbrs);
    NoDupsAppend(Explore(g, path, nbrs), if |path| > 1 then [path] else []);
  }

  /** Helper: the loop over distinct neighbours finds no branch twice. */
  lemma {:induction false} ExploreDistinct(g: Graph, path: seq<string>, nbrs: seq<string>)
    requires g.Valid() && IsSimplePath(g, path) && NoDups(nbrs)
    requires forall v :: v in nbrs ==> v in g.succ[path[|path| - 1]]
    ensures NoDups(Explore(g, path, nbrs))
    decreases Unvisited(g, path), 0, |nbrs|
  {
    if nbrs != [] {
      var v := nbrs[0];
      var rest := nbrs[1..];
      assert v in nbrs;
      assert forall w :: w in rest ==> w in nbrs;
      assert forall i :: 0 <= i < |rest| ==> rest[i] == nbrs[i + 1];
      ExploreDistinct(g, path, rest);
      if v !in path {
        UnvisitedShrinks(g, path, v);
        SimplePathStep(g, path, v);
        BranchesDistinct(g, path + [v]);
        SubtreeShape(g, path, v);
        ExploreShape(g, path, rest);
        NoDupsAppend(BranchesFrom(g, path + [v]), Explore(g, path, rest));
      }
    }
  }

  /** Each branch is found after every branch that continues it. */
  lemma {:induction false} BranchesPostOrder(g: Graph, path: seq<string>)
    requires g.Valid() && IsSimplePath(g, path)
    ensures PostOrder(BranchesFrom(g, path))
    decreases Unvisited(g, path), 1
  {
    var nbrs := g.succ[path[|path| - 1]];
    ExplorePostOrder(g, path, nbrs);
    ExploreShape(g, path, nbrs);
    PostOrderAppend(Explore(g, path, nbrs), if |path| > 1 then [path] else []);
  }

  /** Helper: the loop over distinct neighbours keeps post-order. */
  lemma {:induction false} ExplorePostOrder(g: Graph, path: seq<string>, nbrs: seq<string>)
    requires g.Valid() && IsSimplePath(g, path) && NoDups(nbrs)
    requires forall v :: v in nbrs ==> v in g.succ[path[|path| - 1]]
    ensures PostOrder(Explore(g, path, nbrs))
    decreases Unvisited(g, path), 0, |nbrs|
  {
    if nbrs != [] {
      var v := nbrs[0];
      var rest := nbrs[1..];
      assert v in nbrs;
      assert forall w :: w in rest ==> w in nbrs;
      assert forall i :: 0 <= i < |rest| ==> rest[i] == nbrs[i + 1];
      ExplorePostOrder(g, path, rest);
      if v !in path {
        UnvisitedShrinks(g, path, v);
        SimplePathStep(g, path, v);
        BranchesPostOrder(g, path + [v]);
        SubtreeShape(g, path, v);
        ExploreShape(g, path, rest);
        forall x, y | x in BranchesFrom(g, path + [v]) && y in Explore(g, path, rest)
          ensures !Extends(y, x)
        {
          ExtendsAgree(y, x, |path|);
        }
        PostOrderAppend(BranchesFrom(g, path + [v]), Explore(g, path, rest));
      }
    }
  }

  /** Helper: a sequence that continues `x` agrees with it below `|x|`. */
  lemma ExtendsAgree(y: seq<string>, x: seq<string>, k: nat)
    requires k < |x|
    ensures Extends(y, x) ==> y[k] == x[k]
  {
    if Extends(y, x) {
      assert y[..|x|][k] == y[k];
    }
  }

  /**
   * `find_all_branches(G, s)` lists every simple path of two or more nodes
   * that starts at `s`, each exactly once, each after all the branches that
   * continue it.
   */
  lemma FindAllBranchesSpec(g: Graph, s: string)
    requires g.Valid() && s in g.succ
    ensures forall b :: b in BranchesFrom(g, [s]) ==> |b| >= 2 && b[0] == s && IsSimplePath(g, b)
    ensures forall b :: IsSimplePath(g, b) && |b| >= 2 && b[0] == s ==> b in BranchesFrom(g, [s])
    ensures NoDups(BranchesFrom(g, [s]))
    ensures PostOrder(BranchesFrom(g, [s]))
  {
    BranchesShape(g, [s]);
    forall b | b in BranchesFrom(g, [s])
      ensures b[0] == s
    {
      assert b[..1][0] == b[0];
    }
    forall b | IsSimplePath(g, b) && |b| >= 2 && b[0] == s
      ensures b in BranchesFrom(g, [s])
    {
      assert b[..1] == [s];
      BranchesComplete(g, [s], b);
    }
    BranchesDistinct(g, [s]);
    BranchesPostOrder(g, [s]);
  }

  /** Helper: the loop finds something exactly when some neighbour is off the path. */
  lemma {:induction false} ExploreNonEmpty(g: Graph, path: seq<string>, nbrs: seq<string>)
    requires g.Valid() && path != [] && forall w :: w in nbrs ==> w in g.succ
    ensures Explore(g, path, nbrs) != [] <==> exists v :: v in nbrs && v !in path
    decreases |nbrs|
  {
    if nbrs != [] {
      assert nbrs[0] in nbrs;
      assert forall w :: w in nbrs <==> w == nbrs[0] || w in nbrs[1..];
      ExploreNonEmpty(g, path, nbrs[1..]);
      if nbrs[0] !in path {
        UnvisitedShrinks(g, path, nbrs[0]);
        FoundItself(g, path + [nbrs[0]]);
      }
    }
  }

  /** Helper: a path of two or more nodes is itself found. */
  lemma FoundItself(g: Graph, path: seq<string>)
    requires g.Valid() && |path| > 1 && path[|path| - 1] in g.succ
    ensures path in BranchesFrom(g, path)
  {
    var e := Explore(g, path, g.succ[path[|path| - 1]]);
    assert BranchesFrom(g, path) == e + [path];
    assert BranchesFrom(g, path)[|e|] == path;
  }

  /**
   * The search from `s` finds a branch exactly when `s` has an edge to
   * another node; for a head, which has no edge to itself, exactly when it
   * has an outgoing edge.
   */
  lemma HasBranches(g: Graph, s: string)
    requires g.Valid() && s in g.succ
    ensures BranchesFrom(g, [s]) != [] <==> exists v :: v in g.succ[s] && v != s
    ensures IsHead(g, s) ==> (BranchesFrom(g, [s]) != [] <==> g.succ[s] != [])
  {
    ExploreNonEmpty(g, [s], g.succ[s]);
    if g.succ[s] != [] {
      assert g.succ[s][0] in g.succ[s];
    }
  }

  /**
   * Where `a` has the one edge to `b`, `b` the one edge to `c` and `c` none,
   * the branches from `a` are [a, b, c] and then [a, b].
   */
  lemma ChainBranches(g: Graph, a: string, b: string, c: string)
    requires g.Valid() && a in g.succ && b in g.succ && c in g.succ
    requires g.succ[a] == [b] && g.succ[b] == [c] && g.succ[c] == []
    requires a != b && b != c && a != c
    ensures BranchesFrom(g, [a]) == [[a, b, c], [a, b]]
  {
    ChainMiddle(g, a, b, c);
    assert [a] + [b] == [a, b];
    assert Explore(g, [a], [b]) == BranchesFrom(g, [a, b]) + Explore(g, [a], []);
  }

  /** Helper: from [a, b] the branches are [a, b, c] and then [a, b]. */
  lemma ChainMiddle(g: Graph, a: string, b: string, c: string)
    requires g.Valid() && b in g.succ && c in g.succ
    requires g.succ[b] == [c] && g.succ[c] == []
    requires a != c && b != c
    ensures BranchesFrom(g, [a, b]) == [[a, b, c], [a, b]]
  {
    var abc := [a, b, c];
    ChainEnd(g, abc);
    assert [a, b] + [c] == abc;
    assert c !in [a, b];
    assert Explore(g, [a, b], [c]) == BranchesFrom(g, abc) + Explore(g, [a, b], []);
  }

  /** Helper: a path whose last node has no successor is its only branch. */
  lemma ChainEnd(g: Graph, p: seq<string>)
    requires g.Valid() && |p| > 1 && p[|p| - 1] in g.succ && g.succ[p[|p| - 1]] == []
    ensures BranchesFrom(g, p) == [p]
  {
  }
}
