/** The part of i3's container tree, as the IPC client library reports it,
    that the window enumeration reads, together with the traversal
    vocabulary shared by the workspace search and the window crawl:
    frontiers, levels, breadth-first order, and preorder descendants as an
    independent reference for "every node below". */
module I3Tree {
  import opened Wrappers

  /** An i3 rectangle, `(x, y, width, height)`. */
  type Rect = (int, int, int, int)

  /** The node types are only ever tested for being a workspace. */
  datatype NodeType = Workspace | Other

  /** One container of the tree, with the fields the adapter reads. */
  datatype Node = Node(
    id: int,
    name: Option<string>,
    nodetype: NodeType,
    window: Option<int>,
    rect: Rect,
    decoRect: Rect,
    nodes: seq<Node>,
    floatingNodes: seq<Node>)

  /** Which child lists a traversal follows: the workspace search follows
      only `nodes`, the window crawl follows `nodes` and `floating_nodes`. */
  datatype Follow = TiledOnly | TiledAndFloating

  /** The children a traversal queues for `n`, tiled ones first. */
  function Children(n: Node, follow: Follow): seq<Node>
  {
    match follow
    case TiledOnly => n.nodes
    case TiledAndFloating => n.nodes + n.floatingNodes
  }

  /** Number of containers in the tree rooted at `n`. */
  function Size(n: Node): nat
    decreases n
  {
    1 + TotalSize(n.nodes) + TotalSize(n.floatingNodes)
  }

  /** Number of containers in all the trees rooted in `level`. */
  function TotalSize(level: seq<Node>): nat
    decreases level
  {
    if |level| == 0 then 0 else Size(level[0]) + TotalSize(level[1..])
  }

  lemma {:induction false} TotalSizeConcat(a: seq<Node>, b: seq<Node>)
    ensures TotalSize(a + b) == TotalSize(a) + TotalSize(b)
    decreases |a|
  {
    if |a| == 0 {
      assert a + b == b;
    } else {
      assert (a + b)[1..] == a[1..] + b;
      TotalSizeConcat(a[1..], b);
    }
  }

  /** A node's children are strictly fewer containers than the node's tree. */
  lemma ChildrenSmaller(n: Node, follow: Follow)
    ensures TotalSize(Children(n, follow)) < Size(n)
  {
    TotalSizeConcat(n.nodes, n.floatingNodes);
  }

  /** The next frontier: the children of every node of `level`, in frontier
      order, each node's children queued together. */
  function NextLevel(level: seq<Node>, follow: Follow): seq<Node>
    decreases |level|
  {
    if |level| == 0 then [] else Children(level[0], follow) + NextLevel(level[1..], follow)
  }

  /** Going one level down loses at least one container per frontier node,
      which is what makes every level-by-level walk terminate. */
  lemma {:induction false} NextLevelShrinks(level: seq<Node>, follow: Follow)
    ensures TotalSize(NextLevel(level, follow)) + |level| <= TotalSize(level)
    decreases |level|
  {
    if |level| > 0 {
      NextLevelShrinks(level[1..], follow);
      ChildrenSmaller(level[0], follow);
      TotalSizeConcat(Children(level[0], follow), NextLevel(level[1..], follow));
    }
  }

  /** Computing the next frontier piecewise gives the same frontier. */
  lemma {:induction false} NextLevelConcat(a: seq<Node>, b: seq<Node>, follow: Follow)
    ensures NextLevel(a + b, follow) == NextLevel(a, follow) + NextLevel(b, follow)
    decreases |a|
  {
    if |a| == 0 {
      assert a + b == b;
    } else {
      assert (a + b)[1..] == a[1..] + b;
      NextLevelConcat(a[1..], b, follow);
    }
  }

  /** Extending a frontier prefix by one node appends that node's children
      to the next frontier. */
  lemma NextLevelSnoc(level: seq<Node>, i: int, follow: Follow)
    requires 0 <= i < |level|
    ensures NextLevel(level[..i + 1], follow) == NextLevel(level[..i], follow) + Children(level[i], follow)
  {
    assert level[..i + 1] == level[..i] + [level[i]];
    NextLevelConcat(level[..i], [level[i]], follow);
    assert NextLevel([level[i]], follow) == Children(level[i], follow) + [];
  }

  /** The frontier `depth` levels below `level`. */
  function Level(level: seq<Node>, follow: Follow, depth: nat): seq<Node>
    decreases depth
  {
    if depth == 0 then level else Level(NextLevel(level, follow), follow, depth - 1)
  }

  /** The frontiers above `depth`, shallowest first. */
  function LevelsAbove(level: seq<Node>, follow: Follow, depth: nat): seq<Node>
    decreases depth
  {
    if depth == 0 then [] else level + LevelsAbove(NextLevel(level, follow), follow, depth - 1)
  }

  /** Breadth-first order: every frontier in turn until one is empty. */
  function BfsOrder(level: seq<Node>, follow: Follow): seq<Node>
    decreases TotalSize(level)
  {
    if |level| == 0 then []
    else
      NextLevelShrinks(level, follow);
      level + BfsOrder(NextLevel(level, follow), follow)
  }

  /** Every node of the trees rooted in `level`, in preorder: each node,
      then its subtree, then its right siblings. */
  function Descendants(level: seq<Node>, follow: Follow): seq<Node>
    decreases TotalSize(level)
  {
    if |level| == 0 then []
    else
      ChildrenSmaller(level[0], follow);
      [level[0]] + Descendants(Children(level[0], follow), follow) + Descendants(level[1..], follow)
  }

  /** The nodes strictly below `n`: `n` itself is not one of them. */
  function ProperDescendants(n: Node, follow: Follow): seq<Node>
  {
    Descendants(Children(n, follow), follow)
  }

  /** Every descendant of a forest is a tree no larger than the forest. */
  lemma {:induction false} DescendantsBounded(level: seq<Node>, follow: Follow)
    ensures forall x :: x in Descendants(level, follow) ==> Size(x) <= TotalSize(level)
    decreases TotalSize(level)
  {
    if |level| > 0 {
      var first, rest := level[0], level[1..];
      ChildrenSmaller(first, follow);
      DescendantsBounded(Children(first, follow), follow);
      DescendantsBounded(rest, follow);
    }
  }

  /** A node is never among its own proper descendants, so a traversal that
      starts from a node's children never visits the node itself. */
  lemma NotOwnDescendant(n: Node, follow: Follow)
    ensures n !in ProperDescendants(n, follow)
  {
    ChildrenSmaller(n, follow);
    DescendantsBounded(Children(n, follow), follow);
  }

  lemma {:induction false} DescendantsConcat(a: seq<Node>, b: seq<Node>, follow: Follow)
    ensures Descendants(a + b, follow) == Descendants(a, follow) + Descendants(b, follow)
    decreases |a|
  {
    if |a| == 0 {
      assert a + b == b;
    } else {
      assert (a + b)[0] == a[0];
      assert (a + b)[1..] == a[1..] + b;
      DescendantsConcat(a[1..], b, follow);
    }
  }

  /** The descendants of a forest are its roots plus the descendants of the
      next frontier. */
  lemma {:induction false} DescendantsByLevel(level: seq<Node>, follow: Follow)
    ensures multiset(Descendants(level, follow))
         == multiset(level) + multiset(Descendants(NextLevel(level, follow), follow))
    decreases |level|
  {
    if |level| > 0 {
      var first, rest := level[0], level[1..];
      var children := Children(first, follow);
      var below, belowRest := Descendants(children, follow), Descendants(rest, follow);
      var nextRest := NextLevel(rest, follow);
      DescendantsByLevel(rest, follow);
      DescendantsConcat(children, nextRest, follow);
      DescendantsCons(level, follow);
      NextLevelCons(level, follow);
      MultisetUnfold(level, below, belowRest, Descendants(nextRest, follow));
    }
  }

  /** One step of the definition of `Descendants`. */
  lemma DescendantsCons(level: seq<Node>, follow: Follow)
    requires |level| > 0
    ensures Descendants(level, follow)
         == [level[0]] + Descendants(Children(level[0], follow), follow) + Descendants(level[1..], follow)
  {
  }

  /** One step of the definition of `NextLevel`. */
  lemma NextLevelCons(level: seq<Node>, follow: Follow)
    requires |level| > 0
    ensures NextLevel(level, follow) == Children(level[0], follow) + NextLevel(level[1..], follow)
  {
  }

  /** The multiset bookkeeping of `DescendantsByLevel`. */
  lemma MultisetUnfold(level: seq<Node>, below: seq<Node>, belowRest: seq<Node>, nextRest: seq<Node>)
    requires |level| > 0
    requires multiset(belowRest) == multiset(level[1..]) + multiset(nextRest)
    ensures multiset([level[0]] + below + belowRest) == multiset(level) + multiset(below + nextRest)
  {
    assert level == [level[0]] + level[1..];
  }

  /** Breadth-first order visits exactly the preorder descendants, each as
      often: the two orders are permutations of each other. */
  lemma {:induction false} BfsOrderIsPermutation(level: seq<Node>, follow: Follow)
    ensures multiset(BfsOrder(level, follow)) == multiset(Descendants(level, follow))
    decreases TotalSize(level)
  {
    if |level| > 0 {
      NextLevelShrinks(level, follow);
      BfsOrderIsPermutation(NextLevel(level, follow), follow);
      DescendantsByLevel(level, follow);
    }
  }

  /** Breadth-first order lists whole frontiers, shallowest first: the
      frontiers above `depth`, followed by the frontier at `depth`, are a
      prefix of it. */
  lemma {:induction false} BfsOrderByLevels(level: seq<Node>, follow: Follow, depth: nat)
    ensures LevelsAbove(level, follow, depth) + Level(level, follow, depth) <= BfsOrder(level, follow)
    decreases depth
  {
    if depth > 0 {
      var next := NextLevel(level, follow);
      BfsOrderByLevels(next, follow, depth - 1);
      if |level| == 0 {
        assert next == [];
      } else {
        assert LevelsAbove(level, follow, depth) + Level(level, follow, depth)
            == level + (LevelsAbove(next, follow, depth - 1) + Level(next, follow, depth - 1));
      }
    }
  }
}
