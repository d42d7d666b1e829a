/** `crawl_windows`: locate a workspace's container by breadth-first search,
    then walk its subtree breadth-first through both tiled and floating
    children, emitting one desktop-window record per container that holds
    a window. */
module WindowCrawl {
  import opened Wrappers
  import opened I3Tree
  import opened NodeSearch

  /** A window as the rest of the program sees it: identifier, title, and
      the frame's position and size including the title bar. */
  datatype DesktopWindow = DesktopWindow(id: int, title: string, pos: (int, int), size: (int, int))

  /** The fields of an i3 workspace reply that are read. */
  datatype WorkspaceInfo = WorkspaceInfo(name: string, visible: bool)

  /** The abort of `crawl_windows` when no workspace container is found. */
  datatype CrawlError = WorkspaceNotFound(name: string)

  /** The content rectangle of a window record, given the height of its
      title bar: the inverse of the frame arithmetic below. */
  function ContentRect(w: DesktopWindow, decoHeight: int): Rect
  {
    (w.pos.0, w.pos.1 + decoHeight, w.size.0, w.size.1 - decoHeight)
  }

  /** The record for a container: its title is the name or empty, and its
      frame is the content rectangle grown upwards by the title bar height,
      so the left edge, width and bottom edge are those of the content. */
  function ToDesktopWindow(n: Node): (w: DesktopWindow)
    ensures w.id == n.id
    ensures n.name == Some(w.title) || (n.name.None? && w.title == "")
    ensures w.pos.0 == n.rect.0 && w.size.0 == n.rect.2
    ensures w.pos.1 + w.size.1 == n.rect.1 + n.rect.3
    ensures n.rect.1 - w.pos.1 == n.decoRect.3 && w.size.1 - n.rect.3 == n.decoRect.3
    ensures ContentRect(w, n.decoRect.3) == n.rect
  {
    var title := match n.name case Some(s) => s case None => "";
    DesktopWindow(
      n.id,
      title,
      (n.rect.0, n.rect.1 - n.decoRect.3),
      (n.rect.2, n.rect.3 + n.decoRect.3))
  }

  /** The records contributed by one frontier, in frontier order: one per
      node that holds a window, none for the others. */
  function LevelWindows(level: seq<Node>): seq<DesktopWindow>
    decreases |level|
  {
    if |level| == 0 then [] else NodeWindow(level[0]) + LevelWindows(level[1..])
  }

  /** The record of one node, if it holds a window. */
  function NodeWindow(n: Node): (r: seq<DesktopWindow>)
    ensures |r| <= 1
    ensures |r| == 1 <==> n.window.Some?
    ensures forall w :: w in r ==> w.id == n.id
  {
    if n.window.Some? then [ToDesktopWindow(n)] else []
  }

  /** A record belongs to a frontier's records exactly when some windowed
      node of the frontier produces it; there is at most one per node. */
  lemma {:induction false} LevelWindowsMembers(level: seq<Node>)
    ensures |LevelWindows(level)| <= |level|
    ensures forall w :: w in LevelWindows(level) <==> exists x :: x in level && x.window.Some? && ToDesktopWindow(x) == w
    decreases |level|
  {
    if |level| > 0 {
      LevelWindowsMembers(level[1..]);
      assert forall x :: x in level <==> x == level[0] || x in level[1..];
    }
  }

  lemma {:induction false} LevelWindowsConcat(a: seq<Node>, b: seq<Node>)
    ensures LevelWindows(a + b) == LevelWindows(a) + LevelWindows(b)
    decreases |a|
  {
    if |a| == 0 {
      assert a + b == b;
    } else {
      assert (a + b)[0] == a[0];
      assert (a + b)[1..] == a[1..] + b;
      LevelWindowsConcat(a[1..], b);
      var here := NodeWindow(a[0]);
      calc {
        LevelWindows(a + b);
        here + LevelWindows(a[1..] + b);
        here + (LevelWindows(a[1..]) + LevelWindows(b));
        (here + LevelWindows(a[1..])) + LevelWindows(b);
      }
    }
  }

  /** Extending a frontier prefix by one node appends that node's record,
      if any. */
  lemma LevelWindowsSnoc(level: seq<Node>, i: int)
    requires 0 <= i < |level|
    ensures LevelWindows(level[..i + 1]) == LevelWindows(level[..i]) + NodeWindow(level[i])
  {
    assert level[..i + 1] == level[..i] + [level[i]];
    LevelWindowsConcat(level[..i], [level[i]]);
    assert LevelWindows([level[i]]) == NodeWindow(level[i]) + [];
  }

  /** Records depend only on which nodes are listed, not on their order. */
  lemma {:induction false} LevelWindowsPermutation(a: seq<Node>, b: seq<Node>)
    requires multiset(a) == multiset(b)
    ensures multiset(LevelWindows(a)) == multiset(LevelWindows(b))
    decreases |a|
  {
    if |a| == 0 {
      assert |multiset(b)| == 0;
    } else {
      var x := a[0];
      assert x in multiset(b);
      var k :| 0 <= k < |b| && b[k] == x;
      var left, right := b[..k], b[k + 1..];
      assert b == left + ([x] + right);
      PermutationTail(a, b, k);
      LevelWindowsPermutation(a[1..], left + right);
      LevelWindowsConcat(left, [x] + right);
      LevelWindowsConcat([x], right);
      LevelWindowsConcat(left, right);
      LevelWindowsConcat([x], a[1..]);
      var mx := multiset(LevelWindows([x]));
      calc {
        multiset(LevelWindows(a));
        mx + multiset(LevelWindows(a[1..]));
        mx + multiset(LevelWindows(left + right));
        mx + multiset(LevelWindows(left)) + multiset(LevelWindows(right));
        multiset(LevelWindows(left) + (LevelWindows([x]) + LevelWindows(right)));
        multiset(LevelWindows(b));
      }
    }
  }

  /** Removing the first element of `a` and a copy of it from `b` keeps
      the two permutations of each other. */
  lemma PermutationTail(a: seq<Node>, b: seq<Node>, k: int)
    requires multiset(a) == multiset(b)
    requires 0 < |a| && 0 <= k < |b| && b[k] == a[0]
    ensures multiset(a[1..]) == multiset(b[..k] + b[k + 1..])
  {
    var rest := b[..k] + b[k + 1..];
    assert a == [a[0]] + a[1..];
    assert b == b[..k] + [b[k]] + b[k + 1..];
    assert multiset(a) == multiset{a[0]} + multiset(a[1..]);
    assert multiset(b) == multiset{a[0]} + multiset(rest);
    assert multiset(a[1..]) == multiset(a) - multiset{a[0]};
    assert multiset(rest) == multiset(b) - multiset{a[0]};
  }

  /** The crawl proper: the records of each frontier in turn, descending
      through both `nodes` and `floating_nodes`. */
  function BfsWindows(frontier: seq<Node>): seq<DesktopWindow>
    decreases TotalSize(frontier)
  {
    if |frontier| == 0 then []
    else
      NextLevelShrinks(frontier, TiledAndFloating);
      LevelWindows(frontier) + BfsWindows(NextLevel(frontier, TiledAndFloating))
  }

  /** The crawl emits the records of the windowed nodes in breadth-first order. */
  lemma {:induction false} BfsWindowsInBfsOrder(frontier: seq<Node>)
    ensures BfsWindows(frontier) == LevelWindows(BfsOrder(frontier, TiledAndFloating))
    decreases TotalSize(frontier)
  {
    if |frontier| > 0 {
      var next := NextLevel(frontier, TiledAndFloating);
      NextLevelShrinks(frontier, TiledAndFloating);
      BfsWindowsInBfsOrder(next);
      LevelWindowsConcat(frontier, BfsOrder(next, TiledAndFloating));
    }
  }

  /** Level order: all records from frontiers above `depth` come first, then
      the records of the frontier at `depth`, contiguously and in frontier
      order. */
  lemma CrawlLevelOrder(frontier: seq<Node>, depth: nat)
    ensures LevelWindows(LevelsAbove(frontier, TiledAndFloating, depth))
          + LevelWindows(Level(frontier, TiledAndFloating, depth))
         <= BfsWindows(frontier)
  {
    var above := LevelsAbove(frontier, TiledAndFloating, depth);
    var at := Level(frontier, TiledAndFloating, depth);
    var order := BfsOrder(frontier, TiledAndFloating);
    BfsOrderByLevels(frontier, TiledAndFloating, depth);
    BfsWindowsInBfsOrder(frontier);
    assert order == (above + at) + order[|above + at|..];
    LevelWindowsConcat(above + at, order[|above + at|..]);
    LevelWindowsConcat(above, at);
  }

  /** Exactly one record per windowed node of the trees rooted in the
      frontier, following both child lists, and nothing else. */
  lemma CrawlOnePerWindow(frontier: seq<Node>)
    ensures multiset(BfsWindows(frontier)) == multiset(LevelWindows(Descendants(frontier, TiledAndFloating)))
    ensures |BfsWindows(frontier)| == |LevelWindows(Descendants(frontier, TiledAndFloating))|
    ensures forall w :: w in BfsWindows(frontier) <==>
              exists x :: x in Descendants(frontier, TiledAndFloating) && x.window.Some? && ToDesktopWindow(x) == w
  {
    var all := Descendants(frontier, TiledAndFloating);
    LevelWindowsMembers(all);
    BfsWindowsInBfsOrder(frontier);
    BfsOrderIsPermutation(frontier, TiledAndFloating);
    LevelWindowsPermutation(BfsOrder(frontier, TiledAndFloating), all);
    assert |multiset(BfsWindows(frontier))| == |multiset(LevelWindows(all))|;
    forall w
      ensures w in BfsWindows(frontier) <==> w in LevelWindows(all)
    {
      assert w in BfsWindows(frontier) <==> w in multiset(BfsWindows(frontier));
      assert w in LevelWindows(all) <==> w in multiset(LevelWindows(all));
    }
  }

  /** The container of the workspace called `name`. */
  predicate IsWorkspaceNamed(x: Node, name: string)
  {
    x.name == Some(name) && x.nodetype == Workspace
  }

  function WorkspaceNamed(name: string): Node -> bool
  {
    x => IsWorkspaceNamed(x, name)
  }

  /** `crawl_windows` as a function: find the workspace container below the
      root through `nodes` links, then crawl from its tiled children followed
      by its floating children. */
  function WorkspaceWindows(root: Node, workspace: WorkspaceInfo): (r: Result<seq<DesktopWindow>, CrawlError>)
  {
    match BfsFind(root.nodes, WorkspaceNamed(workspace.name))
    case None => Failure(WorkspaceNotFound(workspace.name))
    case Some(wsNode) => Success(BfsWindows(Children(wsNode, TiledAndFloating)))
  }

  /** One pass of the inner `for` loop of the crawl: queue each node's tiled
      then floating children, and record it when it holds a window. */
  method CrawlFrontier(frontier: seq<Node>) returns (found: seq<DesktopWindow>, nextVec: seq<Node>)
    ensures found == LevelWindows(frontier)
    ensures nextVec == NextLevel(frontier, TiledAndFloating)
  {
    found, nextVec := [], [];
    var i := 0;
    while i < |frontier|
      invariant 0 <= i <= |frontier|
      invariant nextVec == NextLevel(frontier[..i], TiledAndFloating)
      invariant found == LevelWindows(frontier[..i])
    {
      var node := frontier[i];
      NextLevelSnoc(frontier, i, TiledAndFloating);
      LevelWindowsSnoc(frontier, i);
      ConcatAssoc(nextVec, node.nodes, node.floatingNodes);
      nextVec := nextVec + node.nodes;
      nextVec := nextVec + node.floatingNodes;
      if node.window.Some? {
        found := found + [ToDesktopWindow(node)];
      }
      i := i + 1;
    }
    assert frontier[..i] == frontier;
  }

  /** What `crawl_windows` promises: it aborts exactly when no container
      reachable from the root through `nodes` links is the named workspace;
      otherwise it reports one record per windowed container below the
      workspace container it found (through both child lists), and that
      container is the breadth-first first one with the name. */
  lemma WorkspaceCrawlSpec(root: Node, workspace: WorkspaceInfo)
    ensures WorkspaceWindows(root, workspace).Failure? <==>
              forall x :: x in ProperDescendants(root, TiledOnly) ==> !IsWorkspaceNamed(x, workspace.name)
    ensures WorkspaceWindows(root, workspace).Failure? ==>
              WorkspaceWindows(root, workspace).error == WorkspaceNotFound(workspace.name)
    ensures WorkspaceWindows(root, workspace).Success? ==>
              exists wsNode :: && wsNode in ProperDescendants(root, TiledOnly)
                               && IsWorkspaceNamed(wsNode, workspace.name)
                               && BfsFind(root.nodes, WorkspaceNamed(workspace.name)) == Some(wsNode)
                               && multiset(WorkspaceWindows(root, workspace).value)
                                  == multiset(LevelWindows(ProperDescendants(wsNode, TiledAndFloating)))
  {
    var p := WorkspaceNamed(workspace.name);
    SearchSoundComplete(root.nodes, p);
    assert forall x :: p(x) == IsWorkspaceNamed(x, workspace.name);
    var found := BfsFind(root.nodes, p);
    if found.Some? {
      CrawlOnePerWindow(Children(found.value, TiledAndFloating));
    }
  }

  lemma ConcatAssoc<T>(a: seq<T>, b: seq<T>, c: seq<T>)
    ensures (a + b) + c == a + (b + c)
  {
  }

  /** The outer loop of the crawl: frontier after frontier, appending each
      frontier's records, until a frontier is empty. */
  method CrawlFrom(start: seq<Node>) returns (windows: seq<DesktopWindow>)
    ensures windows == BfsWindows(start)
  {
    var nodesToExplore := start;
    windows := [];
    while |nodesToExplore| > 0
      invariant windows + BfsWindows(nodesToExplore) == BfsWindows(start)
      decreases TotalSize(nodesToExplore)
    {
      var levelWindows, nextVec := CrawlFrontier(nodesToExplore);
      NextLevelShrinks(nodesToExplore, TiledAndFloating);
      ghost var rest := BfsWindows(nextVec);
      assert BfsWindows(nodesToExplore) == levelWindows + rest;
      ConcatAssoc(windows, levelWindows, rest);
      windows := windows + levelWindows;
      nodesToExplore := nextVec;
    }
    assert windows + [] == windows;
  }

  /** The source function: look the workspace container up, abort when it
      is missing, then crawl from its tiled children followed by its
      floating children. */
  method CrawlWindows(root: Node, workspace: WorkspaceInfo) returns (r: Result<seq<DesktopWindow>, CrawlError>)
    ensures r == WorkspaceWindows(root, workspace)
  {
    var found := FindFirstNodeWithAttr(root, WorkspaceNamed(workspace.name));
    if found.None? {
      return Failure(WorkspaceNotFound(workspace.name));
    }
    var wsNode := found.value;
    var windows := CrawlFrom(wsNode.nodes + wsNode.floatingNodes);
    r := Success(windows);
  }
}
