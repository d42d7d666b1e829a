/** `find_first_node_with_attr`: a level-by-level breadth-first search
    through the `nodes` lists below a start node, returning the first node
    that satisfies a predicate. */
module NodeSearch {
  import opened Wrappers
  import opened I3Tree

  /** `frontier[i]` is the leftmost node of `frontier` satisfying `p`. */
  ghost predicate IsFirstMatch(frontier: seq<Node>, p: Node -> bool, i: int)
  {
    && 0 <= i < |frontier|
    && p(frontier[i])
    && forall j :: 0 <= j < i ==> !p(frontier[j])
  }

  /** The scan of one frontier, left to right, stopping at the first match. */
  function FirstMatch(frontier: seq<Node>, p: Node -> bool): (r: Option<Node>)
    ensures r.None? <==> forall i :: 0 <= i < |frontier| ==> !p(frontier[i])
    ensures r.Some? ==> exists i :: IsFirstMatch(frontier, p, i) && frontier[i] == r.value
    decreases |frontier|
  {
    if |frontier| == 0 then None
    else if p(frontier[0]) then
      assert IsFirstMatch(frontier, p, 0);
      Some(frontier[0])
    else
      var r := FirstMatch(frontier[1..], p);
      assert r.Some? ==> exists i :: IsFirstMatch(frontier, p, i) && frontier[i] == r.value by {
        if r.Some? {
          var k :| IsFirstMatch(frontier[1..], p, k) && frontier[1..][k] == r.value;
          assert IsFirstMatch(frontier, p, k + 1);
        }
      }
      r
  }

  lemma {:induction false} FirstMatchConcat(a: seq<Node>, b: seq<Node>, p: Node -> bool)
    ensures FirstMatch(a + b, p) == if FirstMatch(a, p).Some? then FirstMatch(a, p) else FirstMatch(b, p)
    decreases |a|
  {
    if |a| == 0 {
      assert a + b == b;
    } else {
      assert (a + b)[0] == a[0];
      assert (a + b)[1..] == a[1..] + b;
      FirstMatchConcat(a[1..], b, p);
    }
  }

  /** The search proper: scan the frontier; if nothing matches, descend one
      level through the `nodes` lists; stop with `None` on an empty frontier. */
  function BfsFind(frontier: seq<Node>, p: Node -> bool): (r: Option<Node>)
    ensures r.Some? ==> p(r.value)
    decreases TotalSize(frontier)
  {
    if |frontier| == 0 then None
    else
      var here := FirstMatch(frontier, p);
      if here.Some? then here
      else
        NextLevelShrinks(frontier, TiledOnly);
        BfsFind(NextLevel(frontier, TiledOnly), p)
  }

  /** The search returns the first match in breadth-first order over `nodes`. */
  lemma {:induction false} SearchIsFirstInBfsOrder(frontier: seq<Node>, p: Node -> bool)
    ensures BfsFind(frontier, p) == FirstMatch(BfsOrder(frontier, TiledOnly), p)
    decreases TotalSize(frontier)
  {
    if |frontier| > 0 {
      var next := NextLevel(frontier, TiledOnly);
      NextLevelShrinks(frontier, TiledOnly);
      SearchIsFirstInBfsOrder(next, p);
      FirstMatchConcat(frontier, BfsOrder(next, TiledOnly), p);
    }
  }

  /** Soundness and completeness: a result satisfies `p` and lies in the
      trees of the frontier along `nodes` links; there is no result exactly
      when no such node satisfies `p`. */
  lemma SearchSoundComplete(frontier: seq<Node>, p: Node -> bool)
    ensures BfsFind(frontier, p).Some? ==>
              p(BfsFind(frontier, p).value) && BfsFind(frontier, p).value in Descendants(frontier, TiledOnly)
    ensures BfsFind(frontier, p).None? <==> forall x :: x in Descendants(frontier, TiledOnly) ==> !p(x)
  {
    SearchIsFirstInBfsOrder(frontier, p);
    BfsOrderIsPermutation(frontier, TiledOnly);
    var order := BfsOrder(frontier, TiledOnly);
    forall x | x in Descendants(frontier, TiledOnly)
      ensures x in order
    {
      assert x in multiset(Descendants(frontier, TiledOnly));
    }
    if BfsFind(frontier, p).Some? {
      assert BfsFind(frontier, p).value in multiset(order);
    }
  }

  /** `Level(frontier, depth)[i]` is the breadth-first first match: no node
      of a shallower level matches, and it is the leftmost match of its level. */
  ghost predicate IsBfsFirst(frontier: seq<Node>, p: Node -> bool, depth: nat, i: int)
  {
    && IsFirstMatch(Level(frontier, TiledOnly, depth), p, i)
    && forall d: nat, x :: d < depth && x in Level(frontier, TiledOnly, d) ==> !p(x)
  }

  /** Breadth-first minimality: the result sits at the least depth holding a
      match, and is the leftmost match at that depth. */
  lemma {:induction false} SearchBreadthFirst(frontier: seq<Node>, p: Node -> bool)
    ensures BfsFind(frontier, p).Some? ==>
              exists depth: nat, i :: IsBfsFirst(frontier, p, depth, i)
                                    && Level(frontier, TiledOnly, depth)[i] == BfsFind(frontier, p).value
    decreases TotalSize(frontier)
  {
    if |frontier| > 0 {
      var here := FirstMatch(frontier, p);
      if here.Some? {
        var i :| IsFirstMatch(frontier, p, i) && frontier[i] == here.value;
        assert IsBfsFirst(frontier, p, 0, i);
      } else {
        var next := NextLevel(frontier, TiledOnly);
        NextLevelShrinks(frontier, TiledOnly);
        SearchBreadthFirst(next, p);
        if BfsFind(next, p).Some? {
          var depth: nat, i :| IsBfsFirst(next, p, depth, i)
                              && Level(next, TiledOnly, depth)[i] == BfsFind(next, p).value;
          forall d: nat, x | d < depth + 1 && x in Level(frontier, TiledOnly, d)
            ensures !p(x)
          {
            if d > 0 {
              assert Level(frontier, TiledOnly, d) == Level(next, TiledOnly, d - 1);
            }
          }
          assert IsBfsFirst(frontier, p, depth + 1, i);
        }
      }
    }
  }

  /** The converse: the breadth-first first match is what the search returns. */
  lemma {:induction false} BfsFirstIsFound(frontier: seq<Node>, p: Node -> bool, depth: nat, i: int)
    requires IsBfsFirst(frontier, p, depth, i)
    ensures BfsFind(frontier, p) == Some(Level(frontier, TiledOnly, depth)[i])
    decreases depth
  {
    if depth == 0 {
      assert frontier[i] in frontier;
    } else {
      var next := NextLevel(frontier, TiledOnly);
      assert Level(frontier, TiledOnly, depth) == Level(next, TiledOnly, depth - 1);
      forall d: nat, x | d < depth - 1 && x in Level(next, TiledOnly, d)
        ensures !p(x)
      {
        assert Level(frontier, TiledOnly, d + 1) == Level(next, TiledOnly, d);
      }
      assert IsBfsFirst(next, p, depth - 1, i);
      BfsFirstIsFound(next, p, depth - 1, i);
      if |frontier| > 0 {
        forall k | 0 <= k < |frontier|
          ensures !p(frontier[k])
        {
          assert frontier[k] in Level(frontier, TiledOnly, 0);
        }
      }
    }
  }

  /** One pass of the inner `for` loop: test each node of the frontier in
      turn, returning at the first match, and otherwise collect the next
      frontier from the `nodes` lists. */
  method ScanFrontier(frontier: seq<Node>, p: Node -> bool) returns (found: Option<Node>, nextVec: seq<Node>)
    ensures found == FirstMatch(frontier, p)
    ensures found.None? ==> nextVec == NextLevel(frontier, TiledOnly)
  {
    nextVec := [];
    var i := 0;
    while i < |frontier|
      invariant 0 <= i <= |frontier|
      invariant nextVec == NextLevel(frontier[..i], TiledOnly)
      invariant forall j :: 0 <= j < i ==> !p(frontier[j])
    {
      var node := frontier[i];
      if p(node) {
        assert IsFirstMatch(frontier, p, i);
        return Some(node), nextVec;
      }
      NextLevelSnoc(frontier, i, TiledOnly);
      nextVec := nextVec + node.nodes;
      i := i + 1;
    }
    assert frontier[..i] == frontier;
    found := None;
  }

  /** The source loop: explore one frontier at a time, testing each node and
      queueing its `nodes` children; the start node itself is never tested. */
  method FindFirstNodeWithAttr(start: Node, p: Node -> bool) returns (r: Option<Node>)
    ensures r == BfsFind(start.nodes, p)
    ensures r.Some? ==> p(r.value) && r.value in ProperDescendants(start, TiledOnly)
    ensures r.None? <==> forall x :: x in ProperDescendants(start, TiledOnly) ==> !p(x)
    ensures r != Some(start)
  {
    SearchSoundComplete(start.nodes, p);
    NotOwnDescendant(start, TiledOnly);
    var nodesToExplore := start.nodes;
    while |nodesToExplore| > 0
      invariant BfsFind(nodesToExplore, p) == BfsFind(start.nodes, p)
      decreases TotalSize(nodesToExplore)
    {
      var found, nextVec := ScanFrontier(nodesToExplore, p);
      if found.Some? {
        return found;
      }
      NextLevelShrinks(nodesToExplore, TiledOnly);
      nodesToExplore := nextVec;
    }
    r := None;
  }
}
