/** The pure part of `get_windows`: keep the visible workspaces and
    concatenate the crawl of each, in the order the workspace list gives.
    The enumeration is stated for any per-workspace crawl; `GetWindows`
    instantiates it with the crawl of one container tree. */
module WindowList {
  import opened Wrappers
  import opened I3Tree
  import opened WindowCrawl

  /** The records of one workspace, or the reason its crawl aborted. */
  type Crawl = WorkspaceInfo -> Result<seq<DesktopWindow>, CrawlError>

  /** `crawl_windows` over a fixed container tree. */
  function CrawlOf(root: Node): Crawl
  {
    workspace => WorkspaceWindows(root, workspace)
  }

  /** The enumeration over the workspace list, defined from the last entry
      back: the windows of all entries but the last, then those of the last
      one if it is visible. The first visible workspace whose crawl aborts
      aborts the whole enumeration. */
  function VisibleWindows(crawl: Crawl, workspaces: seq<WorkspaceInfo>): Result<seq<DesktopWindow>, CrawlError>
    decreases |workspaces|
  {
    if |workspaces| == 0 then Success([])
    else
      var init, last := workspaces[..|workspaces| - 1], workspaces[|workspaces| - 1];
      var acc := VisibleWindows(crawl, init);
      if acc.Failure? then acc
      else if !last.visible then acc
      else
        match crawl(last)
        case Failure(e) => Failure(e)
        case Success(found) => Success(acc.value + found)
  }

  /** The enumeration succeeds exactly when every visible workspace's crawl
      succeeds; an abort is that of the first visible workspace whose crawl
      aborts. */
  lemma {:induction false} VisibleWindowsAborts(crawl: Crawl, workspaces: seq<WorkspaceInfo>)
    ensures VisibleWindows(crawl, workspaces).Success? <==>
              forall i :: 0 <= i < |workspaces| && workspaces[i].visible ==> crawl(workspaces[i]).Success?
    ensures VisibleWindows(crawl, workspaces).Failure? ==>
              exists i :: && 0 <= i < |workspaces|
                          && workspaces[i].visible
                          && crawl(workspaces[i]) == Failure(VisibleWindows(crawl, workspaces).error)
                          && forall j :: 0 <= j < i && workspaces[j].visible ==> crawl(workspaces[j]).Success?
    decreases |workspaces|
  {
    if |workspaces| > 0 {
      var n := |workspaces|;
      var init := workspaces[..n - 1];
      assert forall i :: 0 <= i < n - 1 ==> init[i] == workspaces[i];
      VisibleWindowsAborts(crawl, init);
    }
  }

  /** Enumerating a concatenated workspace list is enumerating each part and
      concatenating the results in order; an abort in the first part wins. */
  lemma {:induction false} VisibleWindowsConcat(crawl: Crawl, a: seq<WorkspaceInfo>, b: seq<WorkspaceInfo>)
    ensures VisibleWindows(crawl, a + b) ==
              match VisibleWindows(crawl, a)
              case Failure(e) => Failure(e)
              case Success(first) =>
                match VisibleWindows(crawl, b)
                case Failure(e) => Failure(e)
                case Success(second) => Success(first + second)
    decreases |b|
  {
    if |b| == 0 {
      assert a + b == a;
      if VisibleWindows(crawl, a).Success? {
        assert VisibleWindows(crawl, a).value + [] == VisibleWindows(crawl, a).value;
      }
    } else {
      var init, last := b[..|b| - 1], b[|b| - 1];
      assert (a + b)[..|a + b| - 1] == a + init;
      assert (a + b)[|a + b| - 1] == last;
      VisibleWindowsConcat(crawl, a, init);
      var ra, ri, rl := VisibleWindows(crawl, a), VisibleWindows(crawl, init), crawl(last);
      if ra.Success? && ri.Success? && last.visible && rl.Success? {
        ConcatAssoc(ra.value, ri.value, rl.value);
      }
    }
  }

  /** A single workspace contributes its crawl when visible and nothing
      otherwise. */
  lemma VisibleWindowsSingle(crawl: Crawl, workspace: WorkspaceInfo)
    ensures VisibleWindows(crawl, [workspace]) ==
              if workspace.visible then crawl(workspace) else Success([])
  {
    assert [workspace][..0] == [];
    if workspace.visible && crawl(workspace).Success? {
      assert [] + crawl(workspace).value == crawl(workspace).value;
    }
  }

  /** `w` is one of the records the crawl of the visible workspace reports. */
  ghost predicate ReportedBy(crawl: Crawl, workspace: WorkspaceInfo, w: DesktopWindow)
  {
    && workspace.visible
    && crawl(workspace).Success?
    && w in crawl(workspace).value
  }

  /** A record is enumerated exactly when some visible workspace's crawl
      reports it. */
  lemma {:induction false} VisibleWindowsMembers(crawl: Crawl, workspaces: seq<WorkspaceInfo>)
    requires VisibleWindows(crawl, workspaces).Success?
    ensures forall w :: w in VisibleWindows(crawl, workspaces).value <==>
              exists i :: 0 <= i < |workspaces| && ReportedBy(crawl, workspaces[i], w)
    decreases |workspaces|
  {
    if |workspaces| > 0 {
      var n := |workspaces|;
      var init, last := workspaces[..n - 1], workspaces[n - 1];
      VisibleWindowsMembers(crawl, init);
      var before := VisibleWindows(crawl, init).value;
      var here := if last.visible then crawl(last).value else [];
      assert VisibleWindows(crawl, workspaces).value == before + here;
      forall w
        ensures w in before + here <==> exists i :: 0 <= i < n && ReportedBy(crawl, workspaces[i], w)
      {
        if w in before {
          var i :| 0 <= i < n - 1 && ReportedBy(crawl, init[i], w);
          assert init[i] == workspaces[i];
        } else if w in here {
          assert ReportedBy(crawl, workspaces[n - 1], w);
        }
        if exists i :: 0 <= i < n && ReportedBy(crawl, workspaces[i], w) {
          var i :| 0 <= i < n && ReportedBy(crawl, workspaces[i], w);
          if i < n - 1 {
            assert init[i] == workspaces[i];
          }
        }
      }
    }
  }

  /** The source loop over the visible workspaces, crawling each in the
      container tree and appending its records. */
  method GetWindows(root: Node, workspaces: seq<WorkspaceInfo>) returns (r: Result<seq<DesktopWindow>, CrawlError>)
    ensures r == VisibleWindows(CrawlOf(root), workspaces)
  {
    ghost var crawl := CrawlOf(root);
    var windows := [];
    var i := 0;
    while i < |workspaces|
      invariant 0 <= i <= |workspaces|
      invariant VisibleWindows(crawl, workspaces[..i]) == Success(windows)
    {
      var workspace := workspaces[i];
      assert workspaces[..i + 1] == workspaces[..i] + [workspace];
      VisibleWindowsConcat(crawl, workspaces[..i], [workspace]);
      VisibleWindowsSingle(crawl, workspace);
      if workspace.visible {
        var crawled := CrawlWindows(root, workspace);
        assert crawled == crawl(workspace);
        if crawled.Failure? {
          assert workspaces == workspaces[..i + 1] + workspaces[i + 1..];
          VisibleWindowsConcat(crawl, workspaces[..i + 1], workspaces[i + 1..]);
          return Failure(crawled.error);
        }
        windows := windows + crawled.value;
      } else {
        assert windows + [] == windows;
      }
      i := i + 1;
    }
    assert workspaces[..i] == workspaces;
    r := Success(windows);
  }
}
