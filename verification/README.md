# wmfocus: the i3 window enumeration, modelled in Dafny

wmfocus lists the windows shown on the visible i3 workspaces so that one of
them can be picked and focused. The i3 adapter receives i3's container tree
and workspace list from an IPC client library and flattens them into
`DesktopWindow` records. This project models the pure part of that adapter
and proves what it computes:

- `find_first_node_with_attr` is a level-by-level breadth-first search below
  a start node. It follows only the `nodes` child lists and returns the first
  node that satisfies a predicate (`NodeSearch`, in `search.dfy`).
- `crawl_windows` first finds the container of the named workspace with that
  search. It then walks the container's subtree breadth-first through both
  `nodes` and `floating_nodes`, emitting one record per container that holds
  a window (`WindowCrawl`, in `crawl.dfy`).
- The pure part of `get_windows` keeps the visible workspaces and
  concatenates their crawls in list order (`WindowList`, in `windows.dfy`).
  Its lemmas hold for any per-workspace crawl function. `GetWindows`
  instantiates them with `crawl_windows` over one container tree.

The container tree is an immutable `Node` datatype with two child sequences
(`I3Tree`, in `tree.dfy`). Frontiers are `seq<Node>`. Every level-by-level
walk terminates because the total number of containers in the frontier
shrinks. Two independent descriptions of "the nodes below" are related by
proof:

- `BfsOrder` lists the frontiers one after another.
- `Descendants` is a preorder listing: each node, then its subtree, then its
  right siblings.

`BfsOrderIsPermutation` proves the two are permutations of each other. The
soundness, completeness and exactly-once results build on that.

The source's aborts (`expect` on a missing workspace container) are modelled
as `Result.Failure(WorkspaceNotFound(name))`. `get_windows` aborts at the
first visible workspace whose crawl aborts, and the model keeps that order.
Each loop of the source is mirrored by a method that is proved equal to its
functional definition: `ScanFrontier`, `FindFirstNodeWithAttr`,
`CrawlFrontier`, `CrawlFrom`, `CrawlWindows` and `GetWindows`.

Every container whose `window` is set yields a record, at any depth of the
workspace's subtree: there is no leaf test (src/wm_i3.rs:42). A container
that holds a window and also has children contributes its own record and
those of its windowed descendants.

## Model

| member | source | states |
|---|---|---|
| `NodeSearch.FirstMatch` | src/wm_i3.rs:13-16 | The scan of one frontier returns `None` exactly when no node of the frontier satisfies the predicate. Otherwise it returns a matching node with no match to its left, which is therefore the leftmost match. |
| `NodeSearch.ScanFrontier` | src/wm_i3.rs:12-18 | The inner loop returns the frontier's first match. When there is none, it has queued the `nodes` children of every frontier node, in frontier order. |
| `NodeSearch.SearchIsFirstInBfsOrder` | src/wm_i3.rs:10-21 | The search result is the first match in breadth-first order over `nodes` links. |
| `NodeSearch.SearchSoundComplete` | src/wm_i3.rs:10-21 | A result satisfies the predicate and lies in the frontier's trees along `nodes` links. There is no result exactly when no such node satisfies the predicate. |
| `NodeSearch.SearchBreadthFirst` | src/wm_i3.rs:11-19 | The result sits at the least depth that holds a match. No node of a shallower level matches, and the result is the leftmost match of its level. |
| `NodeSearch.BfsFirstIsFound` | src/wm_i3.rs:11-19 | Conversely, the leftmost match of the shallowest matching level is exactly what the search returns. |
| `NodeSearch.BfsFind` | src/wm_i3.rs:10-21 | The functional search: scan a frontier, else descend one level through `nodes`, else `None`. Any node it returns satisfies the predicate. `SearchIsFirstInBfsOrder`, `SearchSoundComplete`, `SearchBreadthFirst` and `BfsFirstIsFound` characterise it against independent definitions. |
| `NodeSearch.FindFirstNodeWithAttr` | src/wm_i3.rs:6-22 | The source loop returns a node that satisfies the predicate and is a proper descendant of the start node through `nodes`. It returns `None` exactly when no such descendant satisfies the predicate. The start node itself is never returned. |
| `I3Tree.NextLevelShrinks` | src/wm_i3.rs:11-20 | Going one frontier down loses at least one container per frontier node, so the level-by-level loops terminate. |
| `I3Tree.NextLevelConcat` | src/wm_i3.rs:17 | Building the next frontier piecewise gives the same frontier: each node's children are queued together, in frontier order. |
| `I3Tree.BfsOrderIsPermutation` | src/wm_i3.rs:34-53 | Breadth-first order visits exactly the preorder descendants, each as often, for either choice of child lists. |
| `I3Tree.BfsOrderByLevels` | src/wm_i3.rs:37-53 | Breadth-first order lists whole frontiers, shallowest first. The frontiers above any depth, followed by the frontier at that depth, form a prefix of it. |
| `I3Tree.DescendantsByLevel` | src/wm_i3.rs:37-52 | The nodes below a frontier are the frontier itself plus the nodes below the next frontier. |
| `I3Tree.NotOwnDescendant` | src/wm_i3.rs:10 | A node is never among its own proper descendants, so a walk started from a node's children never visits the node. |
| `WindowCrawl.ToDesktopWindow` | src/wm_i3.rs:43-48 | The record keeps the container id. Its title is the name, or empty when there is none. Its frame has the content's left edge, width and bottom edge, and starts the title-bar height above the content. Subtracting the title bar from the frame gives back the content rectangle. |
| `WindowCrawl.NodeWindow` | src/wm_i3.rs:42-50 | A container contributes one record, carrying its id, exactly when its `window` is set, and nothing otherwise. |
| `WindowCrawl.LevelWindows` | src/wm_i3.rs:39-51 | The records one pass of the inner loop pushes, in frontier order. `LevelWindowsMembers`, `LevelWindowsConcat` and `LevelWindowsPermutation` characterise it. |
| `WindowCrawl.BfsWindows` | src/wm_i3.rs:37-53 | The functional crawl of a frontier through both child lists. `BfsWindowsInBfsOrder`, `CrawlLevelOrder` and `CrawlOnePerWindow` characterise it against breadth-first order and the preorder listing. |
| `WindowCrawl.IsWorkspaceNamed` | src/wm_i3.rs:26-31 | The search predicate of `crawl_windows`: the container has the workspace's name and is of workspace type. `WorkspaceCrawlSpec` states the abort in its terms. |
| `WindowCrawl.WorkspaceWindows` | src/wm_i3.rs:25-55 | The functional `crawl_windows`: the search through `nodes`, the abort when it finds nothing, then the crawl from the workspace's tiled then floating children. `WorkspaceCrawlSpec` characterises it, and `CrawlWindows` is proved equal to it. |
| `WindowCrawl.LevelWindowsMembers` | src/wm_i3.rs:42-49 | A frontier yields no more records than it has nodes. A record is among them exactly when some windowed node of the frontier produces it. |
| `WindowCrawl.LevelWindowsPermutation` | src/wm_i3.rs:42-49 | Listing the same nodes in another order yields the same records, as a multiset. |
| `WindowCrawl.BfsWindowsInBfsOrder` | src/wm_i3.rs:37-53 | The crawl emits the records of the windowed nodes in breadth-first order over both child lists. |
| `WindowCrawl.CrawlLevelOrder` | src/wm_i3.rs:34-53 | All records from shallower frontiers come first. Then come the records of a given frontier, contiguously and in frontier order, tiled children before floating ones. |
| `WindowCrawl.CrawlOnePerWindow` | src/wm_i3.rs:34-53 | The crawl emits exactly one record per windowed node in the frontier's trees (both child lists) and nothing else. The multisets agree, the lengths agree, and membership agrees. |
| `WindowCrawl.CrawlFrontier` | src/wm_i3.rs:39-51 | The inner loop queues each node's `nodes` then `floating_nodes`. It records exactly the frontier's windowed nodes, in order. |
| `WindowCrawl.CrawlFrom` | src/wm_i3.rs:34-54 | The outer loop's accumulated records equal the functional crawl from the starting frontier. |
| `WindowCrawl.WorkspaceCrawlSpec` | src/wm_i3.rs:25-55 | The crawl aborts with `WorkspaceNotFound(name)` exactly when no container reachable from the root through `nodes` is a workspace with that name. Otherwise its records are, as a multiset, one per windowed proper descendant of the breadth-first first such workspace container. That container itself is excluded. |
| `WindowCrawl.CrawlWindows` | src/wm_i3.rs:25-55 | The source function, a search followed by the frontier loop, computes the functional crawl, abort included. |
| `WindowList.VisibleWindows` | src/wm_i3.rs:65-70 | The functional enumeration over the workspace list, for any per-workspace crawl. `VisibleWindowsAborts`, `VisibleWindowsConcat`, `VisibleWindowsSingle` and `VisibleWindowsMembers` characterise it. |
| `WindowList.VisibleWindowsAborts` | src/wm_i3.rs:65-71 | The enumeration succeeds exactly when every visible workspace's crawl succeeds. On abort, the error is that of a visible workspace whose crawl fails and before which every visible crawl succeeds. |
| `WindowList.VisibleWindowsConcat` | src/wm_i3.rs:67-70 | Enumerating a concatenated workspace list gives the two parts' records concatenated in order. An abort in the first part wins. |
| `WindowList.VisibleWindowsSingle` | src/wm_i3.rs:65-69 | A single workspace contributes its crawl when it is visible, and nothing otherwise. |
| `WindowList.VisibleWindowsMembers` | src/wm_i3.rs:65-71 | A record is enumerated exactly when the crawl of some visible workspace reports it. |
| `WindowList.GetWindows` | src/wm_i3.rs:65-71 | The source loop over visible workspaces computes the enumeration with `crawl_windows` over the given tree, abort included. |

## Left out

- Connecting to i3 and the IPC calls (`I3Connection::connect`, `get_workspaces`, `get_tree`): socket I/O in an external library. The tree and the workspace list are parameters of the model instead.
- `focus_window`: it only formats a `[con_id="…"] focus` command, sends it over the connection and logs it. There is no logic to model beyond I/O.
- The panics on connection or query failure in `get_windows`: they come from I/O, which the model takes as already done.
- Integer widths: `id`, `rect` and `deco_rect` are unbounded `int`. The fixed-width types of the client library and of `DesktopWindow` are not part of this model, so a wrap-around or overflow panic in `rect.1 - deco_rect.3` or `rect.3 + deco_rect.3` is not modelled.
- The client library's `Node`, `Workspace` and `NodeType` beyond the fields read. Only `id`, `name`, `nodetype` (workspace or not), whether `window` is set, `rect`, `deco_rect`, `nodes` and `floating_nodes` are modelled. The workspace list keeps only `name` and `visible`.
- Node identity: the source returns references into the tree, while the model returns node values. Two structurally equal containers are indistinguishable in the model.
