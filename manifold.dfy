/** The tree view of the editor extension (extension/src/manifold.ts, `NodeProvider.getChildren`):
    which items the tree shows under the root and under an expanded item, computed from the
    flat list of node paths (`hierarchy`) that the inspector's last state message carried.

    A node path is `/`-separated and starts with `/`. An item at the top level is a path
    with no `/` after its first character; the children of an item are the paths one
    segment below its own. Looking up a path that the state does not index throws a
    `TypeError` in the extension; here that is a `Failure`. */
module Manifold {
  import opened Wrappers
  import opened Seqs

  /** The part of a remote node the tree reads: its name and its index among its siblings. */
  datatype NodeInfo = NodeInfo(name: string, index: int)

  /** The inspector state as far as the tree reads it: every node path in walk order, the
      nodes by id, and the id of each path. */
  datatype RemoteState = RemoteState(hierarchy: seq<string>, nodes: map<string, NodeInfo>, nodePaths: map<string, string>)

  /** `vscode.TreeItemCollapsibleState`, of which the tree uses two values. */
  datatype CollapsibleState = NotCollapsible | Collapsed

  /** A tree item (the extension's `Node` class); `name` is its label. */
  datatype TreeNode = TreeNode(name: string, abspath: string, id: string, index: int, collapsibleState: CollapsibleState)

  /** Why building an item failed: the path has no id, or the id has no node. */
  datatype LookupError = NoNodeId(path: string) | NoNode(id: string)

  /** `String.prototype.lastIndexOf` for one character: the last index of `c`, or -1. */
  function LastIndexOf(s: string, c: char): (r: int)
    ensures -1 <= r < |s|
    ensures r == -1 <==> c !in s
    ensures r >= 0 ==> s[r] == c && c !in s[r + 1..]
  {
    if s == [] then -1
    else if s[|s| - 1] == c then |s| - 1
    else
      var r := LastIndexOf(s[..|s| - 1], c);
      assert s == s[..|s| - 1] + [s[|s| - 1]];
      assert r >= 0 ==> s[r + 1..] == s[..|s| - 1][r + 1..] + [s[|s| - 1]];
      r
  }

  /** `String.prototype.indexOf` for a pattern: the first index at which `pat` occurs. */
  function IndexOf(s: string, pat: string): (r: Option<nat>)
    ensures r.Some? ==> r.value + |pat| <= |s| && pat <= s[r.value..]
    ensures r.Some? ==> forall j :: 0 <= j < r.value ==> !(pat <= s[j..])
    ensures r.None? ==> forall j :: 0 <= j <= |s| ==> !(pat <= s[j..])
  {
    if pat <= s then Some(0)
    else if s == [] then None
    else
      var r := IndexOf(s[1..], pat);
      assert forall j :: 1 <= j <= |s| ==> s[1..][j - 1..] == s[j..];
      match r
      case None => None
      case Some(i) => Some(i + 1)
  }

  /** `String.prototype.replace` with a string pattern: only the first occurrence is replaced. */
  function ReplaceFirst(s: string, pat: string, rep: string): string
  {
    match IndexOf(s, pat)
    case None => s
    case Some(i) => s[..i] + rep + s[i + |pat|..]
  }

  /** Removing a prefix by `replace` leaves exactly the rest of the string. */
  lemma ReplacePrefix(s: string, pat: string)
    requires pat <= s
    ensures ReplaceFirst(s, pat, "") == s[|pat|..]
  {
    assert IndexOf(s, pat) == Some(0);
  }

  /** A top-level path: its last `/` is its first character. */
  predicate IsRootPath(p: string)
  {
    LastIndexOf(p, '/') == 0
  }

  /** A path directly below `abspath`: it starts with `abspath + "/"` and what the
      replacement leaves of it has no `/`. */
  function IsChildPath(abspath: string): string -> bool
  {
    p =>
      var basePath := abspath + "/";
      if basePath <= p then LastIndexOf(ReplaceFirst(p, basePath, ""), '/') == -1 else false
  }

  /** The paths the tree shows under `element`, or at the top level when there is none. */
  function SelectedPaths(hierarchy: seq<string>, element: Option<TreeNode>): seq<string>
  {
    match element
    case None => Filter(hierarchy, IsRootPath)
    case Some(e) => Filter(hierarchy, IsChildPath(e.abspath))
  }

  /** The paths strictly below `p`. */
  function Descendants(hierarchy: seq<string>, p: string): seq<string>
  {
    Filter(hierarchy, q => p + "/" <= q)
  }

  /** The item for path `p`: id from `nodePaths`, label and index from that node, collapsed
      when some path lies below it. */
  function MakeNode(st: RemoteState, p: string): (r: Result<TreeNode, LookupError>)
    ensures r.Success? <==> p in st.nodePaths && st.nodePaths[p] in st.nodes
    ensures r.Success? ==>
      r.value.abspath == p && r.value.id == st.nodePaths[p] &&
      r.value.name == st.nodes[r.value.id].name && r.value.index == st.nodes[r.value.id].index
  {
    if p !in st.nodePaths then Failure(NoNodeId(p))
    else
      var id := st.nodePaths[p];
      if id !in st.nodes then Failure(NoNode(id))
      else
        var collapse := if |Descendants(st.hierarchy, p)| > 0 then Collapsed else NotCollapsible;
        Success(TreeNode(st.nodes[id].name, p, id, st.nodes[id].index, collapse))
  }

  /** The items for `paths`, in order; the first path that cannot be looked up fails the whole. */
  function MakeNodes(st: RemoteState, paths: seq<string>): (r: Result<seq<TreeNode>, LookupError>)
    ensures r.Success? <==> forall i :: 0 <= i < |paths| ==> MakeNode(st, paths[i]).Success?
    ensures r.Success? ==>
      |r.value| == |paths| && (forall i :: 0 <= i < |paths| ==> r.value[i] == MakeNode(st, paths[i]).value)
  {
    if paths == [] then Success([])
    else match MakeNode(st, paths[0])
      case Failure(err) => Failure(err)
      case Success(item) =>
        match MakeNodes(st, paths[1..])
        case Failure(err) => Failure(err)
        case Success(rest) => Success([item] + rest)
  }

  /** `getChildren`: no items before any state arrived; otherwise the items of the top-level
      paths, or of the paths directly below `element`, in hierarchy order. */
  function GetChildren(remote: Option<RemoteState>, element: Option<TreeNode>): (r: Result<seq<TreeNode>, LookupError>)
    ensures remote.None? ==> r == Success([])
    ensures remote.Some? && r.Success? ==>
      var paths := SelectedPaths(remote.value.hierarchy, element);
      |r.value| == |paths| &&
      forall i :: 0 <= i < |paths| ==>
        paths[i] in remote.value.nodePaths &&
        r.value[i].abspath == paths[i] && r.value[i].id == remote.value.nodePaths[paths[i]]
  {
    match remote
    case None => Success([])
    case Some(st) => MakeNodes(st, SelectedPaths(st.hierarchy, element))
  }

  /** Top-level paths are exactly those that start with `/` and have no other `/`. */
  lemma RootPathIff(p: string)
    ensures IsRootPath(p) <==> |p| > 0 && p[0] == '/' && '/' !in p[1..]
  {
    if |p| > 0 && p[0] == '/' && '/' !in p[1..] {
      assert LastIndexOf(p, '/') >= 0;
    }
  }

  /** Child paths are exactly those below `abspath + "/"` whose remainder has no `/`; in
      particular a child is never its parent. */
  lemma ChildPathIff(abspath: string, p: string)
    ensures IsChildPath(abspath)(p) <==> abspath + "/" <= p && '/' !in p[|abspath| + 1..]
    ensures IsChildPath(abspath)(p) ==> p != abspath && |p| > |abspath|
  {
    if abspath + "/" <= p {
      ReplacePrefix(p, abspath + "/");
    }
  }

  /** The top-level items are the hierarchy's top-level paths: each one, and only those. */
  lemma RootItems(st: RemoteState)
    ensures forall p :: p in SelectedPaths(st.hierarchy, None) <==>
      p in st.hierarchy && |p| > 0 && p[0] == '/' && '/' !in p[1..]
  {
    FilterMembership(st.hierarchy, IsRootPath);
    forall p {
      RootPathIff(p);
    }
  }

  /** The children of an item are the hierarchy's paths one segment below it: each one, and
      only those; none of them is the item's own path. */
  lemma ChildItems(st: RemoteState, element: TreeNode)
    ensures forall p :: p in SelectedPaths(st.hierarchy, Some(element)) <==>
      p in st.hierarchy && element.abspath + "/" <= p && '/' !in p[|element.abspath| + 1..]
    ensures element.abspath !in SelectedPaths(st.hierarchy, Some(element))
  {
    FilterMembership(st.hierarchy, IsChildPath(element.abspath));
    forall p {
      ChildPathIff(element.abspath, p);
    }
  }

  /** An item is collapsible exactly when some hierarchy path lies below it. */
  lemma CollapsedIff(st: RemoteState, p: string)
    requires MakeNode(st, p).Success?
    ensures MakeNode(st, p).value.collapsibleState == Collapsed <==>
      exists q :: q in st.hierarchy && p + "/" <= q
  {
    FilterMembership(st.hierarchy, q => p + "/" <= q);
    if |Descendants(st.hierarchy, p)| > 0 {
      assert Descendants(st.hierarchy, p)[0] in Descendants(st.hierarchy, p);
    }
    if exists q :: q in st.hierarchy && p + "/" <= q {
      var q :| q in st.hierarchy && p + "/" <= q;
      assert q in Descendants(st.hierarchy, p);
    }
  }

  /** Every hierarchy path has an id, and every such id a node. */
  predicate Indexed(st: RemoteState)
  {
    forall p :: p in st.hierarchy ==> p in st.nodePaths && st.nodePaths[p] in st.nodes
  }

  /** On an indexed state, building the items never fails. */
  lemma IndexedNeverFails(st: RemoteState, element: Option<TreeNode>)
    requires Indexed(st)
    ensures GetChildren(Some(st), element).Success?
  {
    var paths := SelectedPaths(st.hierarchy, element);
    match element
    case None => FilterMembership(st.hierarchy, IsRootPath);
    case Some(e) => FilterMembership(st.hierarchy, IsChildPath(e.abspath));
    assert forall i :: 0 <= i < |paths| ==> paths[i] in st.hierarchy;
  }
}
