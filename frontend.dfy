/** The inspector state of pkg/session/frontend.go: `exportNodes` rebuilds the node list and
    hierarchy from a walk of the manifold tree, exporting each component's visible fields and
    giving its buttons a call path; `muxListenTo` picks the listener for a protocol. */
module Frontend {
  import opened Wrappers
  import opened Seqs
  import opened Export
  import Manifold

  /** An inspector button; an empty `onClick` asks the inspector to call the component method
      at `path`. */
  datatype Button = Button(name: string, path: string, onClick: string)

  datatype Component = Component(name: string, fields: seq<Field>, buttons: seq<Button>)

  /** A node as the inspector state carries it. */
  datatype Node = Node(name: string, path: string, dir: string, id: string, index: int, active: bool, components: seq<Component>)

  /** A method of a component's reference type: its name and number of inputs, the
      receiver included. */
  datatype Method = Method(name: string, numIn: nat)

  /** A component of a manifold node: its name, its value (a struct), the names of its
      fields tagged `tractor:"hidden"`, the buttons it returns when it is a
      `ButtonProvider`, and the method set of its reference type. */
  datatype ComponentRef = ComponentRef(name: string, value: Value, hidden: seq<string>, buttons: Option<seq<Button>>, methods: seq<Method>)

  /** A manifold node, as `exportNodes` reads it during the walk. */
  datatype ManifoldNode = ManifoldNode(
    name: string, id: string, dir: string, active: bool, fullPath: string, siblingIndex: int,
    components: seq<ComponentRef>, expressions: map<string, string>)

  /** `strInSlice`: does `s` occur in `strs`? */
  method StrInSlice(strs: seq<string>, s: string) returns (found: bool)
    ensures found <==> s in strs
  {
    for i := 0 to |strs|
      invariant s !in strs[..i]
    {
      if strs[i] == s {
        return true;
      }
    }
    assert strs[..|strs|] == strs;
    return false;
  }

  /** Keeps a field name unless the component tags it hidden. */
  function NotHidden(c: ComponentRef): string -> bool
  {
    f => f !in c.hidden
  }

  /** The fields of a component that are not tagged hidden, in declaration order. */
  function VisibleFields(c: ComponentRef): (r: seq<string>)
    requires c.value.Struct?
    ensures forall f :: f in r <==> f in Names(c.value.members) && f !in c.hidden
  {
    FilterMembership(Names(c.value.members), NotHidden(c));
    Filter(Names(c.value.members), NotHidden(c))
  }

  /** A component `exportNodes` can export: its value is a struct whose visible fields are
      all exportable. */
  predicate ComponentExportable(c: ComponentRef)
  {
    c.value.Struct? &&
    forall i :: 0 <= i < |c.value.members| && c.value.members[i].name !in c.hidden ==>
      Exportable(FieldValue(c.value, c.value.members[i].name))
  }

  predicate NodeExportable(n: ManifoldNode)
  {
    forall i :: 0 <= i < |n.components| ==> ComponentExportable(n.components[i])
  }

  /** The context the serialiser asks about node `n`. */
  function ContextOf(n: ManifoldNode, pointers: map<Addr, string>): NodeContext
  {
    NodeContext(n.fullPath, n.expressions, pointers)
  }

  /** The path of a component of `n`: the components' fields and buttons hang below it. */
  function ComponentPath(n: ManifoldNode, c: ComponentRef): string
  {
    n.fullPath + "/" + c.name
  }

  lemma VisibleExportable(n: ManifoldNode, c: ComponentRef, pointers: map<Addr, string>)
    requires ComponentExportable(c)
    ensures forall i :: 0 <= i < |VisibleFields(c)| ==>
      CanExport(c.value, VisibleFields(c)[i], ComponentPath(n, c), ContextOf(n, pointers))
  {
    forall i | 0 <= i < |VisibleFields(c)|
      ensures CanExport(c.value, VisibleFields(c)[i], ComponentPath(n, c), ContextOf(n, pointers))
    {
      var f := VisibleFields(c)[i];
      assert f in VisibleFields(c);
      var j :| 0 <= j < |c.value.members| && Names(c.value.members)[j] == f;
    }
  }

  /** The exported fields of component `c` of node `n`: one per visible field, in order. */
  function ComponentFields(n: ManifoldNode, c: ComponentRef, pointers: map<Addr, string>): (r: seq<Field>)
    requires ComponentExportable(c)
    ensures |r| == |VisibleFields(c)|
    ensures forall i :: 0 <= i < |r| ==>
      r[i].name == VisibleFields(c)[i] && r[i].path == ComponentPath(n, c) + "/" + VisibleFields(c)[i]
  {
    VisibleExportable(n, c, pointers);
    ExportMembers(c.value, VisibleFields(c), ComponentPath(n, c), ContextOf(n, pointers))
  }

  /** Does the method set have a method `name` with no argument besides the receiver? */
  predicate HasNiladicMethod(methods: seq<Method>, name: string)
  {
    exists j :: 0 <= j < |methods| && methods[j].name == name && methods[j].numIn == 1
  }

  /** What `exportNodes` makes of button `b` of a component at `path`. */
  function PatchedButton(b: Button, methods: seq<Method>, path: string): (r: Button)
    ensures r.name == b.name && r.onClick == b.onClick
    ensures b.onClick != "" ==> r == b
    ensures b.onClick == "" ==> r.path == if HasNiladicMethod(methods, b.name) then path + "/" + b.name else b.path
  {
    if b.onClick == "" && HasNiladicMethod(methods, b.name) then b.(path := path + "/" + b.name) else b
  }

  /** Gives every button with an empty `onClick` the call path of the same-named method
      when that method takes no argument. */
  method PatchButtons(buttons: seq<Button>, methods: seq<Method>, path: string) returns (r: seq<Button>)
    ensures |r| == |buttons|
    ensures forall i :: 0 <= i < |buttons| ==> r[i] == PatchedButton(buttons[i], methods, path)
  {
    r := buttons;
    for idx := 0 to |r|
      invariant |r| == |buttons|
      invariant forall i :: 0 <= i < idx ==> r[i] == PatchedButton(buttons[i], methods, path)
      invariant forall i :: idx <= i < |r| ==> r[i] == buttons[i]
    {
      var button := r[idx];
      if button.onClick != "" {
        continue;
      }
      for i := 0 to |methods|
        invariant forall j :: 0 <= j < i ==> !(methods[j].name == button.name && methods[j].numIn == 1)
      {
        var method_ := methods[i];
        if method_.name != button.name {
          continue;
        }
        if method_.numIn == 1 {
          r := r[idx := r[idx].(path := path + "/" + method_.name)];
          break;
        }
      }
    }
  }

  /** The buttons of a component: none unless it provides some. */
  function ComponentButtons(n: ManifoldNode, c: ComponentRef): (r: seq<Button>)
    ensures c.buttons.None? ==> r == []
    ensures c.buttons.Some? ==> (|r| == |c.buttons.value| &&
      forall i :: 0 <= i < |r| ==> r[i] == PatchedButton(c.buttons.value[i], c.methods, ComponentPath(n, c)))
  {
    match c.buttons
    case None => []
    case Some(bs) => seq(|bs|, i requires 0 <= i < |bs| => PatchedButton(bs[i], c.methods, ComponentPath(n, c)))
  }

  /** The exported form of node `n`. */
  function NodeOf(n: ManifoldNode, pointers: map<Addr, string>): (r: Node)
    requires NodeExportable(n)
    ensures r.id == n.id && r.path == n.fullPath && r.name == n.name && r.index == n.siblingIndex
    ensures r.dir == n.dir && r.active == n.active
    ensures |r.components| == |n.components|
    ensures forall i :: 0 <= i < |n.components| ==>
      r.components[i] == Component(n.components[i].name,
                                   ComponentFields(n, n.components[i], pointers),
                                   ComponentButtons(n, n.components[i]))
  {
    Node(n.name, n.fullPath, n.dir, n.id, n.siblingIndex, n.active,
         seq(|n.components|, i requires 0 <= i < |n.components| =>
           Component(n.components[i].name, ComponentFields(n, n.components[i], pointers), ComponentButtons(n, n.components[i]))))
  }

  /** One step of the walk over a component's fields: a hidden field selects nothing, a
      visible one is appended to the fields selected so far. */
  lemma VisibleStep(c: ComponentRef, i: nat)
    requires c.value.Struct? && i < |c.value.members|
    ensures Filter(Names(c.value.members)[..i + 1], NotHidden(c)) <= VisibleFields(c)
    ensures Names(c.value.members)[i] in c.hidden ==>
      Filter(Names(c.value.members)[..i + 1], NotHidden(c)) == Filter(Names(c.value.members)[..i], NotHidden(c))
    ensures Names(c.value.members)[i] !in c.hidden ==>
      Filter(Names(c.value.members)[..i + 1], NotHidden(c)) == Filter(Names(c.value.members)[..i], NotHidden(c)) + [Names(c.value.members)[i]]
  {
    var names := Names(c.value.members);
    assert names[..i + 1] == names[..i] + [names[i]];
    FilterAppend(names[..i], [names[i]], NotHidden(c));
    FilterPrefix(names, NotHidden(c), i + 1);
    if names[i] in c.hidden {
      assert Filter([names[i]], NotHidden(c)) == [];
    } else {
      assert Filter([names[i]], NotHidden(c)) == [names[i]];
    }
  }

  /** Every field selected from the first `i` fields can be exported. */
  lemma VisiblePrefixExportable(n: ManifoldNode, c: ComponentRef, pointers: map<Addr, string>, i: nat)
    requires ComponentExportable(c) && i <= |c.value.members|
    ensures forall k :: 0 <= k < |Filter(Names(c.value.members)[..i], NotHidden(c))| ==>
      CanExport(c.value, Filter(Names(c.value.members)[..i], NotHidden(c))[k], ComponentPath(n, c), ContextOf(n, pointers))
  {
    var selected := Filter(Names(c.value.members)[..i], NotHidden(c));
    FilterPrefix(Names(c.value.members), NotHidden(c), i);
    VisibleExportable(n, c, pointers);
    forall k | 0 <= k < |selected|
      ensures CanExport(c.value, selected[k], ComponentPath(n, c), ContextOf(n, pointers))
    {
      assert selected[k] == VisibleFields(c)[k];
    }
  }

  /** The fields `exportNodes` has exported after looking at the first `i` fields of `c`. */
  function FieldsUpTo(n: ManifoldNode, c: ComponentRef, pointers: map<Addr, string>, i: nat): seq<Field>
    requires ComponentExportable(c) && i <= |c.value.members|
  {
    VisiblePrefixExportable(n, c, pointers, i);
    ExportMembers(c.value, Filter(Names(c.value.members)[..i], NotHidden(c)), ComponentPath(n, c), ContextOf(n, pointers))
  }

  /** Looking at no field exports nothing; having looked at all of them gives the
      component's fields. */
  lemma FieldsEnds(n: ManifoldNode, c: ComponentRef, pointers: map<Addr, string>)
    requires ComponentExportable(c)
    ensures FieldsUpTo(n, c, pointers, 0) == []
    ensures FieldsUpTo(n, c, pointers, |c.value.members|) == ComponentFields(n, c, pointers)
  {
    var names := Names(c.value.members);
    assert names[..0] == [];
    assert names[..|names|] == names;
  }

  /** Looking at one more field: a hidden one exports nothing, a visible one appends its
      exported field. */
  lemma FieldsStep(n: ManifoldNode, c: ComponentRef, pointers: map<Addr, string>, i: nat)
    requires ComponentExportable(c) && i < |c.value.members|
    ensures c.value.members[i].name in c.hidden ==> FieldsUpTo(n, c, pointers, i + 1) == FieldsUpTo(n, c, pointers, i)
    ensures c.value.members[i].name !in c.hidden ==>
      CanExport(c.value, c.value.members[i].name, ComponentPath(n, c), ContextOf(n, pointers)) &&
      FieldsUpTo(n, c, pointers, i + 1) ==
        FieldsUpTo(n, c, pointers, i) + [ExportField(c.value, c.value.members[i].name, ComponentPath(n, c), ContextOf(n, pointers))]
  {
    var names := Names(c.value.members);
    VisibleStep(c, i);
    VisiblePrefixExportable(n, c, pointers, i);
    VisiblePrefixExportable(n, c, pointers, i + 1);
    if names[i] !in c.hidden {
      var done := Filter(names[..i], NotHidden(c));
      assert names[i] == Filter(names[..i + 1], NotHidden(c))[|done|];
      ExportMembersSnoc(c.value, done, names[i], ComponentPath(n, c), ContextOf(n, pointers));
    }
  }

  /** Exports the visible fields of component `c`, skipping those tagged hidden. */
  method ExportFields(n: ManifoldNode, c: ComponentRef, pointers: map<Addr, string>) returns (fields: seq<Field>)
    requires ComponentExportable(c)
    ensures fields == ComponentFields(n, c, pointers)
  {
    var path := ComponentPath(n, c);
    var ctx := ContextOf(n, pointers);
    var hiddenFields := c.hidden;
    FieldsEnds(n, c, pointers);
    fields := [];
    for i := 0 to |c.value.members|
      invariant fields == FieldsUpTo(n, c, pointers, i)
    {
      var field := c.value.members[i].name;
      FieldsStep(n, c, pointers, i);
      var hidden := StrInSlice(hiddenFields, field);
      if hidden {
        continue;
      }
      fields := fields + [ExportField(c.value, field, path, ctx)];
    }
  }

  /** Exports node `n`: its fields, and each component with its visible fields and buttons. */
  method ExportNode(n: ManifoldNode, pointers: map<Addr, string>) returns (node: Node)
    requires NodeExportable(n)
    ensures node == NodeOf(n, pointers)
  {
    node := Node(n.name, n.fullPath, n.dir, n.id, n.siblingIndex, n.active, []);
    for k := 0 to |n.components|
      invariant node == NodeOf(n, pointers).(components := NodeOf(n, pointers).components[..k])
    {
      var com := n.components[k];
      var fields := ExportFields(n, com, pointers);
      var buttons: seq<Button> := [];
      if com.buttons.Some? {
        buttons := PatchButtons(com.buttons.value, com.methods, ComponentPath(n, com));
      }
      assert buttons == ComponentButtons(n, com);
      NodeComponentsStep(n, pointers, k);
      node := node.(components := node.components + [Component(com.name, fields, buttons)]);
    }
    assert NodeOf(n, pointers).components[..|n.components|] == NodeOf(n, pointers).components;
  }

  /** One more exported component of `n` extends the exported components so far. */
  lemma NodeComponentsStep(n: ManifoldNode, pointers: map<Addr, string>, k: nat)
    requires NodeExportable(n) && k < |n.components|
    ensures NodeOf(n, pointers).components[..k + 1] == NodeOf(n, pointers).components[..k] +
      [Component(n.components[k].name, ComponentFields(n, n.components[k], pointers), ComponentButtons(n, n.components[k]))]
  {
    var cs := NodeOf(n, pointers).components;
    assert cs[..k + 1] == cs[..k] + [cs[k]];
  }

  /** The full paths of the walked nodes, in walk order. */
  function FullPaths(walk: seq<ManifoldNode>): (r: seq<string>)
    ensures |r| == |walk| && forall i :: 0 <= i < |walk| ==> r[i] == walk[i].fullPath
  {
    if walk == [] then [] else FullPaths(walk[..|walk| - 1]) + [walk[|walk| - 1].fullPath]
  }

  /** `walk[i]` is the last walked node with id `id`. */
  predicate LastWithId(walk: seq<ManifoldNode>, id: string, i: nat)
  {
    i < |walk| && walk[i].id == id && forall j :: i < j < |walk| ==> walk[j].id != id
  }

  /** The nodes by id after the walk: a later node overrides an earlier one with its id. */
  function NodesById(walk: seq<ManifoldNode>, pointers: map<Addr, string>): (r: map<string, Node>)
    requires forall i :: 0 <= i < |walk| ==> NodeExportable(walk[i])
    ensures forall id :: id in r <==> exists i :: 0 <= i < |walk| && walk[i].id == id
  {
    if walk == [] then map[]
    else
      var last := walk[|walk| - 1];
      NodesById(walk[..|walk| - 1], pointers)[last.id := NodeOf(last, pointers)]
  }

  /** Each id maps to the export of the last walked node with that id. */
  lemma {:induction false} NodesByIdLast(walk: seq<ManifoldNode>, pointers: map<Addr, string>)
    requires forall i :: 0 <= i < |walk| ==> NodeExportable(walk[i])
    ensures forall id, i: nat :: LastWithId(walk, id, i) ==>
      id in NodesById(walk, pointers) && NodesById(walk, pointers)[id] == NodeOf(walk[i], pointers)
  {
    if walk != [] {
      var k := |walk| - 1;
      var prefix := walk[..k];
      NodesByIdLast(prefix, pointers);
      assert NodesById(walk, pointers) == NodesById(prefix, pointers)[walk[k].id := NodeOf(walk[k], pointers)];
      forall id, i: nat | LastWithId(walk, id, i)
        ensures id in NodesById(walk, pointers) && NodesById(walk, pointers)[id] == NodeOf(walk[i], pointers)
      {
        if id != walk[k].id {
          assert LastWithId(prefix, id, i);
          assert walk[i] == prefix[i];
        } else {
          assert i == k;
        }
      }
    }
  }

  /** Walking one more node stores its export under its id. */
  lemma NodesByIdStep(walk: seq<ManifoldNode>, pointers: map<Addr, string>, n: nat)
    requires n < |walk| && forall i :: 0 <= i < |walk| ==> NodeExportable(walk[i])
    ensures NodesById(walk[..n + 1], pointers) == NodesById(walk[..n], pointers)[walk[n].id := NodeOf(walk[n], pointers)]
  {
    assert walk[..n + 1][..n] == walk[..n];
  }

  /** The ids by path after the walk, on top of the ids the state held before. */
  function PathIds(before: map<string, string>, walk: seq<ManifoldNode>): (r: map<string, string>)
    ensures forall p :: p in r <==> p in before || exists i :: 0 <= i < |walk| && walk[i].fullPath == p
  {
    if walk == [] then before
    else
      var last := walk[|walk| - 1];
      PathIds(before, walk[..|walk| - 1])[last.fullPath := last.id]
  }

  /** Every walked path is mapped to the id of a walked node. */
  lemma {:induction false} PathIdsWalked(before: map<string, string>, walk: seq<ManifoldNode>, p: string)
    requires exists i :: 0 <= i < |walk| && walk[i].fullPath == p
    ensures p in PathIds(before, walk)
    ensures exists i :: 0 <= i < |walk| && walk[i].id == PathIds(before, walk)[p]
  {
    var last := walk[|walk| - 1];
    if last.fullPath != p {
      var i :| 0 <= i < |walk| && walk[i].fullPath == p;
      assert walk[..|walk| - 1][i].fullPath == p;
      PathIdsWalked(before, walk[..|walk| - 1], p);
      var j :| 0 <= j < |walk| - 1 && walk[..|walk| - 1][j].id == PathIds(before, walk[..|walk| - 1])[p];
      assert walk[j].id == PathIds(before, walk)[p];
    }
  }

  /** `walk[i]` is the last walked node with full path `p`. */
  predicate LastWithPath(walk: seq<ManifoldNode>, p: string, i: nat)
  {
    i < |walk| && walk[i].fullPath == p && forall j :: i < j < |walk| ==> walk[j].fullPath != p
  }

  /** A walked path is indexed to the id of the last walked node with that path (two
      siblings of the same name share a path, and the later one wins); a path that was not
      walked keeps the id it had before. */
  lemma {:induction false} PathIdsLast(before: map<string, string>, walk: seq<ManifoldNode>)
    ensures forall p, i: nat :: LastWithPath(walk, p, i) ==>
      p in PathIds(before, walk) && PathIds(before, walk)[p] == walk[i].id
    ensures forall p :: p in before && (forall i :: 0 <= i < |walk| ==> walk[i].fullPath != p) ==>
      PathIds(before, walk)[p] == before[p]
  {
    if walk != [] {
      var k := |walk| - 1;
      var prefix := walk[..k];
      PathIdsLast(before, prefix);
      assert PathIds(before, walk) == PathIds(before, prefix)[walk[k].fullPath := walk[k].id];
      forall p, i: nat | LastWithPath(walk, p, i)
        ensures p in PathIds(before, walk) && PathIds(before, walk)[p] == walk[i].id
      {
        if p != walk[k].fullPath {
          assert LastWithPath(prefix, p, i);
          assert walk[i] == prefix[i];
        } else {
          assert i == k;
        }
      }
      forall p | p in before && (forall i :: 0 <= i < |walk| ==> walk[i].fullPath != p)
        ensures PathIds(before, walk)[p] == before[p]
      {
        assert walk[k].fullPath != p;
        forall i | 0 <= i < |prefix|
          ensures prefix[i].fullPath != p
        {
          assert prefix[i] == walk[i];
        }
      }
    }
  }

  /** The inspector state, of which `exportNodes` rebuilds the hierarchy and the node index. */
  class State {
    var hierarchy: seq<string>
    var nodes: map<string, Node>
    var nodePaths: map<string, string>

    constructor ()
      ensures hierarchy == [] && nodes == map[] && nodePaths == map[]
    {
      hierarchy := [];
      nodes := map[];
      nodePaths := map[];
    }

    /** The tree view can look up every path of the hierarchy. */
    ghost predicate Indexed()
      reads this
    {
      Manifold.Indexed(Remote(hierarchy, nodes, nodePaths))
    }

    /** `exportNodes`: the hierarchy and the nodes are rebuilt from the walk; the path index
        is updated, and keeps the paths of nodes no longer walked. */
    method ExportNodes(walk: seq<ManifoldNode>, pointers: map<Addr, string>)
      requires forall i :: 0 <= i < |walk| ==> NodeExportable(walk[i])
      modifies this
      ensures hierarchy == FullPaths(walk)
      ensures nodes == NodesById(walk, pointers)
      ensures nodePaths == PathIds(old(nodePaths), walk)
      ensures Indexed()
    {
      hierarchy := [];
      nodes := map[];
      for i := 0 to |walk|
        invariant hierarchy == FullPaths(walk[..i])
        invariant nodes == NodesById(walk[..i], pointers)
        invariant nodePaths == PathIds(old(nodePaths), walk[..i])
      {
        var n := walk[i];
        assert walk[..i + 1][..i] == walk[..i];
        NodesByIdStep(walk, pointers, i);
        hierarchy := hierarchy + [n.fullPath];
        var node := ExportNode(n, pointers);
        nodes := nodes[n.id := node];
        nodePaths := nodePaths[n.fullPath := n.id];
      }
      assert walk[..|walk|] == walk;
      ExportedIndexed(old(nodePaths), walk, pointers);
    }
  }

  /** The state as the editor extension receives it. */
  function Remote(hierarchy: seq<string>, nodes: map<string, Node>, nodePaths: map<string, string>): Manifold.RemoteState
  {
    Manifold.RemoteState(hierarchy, map id | id in nodes :: Manifold.NodeInfo(nodes[id].name, nodes[id].index), nodePaths)
  }

  /** After `exportNodes`, every walked path has an id and every such id a node, whatever
      paths the index held before. */
  lemma ExportedIndexed(before: map<string, string>, walk: seq<ManifoldNode>, pointers: map<Addr, string>)
    requires forall i :: 0 <= i < |walk| ==> NodeExportable(walk[i])
    ensures Manifold.Indexed(Remote(FullPaths(walk), NodesById(walk, pointers), PathIds(before, walk)))
  {
    var st := Remote(FullPaths(walk), NodesById(walk, pointers), PathIds(before, walk));
    forall p | p in st.hierarchy
      ensures p in st.nodePaths && st.nodePaths[p] in st.nodes
    {
      var i :| 0 <= i < |walk| && FullPaths(walk)[i] == p;
      PathIdsWalked(before, walk, p);
    }
  }

  /** The tree view never fails on a state that `exportNodes` produced, whichever item is
      expanded: stale paths left in the index do not matter. */
  lemma ExportedStateNeverFails(before: map<string, string>, walk: seq<ManifoldNode>, pointers: map<Addr, string>, element: Option<Manifold.TreeNode>)
    requires forall i :: 0 <= i < |walk| ==> NodeExportable(walk[i])
    ensures Manifold.GetChildren(Some(Remote(FullPaths(walk), NodesById(walk, pointers), PathIds(before, walk))), element).Success?
  {
    ExportedIndexed(before, walk, pointers);
    Manifold.IndexedNeverFails(Remote(FullPaths(walk), NodesById(walk, pointers), PathIds(before, walk)), element);
  }

  /** A component's exported fields are named after exactly its fields not tagged hidden. */
  lemma HiddenFieldsOmitted(n: ManifoldNode, c: ComponentRef, pointers: map<Addr, string>)
    requires ComponentExportable(c)
    ensures forall f :: (exists i :: 0 <= i < |ComponentFields(n, c, pointers)| && ComponentFields(n, c, pointers)[i].name == f) <==>
      f in Names(c.value.members) && f !in c.hidden
  {
    var fs := ComponentFields(n, c, pointers);
    forall f | f in Names(c.value.members) && f !in c.hidden
      ensures exists i :: 0 <= i < |fs| && fs[i].name == f
    {
      assert f in VisibleFields(c);
      var i :| 0 <= i < |VisibleFields(c)| && VisibleFields(c)[i] == f;
      assert fs[i].name == f;
    }
  }

  /** The listener `muxListenTo` opens. */
  datatype Listener = WebsocketListener(addr: string) | UnixListener(addr: string)

  /** Go's `%q` for the characters that need escaping in the message. */
  function EscapeChar(c: char): string
  {
    if c == '"' then "\\\"" else if c == '\\' then "\\\\" else if c == '\n' then "\\n" else if c == '\t' then "\\t" else [c]
  }

  function Escape(s: string): string
  {
    if s == [] then [] else EscapeChar(s[0]) + Escape(s[1..])
  }

  function Quote(s: string): string
  {
    "\"" + Escape(s) + "\""
  }

  /** The inverse of `Escape`. */
  function Unescape(s: string): string
  {
    if |s| >= 2 && s[0] == '\\' then
      (if s[1] == 'n' then "\n" else if s[1] == 't' then "\t" else [s[1]]) + Unescape(s[2..])
    else if s == [] then []
    else [s[0]] + Unescape(s[1..])
  }

  /** The quoted protocol in the error message reads back as the protocol. */
  lemma {:induction false} UnescapeEscape(s: string)
    ensures Unescape(Escape(s)) == s
  {
    if s != [] {
      var e := EscapeChar(s[0]);
      assert Escape(s) == e + Escape(s[1..]);
      UnescapeEscape(s[1..]);
      if |e| == 2 {
        assert (e + Escape(s[1..]))[2..] == Escape(s[1..]);
      } else {
        assert (e + Escape(s[1..]))[1..] == Escape(s[1..]);
      }
    }
  }

  /** `muxListenTo`: a websocket or Unix listener at `addr`, and an error naming the address
      and the protocol for any other protocol. */
  function MuxListenTo(proto: string, addr: string): (r: Result<Listener, string>)
    ensures r.Success? <==> proto == "websocket" || proto == "unix"
    ensures proto == "websocket" ==> r == Success(WebsocketListener(addr))
    ensures proto == "unix" ==> r == Success(UnixListener(addr))
    ensures r.Failure? ==> r.error == "cannot connect to " + addr + ", unknown protocol " + Quote(proto)
  {
    match proto
    case "websocket" => Success(WebsocketListener(addr))
    case "unix" => Success(UnixListener(addr))
    case _ => Failure("cannot connect to " + addr + ", unknown protocol " + Quote(proto))
  }
}
