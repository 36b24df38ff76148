# tractor core, modelled in Dafny

This project models four parts of tractor, a workspace agent that runs a tree of nodes
(a "manifold") holding Go components, together with its editor extension:

- **Service registry** (`pkg/registry/registry.go`, module `Registry`). Registry is an
  ordered list of entries, one per registered service reference. `Register` appends
  entries and stops at the first reference that is not a pointer. `AssignableTo` selects
  the entries whose type fits a target. `Populate` fills the exported, zero-valued fields
  of a consumer struct: a slice field gets every fitting entry, any other field the first.
  `ValueTo` fills one variable from the first fitting entry.
- **Observer topics** (`pkg/misc/notify/notify.go`, module `Notify`). A topic has a set
  of observers and a suspended flag. Notifying delivers the event once to each current
  observer, or to nobody while suspended. The free functions find the topic behind a value
  that either is one or provides one.
- **Inspector state** (`pkg/session/frontend.go`, modules `Export` and `Frontend`).
  `exportField` and `exportElem` serialise a component's value into a tree of tagged
  fields with `/`-separated paths. `exportNodes` rebuilds the hierarchy and the nodes by
  id from a walk of the manifold, and adds the walked paths to the path index. It leaves out fields tagged hidden and
  gives argument-less buttons a call path. `muxListenTo` picks a listener by protocol.
- **Tree view** (`extension/src/manifold.ts`, module `Manifold`). `getChildren` computes
  the items shown at the top level or below an expanded item from the flat list of paths
  in the last state message.

`Wrappers` (Option, Result) and `Seqs` (an order-preserving `Filter` and `FirstMatch`,
with their lemmas) are shared helpers.

Go reflection is kept abstract:
- Types are `GoType` values.
- Assignability is a relation passed to every operation that asks about it.
- The methods and hidden fields of a component come with its value (`ComponentRef`).
- A value is seen by kind (`Export.Value`).

Observers are identity tokens. Each delivery is recorded in a ghost log, so the
notification contract can say who received what. The order in which `manifold.Walk`
visits nodes is an input sequence.

Stateful parts are classes whose methods are proved against specification functions:
- `Registry.Registry` over `seq<Entry>`.
- `Populate` over an `array<Field>` standing for the consumer struct's fields.
- `Notify.Topic`.
- `Frontend.State`.

The pure parts (the serialiser, the tree view) are functions and lemmas.

The path index of the inspector state is never cleared by `exportNodes`
(`pkg/session/frontend.go:234-290`), so paths of removed nodes stay in it.
`Frontend.ExportedStateNeverFails` shows that this is harmless for the tree view: on any
state `exportNodes` produced, whatever the index held before, `getChildren` never fails,
whichever item is expanded.

## Model

| member | source | states |
|---|---|---|
| Registry.RefAsWritten | pkg/registry/registry.go:19-27 | the entry always holds a pointer: a pointer value is kept as is; any other value gives a pointer to an `interface{}` variable that holds that very pointer |
| Registry.RefAsWrittenLosesValue | pkg/registry/registry.go:21-23 | as written, the box of a non-pointer value does not hold the value: the entry depends only on the parameter's address, never on the value |
| Registry.RefAsWrittenCounterexample | pkg/registry/registry.go:21-23 | as written, at the same parameter address the ints 7 and 8 give the same entry, so neither can be read back from it |
| Registry.Ref | pkg/registry/registry.go:19-27 | the entry always holds a pointer: a pointer value is kept as is; any other value is boxed, the box holds the value, and the entry's element type is `interface{}` |
| Registry.RefKeepsValue | pkg/registry/registry.go:19-27 | two different non-pointer values give different entries |
| Registry.BoxedEntryUnnamed | pkg/registry/registry.go:49-58 | a non-pointer value, as written or corrected, registers as `*interface{}` with an empty type name and package path |
| Registry.PointerEntryNamed | pkg/registry/registry.go:49-54 | a pointer to a named type registers under that type's name and package path |
| Registry.Registry.constructor | pkg/registry/registry.go:15-17 | a new registry has no entries |
| Registry.Registry.Entries | pkg/registry/registry.go:29-35 | the copy has the registry's entries, in registration order |
| Registry.PointerPrefix | pkg/registry/registry.go:40-46 | the number of leading pointer entries: all before it are pointers, the one at it is not |
| Registry.Registry.Register | pkg/registry/registry.go:37-63 | appends exactly the entries before the first non-pointer; the error is returned iff one is not a pointer and carries the fixed message; registered entries stay all pointers |
| Registry.PointerPrefixAt | pkg/registry/registry.go:40-46 | the loop's stopping index is the pointer prefix |
| Registry.PointerPrefixAppend | pkg/registry/registry.go:37-63 | registering `a` then `b` appends the same as registering `a + b`, when `a` is accepted whole |
| Registry.Registry.AssignableTo | pkg/registry/registry.go:65-76 | the fitting entries in registration order; an entry is selected iff its reference type is assignable to the target, or to its element type for a slice target |
| Registry.Populated | pkg/registry/registry.go:78-116 | only exported zero fields change and only their value; no fitting entry leaves the field alone; a slice field gets exactly the fitting references in order; any other field gets the first fitting one |
| Registry.IsNilOrZero | pkg/registry/registry.go:109-116 | a field counts as unset iff its content is `Zero`: Go's two tests, `IsNil` for pointers and interfaces and `DeepEqual` with the type's zero value for every other kind, are merged into that one content |
| Registry.Registry.Populate | pkg/registry/registry.go:78-107 | every consumer field ends as `Populated` of its old value; unexported and non-zero fields are unchanged |
| Registry.Registry.FillSlice | pkg/registry/registry.go:98-102 | the field becomes the list of the entries' references in order; no other field changes |
| Registry.Registry.ValueTo | pkg/registry/registry.go:119-134 | the target is set from the first fitting entry: a struct target gets a copy of the pointee, any other the reference; with no fitting entry it is unchanged |
| Notify.Topic.constructor | pkg/misc/notify/notify.go:41-44 | the zero topic has no observers, is not suspended and has delivered nothing |
| Notify.Topic.Observe | pkg/misc/notify/notify.go:46-48 | the observer set gains `o` and nothing else changes |
| Notify.Topic.Unobserve | pkg/misc/notify/notify.go:50-52 | the observer set loses `o` and nothing else changes |
| Notify.Topic.Notify | pkg/misc/notify/notify.go:54-62 | while suspended nothing is delivered; otherwise the event goes exactly once to each current observer and to nobody else |
| Notify.Topic.Suspend | pkg/misc/notify/notify.go:64-66 | the topic is suspended; observers and deliveries are unchanged |
| Notify.Topic.Resume | pkg/misc/notify/notify.go:68-70 | the topic is not suspended; observers and deliveries are unchanged |
| Notify.FindTopic | pkg/misc/notify/notify.go:72-81 | a topic is found iff the value is a topic or provides one; the value itself wins |
| Notify.Send | pkg/misc/notify/notify.go:83-87 | notifies the found topic with the topic's delivery guarantee; no-op without one |
| Notify.Observe | pkg/misc/notify/notify.go:89-93 | adds the observer to the found topic; no-op without one |
| Notify.Unobserve | pkg/misc/notify/notify.go:95-99 | removes the observer from the found topic; no-op without one |
| Notify.Suspend | pkg/misc/notify/notify.go:101-107 | suspends the found topic only when it is suspendable |
| Notify.Resume | pkg/misc/notify/notify.go:109-115 | resumes the found topic only when it is suspendable |
| Notify.SuspendedEventIsNotReplayed | pkg/misc/notify/notify.go:54-70 | an event sent while suspended is never delivered, even after resuming; the next event reaches every observer once |
| Export.Itoa | pkg/session/frontend.go:65 | the index text is a non-empty string of decimal digits |
| Export.ItoaRoundTrip | pkg/session/frontend.go:65 | reading the digits back gives the index |
| Export.ExportElem | pkg/session/frontend.go:64-90 | an element is exported iff it is a boolean, string or number, at `path/idx`, with its kind tag and value |
| Export.ExportElems | pkg/session/frontend.go:170-185 | the elements are exported in order iff every one is supported |
| Export.ExportField | pkg/session/frontend.go:92-219 | the field is named `field` at `path/field` and carries the field's expression; an invalid, boolean, string or number field has that kind's tag and value; a reference carries `reference:` and the type name, and the path of the node holding its target; a struct or map field has that tag and no value |
| Export.ExportMembersAt | pkg/session/frontend.go:144-169 | the field exported for the key at position `i` is the export of that key |
| Export.ExportFieldMembers | pkg/session/frontend.go:144-169 | a struct or map field has one child per member, in member order; each child is the export of its member, named after it and at `field path/member` |
| Export.ExportFieldSlice | pkg/session/frontend.go:170-192 | a slice field is an array of its exported elements when all are supported, and the string "UNSUPPORTED SLICE" with no children as soon as one is not |
| Export.ExportMembers | pkg/session/frontend.go:144-169 | one field per key, in key order, named after the key and at `path/key` |
| Export.ExportMembersAppend | pkg/session/frontend.go:144-169 | exporting concatenated keys concatenates the exports |
| Export.ExportMembersSnoc | pkg/session/frontend.go:253-258 | exporting one more key appends that key's field |
| Export.MembersExportable | pkg/session/frontend.go:144-169 | every member of an exportable struct or map can be exported below any deeper path |
| Export.ExportFieldNested | pkg/session/frontend.go:92-219 | at every depth of the exported tree a child's path extends its parent's path by `/` |
| Export.ExportMembersNested | pkg/session/frontend.go:144-169 | every exported member's subtree is nested by path |
| Export.ArrayPathsDistinct | pkg/session/frontend.go:170-192 | the elements of an exported array have pairwise distinct paths |
| Frontend.StrInSlice | pkg/session/frontend.go:225-232 | true iff the string occurs in the list |
| Frontend.VisibleFields | pkg/session/frontend.go:252-256 | a field is visible iff it is a field of the component and not tagged hidden |
| Frontend.VisibleExportable | pkg/session/frontend.go:253-258 | every visible field of an exportable component can be exported below the component's path |
| Frontend.ComponentFields | pkg/session/frontend.go:248-258 | one exported field per visible field, in declaration order, at `node/component/field` |
| Frontend.HiddenFieldsOmitted | pkg/session/frontend.go:252-258 | an exported field has a given name iff the component has that field and does not tag it hidden |
| Frontend.VisibleStep | pkg/session/frontend.go:253-258 | a hidden field adds nothing to the fields selected so far, a visible one appends itself, and the selection stays a prefix of the visible fields |
| Frontend.VisiblePrefixExportable | pkg/session/frontend.go:253-258 | every field selected from the first `i` fields can be exported |
| Frontend.FieldsEnds | pkg/session/frontend.go:249-258 | looking at no field exports nothing; looking at all gives the component's fields |
| Frontend.FieldsStep | pkg/session/frontend.go:253-257 | one more field: a hidden one exports nothing, a visible one appends its exported field |
| Frontend.ExportFields | pkg/session/frontend.go:249-258 | the loop exports exactly the visible fields, in order |
| Frontend.PatchedButton | pkg/session/frontend.go:263-277 | a button with an `onClick` is unchanged; otherwise it gets `path/name` iff the component has a method of that name taking no argument; name and `onClick` never change |
| Frontend.PatchButtons | pkg/session/frontend.go:259-279 | every button becomes its patched form, in order |
| Frontend.ComponentButtons | pkg/session/frontend.go:259-279 | no buttons unless the component provides some; otherwise the provided buttons, patched, in order |
| Frontend.NodeOf | pkg/session/frontend.go:239-286 | the node keeps the walked node's id, path, name, sibling index, `dir` and `active` flag, with one component per component, carrying its visible fields and patched buttons |
| Frontend.NodeComponentsStep | pkg/session/frontend.go:248-285 | one more exported component extends the components exported so far by that component's fields and buttons |
| Frontend.ExportNode | pkg/session/frontend.go:238-286 | the loop builds exactly `NodeOf` |
| Frontend.FullPaths | pkg/session/frontend.go:235-238 | the hierarchy lists the walked full paths in walk order |
| Frontend.NodesById | pkg/session/frontend.go:236-287 | an id has a node iff some walked node has that id |
| Frontend.NodesByIdLast | pkg/session/frontend.go:236-287 | the node stored under an id is the export of the last walked node with that id |
| Frontend.NodesByIdStep | pkg/session/frontend.go:287 | walking one more node stores its export under its id, over the nodes stored so far |
| Frontend.PathIds | pkg/session/frontend.go:288 | a path is indexed iff it was indexed before or was walked |
| Frontend.PathIdsLast | pkg/session/frontend.go:288 | a walked path is indexed to the id of the last walked node with that path; a path that was not walked keeps the id it had before |
| Frontend.PathIdsWalked | pkg/session/frontend.go:288 | every walked path is indexed to the id of a walked node |
| Frontend.State.constructor | pkg/session/frontend.go:326-336 | the new state has an empty hierarchy, no nodes and an empty path index |
| Frontend.State.ExportNodes | pkg/session/frontend.go:234-290 | hierarchy and nodes are rebuilt from the walk; the path index is updated on top of the old one; the state is indexed for the tree view |
| Frontend.ExportedIndexed | pkg/session/frontend.go:234-290 | after the export every hierarchy path has an id and every such id a node, whatever the index held before |
| Frontend.ExportedStateNeverFails | pkg/session/frontend.go:234-290 | the tree view never fails on an exported state, whichever item is expanded |
| Frontend.UnescapeEscape | pkg/session/frontend.go:627 | the quoted protocol in the error message reads back as the protocol |
| Frontend.MuxListenTo | pkg/session/frontend.go:619-628 | a listener is returned iff the protocol is "websocket" or "unix", of that protocol and at the address; otherwise the error names the address and the quoted protocol |
| Manifold.LastIndexOf | extension/src/manifold.ts:209 | the last index of the character, or -1 iff it does not occur |
| Manifold.IndexOf | extension/src/manifold.ts:209 | the first index at which the pattern occurs, none iff it never does |
| Manifold.ReplacePrefix | extension/src/manifold.ts:207-209 | replacing a prefix by "" leaves exactly the rest of the path |
| Manifold.MakeNode | extension/src/manifold.ts:229-237 | an item is built iff the path has an id and the id a node; it carries the path, the id and that node's name and index |
| Manifold.MakeNodes | extension/src/manifold.ts:229-238 | items for all paths in order iff every path can be looked up |
| Manifold.GetChildren | extension/src/manifold.ts:200-241 | no items before any state; otherwise one item per selected path, in hierarchy order, with that path and its id |
| Manifold.RootPathIff | extension/src/manifold.ts:226-228 | a path is top-level iff it starts with `/` and has no other `/` |
| Manifold.ChildPathIff | extension/src/manifold.ts:206-214 | a path is a child iff it starts with the parent path and `/` and has no `/` after that; a child is never its parent |
| Manifold.RootItems | extension/src/manifold.ts:226-228 | the top-level paths are exactly the hierarchy's paths with a single leading `/` |
| Manifold.ChildItems | extension/src/manifold.ts:204-214 | the children are exactly the hierarchy's paths one segment below the item; the item is not among them |
| Manifold.CollapsedIff | extension/src/manifold.ts:219-222 | an item is collapsible iff some hierarchy path lies below it |
| Manifold.IndexedNeverFails | extension/src/manifold.ts:215-223 | when every hierarchy path has an id with a node, building the items never fails |

## Left out

- Locking: the registry's mutex and the topic's `sync.Map` and atomic flag are not modelled. Every operation is one atomic step.
- Reflection is abstract. Type assignability and `Implements` are a relation given as a parameter. Struct fields, hidden tags and method sets are data of the value.
- Registry.Ref: the address of the variable that `&v` takes is a parameter `addr`. Go allocates a fresh variable on every call; freshness is not modelled.
- Registry.Registry.Register: Go writes the derived fields (`RefType`, `Type`, `Value`, `PkgPath`, `TypeName`) in place into the caller's `*Entry`, and writes `RefType` even on the entry it rejects. The model keeps entries as values whose derived fields are functions of `ref`, so neither the aliasing nor that partial write is modelled.
- Registry.Ref / Registry.Registry.Register / Registry.Registry.ValueTo: nil is not a value of the model. `Ref(nil)` panics at `reflect.TypeOf(nil).Kind()` (registry.go:21), and so does `Register` of an entry whose reference is nil (registry.go:44); the model gives every non-pointer the "value reference must be a pointer" error instead. `ValueTo` with a struct target panics on a registered typed-nil pointer, whose `Elem()` has no type (registry.go:122); the model sets `CopyOf` instead.
- Registry.Registry.Populate: the consumer struct is an array of its fields. A consumer that is not a pointer to a struct (Go panics) is not modelled. `isNilOrZero` is the `Zero` content.
- Registry.Registry.ValueTo: requires a struct or interface target whenever entries exist. For any other type Go panics in `Implements`.
- Notify: what an observer does with an event is not modelled; the ghost delivery log records each call instead. The order of delivery is unspecified, as in `sync.Map.Range`. Observers are identity tokens, so the `Func` adapter and the hashing of observer keys are not modelled.
- Notify.FindTopic: a `Notifiable` whose `Topic()` returns nil is not modelled. Go finds that nil topic and panics when `Send`, `Observe`, `Unobserve`, `Suspend` or `Resume` calls it (notify.go:76-77, 85); the model's found topic is always usable.
- Notify.Send / Observe / Unobserve: only topics of type `TopicImpl` are modelled, as the class `Notify.Topic`. `suspendable == false` stands for a topic of another type only in that `Suspend` and `Resume` leave it alone.
- Notify.Topic.Notify: observers added or removed concurrently during a notification are not modelled.
- Export.ExportField: floating-point and integer payloads are both an `int`. Go's random map iteration order is replaced by the order of the map's members. The declared field type of a map entry holding a reference is carried by the value (`typeName`, `elemName`).
- Export.ExportField: requires exportable values (`CanExport`). A kind with no case makes Go panic, and so does a field path shorter than the node's path.
- Field records: nil and empty `fields` slices are not distinguished. The same holds for the nil `buttons` of a component that provides none.
- Frontend.PatchButtons: Go writes the patched path into the slice `InspectorButtons` returned. Aliasing with the provider's own storage is not modelled.
- Frontend.State.ExportNodes: the walk order of `manifold.Walk` and each node's sibling index are inputs. The component lookups behind `FindPtr` and `Expression` are maps.
- `ListenAndServe` with its RPC handlers, `sendState`, the project list and the component registry of the inspector state are network and RPC plumbing. They are not part of this model.
- Frontend.MuxListenTo: opening the websocket or Unix listener, and its I/O errors, are not modelled. `%q` escaping covers only `"`, `\`, newline and tab.
- Manifold.GetChildren: a path missing from `nodePaths` is a `NoNodeId` failure. In JavaScript the lookup would then use the key "undefined" and succeed if the state had such a node id.
- The extension's webview, commands, event emitter, tooltip and icons are user interface. They are not part of this model.

## Findings

| source | as written | input that shows it | evidently intended | confidence | as-written member | corrected member |
|---|---|---|---|---|---|---|
| pkg/registry/registry.go:21-23 | `v = &v` stores the address of the parameter `v` in `v` itself, so the `*interface{}` points at a variable holding that pointer | the int 7: its entry points at a variable holding the pointer; the entry depends only on the parameter's address, never on the value, and 7 cannot be read back from it (`Registry.RefAsWrittenCounterexample`: at one address 7 and 8 give the same entry) | the entry points at a variable holding the value, as the TODO at line 20 suggests | not executed | Registry.RefAsWritten, Registry.RefAsWrittenLosesValue | Registry.Ref, Registry.RefKeepsValue |
