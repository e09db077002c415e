# Object store model

A Dafny model of the in-memory object store of the OOS object library:
`object_store` (`src/object/object_store.cpp`) and the `prototype_node`
it works on (`include/object/prototype_node.hpp`).

The store keeps four structures, all updated in place:

- **Prototype registry.** A tree of prototype nodes rooted at the
  synthetic node `"OBJECT"`. Each node is found in `prototype_node_map_`
  under two keys: its type name and the class name of its producer.
- **Global proxy list.** One doubly linked list of object proxies, between
  the two permanent sentinels `first_` and `last_`. Each node marks its
  part of the list with three proxies:
  - `op_first`, the exclusive left boundary;
  - `op_marker`, the end of its own objects;
  - `op_last`, the end of the objects of its whole subtree.

  Its `count` is the number of its own objects.
- **Identity map** `object_map_`, from object ids to proxies.
- **Observer list.** Observers are told of inserts, updates and deletes.

## How the model is built

- The store is the class `ObjectStore.ObjectStore`. Its fields stand for
  the store's members.
- Proxies live in an arena `proxies: seq<Proxy>`, with `prev`, `next` and
  `node` as indices. Slots `Head` and `Tail` are `first_` and `last_`.
  `Null` (-1) is the null pointer.
- Nodes live in an arena `nodes: seq<Node>`. Each node holds its parent,
  its depth, its three markers and its count. Slot `Root` is `root_`.
- The sibling and child links of the tree are represented by `order`, the
  live nodes in pre-order. `next_node()` is the successor in `order`, and
  `insert(child)` puts the child right after its parent's subtree.
- Ghost fields carry what the pointers mean:
  - `list` is the list from `first_` to `last_`;
  - `subEnd` gives, for each pre-order position, the position after its
    subtree;
  - `up` gives the position of the parent;
  - `starts` gives the list position of each node's `op_first`.
- The store invariant `Valid()` says all of the following:
  - `list` is exactly what the `prev`/`next` links spell out;
  - `order`, `subEnd` and `up` describe one rooted tree, and `depth`
    agrees with it;
  - the markers of the node at pre-order position `k` are:
    - `op_first = list[starts[k]]`;
    - `op_marker = list[starts[k+1]+1]`;
    - `op_last = list[starts[subEnd[k]]+1]`;
  - `starts[k+1] = starts[k] + count`, so `count` is the length of the own
    range;
  - the proxies of that range are exactly those whose `node` is that node;
  - every key of the registry names a live node, and every live node is
    registered under both of its names;
  - every id of the identity map names a proxy that carries that id;
  - no observer appears twice.
- Observer callbacks are appended to a ghost log `events`.
  `Types.FanOut` gives the callbacks one notification delivers.
- The pure parts sit in their own modules:
  - `ProxyList`: the list shape and splicing;
  - `PrototypeTree`: the pre-order tree and `is_child_of`;
  - `Markers`: the marker invariant and how inserting or removing a proxy
    or a node keeps it;
  - `Catalog`: the registry and the identity map;
  - `Commit`: the commit loop of `remove`;
  - `Seqs`: sequence helpers.

The bodies of `prototype_node::clear`, `insert`, `unlink`, `next_node`,
`is_child_of`, `adjust_left_marker` and `adjust_right_marker` are not part
of this model; only their declarations and doc comments are. Each is
modelled as a method or function whose contract comes from that comment
and from the marker invariant. `insert_proxy`, `remove_proxy`,
`remove_prototype` and `clear` are proved against those contracts.
Two details are derived rather than read from a body:

- `adjust_left_marker` leaves the `op_last` of the node's ancestors alone.
  An ancestor's `op_last` lies past this node's subtree.
- It finds the ancestors with a backward walk by depth.

## Model

| member | source | states |
|---|---|---|
| ObjectStore.ObjectStore.constructor | src/object/object_store.cpp:56-71 | The new store has only the root "OBJECT", registered under "OBJECT" and its class name. The list is just `first_`→`last_`, root's `op_first` is `first_`, and its `op_marker` and `op_last` are `last_`. There are no objects, no observers and id 0; the invariant holds. |
| ObjectStore.ObjectStore.FindPrototype | src/object/object_store.cpp:156-164 | Returns a node exactly when the key is registered. That node is live and carries the key as its type or class name. |
| ObjectStore.ObjectStore.Create | src/object/object_store.cpp:230-242 | Produces an object exactly when the key is registered. It has id 0 and a type registered to the same node as the key. |
| ObjectStore.ObjectStore.MarkModified | src/object/object_store.cpp:244-247 | Every observer gets one `on_update` for the proxy's object, in list order. |
| ObjectStore.ObjectStore.Notify | src/object/object_store.cpp:318-320 | Every observer gets one callback of the given kind, in list order, and nothing else changes. |
| ObjectStore.ObjectStore.RegisterObserver | src/object/object_store.cpp:249-254 | Idempotent: the observer ends up registered. It is appended only when it was absent, so no duplicates arise. |
| ObjectStore.ObjectStore.UnregisterObserver | src/object/object_store.cpp:256-263 | The observer ends up absent. When present, exactly its one entry is removed and the order of the rest is kept; otherwise nothing changes. |
| ObjectStore.ObjectStore.FindProxy | src/object/object_store.cpp:432-440 | Returns a proxy exactly when the id is mapped, and that proxy carries the id. |
| ObjectStore.ObjectStore.CreateProxy | src/object/object_store.cpp:442-454 | Returns null for id 0 or an id already mapped, and then changes nothing. Otherwise it adds a fresh unlinked proxy under the id, and `FindProxy` then finds it. |
| ObjectStore.ObjectStore.DeleteProxy | src/object/object_store.cpp:456-467 | Succeeds exactly when the id is mapped to an unlinked proxy. Then it erases just that entry; on failure the map is unchanged. |
| ObjectStore.ObjectStore.InsertChild | include/object/prototype_node.hpp:100-105 | The new node becomes the last child of its parent and sits right after the parent's subtree in pre-order. It has depth parent+1, count 0 and empty markers at the parent's `op_last`, and the markers stay consistent. |
| ObjectStore.ObjectStore.InsertPrototype | src/object/object_store.cpp:89-117 | Fails exactly when the named parent is missing or the type is already registered, and then changes nothing. On success, both names map to the new node, which is appended to the node arena with the old nodes unchanged. It sits right after the parent's subtree in pre-order (the parent is the root when none is named), with count 0 and depth parent+1. |
| ObjectStore.ObjectStore.AddPrototype | src/object/object_store.cpp:109-114 | The new node is appended to the arena with the old nodes unchanged, sits right after the parent's subtree in pre-order and becomes the parent's last child. It has count 0, depth parent+1, and its `op_marker` and `op_last` at the parent's `op_last`; it is registered under both names. The invariant is kept. |
| ObjectStore.ObjectStore.ClearNode | include/object/prototype_node.hpp:77-81 | Only the node's own range is cut out of the list, and its count becomes 0. Other nodes' counts and all markers stay consistent. |
| ObjectStore.ObjectStore.ClearFirst | include/object/prototype_node.hpp:77-81 | One step of `clear`: the first own proxy is removed, one fewer remains, and the markers stay consistent. |
| ObjectStore.ObjectStore.ClearObjects | include/object/prototype_node.hpp:77-81 | The loop of `clear()`: it runs until all of the node's own objects are gone, one per step from the front, and keeps the clearing invariant. |
| ObjectStore.ObjectStore.ClearOwn | src/object/object_store.cpp:144-145 | `clear()` on a live node keeps the store invariant. Exactly its own list range goes, and the counts of other nodes are untouched. |
| ObjectStore.ObjectStore.RemoveChildren | src/object/object_store.cpp:138-143 | The loop that removes children cuts exactly the node's descendants, and their objects, out of the pre-order and the list. Only names of removed nodes leave the registry. |
| ObjectStore.ObjectStore.RemovingFirst | src/object/object_store.cpp:140 | The children loop starts with nothing cut. |
| ObjectStore.ObjectStore.RemovingNext | src/object/object_store.cpp:140 | The loop test "first child exists" is true exactly while descendants remain, and the remaining span shrinks, so the loop ends. |
| ObjectStore.ObjectStore.RemovingDone | src/object/object_store.cpp:140-143 | When the loop ends, the whole descendant range has been cut. |
| ObjectStore.ObjectStore.RemovingAt | src/object/object_store.cpp:140-143 | Rebuilds the loop invariant after one child's subtree has been cut. |
| ObjectStore.ObjectStore.RemoveChild | src/object/object_store.cpp:141-142 | One iteration: the first remaining child's whole subtree is removed, and the loop invariant advances. |
| ObjectStore.ObjectStore.DropNode | src/object/object_store.cpp:144-152 | A childless node loses its objects, then leaves the tree and the registry. Only its pre-order slot and list range are cut. |
| ObjectStore.ObjectStore.UnlinkLeaf | include/object/prototype_node.hpp:113-116 | `unlink()` of an emptied leaf: it leaves the pre-order and its two names leave the registry. Everything else stays, and the markers stay consistent. |
| ObjectStore.ObjectStore.DropSubtree | src/object/object_store.cpp:138-153 | The subtree at position k, with all its objects, is cut out of the pre-order and the list. |
| ObjectStore.ObjectStore.RemovePrototype | src/object/object_store.cpp:119-154 | Fails exactly for an unregistered name or the root, and then changes nothing. Otherwise the node's whole subtree and its objects are cut. Only the names of removed nodes leave the registry, and the counts of the remaining nodes are kept. |
| ObjectStore.ObjectStore.Clear | src/object/object_store.cpp:166-178 | Only the root remains, with its own objects, and only its names stay registered. The list is the root's own run between the sentinels, every proxy keeps its id, object and node, and the identity map is empty. |
| ObjectStore.ObjectStore.ClearTree | src/object/object_store.cpp:168-172 | The loop of `clear()`: only the root is left in the pre-order and in the registry, the list keeps only the root's own run, and every proxy keeps its id, object and node. |
| ObjectStore.ObjectStore.ForgetObjects | src/object/object_store.cpp:175 | The identity map is emptied and the invariant still holds. |
| ObjectStore.ObjectStore.LinkProxy | src/object/object_store.cpp:407-417 | `p` is spliced in directly before `base`, with `prev` taken from `base`. Other links are unchanged, and the list is the old one with `p` inserted. |
| ObjectStore.ObjectStore.UnlinkProxy | src/object/object_store.cpp:419-430 | The neighbours are joined, both links of `p` become null, and the list loses exactly `p`. |
| ObjectStore.ObjectStore.AdjustLeftMarker | include/object/prototype_node.hpp:148-155 | Every node before this one in pre-order has its `op_marker` repointed from old to new. So does its `op_last`, unless it is an ancestor. Nothing else changes. |
| ObjectStore.ObjectStore.AdjustRightMarker | include/object/prototype_node.hpp:157-163 | Every node after this one in pre-order has its `op_first` repointed from old to new. Nothing else changes. |
| ObjectStore.ObjectStore.LinkByCount | src/object/object_store.cpp:471-504 | The three cases of `insert_proxy`: with count ≥ 2 there is no marker change; with 1 the left marker is adjusted; with 0 the left and right markers are adjusted. |
| ObjectStore.ObjectStore.InsertProxy | src/object/object_store.cpp:469-509 | The proxy goes in before the node's last own object, or as its only object when it has none, and its `node` is set. The count grows by exactly 1. Every other proxy keeps its id, object and node, every other count is kept, and the markers stay consistent; with count ≥ 2 no other node changes. |
| ObjectStore.ObjectStore.MarkRemoved | src/object/object_store.cpp:513-523 | The left marker moves exactly when the proxy is the node's first own element, and the right marker exactly when it is the last. |
| ObjectStore.ObjectStore.RemoveProxy | src/object/object_store.cpp:511-528 | The proxy leaves the list with both links null and the count drops by exactly 1. The markers stay consistent. |
| ObjectStore.ObjectStore.InsertObject | src/object/object_store.cpp:271-326 | Yields the object exactly when it is given and its type is registered; otherwise nothing changes. A new id is the next one, and a given id is kept. The id then maps to a linked proxy in the type's node that holds the object, and exactly that proxy joins the list. `on_insert` goes to every observer when asked. |
| ObjectStore.ObjectStore.Store | src/object/object_store.cpp:286-313 | The registered-type path. A given id is kept and a missing one becomes the next id; the id maps to the returned proxy, which holds the object, is listed and lies in the type's node. The list is the old one with that proxy added, the other proxies keep their order in it and keep their id, object and node, and only the counts of the proxy's old node and of the type's node move. |
| ObjectStore.ObjectStore.Attach | src/object/object_store.cpp:288-309 | Finds or creates the id's proxy and maps the id to it. The proxy is unlisted and holds the object; the list loses that proxy only. Every other proxy keeps its id, object and node, and only the count of the proxy's old node drops. |
| ObjectStore.ObjectStore.Reset | src/object/object_store.cpp:289-297 | An existing proxy is taken out of the list if it was linked, and then holds the new object. The list loses that proxy only and keeps its order. All proxies keep their id and node, and only the count of the proxy's old node drops. |
| ObjectStore.ObjectStore.Fresh | src/object/object_store.cpp:298-309 | An id-less object gets the next id. A new proxy under that id is appended to the arena, holds the object, and is what the id now maps to. |
| ObjectStore.ObjectStore.Hold | src/object/object_store.cpp:297-304 | The proxy's object is replaced, and nothing else changes. |
| ObjectStore.ObjectStore.Place | src/object/object_store.cpp:313 | The unlisted proxy is inserted into the list at the node's insertion position and takes the node; it keeps its object. All proxies keep their id and object, only the node's count grows (by 1), and the identity map and id counter are untouched. |
| ObjectStore.ObjectStore.CommitEntry | src/object/object_store.cpp:339-345 | One commit iteration advances the commit invariant. |
| ObjectStore.ObjectStore.Unlist | src/object/object_store.cpp:365 | The proxy leaves the list and its node's count drops by 1; the invariant holds. |
| ObjectStore.ObjectStore.RemoveObject | src/object/object_store.cpp:348-378 | Succeeds exactly when the type is registered and the id mapped, and otherwise changes nothing. On success, exactly that map entry and that proxy go, the node's count drops by 1, and `on_delete` goes to every observer when asked. |
| ObjectStore.ObjectStore.DropObject | src/object/object_store.cpp:359-370 | The success path of `remove_object`. |
| ObjectStore.ObjectStore.Remove | src/object/object_store.cpp:328-347 | Fails when the deleter refuses, and then changes nothing: map, list, log, proxies, nodes and starts are as before. Otherwise exactly the ids of the non-ignored entries of registered types leave the map, and exactly their proxies leave the list. The callbacks are `Commit.Deletions`. Either way every proxy keeps its id, object and node, and every node its names, parent and depth. |
| ObjectStore.ObjectStore.OwnRunOwners | include/object/prototype_node.hpp:53-57 | The list run between `op_first` and `op_marker` is exactly the linked proxies of the node. |
| ObjectStore.ObjectStore.SubtreeRunOwners | include/object/prototype_node.hpp:53-58 | The run from `op_first` to `op_last` starts with the node's own objects. It holds exactly the proxies of the node and its descendants. |
| ObjectStore.ObjectStore.Size | include/object/prototype_node.hpp:93-98 | The object count is the length of the own run. |
| ObjectStore.ObjectStore.Empty | include/object/prototype_node.hpp:83-91 | `empty(true)` is true exactly when the own run is empty. `empty(false)` is true exactly when the whole subtree run is empty. |
| ObjectStore.ObjectStore.EmptyMeaning | include/object/prototype_node.hpp:83-91 | `op_first->next == op_marker` holds exactly when the own run is empty. `op_first->next == op_last` holds exactly when the subtree run is empty. |
| ObjectStore.ObjectStore.NextNode | include/object/prototype_node.hpp:118-123 | Null exactly after the last node. Otherwise the result is another live node: the first of the node's children (in `Children` order) if it has any, else a node whose parent is an ancestor of the node. |
| ObjectStore.ObjectStore.NextMeaning | include/object/prototype_node.hpp:118-123 | The pre-order successor is the first of the node's children (in `Children` order) when it has any; otherwise its parent is an ancestor of the node. |
| ObjectStore.ObjectStore.NextNodeIn | include/object/prototype_node.hpp:125-131 | A non-null result is the successor, and it is a descendant of the given root. |
| ObjectStore.ObjectStore.NextNodeInWalksSubtree | include/object/prototype_node.hpp:125-131 | Repeated `next_node(root)` from the root visits exactly its subtree in pre-order and then yields null. |
| ObjectStore.ObjectStore.Depth | src/object/object_store.cpp:180-188 | Counting steps up the parent links gives the node's depth. |
| ObjectStore.ObjectStore.WalkPrototypes | src/object/object_store.cpp:190-203 | The `dump_prototypes` walk from the root visits every node once, in pre-order, each with its depth. |
| ObjectStore.LeafUnlinked | src/object/object_store.cpp:146-152 | Unlinking an empty non-root leaf keeps the store consistent. Exactly that node leaves the pre-order, and the registry loses exactly its two names. |
| ObjectStore.PlacedFrame | src/object/object_store.cpp:286-313 | Taking the proxy out and then placing it composes into `insert_object`'s frame: the proxy ends up listed in the node, the other proxies keep their order and payload, and only the counts of the old and new node move. |
| ObjectStore.LeafPreserved | src/object/object_store.cpp:144-152 | Clearing then unlinking one node keeps other nodes' counts and names. |
| ObjectStore.PreservedTwice | src/object/object_store.cpp:138-153 | The "removals keep everything else" relation composes across recursive calls. |
| Types.FanOut | src/object/object_store.cpp:246 | One callback per registered observer, in list order, each with the given kind and object. |
| ProxyList.Detached | src/object/object_store.cpp:450 | A new proxy carries its id, holds no object and has null links and node. |
| ProxyList.LinkedIffListed | src/object/object_store.cpp:461 | `linked()` is true exactly for the proxies in the list. |
| ProxyList.LinkInserts | src/object/object_store.cpp:407-417 | Splicing a proxy before `base` yields a well-formed list with the proxy inserted there. |
| ProxyList.UnlinkRemoves | src/object/object_store.cpp:419-430 | Unlinking an inner proxy yields a well-formed list without it. |
| ProxyList.WalkFollowsList | src/object/object_store.cpp:218-227 | Following `next` pointers from a list element visits the list in order. |
| ProxyList.RelabelKeepsShape | src/object/object_store.cpp:506 | Setting a proxy's `node` does not disturb the list. |
| Catalog.NamesAgree | src/object/object_store.cpp:131-136 | A registered key leads to a live node that is registered under both of its names. So the class-name lookup in `remove_prototype` cannot fail. |
| Catalog.Survivors | src/object/object_store.cpp:151-152 | The registry restricted to live nodes: a key stays exactly when its node is still live. |
| Catalog.SurvivorsAll | src/object/object_store.cpp:119-136 | When no node is removed, the registry is unchanged. |
| Catalog.SurvivorsTwice | src/object/object_store.cpp:138-143 | Pruning the registry twice equals pruning once to the later node set. |
| Catalog.SurvivorsUnlink | src/object/object_store.cpp:151-152 | Erasing a node's two names is the same as pruning to the remaining nodes. |
| Catalog.RegisteredAfterAppend | src/object/object_store.cpp:111-114 | Appending a node with two new names keeps the registry consistent. |
| Catalog.RegisteredAfterUnlink | src/object/object_store.cpp:147-152 | Erasing a node's two names after unlinking it keeps the registry consistent. |
| Catalog.RegisteredIdents | src/object/object_store.cpp:469-528 | Changing markers and counts keeps the registry consistent. |
| Catalog.IdentitiesRelinked | src/object/object_store.cpp:407-430 | Relinking proxies keeps every id mapped to a proxy that carries it. |
| Commit.DeletionsAreDoomed | src/object/object_store.cpp:339-345 | Every commit callback is an `on_delete` to a registered observer, for a doomed entry's object whose id was mapped. |
| Commit.DoomedStep | src/object/object_store.cpp:340-341 | One more entry dooms its id exactly when it is not ignored and its type is registered. |
| Commit.CommitStart | src/object/object_store.cpp:336-339 | Nothing is removed before the first entry. |
| Commit.CommitHit | src/object/object_store.cpp:340-341 | An effective removal takes out that id, its proxy and nothing else, and logs its callbacks. |
| Commit.CommitMiss | src/object/object_store.cpp:342-344 | An ignored entry, or one whose removal does not take effect, changes nothing. |
| Commit.RemovableKept | src/object/object_store.cpp:359-365 | Removing one object keeps every other object's proxy where `remove_object` looks for it. |
| PrototypeTree.IsChildOfIffInSubtree | include/object/prototype_node.hpp:140-146 | `is_child_of` along the parent links holds exactly for the nodes inside the ancestor's pre-order subtree. |
| PrototypeTree.InSubtreeIff | include/object/prototype_node.hpp:53-58 | A node lies in another's subtree range exactly when it is that node or its descendant. |
| PrototypeTree.NullParentIsRoot | src/object/object_store.cpp:126-130 | Only the root has no parent. |
| PrototypeTree.NextNodeIsChildOrUncle | include/object/prototype_node.hpp:118-123 | Inside the node's subtree, the pre-order successor is a child and the first entry of `Children` of the node; past the subtree, its parent is an ancestor of the node. |
| PrototypeTree.AncestorByDepth | include/object/prototype_node.hpp:148-155 | A predecessor is an ancestor exactly when every node between them is deeper. |
| PrototypeTree.LeastDecidesAncestor | include/object/prototype_node.hpp:148-155 | Tracking only the least depth seen decides ancestry during a backward walk. |
| PrototypeTree.SubtreeEnd | include/object/prototype_node.hpp:100-105 | Finds the end of a subtree: the first later node that is not deeper. |
| PrototypeTree.InsertKeepsShape | include/object/prototype_node.hpp:100-105 | Appending a child after the parent's subtree keeps a well-formed pre-order tree. |
| PrototypeTree.ChildrenAfterAppend | include/object/prototype_node.hpp:100-105 | After `insert`, the parent's child list is the old one plus the new child at the end. |
| PrototypeTree.ChildrenMembers | include/object/prototype_node.hpp:100-105 | The child list holds exactly the live nodes whose parent is the node. |
| PrototypeTree.RemoveKeepsShape | include/object/prototype_node.hpp:113-116 | Unlinking a leaf keeps a well-formed pre-order tree. |
| PrototypeTree.RootSpansAll | src/object/object_store.cpp:166-172 | The root's subtree is the whole tree. |
| PrototypeTree.DepthBelowPosition | src/object/object_store.cpp:180-188 | A node's depth is at most its pre-order position, so the walk up terminates. |
| Markers.RunOwners | include/object/prototype_node.hpp:53-58 | The list run of a range of pre-order positions holds exactly the linked proxies of those nodes. |
| Markers.OwnRange | src/object/object_store.cpp:513-519 | A proxy belongs to a node exactly when it lies strictly after `op_first` and up to `op_marker`'s predecessor. |
| Markers.GrowKeepsMarkers | src/object/object_store.cpp:442-454 | Adding an unlinked proxy to the arena keeps the markers. |
| Markers.InsertSteps | src/object/object_store.cpp:469-509 | Any of the three insertion cases, followed by the relabel and the count increment, keeps every marker. The proxy then sits before the node's last own object, or is its only object when it has none. |
| Markers.InsertKeepsMarkers | src/object/object_store.cpp:469-509 | Inserting a proxy before the node's last own object, or as its only object when it has none, and shifting later starts by one keeps the marker invariant. |
| Markers.RemoveSteps | src/object/object_store.cpp:511-528 | The conditional adjustments, the unlink and the count decrement keep every marker. |
| Markers.RemoveKeepsMarkers | src/object/object_store.cpp:511-528 | Removing a proxy from its own range and shifting later starts back by one keeps the marker invariant. |
| Markers.LeftAdjustStep | include/object/prototype_node.hpp:148-155 | One step of the backward walk repoints one predecessor's markers and extends the adjusted prefix. |
| Markers.LeftWalkStep | include/object/prototype_node.hpp:148-155 | The same step when ancestry is decided by depth. |
| Markers.RightAdjustStep | include/object/prototype_node.hpp:157-163 | One step of the forward walk repoints one successor's `op_first`. |
| Markers.AppendKeepsMarkers | include/object/prototype_node.hpp:100-105 | A new empty child with markers at the parent's `op_last` keeps the marker invariant. |
| Markers.ChildSlot | include/object/prototype_node.hpp:100-105 | A node's `op_last` is the list entry right after its subtree's run, and its `prev` is the entry just before it. |
| Markers.ChildAppended | include/object/prototype_node.hpp:100-105 | A new empty child with all markers at the parent's `op_last`, placed after the parent's subtree, keeps the markers consistent and becomes the parent's last child. |
| Markers.UnlinkKeepsMarkers | include/object/prototype_node.hpp:113-116 | Unlinking an empty leaf keeps the marker invariant. |
| Markers.CutAllButFirst | src/object/object_store.cpp:166-178 | Cutting every node after the root leaves the root's own run before `last_`. |

## Left out

- `dump_prototypes` and `dump_objects` write text to a stream, and that text is not modelled. Only the walk (`WalkPrototypes`) and `depth` are modelled.
- RTTI (`typeid(*o).name()`) is replaced by a type tag carried by each object (`Obj.tag`).
- Memory management (`new`, `delete`, `auto_ptr`, the destructor) is not modelled. Deleted proxies and nodes stay in their arenas, unreachable.
- `object_creator`/`read_from` (relation materialisation) and `object_deleter::is_deletable` are not part of this model. `Remove` takes the deleter's verdict and its entries as parameters.
- `insert(object_list_base&)` and `remove(object_list_base&)` depend on `object_list_base`, which is not part of this model. The commit loop of the latter is the same as the one modelled in `Remove`.
- `prototype_node::remove()` and `previous_node()` are not used by the store and are not modelled.
- Observer callbacks are recorded in a ghost log rather than called.
- `o->proxy_` is not a field of the model. `RemoveObject` instead requires (`Commit.Removable`) that the id's mapped proxy is linked in the type's node, which is what the source assumes when it passes `o->proxy_` to `remove_proxy`.
- InsertObject: requires `nextId + 1` to be unmapped when a fresh id is assigned. Otherwise `create_proxy` returns null and the source writes through that null pointer before its check (src/object/object_store.cpp:304-305).
- InsertObject: the `on_insert` callbacks are logged after the identity-map update, although the source makes them just before. Nothing in the model observes the difference.
- InsertPrototype: a null parent means the root. The source declares `parent_node` uninitialised (src/object/object_store.cpp:93) and uses it at line 111 in that case; the root is the evident intent.
- InsertPrototype: requires the class name to differ from the type name and to be unregistered whenever registration would succeed. The source's `std::map::insert` would silently keep an old binding. A later `remove_prototype` would then erase the wrong key or erase the same iterator twice.
- RemovePrototype: requires the key to be a node's type name. With a class name, the source finds the same map entry under both lookups and erases it twice (src/object/object_store.cpp:121,131,151-152), which is undefined behaviour.
- RemovePrototype: entries of the identity map whose proxies belonged to removed nodes are kept, as in the source. There they dangle; here they name unlinked arena slots.
- ClearNode: the proxies `clear()` removes stay in the arena with their objects, and the identity map is not touched; the node has no access to it.
- NextNodeIn: its own contract describes only non-null results. `NextNodeInWalksSubtree` states the full behaviour of the walk.
- `count` is an unbounded `nat`; the width of `unsigned long` is not modelled. Ids are unbounded `int`s, so `++id_` never wraps.
