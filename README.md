# Multi-view linked list

A model of the multi-view doubly linked list in `src/MultiLinkedList.ts`. One
collection stores each record exactly once, in a node. The collection keeps a
main list of every live record and any number of sublists. Each sublist shows,
in admission order, the records that satisfy its predicate. Every node holds
its own previous/next link for each list, so appending to a list or splicing a
known node out of it is constant work, however many lists there are.

Layout:

- `nodes.dfy`:
  - module `Wrappers`: `Option`.
  - module `Nodes`:
    - the `Node` datatype: a record plus its maps from list number to previous/next handle, read with `NextOf`/`PrevOf`;
    - the value-level vocabulary the proofs use: `Linked` (the links spell out a given handle sequence), `Filter`, `Without`, `Select`, `Items`, and the frame predicates;
    - the lemmas about them.
- `sublist.dfy`, module `Sublists`:
  - the `Arena` class, which owns the nodes;
  - the `Sublist` class, which holds the list number, the predicate, the head and the tail. Its ghost `Contents` is the head-to-tail traversal and its ghost `changes` counts change reports;
  - the link lemmas behind `add` and `remove`.
- `views.dfy`, module `Views`:
  - the `View` value, a snapshot of one sublist;
  - `ViewsOk`, which says each sublist is its predicate's filter of the main list;
  - the stage predicates (`Fanout`, `Purge`, `Filling`) that carry the loops of `add`, `remove` and `populateSublist`, with their step lemmas.
- `multi_linked_list.dfy`, module `MultiLinked`: the `MultiLinkedList` class, including `Valid`, the constructor, `CreateSublist`, `PopulateSublist`, `Add`, `Remove`, `Clear`, and the loop and step methods they are built from.

Representation choices:

- Nodes live in an arena, `seq<Node<T>>`, indexed by handle. Handles stand in for object identity.
- A list is known by its number: 0 is the main list, and sublist `j` of `sublists` is list `j + 1`. The per-node maps are keyed by that number, not by the list object.
- The observable variant (`ObservableSublist`, `ObservableMultiLinkedList`) is the one modelled. Each list's `changes` counter goes up by one on every `add` and `remove` (its `reportChanged`). Read operations leave it unchanged. Shown without the counters, the same class is the plain `MultiLinkedList`.

Behaviour of the code that the model keeps:

- `clear()` removes the main list's nodes one at a time through `remove`. It does not reset each list's head and tail directly. Each list therefore reports one change per removed node (`MultiLinkedList.ts:219-221`).
- `remove` does not check that the node came from this collection, and never fails.
- `createSublist` and `add` do not guard against a predicate that throws.

## Model

| member | source | states |
|---|---|---|
| Nodes.NewNode | src/MultiLinkedList.ts:20-24 | a new node carries its record and has no previous or next link in any list |
| Nodes.Node.NextOf | src/MultiLinkedList.ts:26-28 | the next link of a list: the entry for that list, and none when the entry is unset, as `Map.get` returns `undefined` |
| Nodes.Node.PrevOf | src/MultiLinkedList.ts:29-31 | the previous link of a list: the entry for that list, and none when the entry is unset, as `Map.get` returns `undefined` |
| Nodes.Node.SetNext | src/MultiLinkedList.ts:22 | setting a next link for one list changes only that list's next link; the record and all previous links stay |
| Nodes.Node.SetPrev | src/MultiLinkedList.ts:21 | setting a previous link for one list changes only that list's previous link; the record and all next links stay |
| Nodes.Select | src/MultiLinkedList.ts:199-211 | reference filter on records, against which sublist contents are stated |
| Nodes.ItemsFilter | src/MultiLinkedList.ts:199-203 | reading the records of the filtered nodes is the same as filtering the records |
| Nodes.FilterMembers | src/MultiLinkedList.ts:199-211 | a node is in the filter exactly when it is in the list and its record satisfies the predicate (both directions) |
| Nodes.FilterAppend | src/MultiLinkedList.ts:205-211 | the filter of a list extended by one node is the old filter, extended by that node exactly when its record matches |
| Nodes.FilterWithout | src/MultiLinkedList.ts:213-217 | removing a node from the list, then filtering, is removing it from the filter |
| Nodes.FilterIncreasing | src/MultiLinkedList.ts:199-211 | a filter of a list in admission order is in admission order |
| Nodes.FilterFrame | src/MultiLinkedList.ts:52-58 | the filter depends only on the records, not on any link |
| Nodes.WithoutAt | src/MultiLinkedList.ts:62-80 | taking a member out of a duplicate-free list removes exactly its position and keeps the order of the rest |
| Nodes.WithoutMembers | src/MultiLinkedList.ts:62-80 | after taking a node out, the members are the old members other than that node |
| Nodes.WithoutAbsent | src/MultiLinkedList.ts:62-80 | taking out a node that is not a member leaves the list unchanged |
| Nodes.WithoutIncreasing | src/MultiLinkedList.ts:213-217 | taking a node out keeps admission order and freedom from duplicates |
| Nodes.IncreasingAdmit | src/MultiLinkedList.ts:205-207 | a newly allocated node may follow every live node in admission order |
| Nodes.LinkedUnique | src/MultiLinkedList.ts:82-88 | a list's head, tail and links determine its traversal: two traversals spelled by the same ones are equal |
| Nodes.LinkedAgree | src/MultiLinkedList.ts:82-88 | two traversals spelled by the same head, tail and links agree at every position both have |
| Nodes.OnlyViewTrans | src/MultiLinkedList.ts:52-58 | two updates confined to one list compose into an update confined to that list |
| Sublists.Arena.Allocate | src/MultiLinkedList.ts:24 | allocating a node appends a fresh unlinked node and returns its handle |
| Sublists.Arena.SetNext | src/MultiLinkedList.ts:52 | writes one node's next link for one list, nothing else |
| Sublists.Arena.SetPrev | src/MultiLinkedList.ts:53 | writes one node's previous link for one list, nothing else |
| Sublists.Sublist.constructor | src/MultiLinkedList.ts:35-38 | a new sublist has the given predicate, no head or tail, no members and no change reports |
| Sublists.Sublist.First | src/MultiLinkedList.ts:39-41 | the head is none exactly when the list is empty, otherwise the first member of the traversal |
| Sublists.Sublist.Last | src/MultiLinkedList.ts:43-45 | the tail is none exactly when the list is empty, otherwise the last member of the traversal |
| Sublists.Sublist.Add | src/MultiLinkedList.ts:47-60 | the traversal gains the node at its end and it becomes the tail; on an empty list it is also the head, otherwise the head stays and the node's previous link is the old tail; only this list's links change; one change report |
| Sublists.Sublist.Remove | src/MultiLinkedList.ts:62-80 | the traversal loses exactly that node, in order; head and tail move only when the node was at a boundary; a node that is not a member leaves the links untouched; only this list's links change; one change report |
| Sublists.Sublist.Nodes | src/MultiLinkedList.ts:82-88 | walking this list's next links from the head yields exactly its traversal |
| Sublists.Sublist.MapNodes | src/MultiLinkedList.ts:100-104 | one result per member, `f` of each node, in traversal order |
| Sublists.Sublist.Map | src/MultiLinkedList.ts:94-98 | one result per member, `f` of each record, in traversal order |
| Sublists.Sublist.Content | src/MultiLinkedList.ts:112-116 | the records of the traversal, head to tail |
| Sublists.AddLinks | src/MultiLinkedList.ts:55-58 | the two link writes of an append to a non-empty list link the extended traversal and touch no other list |
| Sublists.RemoveLinks | src/MultiLinkedList.ts:73-79 | the two link writes of a splice link the traversal without the node and touch no other list |
| Sublists.StaleRemove | src/MultiLinkedList.ts:62-80 | removing a node a second time splices along its stale links: on A B C D, removing B, C, then B again relinks A to C, which the walk from the head visits again |
| Sublists.RemoveAt | src/MultiLinkedList.ts:62-80 | a member's own links name its neighbours; splicing it out along them leaves the traversal without that position, moving head or tail only when it was at that end |
| Views.ViewGrow | src/MultiLinkedList.ts:205-211 | a sublist that appends the new node, whose record it accepts, stays the filter of the extended main list |
| Views.ViewSkip | src/MultiLinkedList.ts:205-211 | a sublist whose predicate rejects the new record is already the filter of the extended main list |
| Views.ViewShrink | src/MultiLinkedList.ts:213-217 | a sublist that has dropped the removed node is the filter of the main list without it |
| Views.ViewFresh | src/MultiLinkedList.ts:199-203 | a new sublist filled with the filter of the main list satisfies the sublist invariant |
| Views.ViewsFrame | src/MultiLinkedList.ts:52-58 | an update confined to one list keeps every other sublist's invariant |
| Views.ViewsAdopt | src/MultiLinkedList.ts:191-203 | a filled new sublist, numbered after the others, joins them; later numbers still have no links |
| Views.FanoutGrow | src/MultiLinkedList.ts:208-210 | one fan-out step where the predicate accepts: that sublist has admitted the node, the rest are as they were |
| Views.FanoutSkip | src/MultiLinkedList.ts:208-210 | one fan-out step where the predicate rejects: that sublist is unchanged |
| Views.PurgeStep | src/MultiLinkedList.ts:216 | one step of remove's loop: that sublist has lost the node and still filters the shrunken main list |
| Views.FillingStep | src/MultiLinkedList.ts:199-203 | one backfill step: the new sublist holds the filter of the offered prefix of the main list |
| MultiLinked.MultiLinkedList.ValidFrom | src/MultiLinkedList.ts:180-181 | proof plumbing, not a source operation: the collection invariant over the `mainList` and `sublists` fields, re-established from the sublists' states taken as values; `Add`, `Remove` and `Register` end with it |
| MultiLinked.MultiLinkedList.constructor | src/MultiLinkedList.ts:183-185 | an empty collection whose main list accepts every record and has no sublists |
| MultiLinked.MultiLinkedList.CreateSublist | src/MultiLinkedList.ts:191-197 | the new sublist comes after all existing ones, holds exactly the main list filtered by the predicate, and leaves the main list and the other sublists unchanged |
| MultiLinked.MultiLinkedList.Register | src/MultiLinkedList.ts:194 | pushing the filled sublist keeps the collection invariant |
| MultiLinked.MultiLinkedList.PopulateSublist | src/MultiLinkedList.ts:199-203 | walking the main list, the sublist receives exactly the filter of the main list, in order; only its own links change; one change report per admitted node |
| MultiLinked.MultiLinkedList.Add | src/MultiLinkedList.ts:205-211 | the new node ends the main list; each sublist gains it, with one change report, exactly when its predicate accepts the record, and is otherwise unchanged; the invariant is kept |
| MultiLinked.MultiLinkedList.Admit | src/MultiLinkedList.ts:206-210 | the new node ends the main list, and each sublist has admitted it exactly when its predicate accepts the record; every sublist still filters the main list |
| MultiLinked.MultiLinkedList.AdmitMain | src/MultiLinkedList.ts:206-207 | the node is allocated and appended to the main list, with admission order kept |
| MultiLinked.MultiLinkedList.AdmitRest | src/MultiLinkedList.ts:208-210 | the loop over the sublists completes the fan-out in creation order |
| MultiLinked.MultiLinkedList.AdmitAt | src/MultiLinkedList.ts:209 | one sublist admits the node exactly when its predicate accepts the record |
| MultiLinked.MultiLinkedList.AppendTo | src/MultiLinkedList.ts:209 | appending to one sublist changes no other sublist |
| MultiLinked.MultiLinkedList.Remove | src/MultiLinkedList.ts:213-217 | the node leaves the main list and every sublist, each keeping the order of the rest and reporting one change; the invariant is kept |
| MultiLinked.MultiLinkedList.Discard | src/MultiLinkedList.ts:214-216 | the node is gone from the main list and from every sublist, each with one change report; every sublist still filters the main list |
| MultiLinked.MultiLinkedList.DiscardMain | src/MultiLinkedList.ts:215 | the main list loses the node |
| MultiLinked.MultiLinkedList.DiscardRest | src/MultiLinkedList.ts:216 | the loop tells every sublist, member or not, to remove the node |
| MultiLinked.MultiLinkedList.DiscardAt | src/MultiLinkedList.ts:216 | one sublist drops the node, and still filters the shrunken main list |
| MultiLinked.MultiLinkedList.RemoveFrom | src/MultiLinkedList.ts:216 | removing from one sublist changes no other sublist |
| MultiLinked.MultiLinkedList.Clear | src/MultiLinkedList.ts:219-221 | afterwards the main list and every sublist are empty with no head and no tail, and each has reported one change per node the main list held |
| MultiLinked.MultiLinkedList.SublistContent | src/MultiLinkedList.ts:191-221 | in every valid state, each sublist's records are the main list's records that satisfy its predicate, in the main list's order |

## Left out

- The mobx atoms: `createAtom`, `reportObserved` and the observer bookkeeping are foreign reactive-runtime calls. Only a ghost counter of `reportChanged` calls is kept.
- `src/TestyList.ts`, `src/Applicant/*` and the React UI are not part of this model.
- Predicates are total pure functions. The source has no handling for a predicate that throws during backfill or fan-out.
- Records are immutable values. In the source they are observable objects, whose list membership is decided once, on admission.
- MultiLinked.MultiLinkedList.Remove: requires a live node, one in the main list. `Sublist.remove` does not clear the removed node's own links, so removing a node a second time follows stale links and corrupts the lists. For example, with main list A B C D: remove B, remove C, then remove B again. B's stale links name A and C, so A's next link becomes C again and C reappears (proved as `Sublists.StaleRemove`). No caller in the source removes a node twice.
- Sublists.Sublist.Remove: requires that a node that is not a member has no links in this list, which holds for every live node of a valid collection. On a stale node the source writes links, as above.
- MultiLinked.MultiLinkedList.PopulateSublist: requires an empty new sublist, the only kind `createSublist` passes to it.
- `forEachMutNode`/`forEachNode` take a callback. Its loop is modelled as `Sublist.Nodes`, which collects the handles; `map`, `mapNodes` and `content` apply the function to the collected handles. `populateSublist` has the callback inlined into its walk.
- `getMainList` is a plain read of the `mainList` field.
- The subclass split of `ObservableMultiLinkedList` is merged into the one class. Its only difference is that it builds observable lists, which is the counter.
- Object identity of nodes and lists is replaced by arena handles and list numbers.
