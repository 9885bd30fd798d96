# SourceSage memory stores in Dafny

This project models the two in-memory stores at the heart of SourceSage.

- **`KnowledgeGraph`** (`sourcesage/knowledge.py`) holds four registries: entities, relations, patterns and style conventions.
  - All four share one `_next_id` counter, which produces identifiers such as `entity_7` and `relation_3`.
  - It registers records and updates entities.
  - It appends observations without duplicates.
  - It creates a relation only between existing entities.
  - It scans the registries with filters.
  - It looks up relations by direction and resolves the entity at the other end.
  - It expands an entity's context recursively to a given depth.
  - It turns the whole graph into a snapshot dictionary and back.
- **`HierarchicalMemory`** (`sourcesage/hierarchy.py`) is a tree of `CodeNode`s: project, module, class, function, block and line.
  - It keeps a `nodes` dict, a `root_nodes` set and a counter.
  - `add_node` links a new node into its parent's `children_ids`.
  - Other operations look up children and the parent, walk up to the ancestors and walk down breadth-first to the descendants.
  - `query` filters the nodes, and `summarize_node` builds a flat summary.

Files:

- `tables.dfy` (module `Tables`): shared plumbing.
  - A Python dict becomes a `Table`: a map plus the keys in insertion order. Results come back in that order.
  - `Filter` describes every "scan the registry and append the matches" loop.
  - `Search` stands in for `re.search`.
- `ids.dfy` (module `Ids`): `f"{prefix}_{n}"` and the proof that distinct counter values give distinct identifiers. Freshness of every new key rests on this.
- `knowledge_records.dfy` (module `KnowledgeRecords`): the knowledge-graph records, the keyword updates of `update_entity`, and the pure functions that specify the scans and the relation lookup.
- `knowledge.dfy` (module `Knowledge`): the `KnowledgeGraph` class. Its methods update the registries in place. This module also holds the consistency invariant that every adding operation preserves, the context expansion and the snapshot round trip.
- `hierarchy.dfy` (module `Hierarchy`): the `HierarchicalMemory` class and the invariant `add_node` keeps.
  - Every node is stored under its own generated id.
  - The roots are exactly the nodes without a parent reference.
  - A children link points only to a node that names the parent and was generated later, or to the node itself.
  - The "generated later" part of that clause makes the descendant walk terminate with an exact result, on condition that no node at or below the start is its own child. A self-link is allowed by the invariant, and on one the walk loops forever.
  - `add_node` needs only the first and third of these: it keeps them, and it keeps the exact roots when they held before. `CodeAnalyzer` reparents a module that stays in `root_nodes`, which breaks exact roots but neither of the other two.

Three behaviours of the code that the model keeps as written:

- **Dangling parent.** In `add_node` (`sourcesage/hierarchy.py:101-106`), the `else` that adds the id to `root_nodes` belongs to the outer `if parent_id:`. The comment at line 105 marks that branch as the root case. A `parent_id` that is set but names no stored node therefore takes neither branch: the node is linked to no parent and is not a root.
- **`query_entities` limit.** The length test runs after the append (`sourcesage/knowledge.py:476-479`), so a `limit` of 0 or less still returns up to one entity.
- **No visited set.** `get_entity_context` (`sourcesage/knowledge.py:483-521`) keeps no visited set. Only the depth bounds the recursion.

## Model

| member | source | states |
|---|---|---|
| Tables.Table.Get | sourcesage/knowledge.py:178-180 | `dict.get`: a value exactly when the key is present, and then the stored value |
| Tables.EmptyTable | sourcesage/knowledge.py:102-105 | a fresh registry is an empty, well-formed dict |
| Tables.Put | sourcesage/knowledge.py:153 | `d[key] = value` keeps keys unique; a new key goes last in the order, an existing key keeps its place |
| Tables.PutFreshValues | sourcesage/knowledge.py:153 | storing under a new key appends the value to `values()` |
| Tables.ValuesListed | sourcesage/knowledge.py:194 | `values()` holds one value per entry, and exactly the dict's values |
| Tables.Filter | sourcesage/knowledge.py:192-199 | a scan-and-append loop never returns more elements than it scans |
| Tables.FilterMember | sourcesage/knowledge.py:192-199 | a scan-and-append loop returns exactly the accepted elements of the registry |
| Tables.FilterKeepsAll | sourcesage/knowledge.py:372-378 | a scan whose filter accepts everything returns the whole registry, in order |
| Tables.FilterPrefix | sourcesage/knowledge.py:476-479 | what a scan has collected when it stops early is a prefix of the full result |
| Tables.SearchFindsOccurrence | sourcesage/knowledge.py:472-474 | the name search succeeds exactly when the pattern occurs at some position of the name |
| Ids.IntString | sourcesage/knowledge.py:110 | `str(n)` is non-empty and starts with `-` exactly for negative `n` |
| Ids.NatStringInjective | sourcesage/knowledge.py:110 | distinct naturals have distinct decimal strings |
| Ids.IntStringInjective | sourcesage/knowledge.py:110 | distinct integers have distinct `str` forms |
| Ids.IdFor | sourcesage/knowledge.py:110 | the id is as long as the prefix, one separator and `str(n)` together |
| Ids.IdForParts | sourcesage/knowledge.py:110 | the id is the prefix, then `_`, then `str(n)` |
| Ids.IdForInjective | sourcesage/knowledge.py:108-112 | two ids with one prefix are equal only for equal counter values |
| Ids.FreshId | sourcesage/knowledge.py:108-112 | when every key came from a counter value below the current one, the id for the current value is not a key |
| Ids.IssuedAfterPut | sourcesage/knowledge.py:108-112 | storing under the current id and advancing the counter keeps every key issued below the counter |
| Ids.IssuedAfterTick | sourcesage/knowledge.py:108-112 | advancing the counter keeps every key issued below it |
| KnowledgeRecords.Apply | sourcesage/knowledge.py:171-173 | one `setattr` keeps `entity_id`, and afterwards the entity holds the value of the keyword it applied, for every field |
| KnowledgeRecords.ApplyKeepsOthers | sourcesage/knowledge.py:171-173 | a `setattr` of one attribute leaves the value of any other attribute in place |
| KnowledgeRecords.ApplyUpdates | sourcesage/knowledge.py:171-173 | for keywords Python accepts, the updates never change `entity_id`, and a field that no keyword names keeps its value |
| KnowledgeRecords.LastUpdateWins | sourcesage/knowledge.py:171-173 | for every field: a keyword that no later keyword for the same attribute follows leaves the entity holding its value after all the updates |
| KnowledgeRecords.KeywordsApplied | sourcesage/knowledge.py:171-173 | when the keyword names are distinct, as Python's call syntax makes them, the updated entity holds every keyword's value |
| KnowledgeRecords.WithObservation | sourcesage/knowledge.py:216-217 | the text is in the list afterwards; the list grows by the text only when it was absent; a duplicate-free list stays duplicate-free |
| KnowledgeRecords.ObservationIdempotent | sourcesage/knowledge.py:216-217 | adding the same observation twice equals adding it once |
| KnowledgeRecords.AllPatternsUnfiltered | sourcesage/knowledge.py:372-376 | with neither filter, `find_patterns` returns every pattern in order |
| KnowledgeRecords.AllConventionsUnfiltered | sourcesage/knowledge.py:434-438 | with neither filter, `find_style_conventions` returns every convention in order |
| KnowledgeRecords.DirectionOf | sourcesage/knowledge.py:277-281 | "outgoing", "incoming" and "both" select their own tests; any other string selects neither |
| KnowledgeRecords.Hits | sourcesage/knowledge.py:277-283 | one iteration appends only the relation itself: once when the outgoing or the incoming test passes with the requested type, twice exactly when both pass |
| KnowledgeRecords.RelationsOf | sourcesage/knowledge.py:276-283 | the lookup returns at most two entries per relation scanned |
| KnowledgeRecords.OtherEnd | sourcesage/knowledge.py:307-314 | the other end is one of the relation's ends: the target when the relation leaves the id, the source when it only enters it |
| KnowledgeRecords.RelationsOfStep | sourcesage/knowledge.py:276-283 | one more relation scanned appends its outgoing hit, then its incoming hit |
| KnowledgeRecords.RelationsOfMember | sourcesage/knowledge.py:276-283 | a relation is returned exactly when it is in the registry, leaves the id for outgoing/both or enters it for incoming/both, and has the requested type |
| KnowledgeRecords.UnrecognisedDirectionFindsNothing | sourcesage/knowledge.py:277-281 | a direction string other than the three known ones returns no relation |
| KnowledgeRecords.SelfLoopHits | sourcesage/knowledge.py:277-283 | a self-loop on the id, scanned with direction "both", is appended twice in its iteration |
| KnowledgeRecords.SelfLoopReturnedTwice | sourcesage/knowledge.py:276-283 | with direction "both", a self-loop occurs in the result twice as often as in the registry |
| KnowledgeRecords.RelatedOf | sourcesage/knowledge.py:303-316 | the related entities are never more than the relations found |
| KnowledgeRecords.RelatedOfMember | sourcesage/knowledge.py:306-314 | an entity is related exactly when it is the resolved other end of one of the relations |
| KnowledgeRecords.RelatedOfAllResolve | sourcesage/knowledge.py:306-314 | when every endpoint resolves, no relation is skipped |
| Knowledge.KnowledgeGraph.constructor | sourcesage/knowledge.py:100-106 | four empty registries, counter 0, consistent |
| Knowledge.KnowledgeGraph.GenerateId | sourcesage/knowledge.py:108-112 | returns `prefix_n` for the old counter `n` and advances the counter by exactly one |
| Knowledge.KnowledgeGraph.AddEntity | sourcesage/knowledge.py:116-154 | stores the entity under `entity_n`; the other registries are untouched; on a consistent graph the id is new and the graph stays consistent |
| Knowledge.KnowledgeGraph.GetEntity | sourcesage/knowledge.py:178-180 | an entity exactly for a known id; in a consistent graph, the one carrying that id |
| Knowledge.KnowledgeGraph.UpdateEntity | sourcesage/knowledge.py:156-176 | for keywords Python accepts: False and no change for an unknown id; otherwise only that entity changes, by the keyword updates; consistency kept |
| Knowledge.KnowledgeGraph.AddObservation | sourcesage/knowledge.py:201-220 | False and no change for an unknown id; otherwise only that entity's observations change, by a de-duplicated append; consistency kept |
| Knowledge.KnowledgeGraph.FindEntity | sourcesage/knowledge.py:182-199 | the entities with that name (and type, when given), in registry order |
| Knowledge.KnowledgeGraph.AddRelation | sourcesage/knowledge.py:224-256 | None, with relations and counter unchanged, exactly when an endpoint is unknown; otherwise the relation is stored under a new `relation_n` with the given ends and type |
| Knowledge.KnowledgeGraph.GetRelations | sourcesage/knowledge.py:258-285 | the loop returns the direction-aware lookup over the registry in order |
| Knowledge.KnowledgeGraph.RelationHits | sourcesage/knowledge.py:277-283 | the loop body for one relation appends exactly that relation's hits |
| Knowledge.KnowledgeGraph.GetRelatedEntities | sourcesage/knowledge.py:287-316 | the resolved other end of each relation found, in order, never more entities than relations |
| Knowledge.KnowledgeGraph.AddPattern | sourcesage/knowledge.py:320-352 | stores the pattern under `pattern_n`; the other registries are untouched; consistency kept |
| Knowledge.KnowledgeGraph.GetPattern | sourcesage/knowledge.py:354-356 | a pattern exactly for a known id; in a consistent graph, the one carrying that id |
| Knowledge.KnowledgeGraph.FindPatterns | sourcesage/knowledge.py:358-378 | the patterns passing both optional filters, in registry order |
| Knowledge.KnowledgeGraph.AddStyleConvention | sourcesage/knowledge.py:382-414 | stores the convention under `convention_n`; the other registries are untouched; consistency kept |
| Knowledge.KnowledgeGraph.GetStyleConvention | sourcesage/knowledge.py:416-418 | a convention exactly for a known id; in a consistent graph, the one carrying that id |
| Knowledge.KnowledgeGraph.FindStyleConventions | sourcesage/knowledge.py:420-440 | the conventions passing both optional filters, in registry order |
| Knowledge.KnowledgeGraph.QueryEntities | sourcesage/knowledge.py:444-481 | a prefix of the matching entities in registry order, of length min(matches, limit) when `limit >= 1` and min(matches, 1) otherwise; every result is stored and passes every given filter |
| Knowledge.KnowledgeGraph.EntityPasses | sourcesage/knowledge.py:466-474 | the `continue` tests let an entity through exactly when it passes every given filter |
| Knowledge.KnowledgeGraph.QueryStopped | sourcesage/knowledge.py:476-479 | what the loop holds when it breaks already meets the query's promise |
| Knowledge.KnowledgeGraph.QueryResultsStored | sourcesage/knowledge.py:464-476 | every collected entity is an entity of the registry |
| Knowledge.KnowledgeGraph.GetEntityContext | sourcesage/knowledge.py:483-521 | `{}` exactly for an unknown id; otherwise the entity and all its relations, no related entries at depth <= 0, and entries keyed by the related entities' ids at depth > 0; terminates on cyclic graphs |
| Knowledge.KnowledgeGraph.RelatedEntities | sourcesage/knowledge.py:506 | with the default arguments, at most one related entity per relation found |
| Knowledge.KnowledgeGraph.RelatedContexts | sourcesage/knowledge.py:505-519 | the related entries are keyed by exactly the related entities' ids |
| Knowledge.KnowledgeGraph.RelatedContextEntries | sourcesage/knowledge.py:505-519 | each entry is the context one level shallower when depth > 1, and the bare entity with empty relations when depth == 1 |
| Knowledge.KnowledgeGraph.NestedContextsExpanded | sourcesage/knowledge.py:505-513 | in a consistent graph every nested entry at depth > 1 is itself an expanded context of that id |
| Knowledge.KnowledgeGraph.ToDict | sourcesage/knowledge.py:525-541 | the snapshot holds every registry and always carries the counter |
| Knowledge.KnowledgeGraph.FromDict | sourcesage/knowledge.py:555-582 | the restored graph holds exactly the snapshot's registries, in order, and its counter, or 0 when there is none |
| Knowledge.EntityAddedConsistent | sourcesage/knowledge.py:140-153 | on a consistent graph the generated entity id is new, and storing the entity keeps the graph consistent |
| Knowledge.AddedEntityFound | sourcesage/knowledge.py:192-197 | an entity stored under a new key is found by `find_entity` under its name, with or without its type |
| Knowledge.EntityReplacedConsistent | sourcesage/knowledge.py:169-173 | replacing an entity by one with the same id keeps the graph consistent |
| Knowledge.RelationAddedConsistent | sourcesage/knowledge.py:242-255 | a relation between existing entities gets a new id and keeps every relation between existing entities |
| Knowledge.PatternAddedConsistent | sourcesage/knowledge.py:340-351 | the generated pattern id is new, and storing the pattern keeps the graph consistent |
| Knowledge.ConventionAddedConsistent | sourcesage/knowledge.py:402-413 | the generated convention id is new, and storing the convention keeps the graph consistent |
| Knowledge.RestoreTable | sourcesage/knowledge.py:562-565 | re-inserting a dict's entries in order into an empty dict rebuilds that dict, order included |
| Knowledge.Reload | sourcesage/knowledge.py:525-582 | `from_dict(to_dict(g))` has g's registries and counter, and is consistent when g is, so future ids cannot collide |
| Hierarchy.LevelName | sourcesage/hierarchy.py:210 | a level's `.name` is a non-empty upper-case word |
| Hierarchy.AllNodesUnfiltered | sourcesage/hierarchy.py:179-191 | with no filter, `query` returns every node in order |
| Hierarchy.LinkChild | sourcesage/hierarchy.py:100-106 | only the named, resolving parent changes, and it gains exactly the child among its children |
| Hierarchy.AddedTable | sourcesage/hierarchy.py:97-103 | storing and linking keeps the dict well-formed and appends the new id to its order |
| Hierarchy.NodeAdded | sourcesage/hierarchy.py:85-106 | on a valid memory the generated id is new, the memory stays valid, and every key stays issued below the counter |
| Hierarchy.NodeLinked | sourcesage/hierarchy.py:85-103 | without relying on exact roots, the add keeps the nodes keyed by their ids and counter values, the children links pointing down, and the next id fresh |
| Hierarchy.NodeAddedIssued | sourcesage/hierarchy.py:85-98 | the new id is not yet a key, and all keys stay issued below the advanced counter |
| Hierarchy.AddedHasShape | sourcesage/hierarchy.py:97-103 | after the add, the new node is stored, every other node keeps its id and parent, and only the named parent gains the new child |
| Hierarchy.ShapeKeyed | sourcesage/hierarchy.py:85-98 | every node stays keyed by its own id and its counter value |
| Hierarchy.ShapeLinks | sourcesage/hierarchy.py:100-103 | every children link still points to a node that names the parent and was generated later (or to itself) |
| Hierarchy.LinkAfterAdd | sourcesage/hierarchy.py:100-103 | one children link after the add, whether new or old, points down |
| Hierarchy.NewLinkAfterAdd | sourcesage/hierarchy.py:102-103 | the link from the resolving parent to the new node points down |
| Hierarchy.OldLinkAfterAdd | sourcesage/hierarchy.py:97-103 | an existing children link is untouched by the add |
| Hierarchy.ShapeRoots | sourcesage/hierarchy.py:101-106 | the roots stay exactly the nodes without a parent reference |
| Hierarchy.NoSelfChildAfterAdd | sourcesage/hierarchy.py:100-103 | the add makes a node its own child exactly when `parent_id` is the id it is about to generate |
| Hierarchy.HierarchicalMemory.constructor | sourcesage/hierarchy.py:53-57 | no nodes, no roots, counter 0, valid |
| Hierarchy.HierarchicalMemory.GenerateId | sourcesage/hierarchy.py:59-63 | returns `node_n` for the old counter and advances it by exactly one |
| Hierarchy.HierarchicalMemory.AddNode | sourcesage/hierarchy.py:65-108 | stores the node under a new `node_n`; only the resolving parent gains the child; the id joins the roots exactly when no parent is given; a dangling parent does neither; keyed ids and downward links are kept, and exact roots are kept when they held |
| Hierarchy.HierarchicalMemory.StoreNode | sourcesage/hierarchy.py:97-106 | storing the node and the `if parent_id:` branches produce exactly the added table and roots |
| Hierarchy.HierarchicalMemory.GetNode | sourcesage/hierarchy.py:110-112 | a node exactly for a known id; in a valid memory, the one carrying that id |
| Hierarchy.HierarchicalMemory.ParentOf | sourcesage/hierarchy.py:139-141 | a parent is found only through a set `parent_id`, and when nodes are keyed by their ids it is a stored node carrying that id |
| Hierarchy.HierarchicalMemory.GetParent | sourcesage/hierarchy.py:126-132 | None for an unknown node, for one without a parent reference, or for one whose parent does not resolve; otherwise the stored parent |
| Hierarchy.HierarchicalMemory.GetChildren | sourcesage/hierarchy.py:114-124 | each resolvable child of a known node exactly once; nothing for an unknown id |
| Hierarchy.HierarchicalMemory.ChildListStep | sourcesage/hierarchy.py:120-124 | one turn of the comprehension keeps the result exactly the resolvable children seen so far |
| Hierarchy.HierarchicalMemory.GetAncestors | sourcesage/hierarchy.py:134-147 | starts at the resolved parent, each element is the resolved parent of the one before, and the last has no resolvable parent |
| Hierarchy.HierarchicalMemory.StopsWithinMonotone | sourcesage/hierarchy.py:139-145 | a walk that stops within k steps stops within any larger number |
| Hierarchy.HierarchicalMemory.EarlierParentsStop | sourcesage/hierarchy.py:139-145 | when every parent was generated before its child, the ancestor walk stops |
| Hierarchy.HierarchicalMemory.ParentCycleNeverStops | sourcesage/hierarchy.py:139-145 | two nodes naming each other as parent make the ancestor walk run forever |
| Hierarchy.HierarchicalMemory.ReachesLater | sourcesage/hierarchy.py:149-159 | going down the children never reaches an earlier node |
| Hierarchy.HierarchicalMemory.ReachesThroughChild | sourcesage/hierarchy.py:149-159 | a node strictly below another lies below one of its linked children |
| Hierarchy.HierarchicalMemory.ChildIsLinked | sourcesage/hierarchy.py:101-103 | a child of a node that is not its own child names it as parent and was generated later |
| Hierarchy.HierarchicalMemory.WalkStart | sourcesage/hierarchy.py:151-152 | the queue of the start node's children starts the walk's invariant |
| Hierarchy.HierarchicalMemory.ChildrenBelow | sourcesage/hierarchy.py:157 | the children of a node below the start are below the start and not the start |
| Hierarchy.HierarchicalMemory.KidsAreNew | sourcesage/hierarchy.py:155-157 | children of the dequeued node are neither done nor queued |
| Hierarchy.HierarchicalMemory.CoversStep | sourcesage/hierarchy.py:155-157 | every descendant is still done or below a queued node after a step |
| Hierarchy.HierarchicalMemory.WalkStep | sourcesage/hierarchy.py:154-157 | one pop-append-extend step keeps the walk's invariant |
| Hierarchy.HierarchicalMemory.WalkBound | sourcesage/hierarchy.py:154-157 | while something is queued, fewer nodes are done than are stored |
| Hierarchy.HierarchicalMemory.GetDescendants | sourcesage/hierarchy.py:149-159 | every stored node strictly below the start along children links, each exactly once, nothing else |
| Hierarchy.HierarchicalMemory.Query | sourcesage/hierarchy.py:161-193 | the nodes passing every given filter, in registry order |
| Hierarchy.HierarchicalMemory.SummarizeNode | sourcesage/hierarchy.py:195-218 | `{}` exactly for an unknown id; otherwise the node's own fields, its resolved parent's name or None, and the names of exactly its resolvable children |

## Left out

- Knowledge.KnowledgeGraph.UpdateEntity: requires well-formed keywords (`WellFormedKeyword`). An `entity_id=` keyword raises `TypeError` at the call, since `entity_id` is the positional parameter (`sourcesage/knowledge.py:156`). A timestamp keyword names `created_at` or `updated_at`. A keyword that `hasattr` finds but that is no declared field, such as a method name, is modelled as a no-op, whereas `setattr` would give the entity an extra instance attribute.
- Timestamps. `created_at`/`updated_at` come from the clock and are not modelled. A timestamp keyword of `update_entity` is an update that changes nothing in the model.
- Regular expressions. `re.search(pattern, name)` is modelled as substring search (`Search`). A pattern with metacharacters is therefore matched literally.
- Identity and aliasing. Records are values in the model; the source shares objects, and the model does not capture what that sharing allows:
  - lookups return the live stored object, so a caller can mutate the store through it;
  - `add_entity` stores the caller's own `observations` list (`sourcesage/knowledge.py:150`), so a later `add_observation` changes the caller's list too;
  - Knowledge.KnowledgeGraph.ToDict: `_dataclass_to_dict` copies only the top level of each record (`sourcesage/knowledge.py:544-547`), so the snapshot shares the records' lists and dicts;
  - Knowledge.KnowledgeGraph.FromDict: `Entity(**entity_data)` (`sourcesage/knowledge.py:564`) reuses those lists and dicts;
  - Knowledge.Reload: after `g2 = from_dict(to_dict(g))`, an `add_observation` on `g2` (`sourcesage/knowledge.py:217`) also changes the entity in `g`; the lemma states equality of values, not independence of the two graphs.
- Knowledge.KnowledgeGraph.GetEntityContext: `related_entities` is modelled as a map, so the insertion order of its keys (`sourcesage/knowledge.py:511-517`) is dropped.
- Dynamic typing.
  - A keyword of `update_entity` may set a field to a value of any type; the model only takes values of the field's type.
  - A malformed snapshot makes `Entity(**data)` raise; the model only takes well-formed snapshots.
  - A non-integer `_next_id` is not modelled.
- `to_json`, `from_json`, `save_to_file` and `load_from_file`: file I/O and JSON encoding. The snapshot is modelled structurally by `ToDict`/`FromDict`.
- `CodeAnalyzer`, the MCP server layer, the tests and the package's `__init__`. They parse files, walk directories or adapt calls; they are not part of this model.
- Hierarchy.HierarchicalMemory.AddNode: its keyword arguments are the fields of `NodeExtras`. A `node_id` keyword raises `TypeError`, since `CodeNode` already receives `node_id=` (`sourcesage/hierarchy.py:89`) beside `**kwargs` (line 94). A `children_ids` keyword would give the new node arbitrary children; it is not modelled.
- Hierarchy.HierarchicalMemory.GetAncestors: requires no registry invariant, only that the upward walk ends. The source has no cycle guard and loops forever on a parent cycle (see `ParentCycleNeverStops`). `EarlierParentsStop` shows the walk ends when every parent was generated before its child.
- Hierarchy.HierarchicalMemory.GetDescendants: requires only `Linked` (nodes keyed by their ids, children links pointing down), not the exact roots, so it holds after `CodeAnalyzer` reparents a module that stays in `root_nodes` (`sourcesage/hierarchy.py:411-412`). It also requires that no node at or below the start is its own child. `add_node` creates such a node only when `parent_id` is the id it is about to generate (`NoSelfChildAfterAdd`), and the source then loops forever. The contract states the set of descendants and that each appears once, not their breadth-first order.
- Hierarchy.HierarchicalMemory.GetChildren: requires only `Keyed` (nodes keyed by their ids), as do `SummarizeNode` and the ancestor-walk lemmas. The order of the result is a set's iteration order, which Python does not define; the contract states which nodes appear, each once, not their order.
- Knowledge.KnowledgeGraph.FromDict: a restored graph is consistent only if the snapshot was; `Reload` proves it for a snapshot of a consistent graph.
