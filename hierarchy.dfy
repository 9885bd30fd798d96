/** The hierarchical memory: a tree of code nodes (project, module, class,
    function, block, line) keyed by generated ids, with parent and children
    links, the walks along them, a filtered query and a summary projection. */
module Hierarchy {
  import opened Tables
  import opened Ids

  /** The containment levels, outermost first. */
  datatype HierarchyLevel = Project | Module | Class | Function | Block | Line

  /** The enum member's `.name`. */
  function LevelName(l: HierarchyLevel): (name: string)
    ensures name != [] && forall c :: c in name ==> 'A' <= c <= 'Z'
  {
    match l
    case Project => "PROJECT"
    case Module => "MODULE"
    case Class => "CLASS"
    case Function => "FUNCTION"
    case Block => "BLOCK"
    case Line => "LINE"
  }

  /** The optional fields `add_node` accepts as keyword arguments. */
  datatype NodeExtras = NodeExtras(
    signature: Option<string>,
    summary: Option<string>,
    metadata: map<string, string>,
    content: Option<string>,
    styleMarkers: map<string, string>)

  datatype CodeNode = CodeNode(
    nodeId: string,
    name: string,
    level: HierarchyLevel,
    nodeType: string,
    parentId: Option<string>,
    childrenIds: set<string>,
    signature: Option<string>,
    summary: Option<string>,
    metadata: map<string, string>,
    content: Option<string>,
    styleMarkers: map<string, string>)

  /** The dictionary `summarize_node` builds for a known node. */
  datatype NodeSummary = NodeSummary(
    id: string,
    name: string,
    nodeType: string,
    level: string,
    signature: Option<string>,
    summary: Option<string>,
    parent: Option<string>,
    children: seq<string>,
    metadata: map<string, string>)

  /** Python truthiness of a `parent_id`: neither None nor the empty string. */
  predicate HasParentRef(parentId: Option<string>): (truthy: bool) {
    parentId.Some? && parentId.value != ""
  }

  /** `query`'s tests, each applied only when given. */
  predicate NodeMatches(n: CodeNode, level: Option<HierarchyLevel>, nodeType: Option<string>,
                        namePattern: Option<string>) {
    && (level.None? || n.level == level.value)
    && (nodeType.None? || n.nodeType == nodeType.value)
    && (namePattern.None? || Search(namePattern.value, n.name))
  }

  /** With no filter given, `query` returns every node. */
  lemma AllNodesUnfiltered(ns: seq<CodeNode>)
    ensures Filter(ns, n => NodeMatches(n, None, None, None)) == ns
  {
    FilterKeepsAll(ns, n => NodeMatches(n, None, None, None));
  }

  /** The parent-linking step of `add_node`: when the parent reference is set
      and resolves (after the new node is stored), the parent's children
      gain `child`; every other node stays as it was. */
  function LinkChild(nodes: map<string, CodeNode>, parentId: Option<string>, child: string)
    : (r: map<string, CodeNode>)
    ensures r.Keys == nodes.Keys
    ensures forall k :: k in nodes && !(HasParentRef(parentId) && k == parentId.value) ==> r[k] == nodes[k]
    ensures HasParentRef(parentId) && parentId.value in nodes ==>
      r[parentId.value] == nodes[parentId.value].(childrenIds := nodes[parentId.value].childrenIds + {child})
  {
    if HasParentRef(parentId) && parentId.value in nodes then
      var p := nodes[parentId.value];
      nodes[parentId.value := p.(childrenIds := p.childrenIds + {child})]
    else nodes
  }

  function NodeIds(s: seq<CodeNode>): (ids: seq<string>) {
    seq(|s|, i requires 0 <= i < |s| => s[i].nodeId)
  }

  function IdSet(s: seq<CodeNode>): (ids: set<string>) {
    set n | n in s :: n.nodeId
  }

  /** `[child.name for child in children]`. */
  function Names(s: seq<CodeNode>): (names: seq<string>) {
    seq(|s|, i requires 0 <= i < |s| => s[i].name)
  }

  /** Every node is stored under its own id, and `serial` records the
      counter value, below the current one, that each node was generated at. */
  ghost predicate KeyedBySerial(items: map<string, CodeNode>, serial: map<string, nat>, next: nat) {
    && serial.Keys == items.Keys
    && forall k :: k in serial ==> serial[k] < next && items[k].nodeId == k
  }

  /** A children link only points from a node to one that names it as parent
      and is either the node itself or generated later. */
  ghost predicate LinksDown(items: map<string, CodeNode>, serial: map<string, nat>) {
    forall p, c {:trigger c in items[p].childrenIds} :: p in items && c in items[p].childrenIds ==>
      && c in items && items[c].parentId == Some(p) && p in serial && c in serial
      && (p == c || serial[p] < serial[c])
  }

  /** The roots are exactly the nodes without a parent reference. */
  ghost predicate RootsExact(items: map<string, CodeNode>, roots: set<string>) {
    forall k :: k in roots <==> k in items && !HasParentRef(items[k].parentId)
  }

  /** The nodes after `add_node` stores `node` and links it to its parent. */
  function Added(items: map<string, CodeNode>, node: CodeNode): (r: map<string, CodeNode>) {
    LinkChild(items[node.nodeId := node], node.parentId, node.nodeId)
  }

  /** The registry invariant: insertion order kept, nodes keyed by their own
      ids and counter values, children links pointing down, roots exact. */
  ghost predicate MemoryState(nodes: Table<CodeNode>, roots: set<string>, serial: map<string, nat>, next: nat) {
    && nodes.Wf()
    && KeyedBySerial(nodes.items, serial, next)
    && LinksDown(nodes.items, serial)
    && RootsExact(nodes.items, roots)
  }

  /** The nodes dict after `add_node` stores `node` and links it to its parent. */
  function AddedTable(t: Table<CodeNode>, node: CodeNode): (r: Table<CodeNode>)
    requires t.Wf()
    ensures r.Wf() && r.items == Added(t.items, node)
    ensures node.nodeId !in t.items ==> r.order == t.order + [node.nodeId]
  {
    var t1 := Put(t, node.nodeId, node);
    if HasParentRef(node.parentId) && node.parentId.value in t1.items then
      var p := t1.items[node.parentId.value];
      Put(t1, node.parentId.value, p.(childrenIds := p.childrenIds + {node.nodeId}))
    else t1
  }

  /** The roots after `add_node`: the new node is one when it has no parent reference. */
  function AddedRoots(roots: set<string>, node: CodeNode): (r: set<string>) {
    if HasParentRef(node.parentId) then roots else roots + {node.nodeId}
  }

  /** `add_node` keeps the registry invariant, and the next id stays fresh:
      the state after it (primed) is the old one with `node` added. */
  lemma NodeAdded(t: Table<CodeNode>, roots: set<string>, serial: map<string, nat>, next: nat, node: CodeNode,
                  t': Table<CodeNode>, roots': set<string>, serial': map<string, nat>, next': nat)
    requires MemoryState(t, roots, serial, next) && IssuedBelow(t.items, "node", next)
    requires node.nodeId == IdFor("node", next) && node.childrenIds == {}
    requires t.Wf() && t' == AddedTable(t, node) && roots' == AddedRoots(roots, node)
    requires serial' == serial[node.nodeId := next] && next' == next + 1
    ensures node.nodeId !in t.items
    ensures MemoryState(t', roots', serial', next')
    ensures IssuedBelow(t'.items, "node", next')
  {
    NodeLinked(t, serial, next, node, t', serial', next');
    AddedHasShape(t.items, node);
    ShapeRoots(t.items, roots, node, Added(t.items, node));
  }

  /** `add_node` keeps every part of the registry invariant except the exact
      roots without relying on them: it needs only nodes keyed by their ids
      and counter values, links pointing down and the next id fresh. */
  lemma NodeLinked(t: Table<CodeNode>, serial: map<string, nat>, next: nat, node: CodeNode,
                   t': Table<CodeNode>, serial': map<string, nat>, next': nat)
    requires t.Wf() && KeyedBySerial(t.items, serial, next) && LinksDown(t.items, serial)
    requires IssuedBelow(t.items, "node", next)
    requires node.nodeId == IdFor("node", next) && node.childrenIds == {}
    requires t' == AddedTable(t, node)
    requires serial' == serial[node.nodeId := next] && next' == next + 1
    ensures node.nodeId !in t.items
    ensures t'.Wf() && KeyedBySerial(t'.items, serial', next') && LinksDown(t'.items, serial')
    ensures IssuedBelow(t'.items, "node", next')
  {
    NodeAddedIssued(t.items, next, node);
    var items' := Added(t.items, node);
    AddedHasShape(t.items, node);
    ShapeKeyed(t.items, serial, next, node, items');
    ShapeLinks(t.items, serial, next, node, items');
  }

  lemma NodeAddedIssued(items: map<string, CodeNode>, next: nat, node: CodeNode)
    requires IssuedBelow(items, "node", next) && node.nodeId == IdFor("node", next)
    ensures node.nodeId !in items
    ensures IssuedBelow(Added(items, node), "node", next + 1)
  {
    FreshId(items, "node", next);
    IssuedAfterPut(items, "node", next, node);
    assert Added(items, node).Keys == items[node.nodeId := node].Keys;
  }

  /** `items'` is `items` with `node` added: the new node, then every old one,
      with the new id among the children of the node named as parent. */
  ghost predicate AddedShape(items: map<string, CodeNode>, node: CodeNode, items': map<string, CodeNode>) {
    && (forall k :: k in items' <==> k in items || k == node.nodeId)
    && (forall k :: k in items' ==>
          var base := if k == node.nodeId then node else items[k];
          && items'[k].nodeId == base.nodeId
          && items'[k].parentId == base.parentId
          && items'[k].childrenIds
             == base.childrenIds + (if HasParentRef(node.parentId) && k == node.parentId.value then {node.nodeId} else {}))
  }

  lemma AddedHasShape(items: map<string, CodeNode>, node: CodeNode)
    ensures AddedShape(items, node, Added(items, node))
  {
  }

  lemma ShapeKeyed(items: map<string, CodeNode>, serial: map<string, nat>, next: nat, node: CodeNode,
                   items': map<string, CodeNode>)
    requires KeyedBySerial(items, serial, next) && node.nodeId !in items && AddedShape(items, node, items')
    ensures KeyedBySerial(items', serial[node.nodeId := next], next + 1)
  {
  }

  lemma ShapeLinks(items: map<string, CodeNode>, serial: map<string, nat>, next: nat, node: CodeNode,
                   items': map<string, CodeNode>)
    requires KeyedBySerial(items, serial, next) && LinksDown(items, serial)
    requires node.nodeId !in items && node.childrenIds == {} && AddedShape(items, node, items')
    ensures LinksDown(items', serial[node.nodeId := next])
  {
    forall p, c | p in items' && c in items'[p].childrenIds
      ensures c in items' && items'[c].parentId == Some(p)
      ensures p in serial[node.nodeId := next] && c in serial[node.nodeId := next]
      ensures p == c || serial[node.nodeId := next][p] < serial[node.nodeId := next][c]
    {
      LinkAfterAdd(items, serial, next, node, items', p, c);
    }
  }

  /** One children link after the add: either the new one, from the named
      parent to the new node, or an old one. */
  lemma LinkAfterAdd(items: map<string, CodeNode>, serial: map<string, nat>, next: nat, node: CodeNode,
                     items': map<string, CodeNode>, p: string, c: string)
    requires KeyedBySerial(items, serial, next) && LinksDown(items, serial)
    requires node.nodeId !in items && node.childrenIds == {} && AddedShape(items, node, items')
    requires p in items' && c in items'[p].childrenIds
    ensures c in items' && items'[c].parentId == Some(p)
    ensures p in serial[node.nodeId := next] && c in serial[node.nodeId := next]
    ensures p == c || serial[node.nodeId := next][p] < serial[node.nodeId := next][c]
  {
    var id := node.nodeId;
    var extra := if HasParentRef(node.parentId) && p == node.parentId.value then {id} else {};
    var base := if p == id then node else items[p];
    assert items'[p].childrenIds == base.childrenIds + extra;
    if c in extra {
      NewLinkAfterAdd(items, serial, next, node, items', p);
    } else {
      OldLinkAfterAdd(items, serial, next, node, items', p, c);
    }
  }

  /** The link `add_node` makes, from the named parent to the new node. */
  lemma NewLinkAfterAdd(items: map<string, CodeNode>, serial: map<string, nat>, next: nat, node: CodeNode,
                        items': map<string, CodeNode>, p: string)
    requires KeyedBySerial(items, serial, next)
    requires node.nodeId !in items && AddedShape(items, node, items')
    requires p in items' && node.parentId == Some(p)
    ensures node.nodeId in items' && items'[node.nodeId].parentId == Some(p)
    ensures p in serial[node.nodeId := next] && node.nodeId in serial[node.nodeId := next]
    ensures p == node.nodeId || serial[node.nodeId := next][p] < serial[node.nodeId := next][node.nodeId]
  {
    if p != node.nodeId {
      assert p in items && serial[p] < next;
    }
  }

  /** A link that was there before the add is still there, unchanged. */
  lemma OldLinkAfterAdd(items: map<string, CodeNode>, serial: map<string, nat>, next: nat, node: CodeNode,
                        items': map<string, CodeNode>, p: string, c: string)
    requires KeyedBySerial(items, serial, next) && LinksDown(items, serial)
    requires node.nodeId !in items && AddedShape(items, node, items')
    requires p in items && c in items[p].childrenIds
    ensures c in items' && items'[c].parentId == Some(p)
    ensures p in serial[node.nodeId := next] && c in serial[node.nodeId := next]
    ensures p == c || serial[node.nodeId := next][p] < serial[node.nodeId := next][c]
  {
    assert c in items && items[c].parentId == Some(p) && p in serial && c in serial;
    assert c != node.nodeId && items'[c].parentId == items[c].parentId;
  }

  lemma ShapeRoots(items: map<string, CodeNode>, roots: set<string>, node: CodeNode, items': map<string, CodeNode>)
    requires RootsExact(items, roots) && node.nodeId !in items && AddedShape(items, node, items')
    ensures RootsExact(items', AddedRoots(roots, node))
  {
  }

  /** No node lists itself among its children. */
  ghost predicate NoSelfChild(items: map<string, CodeNode>) {
    forall k :: k in items ==> k !in items[k].childrenIds
  }

  /** `add_node` makes a node its own child only when `parent_id` is the id
      it is about to generate; any other call keeps every node off its own
      children. */
  lemma NoSelfChildAfterAdd(items: map<string, CodeNode>, node: CodeNode)
    requires NoSelfChild(items) && node.nodeId !in items && node.childrenIds == {}
    ensures NoSelfChild(Added(items, node)) <==> !(HasParentRef(node.parentId) && node.parentId.value == node.nodeId)
  {
    AddedHasShape(items, node);
  }

  class HierarchicalMemory {
    var nodes: Table<CodeNode>
    var rootNodes: set<string>
    var nextId: nat
    /** The counter value each node's id was generated from. */
    ghost var serial: map<string, nat>

    /** The nodes dict keeps insertion order; every node is stored under its
        own generated id; a children link only ever points from a node to one
        that names it as parent and was generated no earlier; and the roots
        are exactly the nodes without a parent reference. */
    ghost predicate Valid()
      reads this
    {
      MemoryState(nodes, rootNodes, serial, nextId)
    }

    /** The part of `Valid` the lookups rely on: the dict keeps insertion
        order, and every node is stored under its own id with its counter
        value. */
    ghost predicate Keyed()
      reads this
    {
      nodes.Wf() && KeyedBySerial(nodes.items, serial, nextId)
    }

    /** `Keyed`, and every children link points down. This is all the
        descendant walk relies on. A module whose `parent_id` is set after
        it was added, and which stays in `root_nodes`, keeps it while
        breaking the exact roots of `Valid`. */
    ghost predicate Linked()
      reads this
    {
      Keyed() && LinksDown(nodes.items, serial)
    }

    /** Every key is an id the counter has already issued, so the next one is
        fresh. Kept apart from `Valid` because only `add_node` needs it. */
    ghost predicate Issued()
      reads this
    {
      IssuedBelow(nodes.items, "node", nextId)
    }

    constructor ()
      ensures Valid() && Issued()
      ensures nodes == EmptyTable() && rootNodes == {} && nextId == 0
    {
      nodes := EmptyTable();
      rootNodes := {};
      nextId := 0;
      serial := map[];
    }

    /** `_generate_id`. */
    method GenerateId() returns (id: string)
      modifies this`nextId
      ensures id == IdFor("node", old(nextId)) && nextId == old(nextId) + 1
    {
      id := IdFor("node", nextId);
      nextId := nextId + 1;
    }

    /** `add_node`: stores the node under a fresh id, then links it into its
        parent's children when the parent reference is set and resolves, or
        makes it a root when no parent reference is set. A reference that is
        set but does not resolve does neither. */
    method AddNode(name: string, level: HierarchyLevel, nodeType: string, parentId: Option<string>,
                   extras: NodeExtras)
      returns (id: string)
      requires Linked() && Issued()
      modifies this
      ensures Linked() && Issued()
      ensures old(Valid()) ==> Valid()
      ensures id == IdFor("node", old(nextId)) && nextId == old(nextId) + 1
      ensures id !in old(nodes.items)
      ensures nodes.order == old(nodes.order) + [id]
      ensures nodes.items == Added(old(nodes.items), CodeNode(id, name, level, nodeType, parentId, {},
        extras.signature, extras.summary, extras.metadata, extras.content, extras.styleMarkers))
      ensures rootNodes == if HasParentRef(parentId) then old(rootNodes) else old(rootNodes) + {id}
    {
      ghost var n, oldSerial, wasValid := nextId, serial, Valid();
      var oldNodes, oldRoots := nodes, rootNodes;
      id := GenerateId();
      var node := CodeNode(id, name, level, nodeType, parentId, {},
        extras.signature, extras.summary, extras.metadata, extras.content, extras.styleMarkers);
      var stored, roots := StoreNode(oldNodes, oldRoots, node);
      nodes, rootNodes, serial := stored, roots, oldSerial[id := n];
      NodeLinked(oldNodes, oldSerial, n, node, nodes, serial, nextId);
      if wasValid {
        NodeAdded(oldNodes, oldRoots, oldSerial, n, node, nodes, rootNodes, serial, nextId);
      }
    }

    /** The body of `add_node` after the node is built: store it, then link
        it into a resolving parent's children, or make it a root when no
        parent reference is set. */
    static method StoreNode(t: Table<CodeNode>, roots: set<string>, node: CodeNode)
      returns (stored: Table<CodeNode>, roots': set<string>)
      requires t.Wf()
      ensures stored == AddedTable(t, node) && roots' == AddedRoots(roots, node)
    {
      stored := Put(t, node.nodeId, node);
      roots' := roots;
      if node.parentId.Some? && node.parentId.value != "" {
        if node.parentId.value in stored.items {
          var p := stored.items[node.parentId.value];
          stored := Put(stored, node.parentId.value, p.(childrenIds := p.childrenIds + {node.nodeId}));
        }
      } else {
        roots' := roots' + {node.nodeId};
      }
    }

    /** `get_node`. */
    function GetNode(id: string): (r: Option<CodeNode>)
      reads this
      ensures r.Some? <==> id in nodes.items
      ensures r.Some? && Keyed() ==> r.value.nodeId == id
    {
      nodes.Get(id)
    }

    /** The node's parent, when its reference is set and resolves. */
    function ParentOf(n: CodeNode): (p: Option<CodeNode>)
      reads this
      ensures p.Some? ==> HasParentRef(n.parentId)
      ensures Keyed() && p.Some? ==> p.value in nodes.items.Values && p.value.nodeId == n.parentId.value
    {
      if HasParentRef(n.parentId) && n.parentId.value in nodes.items then Some(nodes.items[n.parentId.value])
      else None
    }

    /** `get_parent`: nothing for an unknown node, a node without a parent
        reference, or a reference that does not resolve. */
    function GetParent(id: string): (r: Option<CodeNode>)
      reads this
      ensures r.Some? <==> id in nodes.items && HasParentRef(nodes.items[id].parentId)
                           && nodes.items[id].parentId.value in nodes.items
      ensures r.Some? ==> r.value == nodes.items[nodes.items[id].parentId.value]
      ensures r.Some? && Keyed() ==> r.value.nodeId == nodes.items[id].parentId.value
    {
      if id in nodes.items then ParentOf(nodes.items[id]) else None
    }

    /** Every node of `s` is the one stored under its id. */
    ghost predicate Stored(s: seq<CodeNode>)
      reads this
    {
      forall n :: n in s ==> n.nodeId in nodes.items && nodes.items[n.nodeId] == n
    }

    /** What `get_children(id)` returns: each resolvable child of a known
        node, once, in some order (a set's iteration order). */
    ghost predicate IsChildList(id: string, r: seq<CodeNode>)
      reads this
    {
      && Stored(r)
      && Distinct(NodeIds(r))
      && IdSet(r) == if id in nodes.items then nodes.items[id].childrenIds * nodes.items.Keys else {}
    }

    /** `get_children`: the resolvable children of a known node; none for an
        unknown id. */
    method GetChildren(id: string) returns (r: seq<CodeNode>)
      requires Keyed()
      ensures IsChildList(id, r)
      ensures id !in nodes.items ==> r == []
    {
      var node := GetNode(id);
      if node.None? {
        return [];
      }
      var children := node.value.childrenIds;
      var remaining := children;
      r := [];
      while remaining != {}
        invariant remaining <= children
        invariant Stored(r) && Distinct(NodeIds(r))
        invariant IdSet(r) == (children - remaining) * nodes.items.Keys
        decreases |remaining|
      {
        var c :| c in remaining;
        ChildListStep(r, children, remaining, c);
        if c in nodes.items {
          r := r + [nodes.items[c]];
        }
        remaining := remaining - {c};
      }
    }

    /** One turn of `get_children`' comprehension: the child `c` is taken
        from the ones left and its node appended when it resolves. */
    lemma ChildListStep(r: seq<CodeNode>, children: set<string>, remaining: set<string>, c: string)
      requires Keyed() && Stored(r) && Distinct(NodeIds(r))
      requires remaining <= children && c in remaining
      requires IdSet(r) == (children - remaining) * nodes.items.Keys
      ensures var r' := if c in nodes.items then r + [nodes.items[c]] else r;
        Stored(r') && Distinct(NodeIds(r')) && IdSet(r') == (children - (remaining - {c})) * nodes.items.Keys
    {
      if c in nodes.items {
        var n := nodes.items[c];
        DistinctAppend(r, [n]);
        assert IdSet(r + [n]) == IdSet(r) + {c};
      }
    }

    // -------------------------------------------------------------------
    // Ancestors

    /** The upward walk from `n` reaches a node without a resolvable parent
        within `fuel` steps. */
    ghost predicate StopsWithin(n: CodeNode, fuel: nat)
      reads this
      decreases fuel
    {
      ParentOf(n).None? || (fuel > 0 && StopsWithin(ParentOf(n).value, fuel - 1))
    }

    /** `get_ancestors`: the resolved parent, its resolved parent and so on,
        nearest first, up to the first node without a resolvable parent. The
        source has no cycle guard, so the walk ends only when the chain does:
        that is the precondition. */
    method GetAncestors(id: string) returns (r: seq<CodeNode>)
      requires id in nodes.items ==> exists k: nat :: StopsWithin(nodes.items[id], k)
      ensures |r| > 0 <==> GetParent(id).Some?
      ensures |r| > 0 ==> r[0] == GetParent(id).value
      ensures forall i :: 0 <= i < |r| - 1 ==> ParentOf(r[i]) == Some(r[i + 1])
      ensures |r| > 0 ==> ParentOf(r[|r| - 1]).None?
    {
      r := [];
      var current := GetNode(id);
      ghost var fuel: nat := 0;
      if current.Some? {
        fuel :| StopsWithin(current.value, fuel);
      }
      while current.Some? && current.value.parentId.Some? && current.value.parentId.value != ""
        invariant current.Some? ==> StopsWithin(current.value, fuel)
        invariant r == [] ==> current == GetNode(id)
        invariant r != [] ==> current == Some(r[|r| - 1]) && GetParent(id).Some? && r[0] == GetParent(id).value
        invariant forall i :: 0 <= i < |r| - 1 ==> ParentOf(r[i]) == Some(r[i + 1])
        decreases fuel
      {
        var parent := GetNode(current.value.parentId.value);
        if parent.Some? {
          r := r + [parent.value];
          current := parent;
          fuel := fuel - 1;
        } else {
          break;
        }
      }
    }

    lemma {:induction false} StopsWithinMonotone(n: CodeNode, k: nat, m: nat)
      requires StopsWithin(n, k) && k <= m
      ensures StopsWithin(n, m)
      decreases k
    {
      if ParentOf(n).Some? {
        StopsWithinMonotone(ParentOf(n).value, k - 1, m - 1);
      }
    }

    /** When every resolvable parent was generated before its child (no
        forward references), every node's walk ends, within as many steps as
        its counter value. */
    lemma {:induction false} EarlierParentsStop(id: string)
      requires Keyed() && id in nodes.items
      requires forall k :: k in nodes.items && ParentOf(nodes.items[k]).Some? ==>
        serial[nodes.items[k].parentId.value] < serial[k]
      ensures StopsWithin(nodes.items[id], serial[id])
      decreases serial[id]
    {
      var n := nodes.items[id];
      if ParentOf(n).Some? {
        var p := n.parentId.value;
        EarlierParentsStop(p);
        StopsWithinMonotone(nodes.items[p], serial[p], serial[id] - 1);
      }
    }

    /** Two nodes that name each other as parent: their walks never end, which
        is how a forward `parent_id` reference makes `get_ancestors` loop. */
    lemma {:induction false} ParentCycleNeverStops(a: CodeNode, b: CodeNode, k: nat)
      requires ParentOf(a) == Some(b) && ParentOf(b) == Some(a)
      ensures !StopsWithin(a, k) && !StopsWithin(b, k)
    {
      if k > 0 {
        ParentCycleNeverStops(a, b, k - 1);
      }
    }

    // -------------------------------------------------------------------
    // Descendants

    /** The node `d` is linked below its parent: the parent resolves, lists
        `d` among its children and is a different, earlier node. */
    ghost function LinkedParent(d: string): (p: Option<string>)
      reads this
    {
      if d in nodes.items && nodes.items[d].parentId.Some? then
        var p := nodes.items[d].parentId.value;
        if p in nodes.items && p != d && d in nodes.items[p].childrenIds && p in serial && d in serial
           && serial[p] < serial[d]
        then Some(p) else None
      else None
    }

    /** `d` is `a` or lies below `a` along children links. */
    ghost predicate Reaches(a: string, d: string)
      reads this
      decreases if d in serial then serial[d] else 0
    {
      a == d || (LinkedParent(d).Some? && Reaches(a, LinkedParent(d).value))
    }

    /** Going down from `a` never reaches an earlier node. */
    lemma {:induction false} ReachesLater(a: string, d: string)
      requires Reaches(a, d) && a != d
      ensures a in nodes.items && a in serial && d in serial && serial[a] < serial[d]
      decreases if d in serial then serial[d] else 0
    {
      var p := LinkedParent(d).value;
      if p != a {
        ReachesLater(a, p);
      }
    }

    /** A node strictly below `a` lies below one of `a`'s children. */
    lemma {:induction false} ReachesThroughChild(a: string, d: string)
      requires Reaches(a, d) && a != d
      ensures a in nodes.items
      ensures exists c :: c in nodes.items && c in nodes.items[a].childrenIds && LinkedParent(c) == Some(a)
                          && Reaches(c, d)
      decreases if d in serial then serial[d] else 0
    {
      ReachesLater(a, d);
      var p := LinkedParent(d).value;
      if p == a {
        assert Reaches(d, d);
      } else {
        ReachesThroughChild(a, p);
        var c :| c in nodes.items && c in nodes.items[a].childrenIds && LinkedParent(c) == Some(a) && Reaches(c, p);
        assert Reaches(c, d);
      }
    }

    /** A child of a node that is not its own child is linked below it. */
    lemma ChildIsLinked(x: string, c: string)
      requires Linked() && x in nodes.items && c in nodes.items[x].childrenIds && x !in nodes.items[x].childrenIds
      ensures LinkedParent(c) == Some(x)
    {
      assert c != x;
    }

    /** No node at or below `start` is its own child. Without this the
        breadth-first walk of `get_descendants` never ends: a node added with
        its own about-to-be-generated id as `parent_id` is linked as its own
        child. */
    ghost predicate NoSelfChildBelow(start: string)
      reads this
    {
      forall d :: Reaches(start, d) && d in nodes.items ==> d !in nodes.items[d].childrenIds
    }

    /** The state of `get_descendants`' loop: `done` holds the nodes already
        appended to the result, `queue` the ones still to process. Each is a
        stored node strictly below the start, taken once, whose parent is the
        start or already done; every node below the start is done or lies
        below a queued node. */
    ghost predicate WalkState(start: string, done: seq<CodeNode>, queue: seq<CodeNode>)
      reads this
    {
      && Stored(done + queue)
      && Distinct(NodeIds(done + queue))
      && WalkBelow(start, done, done + queue)
      && WalkCovers(start, done, queue)
    }

    ghost predicate WalkBelow(start: string, done: seq<CodeNode>, s: seq<CodeNode>)
      reads this
    {
      forall n :: n in s ==>
        && n.nodeId != start && Reaches(start, n.nodeId) && LinkedParent(n.nodeId).Some?
        && (LinkedParent(n.nodeId).value == start || LinkedParent(n.nodeId).value in IdSet(done))
    }

    ghost predicate WalkCovers(start: string, done: seq<CodeNode>, queue: seq<CodeNode>)
      reads this
    {
      forall d :: d in nodes.items && d != start && Reaches(start, d) ==>
        d in IdSet(done) || exists n :: n in queue && Reaches(n.nodeId, d)
    }

    lemma WalkStart(start: string, first: seq<CodeNode>)
      requires Linked() && NoSelfChildBelow(start) && IsChildList(start, first)
      requires start !in nodes.items ==> first == []
      ensures WalkState(start, [], first)
    {
      assert [] + first == first;
      if start in nodes.items {
        assert Reaches(start, start);
        ChildrenBelow(start, start, first);
      }
      forall d | d in nodes.items && d != start && Reaches(start, d)
        ensures exists n :: n in first && Reaches(n.nodeId, d)
      {
        ReachesThroughChild(start, d);
        var c :| c in nodes.items && c in nodes.items[start].childrenIds && LinkedParent(c) == Some(start)
                 && Reaches(c, d);
        assert c in IdSet(first);
        var n :| n in first && n.nodeId == c;
      }
    }

    /** The children of a node at or below the start are strictly below it,
        linked to that node. */
    lemma ChildrenBelow(start: string, x: string, kids: seq<CodeNode>)
      requires Linked() && NoSelfChildBelow(start) && x in nodes.items && Reaches(start, x)
      requires IsChildList(x, kids)
      ensures forall k :: k in kids ==> k.nodeId != start && Reaches(start, k.nodeId) && LinkedParent(k.nodeId) == Some(x)
    {
      forall k | k in kids
        ensures k.nodeId != start && Reaches(start, k.nodeId) && LinkedParent(k.nodeId) == Some(x)
      {
        assert k.nodeId in IdSet(kids);
        ChildIsLinked(x, k.nodeId);
        assert Reaches(start, k.nodeId);
        if start != x {
          ReachesLater(start, x);
        }
      }
    }

    /** The children of the node taken from the queue are not yet done or
        queued: their parent is neither the start nor done. */
    lemma KidsAreNew(start: string, done: seq<CodeNode>, queue: seq<CodeNode>, kids: seq<CodeNode>)
      requires Distinct(NodeIds(done + queue)) && WalkBelow(start, done, done + queue) && queue != []
      requires forall k :: k in kids ==> LinkedParent(k.nodeId) == Some(queue[0].nodeId)
      ensures forall k :: k in kids ==> k.nodeId !in IdSet(done + queue)
    {
      var x := queue[0].nodeId;
      assert queue[0] in done + queue;
      forall i | 0 <= i < |done|
        ensures done[i].nodeId != x
      {
        assert NodeIds(done + queue)[i] == done[i].nodeId && NodeIds(done + queue)[|done|] == x;
      }
      assert x !in IdSet(done);
      forall k | k in kids
        ensures k.nodeId !in IdSet(done + queue)
      {
        assert LinkedParent(k.nodeId) == Some(x);
      }
    }

    lemma CoversStep(start: string, done: seq<CodeNode>, queue: seq<CodeNode>, kids: seq<CodeNode>)
      requires WalkCovers(start, done, queue) && queue != []
      requires IsChildList(queue[0].nodeId, kids)
      ensures WalkCovers(start, done + [queue[0]], queue[1..] + kids)
    {
      var cur := queue[0];
      var x := cur.nodeId;
      var done', queue' := done + [cur], queue[1..] + kids;
      forall d | d in nodes.items && d != start && Reaches(start, d)
        ensures d in IdSet(done') || exists n :: n in queue' && Reaches(n.nodeId, d)
      {
        if d !in IdSet(done) {
          var n :| n in queue && Reaches(n.nodeId, d);
          if n in queue[1..] {
            assert n in queue';
          } else if d == x {
            assert cur in done';
          } else {
            assert n == cur;
            ReachesThroughChild(x, d);
            var c :| c in nodes.items && c in nodes.items[x].childrenIds && LinkedParent(c) == Some(x)
                     && Reaches(c, d);
            assert c in IdSet(kids);
            var k :| k in kids && k.nodeId == c;
            assert k in queue';
          } 
        } else {
          assert IdSet(done) <= IdSet(done');
        }
      }
    }

    lemma WalkStep(start: string, done: seq<CodeNode>, queue: seq<CodeNode>, kids: seq<CodeNode>)
      requires Linked() && NoSelfChildBelow(start) && WalkState(start, done, queue) && queue != []
      requires IsChildList(queue[0].nodeId, kids)
      ensures WalkState(start, done + [queue[0]], queue[1..] + kids)
    {
      var cur := queue[0];
      var done', queue' := done + [cur], queue[1..] + kids;
      MoveHead(done, queue, kids);
      assert cur in done + queue;
      ChildrenBelow(start, cur.nodeId, kids);
      KidsAreNew(start, done, queue, kids);
      DistinctAppend(done + queue, kids);
      assert IdSet(done) <= IdSet(done') by {
        forall y | y in IdSet(done) ensures y in IdSet(done') {
          var m :| m in done && m.nodeId == y;
          assert m in done';
        }
      }
      assert cur.nodeId in IdSet(done') by {
        assert cur in done';
      }
      CoversStep(start, done, queue, kids);
    }

    /** Appending nodes whose ids are new keeps the ids distinct. */
    lemma DistinctAppend(s: seq<CodeNode>, t: seq<CodeNode>)
      requires Distinct(NodeIds(s)) && Distinct(NodeIds(t))
      requires forall k :: k in t ==> k.nodeId !in IdSet(s)
      ensures Distinct(NodeIds(s + t))
    {
      var ids := NodeIds(s + t);
      forall i, j | 0 <= i < j < |ids|
        ensures ids[i] != ids[j]
      {
        if j < |s| {
          assert ids[i] == NodeIds(s)[i] && ids[j] == NodeIds(s)[j];
        } else if i >= |s| {
          assert ids[i] == NodeIds(t)[i - |s|] && ids[j] == NodeIds(t)[j - |s|];
        } else {
          assert s[i] in s && t[j - |s|] in t;
          assert ids[i] == s[i].nodeId && ids[j] == t[j - |s|].nodeId;
          assert s[i].nodeId in IdSet(s);
        }
      }
    }

    /** While something is queued, fewer nodes are done than are stored. */
    lemma WalkBound(start: string, done: seq<CodeNode>, queue: seq<CodeNode>)
      requires Linked() && WalkState(start, done, queue) && queue != []
      ensures |done| < |nodes.items|
    {
      var ids := NodeIds(done + queue);
      var idSet := set x | x in ids;
      DistinctCard(ids);
      assert idSet <= nodes.items.Keys by {
        forall x | x in ids
          ensures x in nodes.items
        {
          var i :| 0 <= i < |ids| && ids[i] == x;
          assert (done + queue)[i] in done + queue;
        }
      }
      SubsetCard(idSet, nodes.items.Keys);
    }

    /** `get_descendants`: every node below the start node along children
        links, each once, the start node excluded, in the breadth-first order
        of the queue. */
    method GetDescendants(id: string) returns (r: seq<CodeNode>)
      requires Linked() && NoSelfChildBelow(id)
      ensures Stored(r) && Distinct(NodeIds(r))
      ensures forall d :: d in IdSet(r) <==> d in nodes.items && d != id && Reaches(id, d)
    {
      var toProcess := GetChildren(id);
      WalkStart(id, toProcess);
      r := [];
      while toProcess != []
        invariant WalkState(id, r, toProcess)
        decreases |nodes.items| - |r|
      {
        WalkBound(id, r, toProcess);
        var current := toProcess[0];
        var kids := GetChildren(current.nodeId);
        WalkStep(id, r, toProcess, kids);
        toProcess := toProcess[1..];
        r := r + [current];
        toProcess := toProcess + kids;
      }
      assert r + [] == r;
    }

    // -------------------------------------------------------------------
    // Query and summary

    /** `query`: the nodes passing every given filter, in registry order. */
    method Query(level: Option<HierarchyLevel>, nodeType: Option<string>, namePattern: Option<string>)
      returns (r: seq<CodeNode>)
      requires nodes.Wf()
      ensures r == Filter(Values(nodes), n => NodeMatches(n, level, nodeType, namePattern))
    {
      var all := Values(nodes);
      ghost var keep := n => NodeMatches(n, level, nodeType, namePattern);
      r := [];
      var i := 0;
      while i < |all|
        invariant 0 <= i <= |all|
        invariant r == Filter(all[..i], keep)
      {
        var node := all[i];
        FilterStep(all, i, keep);
        var pass := true;
        if level.Some? && node.level != level.value {
          pass := false;
        } else if nodeType.Some? && node.nodeType != nodeType.value {
          pass := false;
        } else if namePattern.Some? && !Search(namePattern.value, node.name) {
          pass := false;
        }
        assert pass == keep(node);
        if pass {
          r := r + [node];
        }
        assert r == Filter(all[..i + 1], keep);
        i := i + 1;
      }
      assert all[..i] == all;
    }

    /** `summarize_node`: nothing for an unknown id; otherwise the node's own
        fields, its resolved parent's name, and the names of exactly its
        resolvable children. */
    method SummarizeNode(id: string) returns (s: Option<NodeSummary>)
      requires Keyed()
      ensures s.None? <==> id !in nodes.items
      ensures s.Some? ==> var n := nodes.items[id];
        && s.value.id == id && s.value.name == n.name && s.value.nodeType == n.nodeType
        && s.value.level == LevelName(n.level) && s.value.signature == n.signature
        && s.value.summary == n.summary && s.value.metadata == n.metadata
        && s.value.parent == (if GetParent(id).Some? then Some(GetParent(id).value.name) else None)
        && exists kids :: IsChildList(id, kids) && s.value.children == Names(kids)
    {
      var node := GetNode(id);
      if node.None? {
        return None;
      }
      var n := node.value;
      var parent := GetParent(id);
      var children := GetChildren(id);
      s := Some(NodeSummary(n.nodeId, n.name, n.nodeType, LevelName(n.level), n.signature, n.summary,
                            if parent.Some? then Some(parent.value.name) else None,
                            Names(children), n.metadata));
    }
  }

  /** Moving the queue's head to the done list leaves the concatenation as it was. */
  lemma MoveHead<T>(done: seq<T>, queue: seq<T>, kids: seq<T>)
    requires queue != []
    ensures (done + [queue[0]]) + (queue[1..] + kids) == (done + queue) + kids
  {
    assert queue == [queue[0]] + queue[1..];
  }

  /** A subset has no more elements than its superset. */
  lemma {:induction false} SubsetCard<T>(a: set<T>, b: set<T>)
    requires a <= b
    ensures |a| <= |b|
    decreases |b|
  {
    if a != {} {
      var x :| x in a;
      SubsetCard(a - {x}, b - {x});
    }
  }
}
