/** The layout tree of a session snapshot: climbing parent links and descending through active tabs
    (lib.rs and formats.rs of the CLI, format.rs of the client). */
module Layout {
  import opened Text

  type NodeId = nat

  datatype Kind = BufferView | Split | Tabs

  datatype TabRecord = TabRecord(title: string, child: NodeId)

  datatype TabsRecord = TabsRecord(tabs: seq<TabRecord>, active: nat)

  datatype NodeRecord = NodeRecord(
    id: NodeId,
    parent: Option<NodeId>,
    kind: Kind,
    split: Option<seq<NodeId>>,
    tabs: Option<TabsRecord>)
  {
    /** The ids of the nodes below this one. */
    function Children(): seq<NodeId> {
      if kind.Split? && split.Some? then split.value
      else if kind.Tabs? && tabs.Some? then
        seq(|tabs.value.tabs|, i requires 0 <= i < |tabs.value.tabs| => tabs.value.tabs[i].child)
      else []
    }
  }

  datatype Error = NotFound | Malformed

  type Nodes = seq<NodeRecord>

  /** The first record with an id. */
  function Find(nodes: Nodes, id: NodeId): (k: nat)
    ensures k <= |nodes|
    ensures k < |nodes| ==> nodes[k].id == id
    ensures forall j :: 0 <= j < k ==> nodes[j].id != id
  {
    if nodes == [] || nodes[0].id == id then 0 else 1 + Find(nodes[1..], id)
  }

  predicate Has(nodes: Nodes, id: NodeId) {
    Find(nodes, id) < |nodes|
  }

  function Node(nodes: Nodes, id: NodeId): (n: NodeRecord)
    requires Has(nodes, id)
    ensures n.id == id
  {
    nodes[Find(nodes, id)]
  }

  /** The position of the tab that shows a node. */
  function TabOf(tabs: seq<TabRecord>, child: NodeId): (i: nat)
    ensures i <= |tabs|
    ensures i < |tabs| ==> tabs[i].child == child
    ensures forall j :: 0 <= j < i ==> tabs[j].child != child
  {
    if tabs == [] || tabs[0].child == child then 0 else 1 + TabOf(tabs[1..], child)
  }

  /** Ranks that fall along every link downward: what keeps a snapshot free of cycles. */
  ghost predicate Ranked(nodes: Nodes, rank: map<NodeId, nat>, top: nat) {
    forall k :: 0 <= k < |nodes| ==> RankedNode(nodes[k], rank, top)
  }

  ghost predicate RankedNode(n: NodeRecord, rank: map<NodeId, nat>, top: nat) {
    && n.id in rank && rank[n.id] <= top
    && (forall c :: c in n.Children() && c in rank ==> rank[c] < rank[n.id])
    && (n.parent.Some? && n.parent.value in rank ==> rank[n.parent.value] > rank[n.id])
  }

  // ---- Down through active tabs ----

  /** `visible_leaf_ids`: the panes shown under a node. */
  function VisibleLeafIds(nodes: Nodes, id: NodeId, ghost rank: map<NodeId, nat>,
                          ghost top: nat): Result<seq<NodeId>, Error>
    requires Ranked(nodes, rank, top)
    decreases if id in rank then rank[id] + 1 else 0, 0
  {
    if !Has(nodes, id) then Err(NotFound)
    else
      var node := Node(nodes, id);
      assert RankedNode(node, rank, top);
      match node.kind
      case BufferView => Ok([node.id])
      case Split =>
        if node.split == None then Err(Malformed) else
        assert forall c :: c in node.split.value ==> c in node.Children();
        VisibleAll(nodes, node.split.value, rank, top, rank[id])
      case Tabs =>
        if node.tabs == None || node.tabs.value.active >= |node.tabs.value.tabs| then Err(Malformed)
        else
          var child := node.tabs.value.tabs[node.tabs.value.active].child;
          assert child == node.Children()[node.tabs.value.active];
          VisibleLeafIds(nodes, child, rank, top)
  }

  /** The panes of a split's children, in layout order. */
  function VisibleAll(nodes: Nodes, ids: seq<NodeId>, ghost rank: map<NodeId, nat>, ghost top: nat,
                      ghost bound: nat): Result<seq<NodeId>, Error>
    requires Ranked(nodes, rank, top) && forall c :: c in ids && c in rank ==> rank[c] < bound
    decreases bound, |ids|
  {
    if ids == [] then Ok([])
    else
      match VisibleLeafIds(nodes, ids[0], rank, top)
      case Err(error) => Err(error)
      case Ok(first) =>
        match VisibleAll(nodes, ids[1..], rank, top, bound)
        case Err(error) => Err(error)
        case Ok(rest) => Ok(first + rest)
  }

  // ---- Up through parent links ----

  /** The root window holding a node: the climb of `window_containing` from `child` on. */
  function Climb(nodes: Nodes, root: NodeId, child: NodeId, ghost rank: map<NodeId, nat>,
                 ghost top: nat): Result<NodeId, Error>
    requires Ranked(nodes, rank, top)
    decreases if child in rank then top - rank[child] + 1 else 0
  {
    if !Has(nodes, child) then Err(NotFound)
    else
      assert RankedNode(Node(nodes, child), rank, top);
      match Node(nodes, child).parent
      case None => Err(NotFound)
      case Some(parent) => if parent == root then Ok(child) else Climb(nodes, root, parent, rank, top)
  }

  function RootTabs(nodes: Nodes, root: NodeId): Result<TabsRecord, Error> {
    if !Has(nodes, root) then Err(NotFound)
    else if Node(nodes, root).tabs == None then Err(Malformed)
    else Ok(Node(nodes, root).tabs.value)
  }

  function WindowContaining(nodes: Nodes, root: NodeId, id: NodeId, ghost rank: map<NodeId, nat>,
                            ghost top: nat): Result<(nat, NodeId), Error>
    requires Ranked(nodes, rank, top)
  {
    match RootTabs(nodes, root)
    case Err(error) => Err(error)
    case Ok(tabs) =>
      match Climb(nodes, root, id, rank, top)
      case Err(error) => Err(error)
      case Ok(child) =>
        if TabOf(tabs.tabs, child) < |tabs.tabs| then Ok((TabOf(tabs.tabs, child), child)) else Err(Malformed)
  }

  /** `window_containing`. */
  method FindWindow(nodes: Nodes, root: NodeId, id: NodeId, ghost rank: map<NodeId, nat>, ghost top: nat)
    returns (window: Result<(nat, NodeId), Error>)
    requires Ranked(nodes, rank, top)
    ensures window == WindowContaining(nodes, root, id, rank, top)
  {
    var tabs := RootTabs(nodes, root);
    if tabs.Err? {
      return Err(tabs.error);
    }
    var child := id;
    while true
      invariant Climb(nodes, root, child, rank, top) == Climb(nodes, root, id, rank, top)
      decreases if child in rank then top - rank[child] + 1 else 0
    {
      if !Has(nodes, child) {
        return Err(NotFound);
      }
      assert RankedNode(Node(nodes, child), rank, top);
      var parent := Node(nodes, child).parent;
      if parent == None {
        return Err(NotFound);
      }
      if parent.value == root {
        break;
      }
      child := parent.value;
    }
    assert Has(nodes, child) && Climb(nodes, root, child, rank, top) == Ok(child);
    var index := TabOf(tabs.value.tabs, child);
    window := if index < |tabs.value.tabs| then Ok((index, child)) else Err(Malformed);
  }

  /** The climb of `root_tab_position`: the first node on the way up that a root tab shows. */
  function TabAbove(nodes: Nodes, tabs: seq<TabRecord>, id: NodeId, ghost rank: map<NodeId, nat>,
                    ghost top: nat): Option<nat>
    requires Ranked(nodes, rank, top)
    decreases if id in rank then top - rank[id] + 1 else 0
  {
    if TabOf(tabs, id) < |tabs| then Some(TabOf(tabs, id))
    else if !Has(nodes, id) then None
    else
      assert RankedNode(Node(nodes, id), rank, top);
      match Node(nodes, id).parent
      case None => None
      case Some(parent) => TabAbove(nodes, tabs, parent, rank, top)
  }

  function RootTabPosition(nodes: Nodes, root: NodeId, id: NodeId, ghost rank: map<NodeId, nat>,
                           ghost top: nat): Option<nat>
    requires Ranked(nodes, rank, top)
  {
    var tabs := RootTabs(nodes, root);
    if tabs.Err? then None else TabAbove(nodes, tabs.value.tabs, id, rank, top)
  }

  method FindRootTab(nodes: Nodes, root: NodeId, id: NodeId, ghost rank: map<NodeId, nat>,
                     ghost top: nat) returns (position: Option<nat>)
    requires Ranked(nodes, rank, top)
    ensures position == RootTabPosition(nodes, root, id, rank, top)
  {
    var tabs := RootTabs(nodes, root);
    if tabs.Err? {
      return None;
    }
    var current := id;
    while true
      invariant TabAbove(nodes, tabs.value.tabs, current, rank, top) == TabAbove(nodes, tabs.value.tabs, id, rank, top)
      decreases if current in rank then top - rank[current] + 1 else 0
    {
      var index := TabOf(tabs.value.tabs, current);
      if index < |tabs.value.tabs| {
        return Some(index);
      }
      if !Has(nodes, current) {
        return None;
      }
      assert RankedNode(Node(nodes, current), rank, top);
      var parent := Node(nodes, current).parent;
      if parent == None {
        return None;
      }
      current := parent.value;
    }
  }

  // ---- Activating the tabs on the way to a pane ----

  /** A node shown as its parent's active tab. */
  function Shown(node: NodeRecord, child: NodeId): NodeRecord {
    if node.tabs.Some? && TabOf(node.tabs.value.tabs, child) < |node.tabs.value.tabs|
    then node.(tabs := Some(node.tabs.value.(active := TabOf(node.tabs.value.tabs, child))))
    else node
  }

  function ShowIn(nodes: Nodes, parent: NodeId, child: NodeId): Nodes {
    if Has(nodes, parent) then nodes[Find(nodes, parent) := Shown(Node(nodes, parent), child)] else nodes
  }

  /** Two snapshots with the same nodes, kinds, parents and children; only active tabs may differ. */
  ghost predicate SameTree(a: Nodes, b: Nodes) {
    |a| == |b| && forall k :: 0 <= k < |a| ==> SameNode(a[k], b[k])
  }

  ghost predicate SameNode(a: NodeRecord, b: NodeRecord) {
    && a.id == b.id && a.parent == b.parent && a.kind == b.kind && a.split == b.split
    && (a.tabs.Some? <==> b.tabs.Some?)
    && (a.tabs.Some? ==> a.tabs.value.tabs == b.tabs.value.tabs)
  }

  lemma SameChildren(a: NodeRecord, b: NodeRecord)
    requires SameNode(a, b)
    ensures a.Children() == b.Children()
  {
  }

  lemma {:induction false} SameFind(a: Nodes, b: Nodes, id: NodeId)
    requires SameTree(a, b)
    ensures Find(a, id) == Find(b, id)
  {
    if a != [] {
      assert SameNode(a[0], b[0]);
      if a[0].id != id {
        forall k | 0 <= k < |a[1..]| ensures SameNode(a[1..][k], b[1..][k]) {
          assert SameNode(a[k + 1], b[k + 1]);
        }
        SameFind(a[1..], b[1..], id);
      }
    }
  }

  lemma SameRanks(a: Nodes, b: Nodes, rank: map<NodeId, nat>, top: nat)
    requires SameTree(a, b) && Ranked(a, rank, top)
    ensures Ranked(b, rank, top)
  {
    forall k | 0 <= k < |b| ensures RankedNode(b[k], rank, top) {
      assert SameNode(a[k], b[k]) && RankedNode(a[k], rank, top);
      SameChildren(a[k], b[k]);
    }
  }

  lemma ShowInKeepsTree(nodes: Nodes, parent: NodeId, child: NodeId)
    ensures SameTree(nodes, ShowIn(nodes, parent, child))
  {
  }

  /** The upward loop of `project` from `child` on. */
  function Activate(nodes: Nodes, child: NodeId, ghost rank: map<NodeId, nat>, ghost top: nat): (r: Nodes)
    requires Ranked(nodes, rank, top)
    decreases if child in rank then top - rank[child] + 1 else 0
  {
    if !Has(nodes, child) then nodes
    else
      assert RankedNode(Node(nodes, child), rank, top);
      match Node(nodes, child).parent
      case None => nodes
      case Some(parent) =>
        ShowInKeepsTree(nodes, parent, child);
        SameRanks(nodes, ShowIn(nodes, parent, child), rank, top);
        Activate(ShowIn(nodes, parent, child), parent, rank, top)
  }

  method ActivatePath(nodes: Nodes, pane: NodeId, ghost rank: map<NodeId, nat>, ghost top: nat) returns (shown: Nodes)
    requires Ranked(nodes, rank, top)
    ensures shown == Activate(nodes, pane, rank, top)
  {
    shown := nodes;
    var child := pane;
    while Has(shown, child) && Node(shown, child).parent.Some?
      invariant Ranked(shown, rank, top)
      invariant Activate(shown, child, rank, top) == Activate(nodes, pane, rank, top)
      decreases if child in rank then top - rank[child] + 1 else 0
    {
      var parent := Node(shown, child).parent.value;
      assert RankedNode(Node(shown, child), rank, top);
      ShowInKeepsTree(shown, parent, child);
      SameRanks(shown, ShowIn(shown, parent, child), rank, top);
      ghost var before := shown;
      if Has(shown, parent) {
        var node := Node(shown, parent);
        if node.tabs.Some? {
          var index := TabOf(node.tabs.value.tabs, child);
          if index < |node.tabs.value.tabs| {
            shown := shown[Find(shown, parent) := node.(tabs := Some(node.tabs.value.(active := index)))];
          }
        }
      }
      assert shown == ShowIn(before, parent, child);
      child := parent;
    }
  }
}
