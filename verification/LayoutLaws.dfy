/** Climbing and descending agree, and showing the tabs on the way to a pane shows the pane. */
module LayoutLaws {
  import opened Text
  import opened Layout

  // ---- Well-formed snapshots ----

  /** Unique ids, records that match their kinds, links that match both ways, tabs that show one, and a
      root of tabs. */
  ghost predicate WellFormed(nodes: Nodes, root: NodeId, rank: map<NodeId, nat>, top: nat) {
    && Ranked(nodes, rank, top)
    && (forall i, j :: 0 <= i < j < |nodes| ==> nodes[i].id != nodes[j].id)
    && (forall k :: 0 <= k < |nodes| ==> NodeOk(nodes, nodes[k]))
    && Has(nodes, root) && Node(nodes, root).kind.Tabs? && Node(nodes, root).parent == None
  }

  ghost predicate NodeOk(nodes: Nodes, n: NodeRecord) {
    && (n.kind.Split? <==> n.split.Some?) && (n.kind.Tabs? <==> n.tabs.Some?)
    && (n.tabs.Some? ==> n.tabs.value.active < |n.tabs.value.tabs|)
    && (forall i, j :: 0 <= i < j < |n.Children()| ==> n.Children()[i] != n.Children()[j])
    && (forall c :: c in n.Children() ==> Has(nodes, c) && Node(nodes, c).parent == Some(n.id))
    && (n.parent.Some? ==> Has(nodes, n.parent.value) && n.id in Node(nodes, n.parent.value).Children())
  }

  lemma FoundAt(nodes: Nodes, k: nat)
    requires k < |nodes| && forall j :: 0 <= j < k ==> nodes[j].id != nodes[k].id
    ensures Has(nodes, nodes[k].id) && Node(nodes, nodes[k].id) == nodes[k]
  {
    hide Find;
  }

  /** A session of two windows, the second a split of two panes. */
  function TwoWindows(a: string, b: string): (nodes: Nodes)
    ensures |nodes| == 5 && forall k :: 0 <= k < 5 ==> nodes[k].id == k
  {
    [NodeRecord(0, None, Tabs, None, Some(TabsRecord([TabRecord(a, 1), TabRecord(b, 2)], 0))),
     NodeRecord(1, Some(0), BufferView, None, None), NodeRecord(2, Some(0), Split, Some([3, 4]), None),
     NodeRecord(3, Some(2), BufferView, None, None), NodeRecord(4, Some(2), BufferView, None, None)]
  }

  const TWO_RANKS: map<NodeId, nat> := map[0 := 2, 1 := 1, 2 := 1, 3 := 0, 4 := 0]

  lemma TwoWindowsChildren(a: string, b: string)
    ensures (var nodes := TwoWindows(a, b);
             && nodes[0].Children() == [1, 2] && nodes[1].Children() == [] && nodes[2].Children() == [3, 4]
             && nodes[3].Children() == [] && nodes[4].Children() == [])
  {
  }

  lemma TwoWindowsNode(a: string, b: string, k: nat)
    requires k < 5
    ensures NodeOk(TwoWindows(a, b), TwoWindows(a, b)[k])
  {
    hide Find, Node, Has, NodeRecord.Children;
    var nodes := TwoWindows(a, b);
    TwoWindowsChildren(a, b);
    forall i | 0 <= i < 5 ensures Has(nodes, i) && Node(nodes, i) == nodes[i] {
      FoundAt(nodes, i);
    }
  }

  lemma TwoWindowsRanked(a: string, b: string)
    ensures Ranked(TwoWindows(a, b), TWO_RANKS, 2)
  {
    hide NodeRecord.Children;
    TwoWindowsChildren(a, b);
  }

  /** Such a session is well-formed. */
  lemma TwoWindowsAreWellFormed(a: string, b: string)
    ensures WellFormed(TwoWindows(a, b), 0, TWO_RANKS, 2)
  {
    hide Find, NodeOk, Ranked;
    var nodes := TwoWindows(a, b);
    TwoWindowsRanked(a, b);
    FoundAt(nodes, 0);
    forall k | 0 <= k < 5 ensures NodeOk(nodes, nodes[k]) {
      TwoWindowsNode(a, b, k);
    }
  }

  lemma Facts(nodes: Nodes, root: NodeId, rank: map<NodeId, nat>, top: nat, id: NodeId)
    requires WellFormed(nodes, root, rank, top) && Has(nodes, id)
    ensures NodeOk(nodes, Node(nodes, id)) && RankedNode(Node(nodes, id), rank, top)
  {
  }

  /** A node's parent has it among its children and ranks above it. */
  lemma ParentFacts(nodes: Nodes, root: NodeId, rank: map<NodeId, nat>, top: nat, id: NodeId)
    requires WellFormed(nodes, root, rank, top) && Has(nodes, id) && Node(nodes, id).parent.Some?
    ensures (var parent := Node(nodes, id).parent.value;
             && Has(nodes, parent) && id in Node(nodes, parent).Children() && parent != id
             && id in rank && parent in rank && rank[id] < rank[parent])
  {
    Facts(nodes, root, rank, top, id);
    Facts(nodes, root, rank, top, Node(nodes, id).parent.value);
  }

  lemma RootFacts(nodes: Nodes, root: NodeId, rank: map<NodeId, nat>, top: nat)
    requires WellFormed(nodes, root, rank, top)
    ensures Ranked(nodes, rank, top) && Has(nodes, root)
    ensures (var node := Node(nodes, root);
             && node.kind.Tabs? && node.tabs.Some? && node.tabs.value.active < |node.tabs.value.tabs|)
  {
    Facts(nodes, root, rank, top, root);
  }

  /** `x` is `anc` or below it. */
  predicate Under(nodes: Nodes, x: NodeId, anc: NodeId, ghost rank: map<NodeId, nat>, ghost top: nat)
    requires Ranked(nodes, rank, top)
    decreases if x in rank then top - rank[x] + 1 else 0
  {
    || x == anc
    || (&& Has(nodes, x)
        && (assert RankedNode(Node(nodes, x), rank, top); Node(nodes, x).parent.Some?)
        && Under(nodes, Node(nodes, x).parent.value, anc, rank, top))
  }

  lemma {:induction false} UnderUp(nodes: Nodes, x: NodeId, c: NodeId, rank: map<NodeId, nat>, top: nat)
    requires Ranked(nodes, rank, top) && Under(nodes, x, c, rank, top) && Has(nodes, c) && Node(nodes, c).parent.Some?
    ensures Under(nodes, x, Node(nodes, c).parent.value, rank, top)
    decreases if x in rank then top - rank[x] + 1 else 0
  {
    assert Has(nodes, x) ==> RankedNode(Node(nodes, x), rank, top);
    if x != c {
      UnderUp(nodes, Node(nodes, x).parent.value, c, rank, top);
    }
  }

  lemma {:induction false} UnderRank(nodes: Nodes, root: NodeId, x: NodeId, anc: NodeId, rank: map<NodeId, nat>,
                                     top: nat)
    requires WellFormed(nodes, root, rank, top) && Has(nodes, x) && Under(nodes, x, anc, rank, top)
    ensures Has(nodes, anc) && x in rank && anc in rank && rank[x] <= rank[anc] && (rank[x] == rank[anc] ==> x == anc)
    decreases if x in rank then top - rank[x] + 1 else 0
  {
    Facts(nodes, root, rank, top, x);
    if x != anc {
      UnderRank(nodes, root, Node(nodes, x).parent.value, anc, rank, top);
    }
  }

  // ---- Descending ----

  /** In a well-formed snapshot the descent succeeds from every node. */
  lemma {:induction false} VisibleOk(nodes: Nodes, root: NodeId, id: NodeId, rank: map<NodeId, nat>, top: nat)
    requires WellFormed(nodes, root, rank, top) && Has(nodes, id)
    ensures VisibleLeafIds(nodes, id, rank, top).Ok?
    decreases if id in rank then rank[id] + 1 else 0, 0
  {
    Facts(nodes, root, rank, top, id);
    var node := Node(nodes, id);
    match node.kind
    case BufferView =>
    case Split =>
      forall c | c in node.split.value ensures Has(nodes, c) { assert c in node.Children(); }
      VisibleAllOk(nodes, root, node.split.value, rank, top, rank[id]);
    case Tabs =>
      var child := node.Children()[node.tabs.value.active];
      assert child in node.Children();
      Facts(nodes, root, rank, top, child);
      VisibleOk(nodes, root, child, rank, top);
  }

  lemma {:induction false} VisibleAllOk(nodes: Nodes, root: NodeId, ids: seq<NodeId>, rank: map<NodeId, nat>, top: nat,
                                        bound: nat)
    requires WellFormed(nodes, root, rank, top) && forall c :: c in ids ==> Has(nodes, c)
    requires forall c :: c in ids && c in rank ==> rank[c] < bound
    ensures VisibleAll(nodes, ids, rank, top, bound).Ok?
    decreases bound, |ids|
  {
    if ids != [] {
      VisibleOk(nodes, root, ids[0], rank, top);
      VisibleAllOk(nodes, root, ids[1..], rank, top, bound);
    }
  }

  /** The panes of a node's first `n` children, child by child. */
  ghost function PanesThrough(nodes: Nodes, ids: seq<NodeId>, n: nat, rank: map<NodeId, nat>, top: nat): seq<NodeId>
    requires Ranked(nodes, rank, top) && n <= |ids|
  {
    if n == 0 then []
    else
      var last := VisibleLeafIds(nodes, ids[n - 1], rank, top);
      PanesThrough(nodes, ids, n - 1, rank, top) + if last.Ok? then last.value else []
  }

  lemma {:induction false} PanesAfterFirst(nodes: Nodes, ids: seq<NodeId>, n: nat, rank: map<NodeId, nat>, top: nat)
    requires Ranked(nodes, rank, top) && 0 < n <= |ids| && VisibleLeafIds(nodes, ids[0], rank, top).Ok?
    ensures PanesThrough(nodes, ids, n, rank, top)
         == VisibleLeafIds(nodes, ids[0], rank, top).value + PanesThrough(nodes, ids[1..], n - 1, rank, top)
  {
    hide VisibleLeafIds;
    if n > 1 {
      PanesAfterFirst(nodes, ids, n - 1, rank, top);
      assert ids[1..][n - 2] == ids[n - 1];
    } else {
      assert PanesThrough(nodes, ids, 0, rank, top) == [];
    }
  }

  lemma {:induction false} VisibleAllInOrder(nodes: Nodes, ids: seq<NodeId>, rank: map<NodeId, nat>, top: nat,
                                             bound: nat)
    requires Ranked(nodes, rank, top) && forall c :: c in ids && c in rank ==> rank[c] < bound
    requires VisibleAll(nodes, ids, rank, top, bound).Ok?
    ensures VisibleAll(nodes, ids, rank, top, bound).value == PanesThrough(nodes, ids, |ids|, rank, top)
  {
    hide VisibleLeafIds;
    if ids != [] {
      VisibleAllInOrder(nodes, ids[1..], rank, top, bound);
      PanesAfterFirst(nodes, ids, |ids|, rank, top);
    }
  }

  /** A node shows itself if it is a pane, all its children's panes in the order of the children if it is a split,
      and those of its active tab only if it has tabs. */
  lemma VisibleIs(nodes: Nodes, root: NodeId, id: NodeId, rank: map<NodeId, nat>, top: nat)
    requires WellFormed(nodes, root, rank, top) && Has(nodes, id)
    ensures (var node := Node(nodes, id);
             var children := node.Children();
             VisibleLeafIds(nodes, id, rank, top)
             == match node.kind
                case BufferView => Ok([id])
                case Split => Ok(PanesThrough(nodes, children, |children|, rank, top))
                case Tabs =>
                  if node.tabs.Some? && node.tabs.value.active < |children|
                  then VisibleLeafIds(nodes, children[node.tabs.value.active], rank, top) else Err(Malformed))
  {
    hide Find;
    Facts(nodes, root, rank, top, id);
    VisibleOk(nodes, root, id, rank, top);
    var node := Node(nodes, id);
    if node.kind.Split? {
      assert forall c :: c in node.split.value ==> c in node.Children();
      VisibleAllInOrder(nodes, node.split.value, rank, top, rank[id]);
    }
  }

  /** Every pane the descent finds is below the node it started from. */
  lemma {:induction false} VisibleIsUnder(nodes: Nodes, root: NodeId, id: NodeId, leaf: NodeId, rank: map<NodeId, nat>,
                                          top: nat)
    requires WellFormed(nodes, root, rank, top)
    requires VisibleLeafIds(nodes, id, rank, top).Ok? && leaf in VisibleLeafIds(nodes, id, rank, top).value
    ensures Has(nodes, leaf) && Node(nodes, leaf).kind.BufferView? && Under(nodes, leaf, id, rank, top)
    decreases if id in rank then rank[id] + 1 else 0, 0
  {
    Facts(nodes, root, rank, top, id);
    var node := Node(nodes, id);
    match node.kind
    case BufferView =>
    case Split =>
      assert forall c :: c in node.split.value ==> c in node.Children();
      var c := VisibleAllIsUnder(nodes, root, node.split.value, leaf, rank, top, rank[id]);
      assert c in node.Children();
      UnderUp(nodes, leaf, c, rank, top);
    case Tabs =>
      var child := node.Children()[node.tabs.value.active];
      assert child in node.Children();
      Facts(nodes, root, rank, top, child);
      VisibleIsUnder(nodes, root, child, leaf, rank, top);
      UnderUp(nodes, leaf, child, rank, top);
  }

  lemma {:induction false} VisibleAllIsUnder(nodes: Nodes, root: NodeId, ids: seq<NodeId>, leaf: NodeId,
                                             rank: map<NodeId, nat>, top: nat, bound: nat)
    returns (c: NodeId)
    requires WellFormed(nodes, root, rank, top) && forall c :: c in ids && c in rank ==> rank[c] < bound
    requires VisibleAll(nodes, ids, rank, top, bound).Ok? && leaf in VisibleAll(nodes, ids, rank, top, bound).value
    ensures c in ids && Has(nodes, leaf) && Node(nodes, leaf).kind.BufferView? && Under(nodes, leaf, c, rank, top)
    decreases bound, |ids|
  {
    if leaf in VisibleLeafIds(nodes, ids[0], rank, top).value {
      VisibleIsUnder(nodes, root, ids[0], leaf, rank, top);
      c := ids[0];
    } else {
      c := VisibleAllIsUnder(nodes, root, ids[1..], leaf, rank, top, bound);
    }
  }

  // ---- Climbing finds the window one descended from ----

  lemma {:induction false} TabOfDistinct(tabs: seq<TabRecord>, i: nat)
    requires i < |tabs| && forall j, k :: 0 <= j < k < |tabs| ==> tabs[j].child != tabs[k].child
    ensures TabOf(tabs, tabs[i].child) == i
  {
  }

  /** Only the root's children are shown by its tabs. */
  lemma NoTabOf(nodes: Nodes, root: NodeId, x: NodeId, rank: map<NodeId, nat>, top: nat)
    requires WellFormed(nodes, root, rank, top) && Has(nodes, x) && Node(nodes, x).parent != Some(root)
    ensures (var tabs := Node(nodes, root).tabs; tabs.Some? && TabOf(tabs.value.tabs, x) == |tabs.value.tabs|)
  {
    Facts(nodes, root, rank, top, root);
    var tabs := Node(nodes, root).tabs.value.tabs;
    var t := TabOf(tabs, x);
    var children := Node(nodes, root).Children();
    forall i | 0 <= i < |tabs| ensures tabs[i].child != x {
      assert children[i] == tabs[i].child && children[i] in children;
    }
  }

  /** From anywhere below a root tab's child both climbs end at that tab. */
  lemma {:induction false} ClimbsAgree(nodes: Nodes, root: NodeId, x: NodeId, i: nat, rank: map<NodeId, nat>, top: nat)
    requires WellFormed(nodes, root, rank, top) && Has(nodes, x)
    requires i < |Node(nodes, root).tabs.value.tabs|
    requires Under(nodes, x, Node(nodes, root).tabs.value.tabs[i].child, rank, top)
    ensures (var tabs := Node(nodes, root).tabs.value.tabs;
             && Climb(nodes, root, x, rank, top) == Ok(tabs[i].child)
             && TabAbove(nodes, tabs, x, rank, top) == Some(i))
    decreases if x in rank then top - rank[x] + 1 else 0
  {
    var tabs := Node(nodes, root).tabs.value.tabs;
    var w := tabs[i].child;
    Facts(nodes, root, rank, top, root);
    var children := Node(nodes, root).Children();
    assert children[i] == w && w in children;
    assert forall j :: 0 <= j < |tabs| ==> children[j] == tabs[j].child;
    Facts(nodes, root, rank, top, w);
    Facts(nodes, root, rank, top, x);
    if x == w {
      assert forall j, k :: 0 <= j < k < |tabs| ==> children[j] != children[k];
      TabOfDistinct(tabs, i);
    } else {
      var parent := Node(nodes, x).parent.value;
      UnderRank(nodes, root, parent, w, rank, top);
      assert parent != root;
      NoTabOf(nodes, root, x, rank, top);
      ClimbsAgree(nodes, root, parent, i, rank, top);
    }
  }

  /** Climb and descend agree: a pane visible under root tab `i` is mapped back to that tab. */
  lemma DescendThenClimb(nodes: Nodes, root: NodeId, i: nat, leaf: NodeId, rank: map<NodeId, nat>, top: nat)
    requires WellFormed(nodes, root, rank, top) && i < |Node(nodes, root).tabs.value.tabs|
    requires (var w := Node(nodes, root).tabs.value.tabs[i].child;
              VisibleLeafIds(nodes, w, rank, top).Ok? && leaf in VisibleLeafIds(nodes, w, rank, top).value)
    ensures WindowContaining(nodes, root, leaf, rank, top) == Ok((i, Node(nodes, root).tabs.value.tabs[i].child))
    ensures RootTabPosition(nodes, root, leaf, rank, top) == Some(i)
  {
    var tabs := Node(nodes, root).tabs.value.tabs;
    VisibleIsUnder(nodes, root, tabs[i].child, leaf, rank, top);
    ClimbsAgree(nodes, root, leaf, i, rank, top);
    Facts(nodes, root, rank, top, root);
    var children := Node(nodes, root).Children();
    forall j, k | 0 <= j < k < |tabs| ensures tabs[j].child != tabs[k].child {
      assert children[j] == tabs[j].child && children[j] != children[k] && children[k] == tabs[k].child;
    }
    TabOfDistinct(tabs, i);
  }

  /** Why no window is found: a root or a node the snapshot lacks, or a root without tabs. */
  lemma WindowErrors(nodes: Nodes, root: NodeId, id: NodeId, rank: map<NodeId, nat>, top: nat)
    requires Ranked(nodes, rank, top)
    ensures !Has(nodes, root) ==> WindowContaining(nodes, root, id, rank, top) == Err(NotFound)
    ensures Has(nodes, root) && Node(nodes, root).tabs == None ==>
              WindowContaining(nodes, root, id, rank, top) == Err(Malformed)
    ensures Has(nodes, root) && Node(nodes, root).tabs.Some? && !Has(nodes, id) ==>
              WindowContaining(nodes, root, id, rank, top) == Err(NotFound)
    ensures !Has(nodes, root) || Node(nodes, root).tabs == None ==> RootTabPosition(nodes, root, id, rank, top) == None
  {
    hide Find, Has, Node;
  }

  /** What `window_containing` answers is a root tab, and the node is below it. */
  lemma {:induction false} WindowIsAbove(nodes: Nodes, root: NodeId, id: NodeId, rank: map<NodeId, nat>, top: nat)
    requires WellFormed(nodes, root, rank, top) && WindowContaining(nodes, root, id, rank, top).Ok?
    ensures (var (i, w) := WindowContaining(nodes, root, id, rank, top).value;
             && i < |Node(nodes, root).tabs.value.tabs| && Node(nodes, root).tabs.value.tabs[i].child == w
             && Under(nodes, id, w, rank, top) && Under(nodes, id, root, rank, top))
  {
    ClimbUnder(nodes, root, id, rank, top);
  }

  lemma {:induction false} ClimbUnder(nodes: Nodes, root: NodeId, id: NodeId, rank: map<NodeId, nat>, top: nat)
    requires Ranked(nodes, rank, top) && Climb(nodes, root, id, rank, top).Ok?
    ensures (var w := Climb(nodes, root, id, rank, top).value;
             Under(nodes, id, w, rank, top) && Under(nodes, id, root, rank, top))
    decreases if id in rank then top - rank[id] + 1 else 0
  {
    assert RankedNode(Node(nodes, id), rank, top);
    var parent := Node(nodes, id).parent.value;
    if parent != root { ClimbUnder(nodes, root, parent, rank, top); }
  }

  // ---- Showing the tabs on the way to a pane ----

  lemma ShowInKeepsWellFormed(nodes: Nodes, root: NodeId, parent: NodeId, child: NodeId, rank: map<NodeId, nat>,
                              top: nat)
    requires WellFormed(nodes, root, rank, top)
    ensures WellFormed(ShowIn(nodes, parent, child), root, rank, top)
  {
    var r := ShowIn(nodes, parent, child);
    ShowInKeepsTree(nodes, parent, child);
    SameRanks(nodes, r, rank, top);
    SameFind(nodes, r, root);
    assert SameNode(Node(nodes, root), Node(r, root));
    forall i, j | 0 <= i < j < |r| ensures r[i].id != r[j].id {
      assert SameNode(nodes[i], r[i]) && SameNode(nodes[j], r[j]);
    }
    forall k | 0 <= k < |r| ensures NodeOk(r, r[k]) {
      assert NodeOk(nodes, nodes[k]) && SameNode(nodes[k], r[k]);
      SameChildren(nodes[k], r[k]);
      forall c | c in r[k].Children() ensures Has(r, c) && Node(r, c).parent == Some(r[k].id) {
        SameFind(nodes, r, c);
        assert SameNode(Node(nodes, c), Node(r, c));
      }
      if r[k].parent.Some? {
        var p := r[k].parent.value;
        SameFind(nodes, r, p);
        assert SameNode(Node(nodes, p), Node(r, p));
        SameChildren(Node(nodes, p), Node(r, p));
      }
    }
  }

  /** What activating from `child` may change: the active tab of nodes above `child`, which then show the
      node on the way to it. */
  ghost predicate OnlyAboveChanged(a: Nodes, b: Nodes, child: NodeId, rank: map<NodeId, nat>, top: nat)
    requires Ranked(a, rank, top)
  {
    SameTree(a, b) && forall k :: 0 <= k < |a| ==> b[k] == a[k] || TabSwitched(a, a[k], b[k], child, rank, top)
  }

  ghost predicate TabSwitched(nodes: Nodes, a: NodeRecord, b: NodeRecord, child: NodeId, rank: map<NodeId, nat>,
                              top: nat)
    requires Ranked(nodes, rank, top)
  {
    && a.id != child && Under(nodes, child, a.id, rank, top)
    && a.tabs.Some? && b.tabs.Some? && b == a.(tabs := Some(a.tabs.value.(active := b.tabs.value.active)))
    && b.tabs.value.active < |a.tabs.value.tabs|
    && Under(nodes, child, a.tabs.value.tabs[b.tabs.value.active].child, rank, top)
  }

  lemma {:induction false} SameUnder(a: Nodes, b: Nodes, x: NodeId, anc: NodeId, rank: map<NodeId, nat>, top: nat)
    requires SameTree(a, b) && Ranked(a, rank, top) && Ranked(b, rank, top)
    ensures Under(a, x, anc, rank, top) == Under(b, x, anc, rank, top)
    decreases if x in rank then top - rank[x] + 1 else 0
  {
    SameFind(a, b, x);
    if Has(a, x) {
      assert SameNode(Node(a, x), Node(b, x));
      assert RankedNode(Node(a, x), rank, top);
      if Node(a, x).parent.Some? { SameUnder(a, b, Node(a, x).parent.value, anc, rank, top); }
    }
  }

  lemma SameTreeTrans(a: Nodes, b: Nodes, c: Nodes)
    requires SameTree(a, b) && SameTree(b, c)
    ensures SameTree(a, c)
  {
    forall k | 0 <= k < |a| ensures SameNode(a[k], c[k]) { assert SameNode(a[k], b[k]) && SameNode(b[k], c[k]); }
  }

  /** Activation keeps the tree well-formed and switches only tabs of the node's ancestors. */
  lemma {:induction false} ActivateChangesOnlyAncestors(nodes: Nodes, root: NodeId, child: NodeId,
                                                        rank: map<NodeId, nat>, top: nat)
    requires WellFormed(nodes, root, rank, top)
    ensures (var r := Activate(nodes, child, rank, top);
             WellFormed(r, root, rank, top) && OnlyAboveChanged(nodes, r, child, rank, top))
    decreases if child in rank then top - rank[child] + 1 else 0
  {
    if Has(nodes, child) && Node(nodes, child).parent.Some? {
      Facts(nodes, root, rank, top, child);
      var parent := Node(nodes, child).parent.value;
      var mid := ShowIn(nodes, parent, child);
      ShowInKeepsTree(nodes, parent, child);
      ShowInKeepsWellFormed(nodes, root, parent, child, rank, top);
      ActivateChangesOnlyAncestors(mid, root, parent, rank, top);
      var r := Activate(nodes, child, rank, top);
      SameTreeTrans(nodes, mid, r);
      forall k | 0 <= k < |nodes|
        ensures r[k] == nodes[k] || TabSwitched(nodes, nodes[k], r[k], child, rank, top)
      {
        StepSwitched(nodes, mid, r, root, child, k, rank, top);
      }
    }
  }

  lemma StepSwitched(nodes: Nodes, mid: Nodes, r: Nodes, root: NodeId, child: NodeId, k: nat, rank: map<NodeId, nat>,
                     top: nat)
    requires WellFormed(nodes, root, rank, top) && WellFormed(mid, root, rank, top) && k < |nodes|
    requires Has(nodes, child) && Node(nodes, child).parent.Some?
    requires mid == ShowIn(nodes, Node(nodes, child).parent.value, child) && SameTree(nodes, mid)
    requires OnlyAboveChanged(mid, r, Node(nodes, child).parent.value, rank, top)
    ensures r[k] == nodes[k] || TabSwitched(nodes, nodes[k], r[k], child, rank, top)
  {
    hide WellFormed, NodeOk, Ranked, RankedNode;
    RootFacts(nodes, root, rank, top);
    RootFacts(mid, root, rank, top);
    ParentFacts(nodes, root, rank, top, child);
    var parent := Node(nodes, child).parent.value;
    var p := Find(nodes, parent);
    UnderUp(nodes, child, child, rank, top);
    if r[k] != mid[k] {
      assert TabSwitched(mid, mid[k], r[k], parent, rank, top);
      assert SameNode(nodes[k], mid[k]);
      var t := mid[k].tabs.value.tabs[r[k].tabs.value.active].child;
      SameUnder(nodes, mid, parent, nodes[k].id, rank, top);
      SameUnder(nodes, mid, parent, t, rank, top);
      UnderRank(nodes, root, parent, nodes[k].id, rank, top);
    }
  }

  ghost predicate SameBelow(a: Nodes, b: Nodes, rank: map<NodeId, nat>, bound: nat) {
    SameTree(a, b) && forall k :: 0 <= k < |a| && a[k].id in rank && rank[a[k].id] <= bound ==> a[k] == b[k]
  }

  /** The descent from a node depends only on nodes that rank no higher. */
  lemma {:induction false} VisibleLocal(a: Nodes, b: Nodes, id: NodeId, rank: map<NodeId, nat>, top: nat, bound: nat)
    requires Ranked(a, rank, top) && Ranked(b, rank, top) && SameBelow(a, b, rank, bound)
    requires id in rank ==> rank[id] <= bound
    ensures VisibleLeafIds(a, id, rank, top) == VisibleLeafIds(b, id, rank, top)
    decreases if id in rank then rank[id] + 1 else 0, 0
  {
    SameFind(a, b, id);
    if Has(a, id) {
      var node := Node(a, id);
      assert RankedNode(node, rank, top);
      assert node == Node(b, id);
      match node.kind
      case BufferView =>
      case Split =>
        if node.split.Some? {
          assert forall c :: c in node.split.value ==> c in node.Children();
          VisibleAllLocal(a, b, node.split.value, rank, top, rank[id], bound);
        }
      case Tabs =>
        if node.tabs.Some? && node.tabs.value.active < |node.tabs.value.tabs| {
          var child := node.Children()[node.tabs.value.active];
          assert child in node.Children();
          VisibleLocal(a, b, child, rank, top, bound);
        }
    }
  }

  lemma {:induction false} VisibleAllLocal(a: Nodes, b: Nodes, ids: seq<NodeId>, rank: map<NodeId, nat>, top: nat,
                                           under: nat, bound: nat)
    requires Ranked(a, rank, top) && Ranked(b, rank, top) && SameBelow(a, b, rank, bound)
    requires under <= bound && forall c :: c in ids && c in rank ==> rank[c] < under
    ensures VisibleAll(a, ids, rank, top, under) == VisibleAll(b, ids, rank, top, under)
    decreases under, |ids|
  {
    if ids != [] {
      VisibleLocal(a, b, ids[0], rank, top, bound);
      VisibleAllLocal(a, b, ids[1..], rank, top, under, bound);
    }
  }

  ghost predicate Shows(nodes: Nodes, id: NodeId, pane: NodeId, rank: map<NodeId, nat>, top: nat)
    requires Ranked(nodes, rank, top)
  {
    VisibleLeafIds(nodes, id, rank, top).Ok? && pane in VisibleLeafIds(nodes, id, rank, top).value
  }

  /** A parent that shows a child shows what the child shows. */
  lemma ParentShows(nodes: Nodes, root: NodeId, child: NodeId, pane: NodeId, rank: map<NodeId, nat>, top: nat)
    requires WellFormed(nodes, root, rank, top) && Has(nodes, child) && Node(nodes, child).parent.Some?
    requires Shows(nodes, child, pane, rank, top)
    ensures (var mid := ShowIn(nodes, Node(nodes, child).parent.value, child);
             && WellFormed(mid, root, rank, top)
             && Shows(mid, child, pane, rank, top) && Shows(mid, Node(nodes, child).parent.value, pane, rank, top))
  {
    hide WellFormed, NodeOk, Ranked, RankedNode;
    RootFacts(nodes, root, rank, top);
    ParentFacts(nodes, root, rank, top, child);
    var parent := Node(nodes, child).parent.value;
    var mid := ShowIn(nodes, parent, child);
    ShowInKeepsTree(nodes, parent, child);
    ShowInKeepsWellFormed(nodes, root, parent, child, rank, top);
    RootFacts(mid, root, rank, top);
    OnlyParentChanged(nodes, root, child, rank, top);
    VisibleLocal(nodes, mid, child, rank, top, rank[child]);
    SameFind(nodes, mid, parent);
    assert SameNode(Node(nodes, parent), Node(mid, parent));
    SameChildren(Node(nodes, parent), Node(mid, parent));
    TabShown(nodes, root, parent, child, rank, top);
    NodeShows(mid, root, parent, child, pane, rank, top);
  }

  lemma OnlyParentChanged(nodes: Nodes, root: NodeId, child: NodeId, rank: map<NodeId, nat>, top: nat)
    requires WellFormed(nodes, root, rank, top) && Has(nodes, child) && Node(nodes, child).parent.Some?
    ensures child in rank && SameBelow(nodes, ShowIn(nodes, Node(nodes, child).parent.value, child), rank, rank[child])
  {
    hide WellFormed, NodeOk, Ranked, RankedNode;
    ParentFacts(nodes, root, rank, top, child);
    ShowInKeepsTree(nodes, Node(nodes, child).parent.value, child);
  }

  /** A tabs node made to show one of its children does. */
  lemma TabShown(nodes: Nodes, root: NodeId, parent: NodeId, child: NodeId, rank: map<NodeId, nat>, top: nat)
    requires WellFormed(nodes, root, rank, top) && Has(nodes, parent) && child in Node(nodes, parent).Children()
    ensures (var mid := ShowIn(nodes, parent, child);
             && Has(mid, parent)
             && (var node := Node(mid, parent);
                 node.kind.Tabs? ==> node.tabs.Some? && node.tabs.value.active < |node.tabs.value.tabs|
                                     && node.tabs.value.tabs[node.tabs.value.active].child == child))
  {
    hide WellFormed;
    Facts(nodes, root, rank, top, parent);
    ShowInKeepsTree(nodes, parent, child);
    SameFind(nodes, ShowIn(nodes, parent, child), parent);
    var node := Node(nodes, parent);
    if node.kind.Tabs? {
      var tabs := node.tabs.value.tabs;
      var j :| 0 <= j < |node.Children()| && node.Children()[j] == child;
      assert tabs[j].child == child;
      assert TabOf(tabs, child) < |tabs|;
    }
  }

  lemma KindFacts(nodes: Nodes, root: NodeId, rank: map<NodeId, nat>, top: nat, id: NodeId)
    requires WellFormed(nodes, root, rank, top) && Has(nodes, id)
    ensures (var node := Node(nodes, id);
             && id in rank
             && (node.kind.Split? ==>
                   && node.split.Some? && node.Children() == node.split.value
                   && (forall c :: c in node.split.value ==> Has(nodes, c) && (c in rank ==> rank[c] < rank[id])))
             && (node.kind.BufferView? ==> node.Children() == []))
  {
    Facts(nodes, root, rank, top, id);
  }

  /** A split, or a tabs node on the right tab, shows what its child shows. */
  lemma NodeShows(nodes: Nodes, root: NodeId, id: NodeId, child: NodeId, pane: NodeId, rank: map<NodeId, nat>, top: nat)
    requires WellFormed(nodes, root, rank, top) && Has(nodes, id) && child in Node(nodes, id).Children()
    requires (var node := Node(nodes, id);
              node.kind.Tabs? ==> node.tabs.Some? && node.tabs.value.active < |node.tabs.value.tabs|
                                  && node.tabs.value.tabs[node.tabs.value.active].child == child)
    requires Shows(nodes, child, pane, rank, top)
    ensures Shows(nodes, id, pane, rank, top)
  {
    hide WellFormed, NodeOk, Ranked, RankedNode;
    RootFacts(nodes, root, rank, top);
    KindFacts(nodes, root, rank, top, id);
    var node := Node(nodes, id);
    if node.kind.Split? {
      var ids := node.split.value;
      VisibleAllOk(nodes, root, ids, rank, top, rank[id]);
      OneOfAll(nodes, ids, child, pane, rank, top, rank[id]);
    }
  }

  lemma {:induction false} OneOfAll(nodes: Nodes, ids: seq<NodeId>, child: NodeId, pane: NodeId, rank: map<NodeId, nat>,
                                    top: nat, bound: nat)
    requires Ranked(nodes, rank, top) && forall c :: c in ids && c in rank ==> rank[c] < bound
    requires VisibleAll(nodes, ids, rank, top, bound).Ok? && child in ids && Shows(nodes, child, pane, rank, top)
    ensures pane in VisibleAll(nodes, ids, rank, top, bound).value
  {
    if ids[0] != child { OneOfAll(nodes, ids[1..], child, pane, rank, top, bound); }
  }

  /** After the climb every ancestor of `child` shows the pane, and `child` still does. */
  lemma {:induction false} ActivateShows(nodes: Nodes, root: NodeId, child: NodeId, pane: NodeId, anc: NodeId,
                                         rank: map<NodeId, nat>, top: nat)
    requires WellFormed(nodes, root, rank, top) && Has(nodes, child) && Shows(nodes, child, pane, rank, top)
    requires Under(nodes, child, anc, rank, top)
    ensures (var r := Activate(nodes, child, rank, top);
             WellFormed(r, root, rank, top) && Shows(r, anc, pane, rank, top))
    decreases if child in rank then top - rank[child] + 1 else 0
  {
    var r := Activate(nodes, child, rank, top);
    ActivateChangesOnlyAncestors(nodes, root, child, rank, top);
    Facts(nodes, root, rank, top, child);
    if anc == child {
      forall k | 0 <= k < |nodes| && nodes[k].id in rank && rank[nodes[k].id] <= rank[child] ensures nodes[k] == r[k] {
        if nodes[k] != r[k] { UnderRank(nodes, root, child, nodes[k].id, rank, top); }
      }
      VisibleLocal(nodes, r, child, rank, top, rank[child]);
    } else {
      var parent := Node(nodes, child).parent.value;
      var mid := ShowIn(nodes, parent, child);
      ParentShows(nodes, root, child, pane, rank, top);
      ShowInKeepsTree(nodes, parent, child);
      SameFind(nodes, mid, parent);
      SameUnder(nodes, mid, parent, anc, rank, top);
      ActivateShows(mid, root, parent, pane, anc, rank, top);
    }
  }

  /** Path activation: with the tabs on the way to a pane of the session shown, descending from the root
      reaches the pane, its window is the root's active tab, and only ancestors of the pane switched tabs. */
  lemma ActivationReachesPane(nodes: Nodes, root: NodeId, pane: NodeId, rank: map<NodeId, nat>, top: nat)
    requires WellFormed(nodes, root, rank, top) && Has(nodes, pane) && Node(nodes, pane).kind.BufferView?
    requires Under(nodes, pane, root, rank, top)
    ensures (var r := Activate(nodes, pane, rank, top);
             && WellFormed(r, root, rank, top) && OnlyAboveChanged(nodes, r, pane, rank, top)
             && Shows(r, root, pane, rank, top)
             && WindowContaining(r, root, pane, rank, top).Ok?
             && WindowContaining(r, root, pane, rank, top).value.0 == Node(r, root).tabs.value.active)
  {
    hide WellFormed, NodeOk, Ranked, RankedNode, OnlyAboveChanged, Activate;
    RootFacts(nodes, root, rank, top);
    var r := Activate(nodes, pane, rank, top);
    ActivateChangesOnlyAncestors(nodes, root, pane, rank, top);
    ActivateShows(nodes, root, pane, pane, root, rank, top) by { PaneShowsItself(nodes, root, pane, rank, top); }
    RootFacts(r, root, rank, top);
    DescendThenClimb(r, root, Node(r, root).tabs.value.active, pane, rank, top);
  }

  lemma PaneShowsItself(nodes: Nodes, root: NodeId, pane: NodeId, rank: map<NodeId, nat>, top: nat)
    requires WellFormed(nodes, root, rank, top) && Has(nodes, pane) && Node(nodes, pane).kind.BufferView?
    ensures Shows(nodes, pane, pane, rank, top)
  {
  }
}
