/**
 * The genealogy tree page (src/app/tree/page.tsx): the category filter, the React
 * Flow nodes and edges built from the filtered records, the shape of the dagre
 * layout step, and the refresh of the selection marks.
 */
module TreeView {
  import opened KnowledgeTypes

  /** `filteredKnowledge`: every record for "all", otherwise the records of that category in their order. */
  function Filtered(ks: seq<Knowledge>, sel: CategoryFilter): (r: seq<Knowledge>)
    ensures sel.All? ==> r == ks
    ensures sel.Only? ==> forall k :: k in r <==> k in ks && k.category == sel.category
  {
    match sel
    case All => ks
    case Only(c) => OfCategory(ks, c)
  }

  /** `ks.filter(k => k.category === c)`. */
  function OfCategory(ks: seq<Knowledge>, c: Category): (r: seq<Knowledge>)
    ensures forall k :: k in r <==> k in ks && k.category == c
    ensures |r| <= |ks|
  {
    if ks == [] then [] else (if ks[0].category == c then [ks[0]] else []) + OfCategory(ks[1..], c)
  }

  /**
   * Filtering works record by record and keeps the order: filtering a concatenation
   * is the concatenation of the filtered parts.
   */
  lemma {:induction false} OfCategoryAppend(a: seq<Knowledge>, b: seq<Knowledge>, c: Category)
    ensures OfCategory(a + b, c) == OfCategory(a, c) + OfCategory(b, c)
  {
    if a != [] {
      assert (a + b)[0] == a[0];
      assert (a + b)[1..] == a[1..] + b;
      OfCategoryAppend(a[1..], b, c);
    } else {
      assert a + b == b;
    }
  }

  /** Filtering twice by the same selection changes nothing more. */
  lemma {:induction false} OfCategoryIdempotent(ks: seq<Knowledge>, c: Category)
    ensures OfCategory(OfCategory(ks, c), c) == OfCategory(ks, c)
  {
    if ks != [] {
      OfCategoryIdempotent(ks[1..], c);
      var rest := OfCategory(ks[1..], c);
      if ks[0].category == c {
        var r := [ks[0]] + rest;
        assert OfCategory(ks, c) == r;
        assert r[0] == ks[0] && r[1..] == rest;
        assert OfCategory(r, c) == [ks[0]] + OfCategory(rest, c);
      } else {
        assert OfCategory(ks, c) == rest;
      }
    }
  }

  /** A point on the canvas; dagre's coordinates are taken as exact reals. */
  datatype Position = Position(x: real, y: real)

  /** A React Flow node of type "knowledge"; its click handler is left out. */
  datatype Node = Node(id: string, nodeType: string, position: Position, knowledge: Knowledge, selected: bool)

  /** A React Flow edge with its fixed styling. */
  datatype Edge = Edge(id: string, source: string, target: string, edgeType: string, animated: bool,
                       stroke: string, strokeWidth: int)

  /** The node drawn for `k` before layout; `selectedId` is `selectedNode?.id`. */
  function NodeOf(k: Knowledge, selectedId: Option<string>): Node {
    Node(k.id, "knowledge", Position(0.0, 0.0), k, selectedId == Some(k.id))
  }

  /** `filteredKnowledge.map(k => ({ … }))`. */
  function Nodes(ks: seq<Knowledge>, selectedId: Option<string>): (r: seq<Node>)
    ensures |r| == |ks|
    ensures forall i :: 0 <= i < |ks| ==> r[i] == NodeOf(ks[i], selectedId)
  {
    if ks == [] then [] else [NodeOf(ks[0], selectedId)] + Nodes(ks[1..], selectedId)
  }

  /** One node per record, with the record's id, in the records' order; only the selected record's node is marked. */
  lemma NodesShape(ks: seq<Knowledge>, selectedId: Option<string>)
    ensures var r := Nodes(ks, selectedId);
      && |r| == |ks|
      && (forall i :: 0 <= i < |ks| ==> r[i].id == ks[i].id && r[i].knowledge == ks[i])
      && (forall i :: 0 <= i < |ks| ==> (r[i].selected <==> selectedId.Some? && selectedId.value == ks[i].id))
      && (selectedId.None? ==> forall i :: 0 <= i < |r| ==> !r[i].selected)
  {
  }

  /** The edge drawn from a record's parent to the record. */
  function EdgeOf(k: Knowledge): Edge
    requires k.parentId.Some?
  {
    Edge(k.parentId.value + "-" + k.id, k.parentId.value, k.id, "smoothstep", true, "#9ca3af", 2)
  }

  /** `k.parentId && knowledgeMap.has(k.parentId)`, with the map keyed by the ids in view. */
  predicate LinksInside(k: Knowledge, inView: set<string>) {
    Truthy(k.parentId) && k.parentId.value in inView
  }

  /** The edges for the records of `ks` whose parent is in view, in the records' order. */
  function EdgesFrom(ks: seq<Knowledge>, inView: set<string>): (r: seq<Edge>)
    ensures |r| <= |ks|
  {
    if ks == [] then []
    else (if LinksInside(ks[0], inView) then [EdgeOf(ks[0])] else []) + EdgesFrom(ks[1..], inView)
  }

  /** The ids of the records in view (the keys of `knowledgeMap`). */
  function InView(ks: seq<Knowledge>): set<string> {
    set k | k in ks :: k.id
  }

  /** `newEdges`: at most one per record, each joining two records in view. */
  function Edges(ks: seq<Knowledge>): (r: seq<Edge>)
    ensures |r| <= |ks|
    ensures forall e :: e in r ==> e.source in InView(ks) && e.target in InView(ks)
  {
    EdgesFromMeaning(ks, InView(ks));
    EdgesFrom(ks, InView(ks))
  }

  /**
   * An edge exists exactly for each record whose parent link is non-empty and names a
   * record in view; it runs from that parent to the record and its id joins the two.
   */
  lemma {:induction false} EdgesFromMeaning(ks: seq<Knowledge>, inView: set<string>)
    ensures forall e :: e in EdgesFrom(ks, inView) <==>
      exists k :: k in ks && LinksInside(k, inView) && e == EdgeOf(k)
  {
    if ks != [] {
      EdgesFromMeaning(ks[1..], inView);
      forall e ensures e in EdgesFrom(ks, inView) <==> exists k :: k in ks && LinksInside(k, inView) && e == EdgeOf(k) {
        if e in EdgesFrom(ks[1..], inView) {
          var k :| k in ks[1..] && LinksInside(k, inView) && e == EdgeOf(k);
          assert k in ks;
        }
        if LinksInside(ks[0], inView) && e == EdgeOf(ks[0]) {
          assert ks[0] in ks;
        }
      }
    }
  }

  /** Every edge joins two nodes of the view, and its id is its source, "-", its target. */
  lemma EdgesStayInView(ks: seq<Knowledge>, selectedId: Option<string>)
    ensures var ids := set n | n in Nodes(ks, selectedId) :: n.id;
      forall e :: e in Edges(ks) ==>
        e.source in ids && e.target in ids && e.source != "" && e.id == e.source + "-" + e.target
  {
    EdgesFromMeaning(ks, InView(ks));
    var nodes := Nodes(ks, selectedId);
    var ids := set n | n in nodes :: n.id;
    forall e | e in Edges(ks) ensures e.source in ids && e.target in ids {
      var k :| k in ks && LinksInside(k, InView(ks)) && e == EdgeOf(k);
      var i :| 0 <= i < |ks| && ks[i] == k;
      assert nodes[i].id == k.id && nodes[i] in nodes;
      var p :| p in ks && p.id == k.parentId.value;
      var j :| 0 <= j < |ks| && ks[j] == p;
      assert nodes[j].id == p.id && nodes[j] in nodes;
    }
  }

  /** `filteredKnowledge.filter(k => k.parentId && knowledgeMap.has(k.parentId))`: the records that get an edge. */
  function Linking(ks: seq<Knowledge>, inView: set<string>): (r: seq<Knowledge>)
    ensures forall k :: k in r <==> k in ks && LinksInside(k, inView)
  {
    if ks == [] then []
    else (if LinksInside(ks[0], inView) then [ks[0]] else []) + Linking(ks[1..], inView)
  }

  /**
   * The edges are the linking records mapped one to one, in order: the i-th edge is
   * the edge of the i-th record whose parent is in view, so each such record yields
   * exactly one edge and no other record yields any.
   */
  lemma {:induction false} EdgesMapLinking(ks: seq<Knowledge>, inView: set<string>)
    ensures var l := Linking(ks, inView); var e := EdgesFrom(ks, inView);
      && |e| == |l|
      && forall i :: 0 <= i < |l| ==> l[i].parentId.Some? && e[i] == EdgeOf(l[i])
  {
    if ks != [] {
      EdgesMapLinking(ks[1..], inView);
      var l := Linking(ks, inView);
      var e := EdgesFrom(ks, inView);
      var l' := Linking(ks[1..], inView);
      var e' := EdgesFrom(ks[1..], inView);
      if LinksInside(ks[0], inView) {
        assert l == [ks[0]] + l' && e == [EdgeOf(ks[0])] + e';
        forall i | 0 <= i < |l| ensures l[i].parentId.Some? && e[i] == EdgeOf(l[i]) {
          if i > 0 {
            assert l[i] == l'[i - 1] && e[i] == e'[i - 1];
          }
        }
      } else {
        assert l == l' && e == e';
      }
    }
  }

  /** No two edges in `e` share a target. */
  predicate DistinctTargets(e: seq<Edge>) {
    forall i, j :: 0 <= i < j < |e| ==> e[i].target != e[j].target
  }

  /** With unique record ids, no two edges share a target: each record has at most one incoming edge. */
  lemma {:induction false} EdgeTargetsDistinct(ks: seq<Knowledge>, inView: set<string>)
    requires UniqueIds(ks)
    ensures DistinctTargets(EdgesFrom(ks, inView))
  {
    if ks != [] {
      var rest := ks[1..];
      EdgeTargetsDistinct(rest, inView);
      EdgesFromMeaning(rest, inView);
      var e := EdgesFrom(ks, inView);
      var e' := EdgesFrom(rest, inView);
      if LinksInside(ks[0], inView) {
        assert e == [EdgeOf(ks[0])] + e';
        forall i, j | 0 <= i < j < |e| ensures e[i].target != e[j].target {
          assert e[j] == e'[j - 1] && e'[j - 1] in e';
          if i > 0 {
            assert e[i] == e'[i - 1];
            assert e'[i - 1].target != e'[j - 1].target;
          } else {
            var k :| k in rest && LinksInside(k, inView) && e'[j - 1] == EdgeOf(k);
            var m :| 0 <= m < |rest| && rest[m] == k;
            assert ks[m + 1] == k;
            assert ks[0].id != ks[m + 1].id;
            assert e[j].target == k.id;
            assert e[i].target == ks[0].id;
          }
        }
      } else {
        assert e == e';
      }
    }
  }

  /** What the page keeps in its React Flow state. */
  datatype View = View(nodes: seq<Node>, edges: seq<Edge>)

  /**
   * `getLayoutedElements`: every node gets the top-left corner of its 180 × 70 box,
   * whose centre dagre computed (`center`, standing for `dagre.layout` and
   * `dagreGraph.node`); the edges pass through.
   */
  function Layout(nodes: seq<Node>, edges: seq<Edge>, center: string -> Position): (v: View)
    ensures |v.nodes| == |nodes|
    ensures forall i :: 0 <= i < |nodes| ==> v.nodes[i] == Placed(nodes[i], center)
  {
    if nodes == [] then View([], edges)
    else
      var rest := Layout(nodes[1..], edges, center);
      View([Placed(nodes[0], center)] + rest.nodes, rest.edges)
  }

  function Placed(n: Node, center: string -> Position): Node {
    n.(position := Position(center(n.id).x - 90.0, center(n.id).y - 35.0))
  }

  /** Layout returns the edges unchanged and the same nodes in the same order, differing only in position. */
  lemma {:induction false} LayoutKeepsShape(nodes: seq<Node>, edges: seq<Edge>, center: string -> Position)
    ensures Layout(nodes, edges, center).edges == edges
    ensures forall i :: 0 <= i < |nodes| ==>
      Layout(nodes, edges, center).nodes[i].(position := nodes[i].position) == nodes[i]
  {
    if nodes != [] {
      LayoutKeepsShape(nodes[1..], edges, center);
    }
  }

  /**
   * The node-and-edge effect, run over `filteredKnowledge`: with no record in view
   * nothing is set; otherwise the view becomes the laid-out nodes and edges of the
   * filtered records.
   */
  function Rebuild(current: View, ks: seq<Knowledge>, sel: CategoryFilter, selectedId: Option<string>,
                   center: string -> Position): View
  {
    var filtered := Filtered(ks, sel);
    if |filtered| == 0 then current
    else Layout(Nodes(filtered, selectedId), Edges(filtered), center)
  }

  /**
   * When the filter leaves nothing in view, the current nodes and edges are left
   * untouched; otherwise the view holds, in order, each filtered record's node placed
   * by the layout, and the edges of the filtered records.
   */
  lemma RebuildOutcome(current: View, ks: seq<Knowledge>, sel: CategoryFilter,
                       selectedId: Option<string>, center: string -> Position)
    ensures Filtered(ks, sel) == [] ==> Rebuild(current, ks, sel, selectedId, center) == current
    ensures Filtered(ks, sel) != [] ==>
      Rebuild(current, ks, sel, selectedId, center).edges == Edges(Filtered(ks, sel))
      && |Rebuild(current, ks, sel, selectedId, center).nodes| == |Filtered(ks, sel)|
      && forall i :: 0 <= i < |Filtered(ks, sel)| ==>
           Rebuild(current, ks, sel, selectedId, center).nodes[i] == Placed(NodeOf(Filtered(ks, sel)[i], selectedId), center)
  {
    if Filtered(ks, sel) != [] {
      LayoutKeepsShape(Nodes(Filtered(ks, sel), selectedId), Edges(Filtered(ks, sel)), center);
    }
  }

  /** The selection effect: every node's `selected` mark is recomputed and nothing else changes. */
  function Refresh(nodes: seq<Node>, selectedId: Option<string>): (r: seq<Node>)
    ensures |r| == |nodes|
    ensures forall i :: 0 <= i < |nodes| ==> r[i] == nodes[i].(selected := selectedId == Some(nodes[i].id))
  {
    if nodes == [] then [] else
      [nodes[0].(selected := selectedId == Some(nodes[0].id))] + Refresh(nodes[1..], selectedId)
  }

  /**
   * Refreshing is idempotent, changes nothing but the marks, and agrees with a
   * rebuild: refreshing the nodes of a rebuilt view with the same selection gives
   * back those nodes.
   */
  lemma RefreshAgreesWithRebuild(current: View, ks: seq<Knowledge>, sel: CategoryFilter,
                                 selectedId: Option<string>, center: string -> Position)
    ensures var v := Rebuild(current, ks, sel, selectedId, center);
      |Filtered(ks, sel)| > 0 ==> Refresh(v.nodes, selectedId) == v.nodes
    ensures forall nodes: seq<Node> :: Refresh(Refresh(nodes, selectedId), selectedId) == Refresh(nodes, selectedId)
  {
    var v := Rebuild(current, ks, sel, selectedId, center);
    var filtered := Filtered(ks, sel);
    if |filtered| > 0 {
      var nodes := Nodes(filtered, selectedId);
      assert forall i :: 0 <= i < |v.nodes| ==> v.nodes[i].id == filtered[i].id;
    }
  }

  /** Re-selecting a different record changes exactly the marks of the old and new selection. */
  lemma RefreshChangesOnlyMarks(nodes: seq<Node>, old_: Option<string>, new_: Option<string>)
    requires forall i :: 0 <= i < |nodes| ==> nodes[i].selected == (old_ == Some(nodes[i].id))
    ensures var r := Refresh(nodes, new_);
      forall i :: 0 <= i < |nodes| ==>
        (r[i] != nodes[i] <==> (old_ == Some(nodes[i].id)) != (new_ == Some(nodes[i].id)))
  {
  }
}
