/** An investigation board: the graph that is edited, merged, saved and restored, with its history.
    Strings are trimmed, lower-cased and typed by functions that the board is given. */
module Board {
  import opened Outcomes
  import opened Strings
  import opened History

  /** What is saved of a node; "" stands for an absent status or note. */
  datatype SavedNode = SavedNode(id: string, caption: string, etype: string, root: bool, expanded: bool,
                                 x: Option<real>, y: Option<real>, isNew: bool, status: string, note: string)

  datatype SavedEdge = SavedEdge(source: string, target: string, rel: string, manual: bool)

  datatype Saved = Saved(nodes: seq<SavedNode>, edges: seq<SavedEdge>)

  /** A node of the live board: the renderer keeps its own numbers on it. */
  datatype Node = Node(kept: SavedNode, live: int)

  /** The end of a live edge: an id, or the node object that the renderer has put in its place, of
      which only the id is read. */
  datatype End = ById(id: string) | ByNode(id: string)

  datatype Edge = Edge(source: End, target: End, rel: string, manual: bool, live: int)

  // --- Saving ---

  function Keep(e: Edge): SavedEdge {
    SavedEdge(e.source.id, e.target.id, e.rel, e.manual)
  }

  /** `serialize`, up to the text that `JSON.stringify` makes of it */
  function Serialize(nodes: seq<Node>, edges: seq<Edge>): (s: Saved)
    ensures |s.nodes| == |nodes| && |s.edges| == |edges|
  {
    Saved(seq(|nodes|, i requires 0 <= i < |nodes| => nodes[i].kept),
          seq(|edges|, i requires 0 <= i < |edges| => Keep(edges[i])))
  }

  function RestoredNodes(s: Saved): seq<Node> {
    seq(|s.nodes|, i requires 0 <= i < |s.nodes| => Node(s.nodes[i], 0))
  }

  function RestoredEdge(e: SavedEdge): Edge {
    Edge(ById(e.source), ById(e.target), e.rel, e.manual, 0)
  }

  function RestoredEdges(s: Saved): seq<Edge> {
    seq(|s.edges|, i requires 0 <= i < |s.edges| => RestoredEdge(s.edges[i]))
  }

  /** A saved board survives being restored. */
  lemma SaveRestored(s: Saved)
    ensures Serialize(RestoredNodes(s), RestoredEdges(s)) == s
  {
    var t := Serialize(RestoredNodes(s), RestoredEdges(s));
    assert t.nodes == s.nodes;
    forall i | 0 <= i < |s.edges| ensures t.edges[i] == s.edges[i] {
      assert t.edges[i] == Keep(RestoredEdges(s)[i]);
    }
    assert t.edges == s.edges;
  }

  // --- The graph ---

  /** Node ids are unique, no edge is a loop, and no ordered pair of ends is linked twice. */
  ghost predicate Tidy(s: Saved) {
    UniqueIds(s.nodes) && NoLoops(s.edges) && NoRepeats(s.edges)
  }

  ghost predicate UniqueIds(nodes: seq<SavedNode>) {
    forall i, j :: 0 <= i < j < |nodes| ==> nodes[i].id != nodes[j].id
  }

  ghost predicate NoLoops(edges: seq<SavedEdge>) {
    forall i :: 0 <= i < |edges| ==> edges[i].source != edges[i].target
  }

  ghost predicate NoRepeats(edges: seq<SavedEdge>) {
    forall i, j :: 0 <= i < j < |edges| ==> Ends(edges[i]) != Ends(edges[j])
  }

  function Ends(e: SavedEdge): (string, string) { (e.source, e.target) }

  ghost function Ids(nodes: seq<SavedNode>): set<string> {
    set n | n in nodes :: n.id
  }

  ghost function Links(edges: seq<SavedEdge>): set<(string, string)> {
    set e | e in edges :: Ends(e)
  }

  /** The functions of the surroundings. */
  datatype Text = Text(trim: string -> string, lower: string -> string, inferType: string -> string)

  /** A node or an edge as it comes from another board or a file; "" stands for an absent field. */
  datatype NodeItem = NodeItem(id: string, caption: string, etype: string, root: bool)

  datatype EdgeItem = EdgeItem(source: string, target: string, rel: string)

  function Clean(text: Text, id: string): string {
    text.lower(text.trim(id))
  }

  /** `nodeById`: the index of the first node of that id, or the number of nodes. */
  function Find(nodes: seq<SavedNode>, id: string): (i: nat)
    ensures i <= |nodes| && (i < |nodes| ==> nodes[i].id == id)
    ensures forall j :: 0 <= j < i ==> nodes[j].id != id
  {
    if |nodes| == 0 || nodes[0].id == id then 0 else 1 + Find(nodes[1..], id)
  }

  function NewNode(text: Text, item: NodeItem): SavedNode {
    var id := Clean(text, item.id);
    SavedNode(id, Slice(if item.caption != "" then item.caption else id, 48),
              if item.etype != "" then item.etype else text.inferType(id), item.root, false, None, None, false, "", "")
  }

  function WithNode(text: Text, nodes: seq<SavedNode>, item: NodeItem): seq<SavedNode> {
    var id := Clean(text, item.id);
    if id == "" then nodes
    else
      var i := Find(nodes, id);
      if i == |nodes| then nodes + [NewNode(text, item)]
      else if item.root then nodes[i := nodes[i].(root := true)]
      else nodes
  }

  predicate HasLink(edges: seq<SavedEdge>, s: string, t: string) {
    exists i :: 0 <= i < |edges| && edges[i].source == s && edges[i].target == t
  }

  function WithEdge(text: Text, edges: seq<SavedEdge>, item: EdgeItem, manual: bool): seq<SavedEdge> {
    var s, t := text.lower(item.source), text.lower(item.target);
    if s == t || HasLink(edges, s, t) then edges
    else edges + [SavedEdge(s, t, if item.rel != "" then item.rel else "related", manual)]
  }

  /** What merging nodes and edges one by one leads to. */
  function WithNodes(text: Text, nodes: seq<SavedNode>, items: seq<NodeItem>): seq<SavedNode> {
    if |items| == 0 then nodes
    else WithNode(text, WithNodes(text, nodes, items[..|items| - 1]), items[|items| - 1])
  }

  function WithEdges(text: Text, edges: seq<SavedEdge>, items: seq<EdgeItem>): seq<SavedEdge> {
    if |items| == 0 then edges
    else WithEdge(text, WithEdges(text, edges, items[..|items| - 1]), items[|items| - 1], false)
  }

  function WithoutNode(nodes: seq<SavedNode>, id: string): seq<SavedNode> {
    if |nodes| == 0 then []
    else
      var front := WithoutNode(nodes[..|nodes| - 1], id);
      if nodes[|nodes| - 1].id != id then front + [nodes[|nodes| - 1]] else front
  }

  function WithoutLinks(edges: seq<SavedEdge>, id: string): seq<SavedEdge> {
    if |edges| == 0 then []
    else
      var front, e := WithoutLinks(edges[..|edges| - 1], id), edges[|edges| - 1];
      if e.source != id && e.target != id then front + [e] else front
  }

  // --- Every edit keeps a board tidy ---

  lemma NodeKeepsUnique(text: Text, nodes: seq<SavedNode>, item: NodeItem)
    requires UniqueIds(nodes)
    ensures UniqueIds(WithNode(text, nodes, item))
  {
  }

  lemma IdsAppend(nodes: seq<SavedNode>, n: SavedNode)
    ensures Ids(nodes + [n]) == Ids(nodes) + {n.id}
  {
    assert forall x :: x in nodes + [n] <==> x in nodes || x == n;
  }

  lemma IdsUpdate(nodes: seq<SavedNode>, i: nat, n: SavedNode)
    requires i < |nodes| && nodes[i].id == n.id
    ensures Ids(nodes[i := n]) == Ids(nodes)
  {
    var r := nodes[i := n];
    forall x | x in Ids(nodes) ensures x in Ids(r) {
      var j :| 0 <= j < |nodes| && nodes[j].id == x;
      assert r[j].id == x && r[j] in r;
    }
    forall x | x in Ids(r) ensures x in Ids(nodes) {
      var j :| 0 <= j < |r| && r[j].id == x;
      assert nodes[j].id == x && nodes[j] in nodes;
    }
  }

  lemma NodeIds(text: Text, nodes: seq<SavedNode>, item: NodeItem)
    ensures Ids(WithNode(text, nodes, item)) ==
            Ids(nodes) + (if Clean(text, item.id) == "" then {} else {Clean(text, item.id)})
  {
    hide Ids, Clean;
    var id := Clean(text, item.id);
    var i := Find(nodes, id);
    if i < |nodes| {
      IdsUpdate(nodes, i, nodes[i].(root := true));
      IdsHas(nodes, i);
    } else {
      IdsAppend(nodes, NewNode(text, item));
    }
  }

  lemma IdsHas(nodes: seq<SavedNode>, i: nat)
    requires i < |nodes|
    ensures nodes[i].id in Ids(nodes)
  {
    assert nodes[i] in nodes;
  }

  lemma EdgeKeepsTidy(text: Text, edges: seq<SavedEdge>, item: EdgeItem, manual: bool)
    requires NoLoops(edges) && NoRepeats(edges)
    ensures NoLoops(WithEdge(text, edges, item, manual)) && NoRepeats(WithEdge(text, edges, item, manual))
  {
  }

  lemma EdgeLinks(text: Text, edges: seq<SavedEdge>, item: EdgeItem, manual: bool)
    ensures var s, t := text.lower(item.source), text.lower(item.target);
            Links(WithEdge(text, edges, item, manual)) == Links(edges) + (if s == t then {} else {(s, t)})
  {
    var s, t, r := text.lower(item.source), text.lower(item.target), WithEdge(text, edges, item, manual);
    forall x ensures x in Links(r) <==> x in Links(edges) || (s != t && x == (s, t)) {
      if s != t {
        if HasLink(edges, s, t) {
          var i :| 0 <= i < |edges| && edges[i].source == s && edges[i].target == t;
          assert edges[i] in edges && Ends(edges[i]) == (s, t);
        } else {
          assert r[|edges|] in r && Ends(r[|edges|]) == (s, t);
          assert forall e :: e in r <==> e in edges || e == r[|edges|];
        }
      }
    }
  }

  lemma {:induction false} WithoutNodeIs(nodes: seq<SavedNode>, id: string)
    ensures forall n :: n in WithoutNode(nodes, id) <==> n in nodes && n.id != id
    ensures UniqueIds(nodes) ==> UniqueIds(WithoutNode(nodes, id))
  {
    if |nodes| == 0 {
    } else {
      var front, last := nodes[..|nodes| - 1], nodes[|nodes| - 1];
      WithoutNodeIs(front, id);
      assert nodes == front + [last];
      var r := WithoutNode(front, id);
      if UniqueIds(nodes) {
        forall i | 0 <= i < |r| ensures r[i].id != last.id {
          assert r[i] in front;
          var j :| 0 <= j < |front| && front[j] == r[i];
          assert nodes[j].id != nodes[|nodes| - 1].id;
        }
      }
    }
  }

  lemma {:induction false} WithoutLinksIs(edges: seq<SavedEdge>, id: string)
    ensures forall e :: e in WithoutLinks(edges, id) <==> e in edges && e.source != id && e.target != id
  {
    if |edges| == 0 {
    } else {
      WithoutLinksIs(edges[..|edges| - 1], id);
      assert edges == edges[..|edges| - 1] + [edges[|edges| - 1]];
    }
  }

  lemma {:induction false} WithoutLinksKeepsTidy(edges: seq<SavedEdge>, id: string)
    requires NoLoops(edges) && NoRepeats(edges)
    ensures NoLoops(WithoutLinks(edges, id)) && NoRepeats(WithoutLinks(edges, id))
  {
    hide Ends;
    if |edges| == 0 {
    } else {
      var front, last := edges[..|edges| - 1], edges[|edges| - 1];
      WithoutLinksKeepsTidy(front, id);
      WithoutLinksIs(front, id);
      var r := WithoutLinks(front, id);
      forall i | 0 <= i < |r| ensures Ends(r[i]) != Ends(last) {
        assert r[i] in r && r[i] in front;
        var j :| 0 <= j < |front| && front[j] == r[i];
        assert Ends(edges[j]) != Ends(edges[|edges| - 1]);
      }
    }
  }

  // --- Merging ---

  ghost function CleanIds(text: Text, items: seq<NodeItem>): set<string> {
    set n | n in items && Clean(text, n.id) != "" :: Clean(text, n.id)
  }

  ghost function CleanLinks(text: Text, items: seq<EdgeItem>): set<(string, string)> {
    set e | e in items && text.lower(e.source) != text.lower(e.target) :: (text.lower(e.source), text.lower(e.target))
  }

  /** Merging yields the union of the ids and keeps them unique. */
  lemma {:induction false} MergedNodes(text: Text, nodes: seq<SavedNode>, items: seq<NodeItem>)
    ensures Ids(WithNodes(text, nodes, items)) == Ids(nodes) + CleanIds(text, items)
    ensures UniqueIds(nodes) ==> UniqueIds(WithNodes(text, nodes, items))
  {
    hide Ids, WithNode, Clean, UniqueIds;
    if |items| > 0 {
      var front, last := items[..|items| - 1], items[|items| - 1];
      MergedNodes(text, nodes, front);
      NodeIds(text, WithNodes(text, nodes, front), last);
      if UniqueIds(nodes) { NodeKeepsUnique(text, WithNodes(text, nodes, front), last); }
      assert items == front + [last];
      assert CleanIds(text, items) ==
             CleanIds(text, front) + (if Clean(text, last.id) == "" then {} else {Clean(text, last.id)});
    } else {
      assert CleanIds(text, items) == {};
    }
  }

  /** Merging yields the union of the links that are not loops, without repeats. */
  lemma {:induction false} MergedEdges(text: Text, edges: seq<SavedEdge>, items: seq<EdgeItem>)
    ensures Links(WithEdges(text, edges, items)) == Links(edges) + CleanLinks(text, items)
    ensures NoLoops(edges) && NoRepeats(edges) ==>
      NoLoops(WithEdges(text, edges, items)) && NoRepeats(WithEdges(text, edges, items))
  {
    hide Links, WithEdge, NoLoops, NoRepeats;
    if |items| > 0 {
      var front, last := items[..|items| - 1], items[|items| - 1];
      MergedEdges(text, edges, front);
      EdgeLinks(text, WithEdges(text, edges, front), last, false);
      if NoLoops(edges) && NoRepeats(edges) { EdgeKeepsTidy(text, WithEdges(text, edges, front), last, false); }
      assert items == front + [last];
      var s, t := text.lower(last.source), text.lower(last.target);
      assert CleanLinks(text, items) == CleanLinks(text, front) + (if s == t then {} else {(s, t)});
    } else {
      assert CleanLinks(text, items) == {};
    }
  }

  /** A node that is there, as a root if the item is one: the item adds nothing. */
  ghost predicate HasItem(text: Text, nodes: seq<SavedNode>, item: NodeItem) {
    var id := Clean(text, item.id);
    id == "" || (Find(nodes, id) < |nodes| && (item.root ==> nodes[Find(nodes, id)].root))
  }

  lemma HasItemIs(text: Text, nodes: seq<SavedNode>, item: NodeItem)
    ensures HasItem(text, WithNode(text, nodes, item), item)
    ensures HasItem(text, nodes, item) ==> WithNode(text, nodes, item) == nodes
  {
    var id, r := Clean(text, item.id), WithNode(text, nodes, item);
    var i := Find(nodes, id);
    if id != "" {
      assert r[i].id == id && forall j :: 0 <= j < i ==> r[j].id != id;
      assert Find(r, id) == i;
    }
  }

  lemma HasItemStays(text: Text, nodes: seq<SavedNode>, item: NodeItem, other: NodeItem)
    requires HasItem(text, nodes, item)
    ensures HasItem(text, WithNode(text, nodes, other), item)
  {
    var id, r := Clean(text, item.id), WithNode(text, nodes, other);
    var i := Find(nodes, id);
    if id != "" {
      assert r[i].id == id && forall j :: 0 <= j < i ==> r[j].id != id;
      assert Find(r, id) == i;
    }
  }

  lemma {:induction false} HasAllItems(text: Text, nodes: seq<SavedNode>, items: seq<NodeItem>)
    ensures forall i :: 0 <= i < |items| ==> HasItem(text, WithNodes(text, nodes, items), items[i])
  {
    hide HasItem, WithNode;
    if |items| == 0 {
    } else {
      var front, last := items[..|items| - 1], items[|items| - 1];
      HasAllItems(text, nodes, front);
      HasItemIs(text, WithNodes(text, nodes, front), last);
      forall i | 0 <= i < |items| ensures HasItem(text, WithNodes(text, nodes, items), items[i]) {
        if i < |front| { HasItemStays(text, WithNodes(text, nodes, front), front[i], last); }
      }
    }
  }

  lemma {:induction false} NothingNew(text: Text, nodes: seq<SavedNode>, items: seq<NodeItem>)
    requires forall i :: 0 <= i < |items| ==> HasItem(text, nodes, items[i])
    ensures WithNodes(text, nodes, items) == nodes
  {
    hide HasItem, WithNode;
    if |items| == 0 {
    } else {
      NothingNew(text, nodes, items[..|items| - 1]);
      HasItemIs(text, nodes, items[|items| - 1]);
    }
  }

  ghost predicate HasEdge(text: Text, edges: seq<SavedEdge>, item: EdgeItem) {
    var s, t := text.lower(item.source), text.lower(item.target);
    s == t || HasLink(edges, s, t)
  }

  lemma HasEdgeIs(text: Text, edges: seq<SavedEdge>, item: EdgeItem, other: EdgeItem)
    ensures HasEdge(text, WithEdge(text, edges, item, false), item)
    ensures HasEdge(text, edges, item) ==> WithEdge(text, edges, item, false) == edges
    ensures HasEdge(text, edges, other) ==> HasEdge(text, WithEdge(text, edges, item, false), other)
  {
    var r := WithEdge(text, edges, item, false);
    assert forall i :: 0 <= i < |edges| ==> r[i] == edges[i];
    if |r| > |edges| { assert HasLink(r, r[|edges|].source, r[|edges|].target); }
    var s, t := text.lower(other.source), text.lower(other.target);
    if HasLink(edges, s, t) {
      var i :| 0 <= i < |edges| && edges[i].source == s && edges[i].target == t;
      assert r[i].source == s && r[i].target == t;
    }
  }

  lemma {:induction false} HasAllEdges(text: Text, edges: seq<SavedEdge>, items: seq<EdgeItem>)
    ensures forall i :: 0 <= i < |items| ==> HasEdge(text, WithEdges(text, edges, items), items[i])
  {
    hide HasEdge, WithEdge;
    if |items| == 0 {
    } else {
      var front, last := items[..|items| - 1], items[|items| - 1];
      HasAllEdges(text, edges, front);
      forall i | 0 <= i < |items| ensures HasEdge(text, WithEdges(text, edges, items), items[i]) {
        HasEdgeIs(text, WithEdges(text, edges, front), last, items[i]);
        if i < |front| { assert items[i] == front[i]; }
      }
    }
  }

  lemma {:induction false} NoNewEdge(text: Text, edges: seq<SavedEdge>, items: seq<EdgeItem>)
    requires forall i :: 0 <= i < |items| ==> HasEdge(text, edges, items[i])
    ensures WithEdges(text, edges, items) == edges
  {
    hide HasEdge, WithEdge;
    if |items| == 0 {
    } else {
      var last := items[|items| - 1];
      NoNewEdge(text, edges, items[..|items| - 1]);
      HasEdgeIs(text, edges, last, last);
    }
  }

  function Merged(text: Text, s: Saved, nodes: seq<NodeItem>, edges: seq<EdgeItem>): Saved {
    Saved(WithNodes(text, s.nodes, nodes), WithEdges(text, s.edges, edges))
  }

  /** Merging the same board again changes nothing. */
  lemma MergeIdempotent(text: Text, s: Saved, nodes: seq<NodeItem>, edges: seq<EdgeItem>)
    ensures Merged(text, Merged(text, s, nodes, edges), nodes, edges) == Merged(text, s, nodes, edges)
  {
    hide HasItem, HasEdge, WithNodes, WithEdges;
    HasAllItems(text, s.nodes, nodes);
    NothingNew(text, WithNodes(text, s.nodes, nodes), nodes);
    HasAllEdges(text, s.edges, edges);
    NoNewEdge(text, WithEdges(text, s.edges, edges), edges);
  }

  /** Merging keeps a board tidy and yields the unions. */
  lemma MergeIsUnion(text: Text, s: Saved, nodes: seq<NodeItem>, edges: seq<EdgeItem>)
    ensures var m := Merged(text, s, nodes, edges);
            && Ids(m.nodes) == Ids(s.nodes) + CleanIds(text, nodes)
            && Links(m.edges) == Links(s.edges) + CleanLinks(text, edges)
            && (Tidy(s) ==> Tidy(m))
  {
    hide Ids, Links, CleanIds, CleanLinks, WithNodes, WithEdges, UniqueIds, NoLoops, NoRepeats;
    MergedNodes(text, s.nodes, nodes);
    MergedEdges(text, s.edges, edges);
  }

  lemma {:induction false} CountIds(nodes: seq<SavedNode>)
    requires UniqueIds(nodes)
    ensures |Ids(nodes)| == |nodes|
  {
    if |nodes| == 0 {
    } else {
      var front, last := nodes[..|nodes| - 1], nodes[|nodes| - 1];
      CountIds(front);
      assert nodes == front + [last];
      assert Ids(nodes) == Ids(front) + {last.id};
      assert last.id !in Ids(front);
    }
  }

  /** As many nodes are added as there are ids that are new. */
  lemma MergedCount(text: Text, nodes: seq<SavedNode>, items: seq<NodeItem>)
    requires UniqueIds(nodes)
    ensures |WithNodes(text, nodes, items)| - |nodes| == |CleanIds(text, items) - Ids(nodes)|
  {
    hide Ids, CleanIds, WithNodes, UniqueIds;
    MergedNodes(text, nodes, items);
    CountIds(nodes);
    CountIds(WithNodes(text, nodes, items));
    var a, c := Ids(nodes), CleanIds(text, items);
    assert a + c == a + (c - a);
  }

  // --- Removing ---

  /** Both ends of every edge are nodes. */
  ghost predicate Closed(s: Saved) {
    forall e :: e in s.edges ==> e.source in Ids(s.nodes) && e.target in Ids(s.nodes)
  }

  function Removed(s: Saved, id: string): Saved {
    Saved(WithoutNode(s.nodes, id), WithoutLinks(s.edges, id))
  }

  /** Removing takes away the id and its edges and nothing else, and leaves no edge without its ends. */
  lemma RemovedIs(s: Saved, id: string)
    ensures var r := Removed(s, id);
            && Ids(r.nodes) == Ids(s.nodes) - {id}
            && (forall e :: e in r.edges <==> e in s.edges && e.source != id && e.target != id)
            && (Tidy(s) ==> Tidy(r))
            && (Closed(s) ==> Closed(r))
  {
    hide WithoutNode, WithoutLinks, UniqueIds, NoLoops, NoRepeats;
    if Tidy(s) { WithoutLinksKeepsTidy(s.edges, id); }
    WithoutNodeIs(s.nodes, id);
    WithoutLinksIs(s.edges, id);
    var r := Removed(s, id);
    forall x ensures x in Ids(r.nodes) <==> x in Ids(s.nodes) && x != id {
      if x in Ids(s.nodes) && x != id {
        var n :| n in s.nodes && n.id == x;
        assert n in r.nodes;
      }
    }
  }

  // --- Edges without their ends ---

  predicate Joins(l: (string, string), ids: set<string>) { l.0 in ids && l.1 in ids }

  /** A merge leaves no edge without its ends exactly when every edge, of the board or new and no loop,
      has its ends among the ids of both. */
  lemma MergedCloses(text: Text, s: Saved, nodes: seq<NodeItem>, edges: seq<EdgeItem>)
    ensures var ids := Ids(s.nodes) + CleanIds(text, nodes);
            && (Closed(Merged(text, s, nodes, edges)) <==>
                  forall l :: l in Links(s.edges) + CleanLinks(text, edges) ==> Joins(l, ids))
            && (Closed(s) ==>
                  (Closed(Merged(text, s, nodes, edges)) <==>
                     forall l :: l in CleanLinks(text, edges) ==> Joins(l, ids)))
  {
    hide Ids, CleanIds, CleanLinks, Merged;
    MergeIsUnion(text, s, nodes, edges);
    ClosedLinks(s);
    ClosedLinks(Merged(text, s, nodes, edges));
  }

  lemma ClosedLinks(s: Saved)
    ensures Closed(s) <==> forall l :: l in Links(s.edges) ==> Joins(l, Ids(s.nodes))
  {
    hide Ids;
    forall e | e in s.edges ensures Ends(e) in Links(s.edges) {
    }
  }

  /** Ids of nodes are trimmed and ends of edges are not: merging an untrimmed node with an edge from
      it into any board leaves the edge without its end, unless the board has that very id. */
  lemma UntrimmedEnd(text: Text, s: Saved, id: string, other: string)
    requires text.lower(id) != text.lower(other) && Clean(text, id) != text.lower(id)
    requires text.lower(id) !in Ids(s.nodes) && Clean(text, other) != text.lower(id)
    ensures var nodes := [NodeItem(id, "", "", false), NodeItem(other, "", "", false)];
            !Closed(Merged(text, s, nodes, [EdgeItem(id, other, "")]))
  {
    hide Ids, Merged;
    var nodes, edges := [NodeItem(id, "", "", false), NodeItem(other, "", "", false)], [EdgeItem(id, other, "")];
    MergedCloses(text, s, nodes, edges);
    var l := (text.lower(id), text.lower(other));
    assert edges[0] in edges;
    assert l in Links(s.edges) + CleanLinks(text, edges);
    assert text.lower(id) !in CleanIds(text, nodes);
    assert !Joins(l, Ids(s.nodes) + CleanIds(text, nodes));
  }

  // --- The live board ---

  class InvestigationBoard {
    const text: Text
    var nodes: seq<Node>
    var edges: seq<Edge>
    var undoStack: seq<Saved>
    var redoStack: seq<Saved>

    /** What `serialize` gives. */
    ghost function Graph(): Saved
      reads this
    {
      Serialize(nodes, edges)
    }

    ghost function Hist(): History<Saved>
      reads this
    {
      History(Graph(), undoStack, redoStack)
    }

    ghost predicate Valid()
      reads this
    {
      |undoStack| + |redoStack| <= CAP
    }

    /** The board and everything that can be undone or redone to is tidy. */
    ghost predicate AllTidy()
      reads this
    {
      && Tidy(Graph())
      && (forall s :: s in undoStack ==> Tidy(s))
      && (forall s :: s in redoStack ==> Tidy(s))
    }

    /** `newBoard` */
    constructor (text: Text)
      ensures Valid() && AllTidy() && this.text == text
      ensures Hist() == History(Saved([], []), [], [])
    {
      this.text := text;
      nodes, edges, undoStack, redoStack := [], [], [], [];
    }

    /** `addNode`; the result is where the node is, unless its id is empty. */
    method AddNode(item: NodeItem) returns (found: Option<nat>)
      modifies `nodes
      ensures Graph() == old(Graph()).(nodes := WithNode(text, old(Graph()).nodes, item))
      ensures match found
              case None => Clean(text, item.id) == ""
              case Some(i) =>
                i < |nodes| && nodes[i].kept.id == Clean(text, item.id) && (item.root ==> nodes[i].kept.root)
      ensures |nodes| >= |old(nodes)| && forall i :: 0 <= i < |old(nodes)| ==> nodes[i].live == old(nodes)[i].live
      ensures old(Tidy(Graph())) ==> Tidy(Graph())
    {
      hide Clean, Slice, UniqueIds, NoLoops, NoRepeats;
      ghost var before := Graph().nodes;
      if Tidy(Graph()) { NodeKeepsUnique(text, before, item); }
      var id := Clean(text, item.id);
      if id == "" { return None; }
      var i := NodeById(id);
      if i < |nodes| {
        if item.root { nodes := nodes[i := nodes[i].(kept := nodes[i].kept.(root := true))]; }
      } else {
        nodes := nodes + [Node(NewNode(text, item), 0)];
      }
      assert Graph().nodes == WithNode(text, before, item);
      return Some(i);
    }

    method NodeById(id: string) returns (i: nat)
      ensures i == Find(Graph().nodes, id)
    {
      i := 0;
      while i < |nodes| && nodes[i].kept.id != id
        invariant i <= |nodes| && forall j :: 0 <= j < i ==> nodes[j].kept.id != id
      {
        i := i + 1;
      }
      ghost var f := Find(Graph().nodes, id);
      assert f < |nodes| ==> Graph().nodes[f].id == nodes[f].kept.id;
      assert i < |nodes| ==> Graph().nodes[i].id == id;
    }

    /** `addEdge` */
    method AddEdge(item: EdgeItem, manual: bool) returns (made: bool)
      modifies `edges
      ensures Graph() == old(Graph()).(edges := WithEdge(text, old(Graph()).edges, item, manual))
      ensures made <==> |edges| == |old(edges)| + 1
      ensures old(Tidy(Graph())) ==> Tidy(Graph())
    {
      hide UniqueIds, NoLoops, NoRepeats;
      ghost var before := Graph().edges;
      if Tidy(Graph()) { EdgeKeepsTidy(text, before, item, manual); }
      var s, t := text.lower(item.source), text.lower(item.target);
      if s == t { return false; }
      for i := 0 to |edges|
        invariant forall j :: 0 <= j < i ==> !(before[j].source == s && before[j].target == t)
      {
        assert before[i] == Keep(edges[i]);
        if edges[i].source.id == s && edges[i].target.id == t {
          assert HasLink(before, s, t);
          return false;
        }
      }
      assert !HasLink(before, s, t);
      edges := edges + [Edge(ById(s), ById(t), if item.rel != "" then item.rel else "related", manual, 0)];
      assert Graph().edges == WithEdge(text, before, item, manual);
      return true;
    }

    /** `snapshot`: the change that follows it is then an edit. */
    method Snapshot()
      requires Valid()
      modifies `undoStack, `redoStack
      ensures Valid() && (old(AllTidy()) ==> AllTidy())
      ensures Hist() == Edit(old(Hist()), Graph())
    {
      ghost var before := undoStack + [Graph()];
      undoStack := undoStack + [Serialize(nodes, edges)];
      if |undoStack| > 40 { undoStack := undoStack[1..]; }
      redoStack := [];
      assert forall s :: s in undoStack ==> s in before;
    }

    /** `restoreState` */
    method RestoreState(json: Saved)
      modifies `nodes, `edges
      ensures Graph() == json
    {
      nodes, edges := RestoredNodes(json), RestoredEdges(json);
      SaveRestored(json);
    }

    /** `undo` */
    method UndoOnce()
      requires Valid()
      modifies this
      ensures Valid() && (old(AllTidy()) ==> AllTidy())
      ensures Hist() == Undo(old(Hist()))
    {
      hide Tidy, Serialize;
      if |undoStack| == 0 { return; }
      redoStack := redoStack + [Serialize(nodes, edges)];
      var top := undoStack[|undoStack| - 1];
      undoStack := undoStack[..|undoStack| - 1];
      RestoreState(top);
    }

    /** `redo` */
    method RedoOnce()
      requires Valid()
      modifies this
      ensures Valid() && (old(AllTidy()) ==> AllTidy())
      ensures Hist() == Redo(old(Hist()))
    {
      hide Tidy, Serialize;
      if |redoStack| == 0 { return; }
      undoStack := undoStack + [Serialize(nodes, edges)];
      var top := redoStack[|redoStack| - 1];
      redoStack := redoStack[..|redoStack| - 1];
      RestoreState(top);
    }

    /** `loadBoard`: whatever was stored becomes the board, and there is nothing to undo. */
    method LoadBoard(stored: Option<Saved>)
      modifies this
      ensures Valid()
      ensures Hist() == History(if stored.Some? then stored.value else Saved([], []), [], [])
      ensures AllTidy() <==> Tidy(Graph())
    {
      hide Tidy;
      RestoreState(if stored.Some? then stored.value else Saved([], []));
      undoStack, redoStack := [], [];
    }

    /** `removeNode` */
    method RemoveNode(id: string)
      requires Valid()
      modifies this
      ensures Valid() && (old(AllTidy()) ==> AllTidy())
      ensures Hist() == Edit(old(Hist()), Removed(old(Graph()), id))
    {
      hide Tidy, WithoutNode, WithoutLinks;
      RemovedIs(Graph(), id);
      ghost var before := Graph();
      Snapshot();
      nodes := FilterNodes(nodes, edges, id);
      edges := FilterEdges([], edges, id);
      assert Graph() == Removed(before, id);
    }

    /** `mergeBoard`, from the answer of the server on; None is an answer that is no board. */
    method MergeBoard(other: Option<(seq<NodeItem>, seq<EdgeItem>)>) returns (added: int)
      requires Valid()
      modifies this
      ensures Valid() && (old(AllTidy()) ==> AllTidy())
      ensures other.None? ==> Hist() == old(Hist())
      ensures other.Some? ==>
        Hist() == Edit(old(Hist()), Merged(text, old(Graph()), other.value.0, other.value.1))
      ensures other.Some? && old(Tidy(Graph())) ==>
        added == |CleanIds(text, other.value.0) - Ids(old(Graph()).nodes)|
    {
      hide UniqueIds, NoLoops, NoRepeats, WithNode, WithEdge, Clean, Serialize, CleanIds, Ids;
      if other.None? { return 0; }
      var (ns, es) := other.value;
      ghost var before := Graph();
      Snapshot();
      ghost var stacks := (undoStack, redoStack);
      var count := |nodes|;
      for i := 0 to |ns|
        invariant Graph() == before.(nodes := WithNodes(text, before.nodes, ns[..i]))
        invariant Tidy(before) ==> Tidy(Graph())
        invariant stacks == (undoStack, redoStack)
      {
        var _ := AddNode(ns[i]);
        assert ns[..i + 1][..i] == ns[..i];
      }
      assert ns[..|ns|] == ns;
      for i := 0 to |es|
        invariant Graph() == Saved(WithNodes(text, before.nodes, ns), WithEdges(text, before.edges, es[..i]))
        invariant Tidy(before) ==> Tidy(Graph())
        invariant stacks == (undoStack, redoStack)
      {
        var _ := AddEdge(es[i], false);
        assert es[..i + 1][..i] == es[..i];
      }
      assert es[..|es|] == es;
      added := |nodes| - count;
      if Tidy(before) { MergedCount(text, before.nodes, ns); }
    }
  }

  /** `filter` over the nodes */
  function FilterNodes(nodes: seq<Node>, edges: seq<Edge>, id: string): (r: seq<Node>)
    ensures Serialize(r, edges).nodes == WithoutNode(Serialize(nodes, edges).nodes, id)
  {
    if |nodes| == 0 then []
    else
      var front := FilterNodes(nodes[..|nodes| - 1], edges, id);
      assert Serialize(nodes, edges).nodes[..|nodes| - 1] == Serialize(nodes[..|nodes| - 1], edges).nodes;
      assert Serialize(front + [nodes[|nodes| - 1]], edges).nodes ==
             Serialize(front, edges).nodes + [nodes[|nodes| - 1].kept];
      if nodes[|nodes| - 1].kept.id != id then front + [nodes[|nodes| - 1]] else front
  }

  /** `filter` over the edges */
  function FilterEdges(nodes: seq<Node>, edges: seq<Edge>, id: string): (r: seq<Edge>)
    ensures Serialize(nodes, r).edges == WithoutLinks(Serialize(nodes, edges).edges, id)
  {
    if |edges| == 0 then []
    else
      var front, e := FilterEdges(nodes, edges[..|edges| - 1], id), edges[|edges| - 1];
      assert Serialize(nodes, edges).edges[..|edges| - 1] == Serialize(nodes, edges[..|edges| - 1]).edges;
      assert Serialize(nodes, front + [e]).edges == Serialize(nodes, front).edges + [Keep(e)];
      if e.source.id != id && e.target.id != id then front + [e] else front
  }
}
