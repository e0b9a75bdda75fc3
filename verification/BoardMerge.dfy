/** What is on a board after a merge, node by node and edge by edge, from the items that were merged. */
module BoardMerge {
  import opened Strings
  import opened Board

  // --- Nodes ---

  /** The id under which a node is kept: trimmed, and in lower case. */
  function Key(text: Text, id: string): string {
    text.lower(text.trim(id))
  }

  lemma KeyIsClean(text: Text, id: string)
    ensures Key(text, id) == Clean(text, id)
  {
  }

  /** Item k is the first with that clean id. */
  predicate FirstItem(text: Text, items: seq<NodeItem>, id: string, k: int) {
    && 0 <= k < |items| && Key(text, items[k].id) == id
    && forall j :: 0 <= j < k ==> Key(text, items[j].id) != id
  }

  predicate SomeRoot(text: Text, items: seq<NodeItem>, id: string) {
    id != "" && exists k :: 0 <= k < |items| && Key(text, items[k].id) == id && items[k].root
  }

  /** Node i is the first with its id. */
  predicate FirstNode(nodes: seq<SavedNode>, i: int) {
    0 <= i < |nodes| && forall j :: 0 <= j < i ==> nodes[j].id != nodes[i].id
  }

  /** The first 48 characters, or all of them. */
  predicate Shortened(short: string, full: string) {
    short <= full && |short| == if |full| <= 48 then |full| else 48
  }

  /** A node as its first item has it, with what a new node starts with. */
  predicate MadeFrom(text: Text, n: SavedNode, item: NodeItem) {
    && Shortened(n.caption, if item.caption == "" then n.id else item.caption)
    && n.etype == (if item.etype == "" then text.inferType(n.id) else item.etype)
    && !n.expanded && !n.isNew && n.x.None? && n.y.None? && n.status == "" && n.note == ""
  }

  ghost predicate IsNewNode(text: Text, items: seq<NodeItem>, n: SavedNode) {
    && n.id != "" && (exists k :: FirstItem(text, items, n.id, k) && MadeFrom(text, n, items[k]))
    && (n.root <==> SomeRoot(text, items, n.id))
  }

  /** An old node: only its root flag may have been set, by an item with its id. */
  ghost predicate IsOldNode(text: Text, nodes: seq<SavedNode>, items: seq<NodeItem>, i: nat, n: SavedNode)
    requires i < |nodes|
  {
    n == nodes[i].(root := nodes[i].root || (FirstNode(nodes, i) && SomeRoot(text, items, nodes[i].id)))
  }

  ghost predicate AreMerged(text: Text, nodes: seq<SavedNode>, items: seq<NodeItem>, r: seq<SavedNode>) {
    && |nodes| <= |r|
    && (forall i :: 0 <= i < |nodes| ==> IsOldNode(text, nodes, items, i, r[i]))
    && (forall i :: |nodes| <= i < |r| ==> IsNewNode(text, items, r[i]))
    && (forall i, j :: 0 <= i < j < |r| && |nodes| <= j ==> r[i].id != r[j].id)
  }

  lemma RootNext(text: Text, front: seq<NodeItem>, last: NodeItem, id: string)
    ensures SomeRoot(text, front + [last], id) <==>
      SomeRoot(text, front, id) || (id != "" && Key(text, last.id) == id && last.root)
  {
    hide Key;
    var items := front + [last];
    if SomeRoot(text, front, id) {
      var k :| 0 <= k < |front| && Key(text, front[k].id) == id && front[k].root;
      assert items[k] == front[k];
    }
    assert items[|front|] == last;
  }

  lemma FirstStays(text: Text, front: seq<NodeItem>, last: NodeItem, id: string, k: int)
    requires FirstItem(text, front, id, k)
    ensures FirstItem(text, front + [last], id, k) && (front + [last])[k] == front[k]
  {
    hide Key;
  }

  lemma NewStays(text: Text, front: seq<NodeItem>, last: NodeItem, n: SavedNode)
    requires IsNewNode(text, front, n)
    ensures IsNewNode(text, front + [last], n.(root := n.root || (Key(text, last.id) == n.id && last.root)))
  {
    hide Key, Clean, MadeFrom, SomeRoot;
    var k :| FirstItem(text, front, n.id, k) && MadeFrom(text, n, front[k]);
    FirstStays(text, front, last, n.id, k);
    RootNext(text, front, last, n.id);
    var m := n.(root := n.root || (Key(text, last.id) == n.id && last.root));
    MadeRoot(text, n, front[k], m.root);
  }

  lemma MadeRoot(text: Text, n: SavedNode, item: NodeItem, root: bool)
    requires MadeFrom(text, n, item)
    ensures MadeFrom(text, n.(root := root), item)
  {
  }

  lemma OldStays(text: Text, nodes: seq<SavedNode>, front: seq<NodeItem>, last: NodeItem, i: nat, n: SavedNode)
    requires i < |nodes| && IsOldNode(text, nodes, front, i, n)
    ensures IsOldNode(text, nodes, front + [last], i,
                      n.(root := n.root ||
                        (FirstNode(nodes, i) && n.id != "" && Key(text, last.id) == n.id && last.root)))
  {
    hide Key, Clean, SomeRoot, FirstNode;
    RootNext(text, front, last, nodes[i].id);
  }

  lemma MadeNew(text: Text, item: NodeItem)
    ensures NewNode(text, item).id == Key(text, item.id) && NewNode(text, item).root == item.root
    ensures MadeFrom(text, NewNode(text, item), item)
  {
    KeyIsClean(text, item.id);
    hide Key;
  }

  lemma CleanIsIn(text: Text, items: seq<NodeItem>, j: nat)
    requires j < |items|
    ensures Key(text, items[j].id) == "" || Key(text, items[j].id) in CleanIds(text, items)
  {
    KeyIsClean(text, items[j].id);
    hide Key;
    assert items[j] in items;
  }

  /** A node that is appended is new in every respect. */
  lemma Appended(text: Text, nodes: seq<SavedNode>, front: seq<NodeItem>, last: NodeItem, r: seq<SavedNode>)
    requires AreMerged(text, nodes, front, r) && CleanIds(text, front) <= Ids(r)
    requires Key(text, last.id) != "" && forall j :: 0 <= j < |r| ==> r[j].id != Key(text, last.id)
    ensures IsNewNode(text, front + [last], NewNode(text, last))
  {
    KeyIsClean(text, last.id);
    hide Key, Clean, MadeFrom, AreMerged, NewNode;
    var items, n := front + [last], NewNode(text, last);
    MadeNew(text, last);
    RootNext(text, front, last, n.id);
    assert n.id !in Ids(r);
    forall j | 0 <= j < |front| ensures Key(text, items[j].id) != n.id {
      assert items[j] == front[j];
      CleanIsIn(text, front, j);
    }
    assert FirstItem(text, items, n.id, |front|) && items[|front|] == last;
    assert !SomeRoot(text, front, n.id) by {
      assert forall k :: 0 <= k < |front| ==> items[k] == front[k];
    }
  }

  lemma MergeOne(text: Text, nodes: seq<SavedNode>, front: seq<NodeItem>, last: NodeItem, r: seq<SavedNode>)
    requires AreMerged(text, nodes, front, r) && CleanIds(text, front) <= Ids(r)
    ensures AreMerged(text, nodes, front + [last], WithNode(text, r, last))
  {
    KeyIsClean(text, last.id);
    hide Key, Clean, IsNewNode, IsOldNode, NewNode, CleanIds, Ids;
    var id, items, s := Key(text, last.id), front + [last], WithNode(text, r, last);
    var found := Find(r, id);
    assert forall i :: 0 <= i < |nodes| ==> r[i].id == nodes[i].id by { OldIds(text, nodes, front, r); }
    if id != "" && found == |r| {
      Appended(text, nodes, front, last, r);
      MadeNew(text, last);
    }
    forall i | 0 <= i < |nodes| ensures IsOldNode(text, nodes, items, i, s[i]) {
      OldStays(text, nodes, front, last, i, r[i]);
    }
    forall i | |nodes| <= i < |r| ensures IsNewNode(text, items, s[i]) {
      NewStays(text, front, last, r[i]);
      NewHasId(text, front, r[i]);
    }
  }

  lemma OldIds(text: Text, nodes: seq<SavedNode>, items: seq<NodeItem>, r: seq<SavedNode>)
    requires AreMerged(text, nodes, items, r)
    ensures forall i :: 0 <= i < |nodes| ==> r[i].id == nodes[i].id
  {
    hide IsNewNode;
  }

  lemma NewHasId(text: Text, items: seq<NodeItem>, n: SavedNode)
    requires IsNewNode(text, items, n)
    ensures n.id != ""
  {
  }

  /** After a merge every old node is as it was but for its root flag, which is set exactly when an item
      with its id is a root; and every new node has caption and type of the first item with its id, is a
      root exactly when one of them is, and has nothing else yet. */
  lemma {:induction false} MergedNodesAre(text: Text, nodes: seq<SavedNode>, items: seq<NodeItem>)
    ensures AreMerged(text, nodes, items, WithNodes(text, nodes, items))
  {
    hide AreMerged, WithNode;
    if |items| == 0 {
      NothingMerged(text, nodes);
    } else {
      var front, last := items[..|items| - 1], items[|items| - 1];
      MergedNodesAre(text, nodes, front);
      MergedNodes(text, nodes, front);
      MergeOne(text, nodes, front, last, WithNodes(text, nodes, front));
      assert items == front + [last];
    }
  }

  lemma NothingMerged(text: Text, nodes: seq<SavedNode>)
    ensures AreMerged(text, nodes, [], nodes)
  {
  }

  /** The same of one node that is added. */
  lemma AddedNodeIs(text: Text, nodes: seq<SavedNode>, item: NodeItem)
    ensures AreMerged(text, nodes, [item], WithNode(text, nodes, item))
  {
    hide AreMerged, WithNode;
    MergedNodesAre(text, nodes, [item]);
    assert [item][..0] == [];
    assert WithNodes(text, nodes, [item][..0]) == nodes;
  }

  // --- Edges ---

  predicate FirstLink(text: Text, items: seq<EdgeItem>, e: SavedEdge, k: int) {
    && 0 <= k < |items| && text.lower(items[k].source) == e.source && text.lower(items[k].target) == e.target
    && forall j :: 0 <= j < k ==> !(text.lower(items[j].source) == e.source && text.lower(items[j].target) == e.target)
  }

  /** An edge as the first item with its ends has it. */
  ghost predicate IsNewEdge(text: Text, items: seq<EdgeItem>, e: SavedEdge) {
    && e.source != e.target && !e.manual
    && exists k :: FirstLink(text, items, e, k) && e.rel == if items[k].rel == "" then "related" else items[k].rel
  }

  ghost predicate AreLinked(text: Text, edges: seq<SavedEdge>, items: seq<EdgeItem>, r: seq<SavedEdge>) {
    edges <= r && forall i :: |edges| <= i < |r| ==> IsNewEdge(text, items, r[i])
  }

  lemma EdgeStays(text: Text, front: seq<EdgeItem>, last: EdgeItem, e: SavedEdge)
    requires IsNewEdge(text, front, e)
    ensures IsNewEdge(text, front + [last], e)
  {
    var k :| FirstLink(text, front, e, k) && e.rel == if front[k].rel == "" then "related" else front[k].rel;
    assert forall j :: 0 <= j <= k ==> (front + [last])[j] == front[j];
    assert FirstLink(text, front + [last], e, k);
  }

  lemma EdgeAppended(text: Text, front: seq<EdgeItem>, last: EdgeItem, r: seq<SavedEdge>)
    requires CleanLinks(text, front) <= Links(r)
    requires var s, t := text.lower(last.source), text.lower(last.target); s != t && !HasLink(r, s, t)
    ensures var s, t := text.lower(last.source), text.lower(last.target);
            IsNewEdge(text, front + [last], SavedEdge(s, t, if last.rel != "" then last.rel else "related", false))
  {
    var s, t, items := text.lower(last.source), text.lower(last.target), front + [last];
    NoLink(r, s, t);
    var e := SavedEdge(s, t, if last.rel != "" then last.rel else "related", false);
    forall j | 0 <= j < |front| ensures !(text.lower(items[j].source) == s && text.lower(items[j].target) == t) {
      assert items[j] == front[j];
      LinkIsIn(text, front, j);
    }
    assert items[|front|] == last;
    assert FirstLink(text, items, e, |front|);
  }

  lemma NoLink(r: seq<SavedEdge>, s: string, t: string)
    requires !HasLink(r, s, t)
    ensures (s, t) !in Links(r)
  {
  }

  lemma LinkIsIn(text: Text, items: seq<EdgeItem>, j: nat)
    requires j < |items|
    ensures var s, t := text.lower(items[j].source), text.lower(items[j].target);
            s == t || (s, t) in CleanLinks(text, items)
  {
    assert items[j] in items;
  }

  /** After a merge every old edge is as it was, and every new one has the relation of the first item
      with its ends and was not drawn by hand. */
  lemma {:induction false} MergedEdgesAre(text: Text, edges: seq<SavedEdge>, items: seq<EdgeItem>)
    ensures AreLinked(text, edges, items, WithEdges(text, edges, items))
  {
    hide IsNewEdge, CleanLinks, Links, HasLink;
    if |items| == 0 {
    } else {
      var front, last := items[..|items| - 1], items[|items| - 1];
      var r, s := WithEdges(text, edges, front), WithEdges(text, edges, items);
      MergedEdgesAre(text, edges, front);
      MergedEdges(text, edges, front);
      assert items == front + [last];
      forall i | |edges| <= i < |r| ensures IsNewEdge(text, items, s[i]) { EdgeStays(text, front, last, r[i]); }
      if |s| > |r| { EdgeAppended(text, front, last, r); }
    }
  }
}
