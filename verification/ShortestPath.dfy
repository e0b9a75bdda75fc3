/** The connection finder of an investigation board: breadth-first search over the visible,
    undirected graph, and the walk back along the parents. */
module ShortestPath {
  import opened Sets
  import opened PlainObjects

  datatype Id = Id(text: string)

  datatype Node = Node(id: Id, etype: string)

  /** An edge, its ends already reduced to ids. */
  datatype Edge = Edge(source: Id, target: Id)

  /** What the queue, the parents and the returned array hold: an id, or JavaScript's `undefined`. */
  datatype Value = Text(id: Id) | Undefined

  /** The outcome of a search: an array, null, a TypeError, or a walk back that has come to an object
      which is no parent, so that whatever it does further it returns no array of ids. */
  datatype Route = Path(values: seq<Value>) | NotConnected | TypeError | Astray

  const UNDEFINED := Id("undefined")

  /** The property name that a value becomes. */
  function Key(v: Value): Id {
    if v.Text? then v.id else UNDEFINED
  }

  function Keys(vs: seq<Value>): (ids: seq<Id>)
    ensures |ids| == |vs| && forall i :: 0 <= i < |vs| ==> ids[i] == Key(vs[i])
  {
    seq(|vs|, i requires 0 <= i < |vs| => Key(vs[i]))
  }

  // --- Plain objects ---

  predicate Inherited(name: Id) { IsInherited(name.text) }

  /** The `length` of an inherited value: the number of parameters of the function, and for
      `__proto__`, which has none, what a loop up to it makes of that. */
  function Arity(name: Id): nat {
    if name.text in {"__defineGetter__", "__defineSetter__"} then 2
    else if name.text in {"constructor", "__lookupGetter__", "__lookupSetter__", "hasOwnProperty", "isPrototypeOf",
                          "propertyIsEnumerable"} then 1
    else 0
  }

  /** The inherited names by the number of their parameters. */
  lemma ArityIs(name: Id)
    ensures Inherited(name) && Arity(name) == 0 <==>
      name.text in {"__proto__", "toLocaleString", "toString", "valueOf"}
    ensures Inherited(name) && Arity(name) == 1 <==>
      name.text in {"constructor", "__lookupGetter__", "__lookupSetter__", "hasOwnProperty", "isPrototypeOf",
                    "propertyIsEnumerable"}
    ensures Inherited(name) && Arity(name) == 2 <==> name.text in {"__defineGetter__", "__defineSetter__"}
    ensures Arity(name) <= 2
  {
  }

  /** A start whose inherited value looks like an array of undefined neighbours. */
  predicate Misleads(a: Id) { Inherited(a) && Arity(a) > 0 }

  // --- The graph ---

  /** `nodeById`: the first node of that id. */
  function NodeById(nodes: seq<Node>, id: Id): (r: seq<Node>)
    ensures |r| <= 1
    ensures |r| == 1 <==> exists i :: 0 <= i < |nodes| && nodes[i].id == id
  {
    if |nodes| == 0 then [] else if nodes[0].id == id then [nodes[0]] else NodeById(nodes[1..], id)
  }

  predicate IsShown(nodes: seq<Node>, hidden: string -> bool, id: Id) {
    var found := NodeById(nodes, id);
    |found| == 1 && !hidden(found[0].etype)
  }

  predicate IsVisible(nodes: seq<Node>, hidden: string -> bool, e: Edge) {
    IsShown(nodes, hidden, e.source) && IsShown(nodes, hidden, e.target)
  }

  /** The visible edges, in order. */
  function Visible(nodes: seq<Node>, edges: seq<Edge>, hidden: string -> bool): (r: seq<Edge>)
    ensures forall e :: e in r <==> e in edges && IsVisible(nodes, hidden, e)
  {
    if |edges| == 0 then []
    else
      var e := edges[|edges| - 1];
      var front := Visible(nodes, edges[..|edges| - 1], hidden);
      assert forall x :: x in edges <==> x in edges[..|edges| - 1] || x == e;
      if IsVisible(nodes, hidden, e) then front + [e] else front
  }

  // --- What is visible ---

  /** The i-th node is the first of its id, and its type is not hidden. */
  predicate Shows(nodes: seq<Node>, hidden: string -> bool, id: Id, i: int) {
    && 0 <= i < |nodes| && nodes[i].id == id && !hidden(nodes[i].etype)
    && forall k :: 0 <= k < i ==> nodes[k].id != id
  }

  lemma {:induction false} ShownIff(nodes: seq<Node>, hidden: string -> bool, id: Id)
    ensures IsShown(nodes, hidden, id) <==> exists i :: Shows(nodes, hidden, id, i)
  {
    if |nodes| == 0 {
    } else if nodes[0].id == id {
      if IsShown(nodes, hidden, id) { assert Shows(nodes, hidden, id, 0); }
    } else {
      var rest := nodes[1..];
      ShownIff(rest, hidden, id);
      assert IsShown(nodes, hidden, id) <==> IsShown(rest, hidden, id);
      if i :| Shows(rest, hidden, id, i) { assert Shows(nodes, hidden, id, i + 1); }
      if i :| Shows(nodes, hidden, id, i) {
        assert forall k :: 0 <= k < i - 1 ==> rest[k] == nodes[k + 1];
        assert Shows(rest, hidden, id, i - 1);
      }
    }
  }

  /** An edge is visible exactly when each end is the id of a node, the first of which has a type that
      is not hidden. */
  lemma VisibleIff(nodes: seq<Node>, edges: seq<Edge>, hidden: string -> bool, e: Edge)
    ensures e in Visible(nodes, edges, hidden) <==>
      e in edges && (exists i :: Shows(nodes, hidden, e.source, i)) && (exists j :: Shows(nodes, hidden, e.target, j))
  {
    hide IsShown, Shows, Visible;
    ShownIff(nodes, hidden, e.source);
    ShownIff(nodes, hidden, e.target);
  }

  predicate IsNode(nodes: seq<Node>, id: Id) {
    exists i :: 0 <= i < |nodes| && nodes[i].id == id
  }

  lemma FirstShows(nodes: seq<Node>, hidden: string -> bool, id: Id)
    requires IsNode(nodes, id) && forall n :: n in nodes ==> !hidden(n.etype)
    ensures IsShown(nodes, hidden, id)
  {
    NodeByIdIn(nodes, id);
  }

  lemma {:induction false} NodeByIdIn(nodes: seq<Node>, id: Id)
    ensures forall n :: n in NodeById(nodes, id) ==> n in nodes && n.id == id
  {
    if |nodes| == 0 || nodes[0].id == id {
    } else {
      NodeByIdIn(nodes[1..], id);
    }
  }

  /** With nothing hidden and all ends on the board, all edges are visible. */
  lemma {:induction false} AllVisible(nodes: seq<Node>, edges: seq<Edge>, hidden: string -> bool)
    requires forall n :: n in nodes ==> !hidden(n.etype)
    requires forall e :: e in edges ==> IsNode(nodes, e.source) && IsNode(nodes, e.target)
    ensures Visible(nodes, edges, hidden) == edges
  {
    hide IsShown;
    if |edges| == 0 {
    } else {
      var e := edges[|edges| - 1];
      AllVisible(nodes, edges[..|edges| - 1], hidden);
      FirstShows(nodes, hidden, e.source);
      FirstShows(nodes, hidden, e.target);
      assert edges == edges[..|edges| - 1] + [e];
    }
  }

  function HidingToo(hidden: string -> bool, etype: string): string -> bool {
    t => hidden(t) || t == etype
  }

  /** Hiding one more type takes away exactly the edges with an end of that type. */
  lemma HideOne(nodes: seq<Node>, edges: seq<Edge>, hidden: string -> bool, etype: string, e: Edge)
    ensures var more := HidingToo(hidden, etype);
            e in Visible(nodes, edges, more) <==>
              && e in Visible(nodes, edges, hidden)
              && forall i :: (Shows(nodes, hidden, e.source, i) || Shows(nodes, hidden, e.target, i)) ==>
                               nodes[i].etype != etype
  {
    hide Visible, IsShown;
    var more := HidingToo(hidden, etype);
    VisibleIff(nodes, edges, hidden, e);
    VisibleIff(nodes, edges, more, e);
    HideOneEnd(nodes, hidden, etype, e.source);
    HideOneEnd(nodes, hidden, etype, e.target);
  }

  lemma HideOneEnd(nodes: seq<Node>, hidden: string -> bool, etype: string, id: Id)
    ensures (exists i :: Shows(nodes, HidingToo(hidden, etype), id, i)) <==>
      && (exists i :: Shows(nodes, hidden, id, i))
      && forall i :: Shows(nodes, hidden, id, i) ==> nodes[i].etype != etype
  {
    var more := HidingToo(hidden, etype);
    OneFirst(nodes, hidden, id);
    if i :| Shows(nodes, more, id, i) { assert Shows(nodes, hidden, id, i); }
    if i :| Shows(nodes, hidden, id, i) && nodes[i].etype != etype { assert Shows(nodes, more, id, i); }
  }

  lemma OneFirst(nodes: seq<Node>, hidden: string -> bool, id: Id)
    ensures forall i, j :: Shows(nodes, hidden, id, i) && Shows(nodes, hidden, id, j) ==> i == j
  {
  }

  predicate Adjacent(shown: seq<Edge>, u: Id, v: Id) {
    Edge(u, v) in shown || Edge(v, u) in shown
  }

  predicate Touches(shown: seq<Edge>) {
    exists e :: e in shown && (Inherited(e.source) || Inherited(e.target))
  }

  ghost predicate IsPath(shown: seq<Edge>, p: seq<Id>, a: Id, b: Id) {
    && |p| > 0 && p[0] == a && p[|p| - 1] == b
    && forall i :: 0 <= i < |p| - 1 ==> Adjacent(shown, p[i], p[i + 1])
  }

  ghost predicate Simple(p: seq<Id>) {
    forall i, j :: 0 <= i < j < |p| ==> p[i] != p[j]
  }

  /** A route is right when it is a simple path and none is shorter, or when there is no path. */
  ghost predicate IsShortest(shown: seq<Edge>, p: seq<Id>, a: Id, b: Id) {
    && IsPath(shown, p, a, b) && Simple(p)
    && forall other :: IsPath(shown, other, a, b) ==> |p| <= |other|
  }

  ghost predicate Connected(shown: seq<Edge>, a: Id, b: Id) {
    exists p :: IsPath(shown, p, a, b)
  }

  // --- The adjacency lists ---

  type Lists = map<Id, seq<Id>>

  ghost predicate ListsOf(adj: Lists, shown: seq<Edge>) {
    && (forall u, v :: (u in adj && v in adj[u]) <==> Adjacent(shown, u, v))
    && (forall u :: u in adj ==> |adj[u]| > 0)
  }

  /** `(adj[s] || (adj[s] = [])).push(t)` */
  function Pushed(adj: Lists, s: Id, t: Id): Lists
  {
    adj[s := (if s in adj then adj[s] else []) + [t]]
  }

  lemma ListsGrow(adj: Lists, shown: seq<Edge>, e: Edge)
    requires ListsOf(adj, shown)
    ensures ListsOf(Pushed(Pushed(adj, e.source, e.target), e.target, e.source), shown + [e])
  {
    hide Pushed;
    var more := shown + [e];
    assert forall x :: x in more <==> x in shown || x == e;
    var r := Pushed(Pushed(adj, e.source, e.target), e.target, e.source);
    forall u, v ensures (u in r && v in r[u]) <==> Adjacent(more, u, v) {
      PushedIs(adj, e.source, e.target, u, v);
      PushedIs(Pushed(adj, e.source, e.target), e.target, e.source, u, v);
      assert Adjacent(shown, u, v) <==> u in adj && v in adj[u];
    }
    PushedSome(adj, e.source, e.target);
    PushedSome(Pushed(adj, e.source, e.target), e.target, e.source);
  }

  lemma PushedSome(adj: Lists, s: Id, t: Id)
    requires forall u :: u in adj ==> |adj[u]| > 0
    ensures var r := Pushed(adj, s, t); forall u :: u in r ==> |r[u]| > 0
  {
  }

  lemma PushedIs(adj: Lists, s: Id, t: Id, u: Id, v: Id)
    ensures var r := Pushed(adj, s, t);
            (u in r && v in r[u]) <==> (u in adj && v in adj[u]) || (u == s && v == t)
  {
  }

  /** The adjacency lists of the visible edges, unless one of them has an inherited name. */
  method BuildLists(nodes: seq<Node>, edges: seq<Edge>, hidden: string -> bool) returns (failed: bool, adj: Lists)
    ensures failed <==> Touches(Visible(nodes, edges, hidden))
    ensures !failed ==> ListsOf(adj, Visible(nodes, edges, hidden))
  {
    hide Inherited, IsVisible, ListsOf, Visible;
    adj := map[];
    NoLists(nodes, hidden);
    failed := false;
    for i := 0 to |edges|
      invariant !Touches(Visible(nodes, edges[..i], hidden))
      invariant ListsOf(adj, Visible(nodes, edges[..i], hidden))
    {
      var e := edges[i];
      VisibleNext(nodes, edges, hidden, i);
      if IsVisible(nodes, hidden, e) {
        if Inherited(e.source) || Inherited(e.target) {
          VisibleMonotone(nodes, edges, hidden, e);
          return true, adj;
        }
        ListsGrow(adj, Visible(nodes, edges[..i], hidden), e);
        adj := Pushed(Pushed(adj, e.source, e.target), e.target, e.source);
      }
    }
    assert edges[..|edges|] == edges;
  }

  lemma NoLists(nodes: seq<Node>, hidden: string -> bool)
    ensures Visible(nodes, [], hidden) == [] && ListsOf(map[], [])
  {
  }

  lemma VisibleNext(nodes: seq<Node>, edges: seq<Edge>, hidden: string -> bool, i: nat)
    requires i < |edges|
    ensures Visible(nodes, edges[..i + 1], hidden)
         == (var before := Visible(nodes, edges[..i], hidden);
             if IsVisible(nodes, hidden, edges[i]) then before + [edges[i]] else before)
  {
    assert edges[..i + 1][..i] == edges[..i];
  }

  lemma VisibleMonotone(nodes: seq<Node>, edges: seq<Edge>, hidden: string -> bool, e: Edge)
    requires e in edges && IsVisible(nodes, hidden, e) && (Inherited(e.source) || Inherited(e.target))
    ensures Touches(Visible(nodes, edges, hidden))
  {
    assert e in Visible(nodes, edges, hidden);
  }

  // --- The search ---

  /** Every id seen but the start has a parent one step nearer to the start. */
  ghost predicate IsTree(shown: seq<Edge>, a: Id, seen: set<Id>, prev: map<Id, Id>, dist: map<Id, nat>) {
    && a in seen && dist.Keys == seen && dist[a] == 0
    && forall v :: v in seen && v != a ==>
         v in prev && prev[v] in seen && dist[v] == dist[prev[v]] + 1 && Adjacent(shown, prev[v], v)
  }

  /** The queue holds what has been seen and not finished, nearest first, over two levels at most. */
  ghost predicate IsQueue(q: seq<Id>, seen: set<Id>, done: set<Id>, dist: map<Id, nat>, level: nat) {
    && dist.Keys == seen && done <= seen
    && (forall x :: x in q ==> x in seen && level <= dist[x] <= level + 1)
    && (forall i, j :: 0 <= i < j < |q| ==> dist[q[i]] <= dist[q[j]])
    && (forall x :: x in seen ==> x in done || x in q)
    && (forall x :: x in done ==> dist[x] <= level)
  }

  /** The neighbours of what is finished have been seen, at most one step further. */
  ghost predicate IsFinished(shown: seq<Edge>, done: set<Id>, dist: map<Id, nat>) {
    forall x, y :: x in done && Adjacent(shown, x, y) ==> x in dist && y in dist && dist[y] <= dist[x] + 1
  }

  /** What is known of the front of a path that starts where the search did. */
  lemma {:induction false} FrontIsNear(shown: seq<Edge>, p: seq<Id>, a: Id, b: Id, seen: set<Id>, done: set<Id>,
                                       prev: map<Id, Id>, dist: map<Id, nat>, bound: nat, i: nat)
    requires IsPath(shown, p, a, b) && i < |p| && i <= bound
    requires IsTree(shown, a, seen, prev, dist) && IsFinished(shown, done, dist)
    requires forall x :: x in dist && dist[x] < bound ==> x in done
    ensures p[i] in seen && dist[p[i]] <= i
  {
    if i == 0 {
    } else {
      FrontIsNear(shown, p, a, b, seen, done, prev, dist, bound, i - 1);
      assert Adjacent(shown, p[i - 1], p[i]);
    }
  }

  /** The distance of an id at which the queue has arrived is the least possible. */
  lemma Arrived(shown: seq<Edge>, a: Id, b: Id, seen: set<Id>, done: set<Id>, prev: map<Id, Id>, dist: map<Id, nat>)
    requires IsTree(shown, a, seen, prev, dist) && IsFinished(shown, done, dist)
    requires b in dist && forall x :: x in dist && dist[x] < dist[b] ==> x in done
    ensures forall p :: IsPath(shown, p, a, b) ==> |p| > dist[b]
  {
    hide IsTree, IsFinished, Adjacent;
    forall p | IsPath(shown, p, a, b) ensures |p| > dist[b] {
      if |p| <= dist[b] {
        TreeIs(shown, a, seen, prev, dist);
        FrontIsNear(shown, p, a, b, seen, done, prev, dist, dist[b], |p| - 1);
      }
    }
  }

  lemma TreeIs(shown: seq<Edge>, a: Id, seen: set<Id>, prev: map<Id, Id>, dist: map<Id, nat>)
    requires IsTree(shown, a, seen, prev, dist)
    ensures dist.Keys == seen && a in seen && dist[a] == 0
  {
  }

  lemma TreeParent(shown: seq<Edge>, a: Id, seen: set<Id>, prev: map<Id, Id>, dist: map<Id, nat>, v: Id)
    requires IsTree(shown, a, seen, prev, dist) && v in seen && v != a
    ensures v in prev && prev[v] in seen && dist[v] == dist[prev[v]] + 1 && Adjacent(shown, prev[v], v)
  {
  }

  /** What has not been seen when the queue is empty cannot be reached. */
  lemma Exhausted(shown: seq<Edge>, a: Id, b: Id, seen: set<Id>, prev: map<Id, Id>, dist: map<Id, nat>)
    requires IsTree(shown, a, seen, prev, dist) && IsFinished(shown, seen, dist)
    requires b !in seen
    ensures !Connected(shown, a, b)
  {
    forall p | IsPath(shown, p, a, b) ensures false {
      FrontIsNear(shown, p, a, b, seen, seen, prev, dist, |p|, |p| - 1);
    }
  }

  /** The ids of a path lie one step further each, counting from `from`. */
  ghost predicate Climbs(p: seq<Id>, dist: map<Id, nat>, from: nat) {
    forall i :: 0 <= i < |p| ==> p[i] in dist && dist[p[i]] == from + i
  }

  lemma Longer(shown: seq<Edge>, p: seq<Id>, u: Id, v: Id, b: Id, dist: map<Id, nat>)
    requires IsPath(shown, p, v, b) && Adjacent(shown, u, v)
    requires v in dist && u in dist && dist[v] == dist[u] + 1 && Climbs(p, dist, dist[v])
    ensures IsPath(shown, [u] + p, u, b) && Climbs([u] + p, dist, dist[u])
  {
    hide Adjacent;
  }

  // --- Parents ---

  type Parents = map<Id, Value>

  ghost function ParentKeys(prev: Parents): map<Id, Id> {
    map k | k in prev :: Key(prev[k])
  }

  lemma ParentKeysUpdate(prev: Parents, v: Id, u: Value)
    ensures ParentKeys(prev[v := u]) == ParentKeys(prev)[v := Key(u)]
  {
  }

  /** Only a misleading start brings `undefined` into play. */
  ghost predicate Tame(a: Id, vs: seq<Value>, prev: Parents) {
    !Misleads(a) ==> (forall i :: 0 <= i < |vs| ==> vs[i].Text?) && (forall k :: k in prev ==> prev[k].Text?)
  }

  /** The walk back from b along the parents.  A b that was not seen is an inherited name, and its
      parent the inherited value. */
  method WalkBack(ghost shown: seq<Edge>, a: Id, b: Id, ghost seen: set<Id>, prev: Parents, ghost dist: map<Id, nat>)
      returns (astray: bool, path: seq<Value>)
    requires IsTree(shown, a, seen, ParentKeys(prev), dist) && Tame(a, [], prev)
    requires a != b && (b in seen || (Inherited(b) && b !in prev))
    ensures astray <==> b !in seen
    ensures !astray ==> b in dist && IsPath(shown, Keys(path), a, b) && Simple(Keys(path)) && |path| == dist[b] + 1
    ensures Tame(a, path, prev)
  {
    hide Adjacent, IsTree, Inherited, Arity;
    path := [Text(b)];
    var cur := Text(b);
    astray := false;
    TreeIs(shown, a, seen, ParentKeys(prev), dist);
    NotUndefined(a);
    while cur != Text(a)
      invariant b in seen ==> Key(cur) in seen && Climbs(Keys(path), dist, dist[Key(cur)])
      invariant b !in seen ==> cur == Text(b)
      invariant IsPath(shown, Keys(path), Key(cur), b) && Tame(a, path, prev) && (cur.Undefined? ==> Misleads(a))
      decreases if b in seen then dist[Key(cur)] else 0
    {
      if Key(cur) !in prev && Inherited(Key(cur)) {
        if b in seen { TreeParent(shown, a, seen, ParentKeys(prev), dist, Key(cur)); }
        return true, path;
      }
      TreeParent(shown, a, seen, ParentKeys(prev), dist, Key(cur));
      var next := prev[Key(cur)];
      Longer(shown, Keys(path), Key(next), Key(cur), b, dist);
      assert Keys([next] + path) == [Key(next)] + Keys(path);
      cur := next;
      path := [cur] + path;
    }
    assert dist[Keys(path)[|path| - 1]] == |path| - 1;
  }

  lemma NotUndefined(a: Id)
    ensures !Inherited(UNDEFINED) && (Misleads(a) ==> a != UNDEFINED)
  {
  }

  /** An id that has not been seen is seen from u ... */
  lemma DiscoverTree(shown: seq<Edge>, a: Id, u: Id, v: Id, seen: set<Id>, prev: map<Id, Id>, dist: map<Id, nat>)
    requires IsTree(shown, a, seen, prev, dist) && u in seen && v !in seen && Adjacent(shown, u, v)
    ensures IsTree(shown, a, seen + {v}, prev[v := u], dist[v := dist[u] + 1])
  {
    hide Adjacent;
  }

  /** ... and queued ... */
  lemma DiscoverQueue(u: Id, v: Id, q: seq<Id>, seen: set<Id>, dist: map<Id, nat>, done: set<Id>)
    requires u in dist && v !in seen && IsQueue(q, seen, done, dist, dist[u])
    ensures IsQueue(q + [v], seen + {v}, done, dist[v := dist[u] + 1], dist[u])
  {
    var more, further := q + [v], dist[v := dist[u] + 1];
    assert more[|q|] == v && forall i :: 0 <= i < |q| ==> more[i] == q[i] && q[i] in q;
    assert forall x :: x in more <==> x in q || x == v;
  }

  /** ... which does not concern what is finished. */
  lemma DiscoverFinished(shown: seq<Edge>, v: Id, done: set<Id>, dist: map<Id, nat>, n: nat)
    requires IsFinished(shown, done, dist) && v !in dist
    ensures IsFinished(shown, done, dist[v := n])
  {
    hide Adjacent;
  }

  /** When all neighbours of u have been seen, u is finished. */
  lemma Finish(shown: seq<Edge>, u: Id, done: set<Id>, dist: map<Id, nat>)
    requires IsFinished(shown, done, dist) && u in dist
    requires forall v :: Adjacent(shown, u, v) ==> v in dist && dist[v] <= dist[u] + 1
    ensures IsFinished(shown, done + {u}, dist)
  {
    hide Adjacent;
  }

  ghost predicate Reached(nb: seq<Id>, i: nat, dist: map<Id, nat>, limit: nat) {
    forall j :: 0 <= j < i <= |nb| ==> nb[j] in dist && dist[nb[j]] <= limit
  }

  /** What is looked at from u: everything adjacent, but for what has been seen near enough. */
  ghost predicate AreNeighbours(shown: seq<Edge>, u: Id, nb: seq<Id>, dist: map<Id, nat>) {
    && (forall v :: v in nb ==> Adjacent(shown, u, v) && !Inherited(v))
    && (forall v :: Adjacent(shown, u, v) ==> v in nb || (u in dist && v in dist && dist[v] <= dist[u] + 1))
  }

  /** The neighbours of u that have not been seen are seen, with u as their parent, and queued. */
  method Expand(ghost shown: seq<Edge>, a: Id, u: Value, nb: seq<Value>, q0: seq<Value>, seen0: set<Id>, prev0: Parents,
                ghost dist0: map<Id, nat>, ghost done: set<Id>)
      returns (q: seq<Value>, seen: set<Id>, prev: Parents, ghost dist: map<Id, nat>)
    requires IsTree(shown, a, seen0, ParentKeys(prev0), dist0) && Key(u) in seen0 && Key(u) in dist0
    requires IsQueue(Keys(q0), seen0, done + {Key(u)}, dist0, dist0[Key(u)]) && IsFinished(shown, done, dist0)
    requires AreNeighbours(shown, Key(u), Keys(nb), dist0)
    requires Tame(a, q0, prev0) && Tame(a, [u] + nb, prev0)
    ensures IsTree(shown, a, seen, ParentKeys(prev), dist) && Tame(a, q, prev)
    ensures IsQueue(Keys(q), seen, done + {Key(u)}, dist, dist0[Key(u)]) && IsFinished(shown, done + {Key(u)}, dist)
    ensures seen0 <= seen && forall v :: v in seen ==> v in seen0 || v in Keys(nb)
    ensures seen == seen0 ==> q == q0
    ensures forall k :: k in prev ==> k in prev0 || k in seen
  {
    hide Adjacent, IsTree, IsQueue, IsFinished, Inherited, Misleads, ParentKeys;
    q, seen, prev, dist := q0, seen0, prev0, dist0;
    ghost var from := Key(u);
    for i := 0 to |nb|
      invariant IsTree(shown, a, seen, ParentKeys(prev), dist) && Tame(a, q, prev)
      invariant IsQueue(Keys(q), seen, done + {from}, dist, dist0[from]) && IsFinished(shown, done, dist)
      invariant from in seen && from in dist && dist[from] == dist0[from]
      invariant Reached(Keys(nb), i, dist, dist0[from] + 1)
      invariant forall v :: v in dist0 ==> v in dist && dist[v] == dist0[v]
      invariant seen0 <= seen && forall v :: v in seen ==> v in seen0 || v in Keys(nb)
      invariant seen == seen0 ==> q == q0
      invariant forall k :: k in prev ==> k in prev0 || k in seen
    {
      var v := nb[i];
      ghost var to := Keys(nb)[i];
      assert to in Keys(nb);
      TreeIs(shown, a, seen, ParentKeys(prev), dist);
      if Key(v) !in seen && !Inherited(Key(v)) {
        DiscoverTree(shown, a, from, to, seen, ParentKeys(prev), dist);
        DiscoverQueue(from, to, Keys(q), seen, dist, done + {from});
        DiscoverFinished(shown, to, done, dist, dist[from] + 1);
        ParentKeysUpdate(prev, to, u);
        assert Keys(q + [v]) == Keys(q) + [to];
        assert ([u] + nb)[0] == u && ([u] + nb)[i + 1] == v;
        seen := seen + {Key(v)};
        prev := prev[Key(v) := u];
        dist := dist[to := dist[from] + 1];
        q := q + [v];
      } else {
        QueueIsNear(Keys(q), seen, done + {from}, dist, dist0[from], to);
      }
    }
    Finish(shown, from, done, dist);
  }

  lemma QueueIsNear(q: seq<Id>, seen: set<Id>, done: set<Id>, dist: map<Id, nat>, level: nat, v: Id)
    requires IsQueue(q, seen, done, dist, level) && v in seen
    ensures v in dist && dist[v] <= level + 1
  {
  }

  /** The front of the queue is the next to be finished. */
  lemma NextLevel(q: seq<Id>, seen: set<Id>, done: set<Id>, dist: map<Id, nat>, level: nat)
    requires IsQueue(q, seen, done, dist, level) && |q| > 0
    ensures q[0] in seen && q[0] in dist
    ensures IsQueue(q[1..], seen, done + {q[0]}, dist, dist[q[0]])
    ensures forall x :: x in dist && dist[x] < dist[q[0]] ==> x in done
  {
    assert q == [q[0]] + q[1..];
    forall x | x in seen && x !in done ensures x in dist && dist[x] >= dist[q[0]] {
      var i :| 0 <= i < |q| && q[i] == x;
    }
  }

  lemma Progress(all: set<Id>, before: set<Id>, seen: set<Id>)
    requires before <= seen <= all
    ensures before == seen || |all - seen| < |all - before|
  {
    if !(seen <= before) {
      var x :| x in seen && x !in before;
      assert all - seen <= all - before - {x};
      SmallerSet(all - seen, all - before - {x});
    }
  }

  /** `adj[u] || []`, an inherited value being as good as its length many undefined slots. */
  function Neighbours(adj: Lists, u: Value): seq<Value> {
    if Key(u) in adj then Texts(adj[Key(u)])
    else if Inherited(Key(u)) then seq(Arity(Key(u)), _ => Undefined)
    else []
  }

  function Texts(ids: seq<Id>): (vs: seq<Value>)
    ensures |vs| == |ids| && forall i :: 0 <= i < |ids| ==> vs[i] == Text(ids[i])
  {
    seq(|ids|, i requires 0 <= i < |ids| => Text(ids[i]))
  }

  /** The edges that the search from a follows: a misleading start leads to the node `undefined`. */
  ghost function Followed(shown: seq<Edge>, a: Id): seq<Edge> {
    if Misleads(a) then shown + [Edge(a, UNDEFINED)] else shown
  }

  lemma FollowedAdjacent(shown: seq<Edge>, a: Id, u: Id, v: Id)
    ensures Adjacent(Followed(shown, a), u, v) <==>
      || Adjacent(shown, u, v)
      || (Misleads(a) && ((u == a && v == UNDEFINED) || (u == UNDEFINED && v == a)))
  {
    assert forall e :: e in shown + [Edge(a, UNDEFINED)] <==> e in shown || e == Edge(a, UNDEFINED);
  }

  /** A name that no visible edge touches has no neighbours. */
  lemma Isolated(shown: seq<Edge>, u: Id, v: Id)
    requires !Touches(shown) && Inherited(u)
    ensures !Adjacent(shown, u, v) && !Adjacent(shown, v, u)
  {
  }

  lemma NeighboursAre(adj: Lists, shown: seq<Edge>, a: Id, u: Value, dist: map<Id, nat>)
    requires ListsOf(adj, shown) && !Touches(shown)
    requires Key(u) == a || (Key(u) in dist && !Inherited(Key(u)))
    requires a in dist && dist[a] == 0 && Key(u) in dist
    ensures AreNeighbours(Followed(shown, a), Key(u), Keys(Neighbours(adj, u)), dist)
    ensures !Misleads(a) ==> forall v :: v in Neighbours(adj, u) ==> v.Text?
    ensures forall v :: v in Keys(Neighbours(adj, u)) ==> v in Ends(Followed(shown, a))
  {
    hide Inherited, Arity, Adjacent, Touches, ListsOf;
    EndsOf(Followed(shown, a));
    var nb, from := Keys(Neighbours(adj, u)), Key(u);
    NotUndefined(a);
    forall v ensures v in nb <==> Adjacent(shown, from, v) || (v == UNDEFINED && from == a && Misleads(a)) {
      NeighbourIs(adj, shown, u, v);
      if Inherited(from) { Isolated(shown, from, v); }
    }
    forall v | v in nb ensures Adjacent(Followed(shown, a), from, v) && !Inherited(v) {
      FollowedAdjacent(shown, a, from, v);
      if Inherited(v) { Isolated(shown, v, from); }
    }
    forall v | Adjacent(Followed(shown, a), from, v) ensures v in nb || (v in dist && dist[v] <= dist[from] + 1) {
      FollowedAdjacent(shown, a, from, v);
    }
  }

  lemma NeighbourIs(adj: Lists, shown: seq<Edge>, u: Value, v: Id)
    requires ListsOf(adj, shown) && !Touches(shown)
    ensures var nb := Keys(Neighbours(adj, u));
            && (!Inherited(Key(u)) ==> (v in nb <==> Adjacent(shown, Key(u), v)))
            && (Inherited(Key(u)) ==> !Adjacent(shown, Key(u), v) && (v in nb <==> v == UNDEFINED && Arity(Key(u)) > 0))
  {
    hide Inherited, Arity, Adjacent, Touches;
    var vs := Neighbours(adj, u);
    var nb := Keys(vs);
    if Inherited(Key(u)) {
      Isolated(shown, Key(u), v);
      if Key(u) in adj { Isolated(shown, Key(u), adj[Key(u)][0]); }
    }
    assert (Key(u) in adj && v in adj[Key(u)]) <==> Adjacent(shown, Key(u), v);
    if Key(u) in adj {
      var list := adj[Key(u)];
      if i :| 0 <= i < |list| && list[i] == v { assert nb[i] == v; }
      if i :| 0 <= i < |nb| && nb[i] == v { assert list[i] == v; }
    } else if Inherited(Key(u)) && Arity(Key(u)) > 0 {
      assert nb[0] == UNDEFINED;
    }
  }

  /** The search itself: everything that can be reached is seen, until b is at the front. */
  method Search(ghost shown: seq<Edge>, adj: Lists, a: Id, b: Id)
      returns (seen: set<Id>, prev: Parents, ghost dist: map<Id, nat>)
    requires ListsOf(adj, shown) && !Touches(shown) && a != b
    ensures IsTree(Followed(shown, a), a, seen, ParentKeys(prev), dist) && dist.Keys == seen && Tame(a, [], prev)
    ensures b in seen && !Misleads(a) ==> forall p :: IsPath(shown, p, a, b) ==> |p| > dist[b]
    ensures b !in seen ==> !Connected(Followed(shown, a), a, b)
    ensures forall k :: k in prev ==> k in seen
    ensures forall k :: k in seen && k != a ==> !Inherited(k)
  {
    hide *;
    ghost var g := Followed(shown, a);
    prev, seen, dist := map[], {a}, map[a := 0];
    ghost var done: set<Id> := {};
    ghost var level := 0;
    ghost var all := {a} + Ends(g);
    ghost var found := false;
    var q := [Text(a)];
    Start(g, a);
    OneKey(a);
    while |q| > 0
      invariant !found && a in seen
      invariant IsTree(g, a, seen, ParentKeys(prev), dist) && Tame(a, q, prev)
      invariant IsQueue(Keys(q), seen, done, dist, level) && IsFinished(g, done, dist)
      invariant seen <= all && (b in done ==> Misleads(a))
      invariant forall k :: k in prev ==> k in seen
      decreases |all - seen|, |q|
    {
      var u := q[0];
      Popped(a, q, prev);
      NextLevel(Keys(q), seen, done, dist, level);
      TreeIs(g, a, seen, ParentKeys(prev), dist);
      if Key(u) != a { OwnName(shown, a, Key(u)); }
      q := q[1..];
      level := dist[Key(u)];
      if u == Text(b) {
        OneKey(b);
        Arrived(g, a, b, seen, done, ParentKeys(prev), dist);
        found := true;
        break;
      }
      var nb := Neighbours(adj, u);
      NeighboursAre(adj, shown, a, u, dist);
      TameMore(a, u, nb, q, prev);
      ghost var before := seen;
      q, seen, prev, dist := Expand(g, a, u, nb, q, seen, prev, dist, done);
      Progress(all, before, seen);
      OnlyMisled(a, b, u);
      done := done + {Key(u)};
    }
    TreeIs(g, a, seen, ParentKeys(prev), dist);
    if !found {
      NothingQueued(Keys(q), seen, done, dist, level);
      if b !in seen { Exhausted(g, a, b, seen, ParentKeys(prev), dist); }
    }
    TameParents(a, q, prev);
    NotMisled(shown, a);
    forall k | k in seen && k != a ensures !Inherited(k) { OwnName(shown, a, k); }
  }

  // --- The whole finder ---

  /** The right answers: a shortest path of ids, or null where there is none. */
  ghost predicate IsRight(shown: seq<Edge>, r: Route, a: Id, b: Id) {
    match r
    case Path(vs) => (forall i :: 0 <= i < |vs| ==> vs[i].Text?) && IsShortest(shown, Keys(vs), a, b)
    case NotConnected => !Connected(shown, a, b)
    case _ => false
  }

  /** Where the finder goes wrong: a visible edge has an inherited name, or the destination has one,
      or the start has that of a function with parameters and the node `undefined` leads to the
      destination. */
  ghost predicate GoesWrong(shown: seq<Edge>, a: Id, b: Id) {
    a != b && (Touches(shown) || Inherited(b) || (Misleads(a) && Connected(shown, UNDEFINED, b)))
  }

  /** `shortestPath` */
  method ShortestPath(nodes: seq<Node>, edges: seq<Edge>, hidden: string -> bool, aId: Id, bId: Id) returns (r: Route)
    ensures var shown := Visible(nodes, edges, hidden);
            && (IsRight(shown, r, aId, bId) <==> !GoesWrong(shown, aId, bId))
            && (r == TypeError <==> aId != bId && Touches(shown))
            && (r == Astray <==> aId != bId && !Touches(shown) && Inherited(bId))
  {
    hide *;
    ghost var shown := Visible(nodes, edges, hidden);
    if aId == bId {
      Alone(shown, aId);
      return Path([Text(aId)]);
    }
    WrongIs(shown, aId, bId);
    var failed, adj := BuildLists(nodes, edges, hidden);
    if failed {
      OthersAreWrong(shown, TypeError, aId, bId);
      return TypeError;
    }
    var seen, prev;
    ghost var dist;
    seen, prev, dist := Search(shown, adj, aId, bId);
    if bId !in seen && !Inherited(bId) {
      NullIsRight(shown, aId, bId);
      return NotConnected;
    }
    var astray, path := WalkBack(Followed(shown, aId), aId, bId, seen, prev, dist);
    if astray {
      OthersAreWrong(shown, Astray, aId, bId);
      return Astray;
    }
    PathIsRight(shown, path, aId, bId, prev, dist);
    return Path(path);
  }

  lemma WrongIs(shown: seq<Edge>, a: Id, b: Id)
    ensures GoesWrong(shown, a, b) <==>
      a != b && (Touches(shown) || Inherited(b) || (Misleads(a) && Connected(shown, UNDEFINED, b)))
  {
  }

  lemma OthersAreWrong(shown: seq<Edge>, r: Route, a: Id, b: Id)
    ensures r.TypeError? || r.Astray? ==> !IsRight(shown, r, a, b)
  {
  }

  /** An inherited start leads nowhere. */
  lemma LeadsNowhere(shown: seq<Edge>, a: Id, b: Id)
    requires !Touches(shown) && Inherited(a) && a != b
    ensures !Connected(shown, a, b)
  {
    hide Inherited, Adjacent, Touches;
    forall p | IsPath(shown, p, a, b) ensures false {
      Isolated(shown, p[0], p[1]);
    }
  }

  lemma MorePaths(shown: seq<Edge>, a: Id, p: seq<Id>, u: Id, v: Id)
    requires IsPath(shown, p, u, v)
    ensures IsPath(Followed(shown, a), p, u, v)
  {
    hide Misleads, Adjacent;
    forall i | 0 <= i < |p| - 1 ensures Adjacent(Followed(shown, a), p[i], p[i + 1]) {
      FollowedAdjacent(shown, a, p[i], p[i + 1]);
    }
  }

  /** The search from a misleading start takes the way over the node `undefined`. */
  lemma {:induction false} Detour(shown: seq<Edge>, a: Id, b: Id, p: seq<Id>)
    requires !Touches(shown) && Misleads(a) && a != b && IsPath(Followed(shown, a), p, a, b)
    ensures Connected(shown, UNDEFINED, b)
    decreases |p|
  {
    hide Inherited, Arity, Adjacent, Touches, Followed;
    FollowedAdjacent(shown, a, p[0], p[1]);
    Isolated(shown, a, p[1]);
    if i :| 0 < i < |p| && p[i] == a {
      Detour(shown, a, b, p[i..]);
    } else {
      var rest := p[1..];
      forall i | 0 <= i < |rest| - 1 ensures Adjacent(shown, rest[i], rest[i + 1]) {
        FollowedAdjacent(shown, a, p[i + 1], p[i + 2]);
      }
      assert IsPath(shown, rest, UNDEFINED, b);
    }
  }

  lemma DetourBack(shown: seq<Edge>, a: Id, b: Id)
    requires Misleads(a) && Connected(shown, UNDEFINED, b)
    ensures Connected(Followed(shown, a), a, b)
  {
    hide Inherited, Arity, Adjacent, Followed, Misleads;
    var p :| IsPath(shown, p, UNDEFINED, b);
    MorePaths(shown, a, p, UNDEFINED, b);
    FollowedAdjacent(shown, a, a, UNDEFINED);
    assert IsPath(Followed(shown, a), [a] + p, a, b);
  }

  lemma NotMisled(shown: seq<Edge>, a: Id)
    ensures !Misleads(a) ==> Followed(shown, a) == shown
  {
  }

  lemma NullIsRight(shown: seq<Edge>, a: Id, b: Id)
    requires !Touches(shown) && a != b && !Connected(Followed(shown, a), a, b)
    ensures IsRight(shown, NotConnected, a, b) && !(Misleads(a) && Connected(shown, UNDEFINED, b))
  {
    hide Inherited, Arity, Adjacent, Followed, Touches, Misleads;
    NotMisled(shown, a);
    if Misleads(a) && Connected(shown, UNDEFINED, b) { DetourBack(shown, a, b); }
    forall p | IsPath(shown, p, a, b) ensures false { MorePaths(shown, a, p, a, b); }
  }

  lemma PathIsRight(shown: seq<Edge>, path: seq<Value>, a: Id, b: Id, prev: Parents, dist: map<Id, nat>)
    requires !Touches(shown) && a != b && b in dist && Tame(a, path, prev)
    requires IsPath(Followed(shown, a), Keys(path), a, b) && Simple(Keys(path)) && |path| == dist[b] + 1
    requires !Misleads(a) ==> forall p :: IsPath(shown, p, a, b) ==> |p| > dist[b]
    ensures IsRight(shown, Path(path), a, b) <==> !(Misleads(a) && Connected(shown, UNDEFINED, b))
  {
    hide Inherited, Arity, Adjacent, Followed, Touches;
    NotMisled(shown, a);
    if Misleads(a) {
      Detour(shown, a, b, Keys(path));
      LeadsNowhere(shown, a, b);
    } else {
      ShortestIs(shown, Keys(path), a, b, dist);
    }
  }

  /** A board with the nodes `constructor` and `undefined` and no edge at all: the finder returns an
      array, although nothing is connected. */
  method TwoNodes(hidden: string -> bool) returns (r: Route)
    ensures r.Path? && !Connected([], Id("constructor"), UNDEFINED)
  {
    hide *;
    var nodes := [Node(Id("constructor"), "username"), Node(UNDEFINED, "username")];
    NoEdges(hidden, nodes);
    r := ShortestPath(nodes, [], hidden, Id("constructor"), UNDEFINED);
    ReallyWrong([], r, Id("constructor"), UNDEFINED);
  }

  lemma NoEdges(hidden: string -> bool, nodes: seq<Node>)
    ensures Visible(nodes, [], hidden) == [] && !Touches([]) && Misleads(Id("constructor"))
    ensures GoesWrong([], Id("constructor"), UNDEFINED) && !Inherited(UNDEFINED)
    ensures !Connected([], Id("constructor"), UNDEFINED)
  {
    assert IsPath([], [UNDEFINED], UNDEFINED, UNDEFINED);
    LeadsNowhere([], Id("constructor"), UNDEFINED);
  }

  lemma ReallyWrong(shown: seq<Edge>, r: Route, a: Id, b: Id)
    requires !IsRight(shown, r, a, b) && !r.TypeError? && !r.Astray? && !Connected(shown, a, b)
    ensures r.Path?
  {
  }

  /** A start of that name without visible edges does no harm by itself: from a board without a node
      `undefined` at either end of a visible edge, null is returned, which is right. */
  lemma HarmlessStart(shown: seq<Edge>, a: Id, b: Id)
    requires !Touches(shown) && !Inherited(b) && b != UNDEFINED
    requires forall e :: e in shown ==> e.source != UNDEFINED && e.target != UNDEFINED
    ensures !GoesWrong(shown, a, b)
  {
    hide Inherited, Arity, Touches;
    hide Adjacent;
    forall p | IsPath(shown, p, UNDEFINED, b) ensures false {
      NoEnd(shown, p[0], p[1]);
    }
  }

  lemma NoEnd(shown: seq<Edge>, u: Id, v: Id)
    requires forall e :: e in shown ==> e.source != u && e.target != u
    ensures !Adjacent(shown, u, v)
  {
  }

  lemma OneKey(a: Id)
    ensures Keys([Text(a)]) == [a] && Key(Text(a)) == a && Tame(a, [Text(a)], map[]) && ParentKeys(map[]) == map[]
  {
  }

  lemma Popped(a: Id, q: seq<Value>, prev: Parents)
    requires |q| > 0 && Tame(a, q, prev)
    ensures Keys(q)[1..] == Keys(q[1..]) && |Keys(q)| == |q| && Keys(q)[0] == Key(q[0])
    ensures Tame(a, q[1..], prev) && (q[0].Text? || Misleads(a))
  {
  }

  lemma TameMore(a: Id, u: Value, nb: seq<Value>, q: seq<Value>, prev: Parents)
    requires Tame(a, q, prev) && (u.Text? || Misleads(a)) && (!Misleads(a) ==> forall v :: v in nb ==> v.Text?)
    ensures Tame(a, [u] + nb, prev)
  {
  }

  lemma TameParents(a: Id, q: seq<Value>, prev: Parents)
    requires Tame(a, q, prev)
    ensures Tame(a, [], prev)
  {
  }

  lemma OnlyMisled(a: Id, b: Id, u: Value)
    requires u != Text(b) && (u.Text? || Misleads(a))
    ensures Key(u) == b ==> Misleads(a)
  {
  }

  lemma Alone(shown: seq<Edge>, a: Id)
    ensures IsRight(shown, Path([Text(a)]), a, a) && !GoesWrong(shown, a, a)
  {
    assert Keys([Text(a)]) == [a];
    assert IsPath(shown, [a], a, a);
  }

  lemma Start(shown: seq<Edge>, a: Id)
    ensures IsTree(shown, a, {a}, map[], map[a := 0])
    ensures IsQueue([a], {a}, {}, map[a := 0], 0) && IsFinished(shown, {}, map[a := 0])
  {
  }

  lemma NothingQueued(q: seq<Id>, seen: set<Id>, done: set<Id>, dist: map<Id, nat>, level: nat)
    requires IsQueue(q, seen, done, dist, level) && |q| == 0
    ensures seen == done
  {
  }

  lemma ShortestIs(shown: seq<Edge>, path: seq<Id>, a: Id, b: Id, dist: map<Id, nat>)
    requires IsPath(shown, path, a, b) && Simple(path) && b in dist && |path| == dist[b] + 1
    requires forall p :: IsPath(shown, p, a, b) ==> |p| > dist[b]
    ensures IsShortest(shown, path, a, b) && Connected(shown, a, b)
  {
  }

  ghost function Ends(shown: seq<Edge>): set<Id> {
    (set e | e in shown :: e.source) + (set e | e in shown :: e.target)
  }

  lemma OwnName(shown: seq<Edge>, a: Id, u: Id)
    requires !Touches(shown) && u in Ends(Followed(shown, a)) && u != a
    ensures !Inherited(u)
  {
    hide Inherited;
    NotUndefined(a);
    var e :| e in Followed(shown, a) && (e.source == u || e.target == u);
  }

  lemma EndsOf(shown: seq<Edge>)
    ensures forall u, v :: Adjacent(shown, u, v) ==> v in Ends(shown)
  {
  }
}
