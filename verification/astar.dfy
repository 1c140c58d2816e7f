/** Main.astar and Main.getAstarPath: a best-first search ordered by distance-from-start plus
    distance-from-end, with an open list, a closed list and a node map of VertexAstar records,
    which throws when the open list runs empty. The heuristic is also the step cost: moving
    from u to v adds heuristics(u, v) to the distance from the start. */
module AStar {
  import opened Common
  import opened Store
  import opened Graph

  type Heuristic = (int, int) -> nat

  /** A VertexAstar: its node, distanceFromStart, distanceFromEnd, and the node of its previous
      vertex (every vertex object lives in the node map under its node id, so the id names it). */
  datatype VertexAstar = VertexAstar(nodeIdentifier: int, distanceFromStart: nat, distanceFromEnd: nat, previous: Option<int>)

  /** VertexAstar.equals: two vertices are equal when their node ids are. */
  predicate Equals(a: VertexAstar, b: VertexAstar) {
    a.nodeIdentifier == b.nodeIdentifier
  }

  /** VertexAstar.hashCode: the node id. */
  function HashCode(a: VertexAstar): int {
    a.nodeIdentifier
  }

  /** equals and hashCode agree, and neither looks at the distances or the previous vertex, so
      the open list, the closed list and the node map all hold vertices as node ids. */
  lemma EqualsIsSameNode(a: VertexAstar, b: VertexAstar)
    ensures Equals(a, b) <==> a.nodeIdentifier == b.nodeIdentifier
    ensures Equals(a, b) ==> HashCode(a) == HashCode(b)
    ensures Equals(a, b) <==> Equals(a.(distanceFromStart := 0, distanceFromEnd := 0, previous := None), b)
  {
  }

  /** The step cost the search adds up along a walk. */
  function StepCost(heuristics: Heuristic): Weight {
    (e: Edge) => heuristics(e.from, e.to)
  }

  /** The priority of the open list. */
  function Priority(v: VertexAstar): nat {
    v.distanceFromStart + v.distanceFromEnd
  }

  /** The node map, the open list and the closed list, the last two as node ids. */
  datatype State = State(nodes: map<int, VertexAstar>, open: set<int>, closed: set<int>)

  function Initial(heuristics: Heuristic, start: int, end: int): State {
    State(map[start := VertexAstar(start, 0, heuristics(start, end), None)], {start}, {})
  }

  // ---------------------------------------------------------------- expanding a vertex

  /** One iteration of the for loop over the exits of u: a closed target is skipped; a target not
      on the open list (created in the node map if new) takes u's offer and is opened; an open
      one takes it only when its distance from the start strictly drops. (An open node always
      has a node-map entry; were it missing, the entry created would read as infinitely far.) */
  function Expand(st: State, u: int, e: Edge, heuristics: Heuristic, end: int): State
    requires u in st.nodes
  {
    var v := e.to;
    var fromStart := st.nodes[u].distanceFromStart + heuristics(u, v);
    var offer := VertexAstar(v, fromStart, heuristics(v, end), Some(u));
    if v in st.closed then st
    else if v !in st.open then st.(nodes := st.nodes[v := offer], open := st.open + {v})
    else if v !in st.nodes || fromStart < st.nodes[v].distanceFromStart then st.(nodes := st.nodes[v := offer])
    else st
  }

  function ExpandAll(st: State, u: int, exits: seq<Edge>, heuristics: Heuristic, end: int): (r: State)
    requires u in st.nodes && u in st.closed
    ensures u in r.nodes && r.nodes[u] == st.nodes[u] && r.closed == st.closed
    decreases |exits|
  {
    if |exits| == 0 then st else ExpandAll(Expand(st, u, exits[0], heuristics, end), u, exits[1..], heuristics, end)
  }

  /** x's node-map entry was created or replaced, or x was opened, between st and r. */
  predicate Updated(st: State, r: State, x: int) {
    x in r.nodes && (x !in st.nodes || r.nodes[x] != st.nodes[x] || (x in r.open && x !in st.open))
  }

  /** Entries are never removed, and an open vertex's distance from the start never rises and
      changes only by strictly dropping. */
  ghost predicate OpenOnlyImproves(st: State, r: State) {
    && (forall x :: x in st.nodes ==> x in r.nodes)
    && (forall x :: x in st.open && x in st.nodes ==> r.nodes[x].distanceFromStart <= st.nodes[x].distanceFromStart)
    && (forall x :: x in st.open && x in st.nodes && Updated(st, r, x) ==>
          r.nodes[x].distanceFromStart < st.nodes[x].distanceFromStart)
  }

  /** An updated entry is not closed, is open, points back to u with u's offer, and its node is
      the target of an exit of u. */
  ghost predicate UpdatedVia(st: State, r: State, u: int, exits: seq<Edge>, heuristics: Heuristic, end: int)
    requires u in st.nodes
  {
    forall x :: Updated(st, r, x) ==>
      && x !in st.closed && x in r.open
      && r.nodes[x] == VertexAstar(x, st.nodes[u].distanceFromStart + heuristics(u, x), heuristics(x, end), Some(u))
      && exists e :: e in exits && e.to == x
  }

  /** The closed list stays as it is, and the open list only grows, by updated entries. */
  ghost predicate ListsKept(st: State, r: State) {
    && r.closed == st.closed
    && (forall x :: x in st.open ==> x in r.open)
    && (forall x :: x in r.open ==> x in st.open || Updated(st, r, x))
    && (forall x :: x in st.nodes && !Updated(st, r, x) ==> (x in r.open <==> x in st.open))
  }

  /** Every exit's target is closed or open afterwards. */
  ghost predicate Discovered(st: State, r: State, exits: seq<Edge>) {
    forall e :: e in exits ==> e.to in st.closed || e.to in r.open
  }

  ghost predicate ExpandedBy(st: State, r: State, u: int, exits: seq<Edge>, heuristics: Heuristic, end: int)
    requires u in st.nodes
  {
    && OpenOnlyImproves(st, r)
    && UpdatedVia(st, r, u, exits, heuristics, end)
    && ListsKept(st, r)
    && Discovered(st, r, exits)
  }

  lemma ExpandEffect(st: State, u: int, e: Edge, heuristics: Heuristic, end: int)
    requires u in st.nodes && u in st.closed
    ensures ExpandedBy(st, Expand(st, u, e, heuristics, end), u, [e], heuristics, end)
  {
    var r := Expand(st, u, e, heuristics, end);
    forall x | Updated(st, r, x) ensures exists e' :: e' in [e] && e'.to == x {
      assert e in [e];
    }
  }

  /** What expanding u does, over all its exits: the closed list and u's entry never change,
      every target ends up open or closed, and an entry that changes is an open one whose
      distance strictly dropped, or a new one, and holds u's offer. */
  lemma {:induction false} ExpandAllEffect(st: State, u: int, exits: seq<Edge>, heuristics: Heuristic, end: int)
    requires u in st.nodes && u in st.closed
    ensures ExpandedBy(st, ExpandAll(st, u, exits, heuristics, end), u, exits, heuristics, end)
    decreases |exits|
  {
    if |exits| > 0 {
      var s1 := Expand(st, u, exits[0], heuristics, end);
      var r := ExpandAll(st, u, exits, heuristics, end);
      ExpandEffect(st, u, exits[0], heuristics, end);
      ExpandAllEffect(s1, u, exits[1..], heuristics, end);
      assert forall e :: e in exits <==> e == exits[0] || e in exits[1..];
      ImprovesCompose(st, s1, r);
      UpdatedViaCompose(st, s1, r, u, exits, heuristics, end);
      ListsKeptCompose(st, s1, r);
      DiscoveredCompose(st, s1, r, exits);
    }
  }

  lemma ImprovesCompose(st: State, s1: State, r: State)
    requires OpenOnlyImproves(st, s1) && ListsKept(st, s1)
    requires OpenOnlyImproves(s1, r)
    ensures OpenOnlyImproves(st, r)
  {
    forall x | x in st.open && x in st.nodes && Updated(st, r, x)
      ensures r.nodes[x].distanceFromStart < st.nodes[x].distanceFromStart
    {
      if !Updated(st, s1, x) {
        assert x in s1.open;
      }
    }
  }

  lemma UpdatedViaCompose(st: State, s1: State, r: State, u: int, exits: seq<Edge>, heuristics: Heuristic, end: int)
    requires u in st.nodes && u in st.closed && |exits| > 0
    requires forall e :: e in exits <==> e == exits[0] || e in exits[1..]
    requires OpenOnlyImproves(st, s1) && ListsKept(st, s1) && UpdatedVia(st, s1, u, [exits[0]], heuristics, end)
    requires u in s1.nodes && s1.nodes[u] == st.nodes[u]
    requires OpenOnlyImproves(s1, r) && ListsKept(s1, r) && UpdatedVia(s1, r, u, exits[1..], heuristics, end)
    ensures UpdatedVia(st, r, u, exits, heuristics, end)
  {
    forall x | Updated(st, r, x)
      ensures && x !in st.closed && x in r.open
              && r.nodes[x] == VertexAstar(x, st.nodes[u].distanceFromStart + heuristics(u, x), heuristics(x, end), Some(u))
              && exists e :: e in exits && e.to == x
    {
      if Updated(s1, r, x) {
        var e :| e in exits[1..] && e.to == x;
        assert e in exits;
      } else {
        assert Updated(st, s1, x);
        var e :| e in [exits[0]] && e.to == x;
        assert e in exits;
      }
    }
  }

  lemma ListsKeptCompose(st: State, s1: State, r: State)
    requires OpenOnlyImproves(st, s1) && ListsKept(st, s1)
    requires OpenOnlyImproves(s1, r) && ListsKept(s1, r)
    ensures ListsKept(st, r)
  {
  }

  lemma DiscoveredCompose(st: State, s1: State, r: State, exits: seq<Edge>)
    requires |exits| > 0
    requires forall e :: e in exits <==> e == exits[0] || e in exits[1..]
    requires ListsKept(st, s1) && Discovered(st, s1, [exits[0]])
    requires OpenOnlyImproves(s1, r) && ListsKept(s1, r) && Discovered(s1, r, exits[1..])
    ensures Discovered(st, r, exits)
  {
    forall e | e in exits ensures e.to in st.closed || e.to in r.open {
      if e !in exits[1..] {
        assert e in [exits[0]];
      }
    }
  }

  // ---------------------------------------------------------------- loop invariant

  /** Every node the search can put in the node map: the start node and every edge target. */
  function Universe(edges: seq<EdgeRow>, start: int): set<int> {
    {start} + Targets(edges)
  }

  /** The node map holds exactly the open and the closed nodes, each under its own id; the two
      lists are disjoint; the end node is never closed; and until the start node is closed it
      is the only node known. */
  ghost predicate Shaped(edges: seq<EdgeRow>, start: int, end: int, st: State) {
    && st.nodes.Keys == st.open + st.closed
    && st.open * st.closed == {}
    && end !in st.closed
    && start in st.nodes
    && st.nodes.Keys <= Universe(edges, start)
    && (forall v :: v in st.nodes ==> st.nodes[v].nodeIdentifier == v)
    && (start !in st.closed ==> st.open == {start} && st.closed == {})
  }

  /** Every exit of a closed node leads to a node in the node map. */
  ghost predicate Explored(edges: seq<EdgeRow>, st: State) {
    forall c, e :: c in st.closed && HasEdge(edges, e) && e.from == c ==> e.to in st.nodes
  }

  /** The previous link of v is a real edge into v whose step cost makes up v's distance. */
  ghost predicate LinkedBack(edges: seq<EdgeRow>, heuristics: Heuristic, nodes: map<int, VertexAstar>, v: int) {
    && v in nodes && nodes[v].previous.Some? && nodes[v].previous.value in nodes
    && var p := nodes[v].previous.value;
       && (exists e :: HasEdge(edges, e) && e.from == p && e.to == v)
       && nodes[v].distanceFromStart == nodes[p].distanceFromStart + heuristics(p, v)
  }

  /** The start node has no previous vertex and distance 0; every other node links back. */
  ghost predicate Rooted(edges: seq<EdgeRow>, heuristics: Heuristic, start: int, nodes: map<int, VertexAstar>) {
    && start in nodes && nodes[start].previous.None? && nodes[start].distanceFromStart == 0
    && forall v :: v in nodes && v != start ==> LinkedBack(edges, heuristics, nodes, v)
  }

  /** Previous links lead to closed nodes, and from a closed node to one closed earlier. */
  ghost predicate LinksClosed(st: State, rank: map<int, nat>, time: nat) {
    && rank.Keys == st.closed
    && (forall c :: c in rank ==> rank[c] < time)
    && (forall v :: v in st.nodes && st.nodes[v].previous.Some? ==> st.nodes[v].previous.value in st.closed)
    && (forall v :: v in st.closed && v in st.nodes && st.nodes[v].previous.Some? && st.nodes[v].previous.value in rank ==>
          rank[st.nodes[v].previous.value] < rank[v])
  }

  ghost predicate Inv(edges: seq<EdgeRow>, heuristics: Heuristic, start: int, end: int, st: State,
                      rank: map<int, nat>, time: nat) {
    && Shaped(edges, start, end, st)
    && Explored(edges, st)
    && Rooted(edges, heuristics, start, st.nodes)
    && LinksClosed(st, rank, time)
  }

  lemma InitialInv(edges: seq<EdgeRow>, heuristics: Heuristic, start: int, end: int)
    ensures Inv(edges, heuristics, start, end, Initial(heuristics, start, end), map[], 0)
  {
  }

  /** A node with the least priority on the open list. */
  lemma MinimumExists(candidates: set<int>, nodes: map<int, VertexAstar>) returns (u: int)
    requires candidates != {} && candidates <= nodes.Keys
    ensures u in candidates && forall q :: q in candidates ==> Priority(nodes[u]) <= Priority(nodes[q])
    decreases |candidates|
  {
    if forall y :: y !in candidates {
      assert false;  // a non-empty set has an element
    }
    var x :| x in candidates;
    if candidates == {x} {
      u := x;
    } else {
      var v := MinimumExists(candidates - {x}, nodes);
      u := if Priority(nodes[x]) <= Priority(nodes[v]) then x else v;
    }
  }

  /** Closing u, a node other than the end node, and expanding it. */
  function Close(st: State, u: int, exits: seq<Edge>, heuristics: Heuristic, end: int): State
    requires u in st.nodes
  {
    ExpandAll(st.(open := st.open - {u}, closed := st.closed + {u}), u, exits, heuristics, end)
  }

  lemma StepShaped(edges: seq<EdgeRow>, start: int, end: int, st: State, s1: State, u: int, r: State,
                   heuristics: Heuristic)
    requires Shaped(edges, start, end, st)
    requires u in st.open && u != end && s1 == st.(open := st.open - {u}, closed := st.closed + {u})
    requires ExpandedBy(s1, r, u, Exits(edges, u), heuristics, end)
    ensures Shaped(edges, start, end, r)
    ensures start in st.closed + {u}
  {
    var exits := Exits(edges, u);
    forall x | x in r.nodes
      ensures x in r.open + r.closed && x in Universe(edges, start) && r.nodes[x].nodeIdentifier == x
    {
      if Updated(s1, r, x) {
        var e :| e in exits && e.to == x;
        assert HasEdge(edges, e);
      } else {
        assert x in s1.nodes && r.nodes[x] == s1.nodes[x];
      }
    }
    forall x | x in r.open ensures x in r.nodes && x !in r.closed {
      if !Updated(s1, r, x) {
        assert x in s1.open;
      }
    }
    assert r.nodes.Keys == r.open + r.closed;
    assert start in r.closed;
  }

  lemma StepExplored(edges: seq<EdgeRow>, st: State, s1: State, u: int, r: State, heuristics: Heuristic, end: int)
    requires Explored(edges, st) && st.nodes.Keys == st.open + st.closed
    requires u in st.open && s1 == st.(open := st.open - {u}, closed := st.closed + {u})
    requires ExpandedBy(s1, r, u, Exits(edges, u), heuristics, end)
    requires r.nodes.Keys == r.open + r.closed
    ensures Explored(edges, r)
  {
    forall c, e | c in r.closed && HasEdge(edges, e) && e.from == c ensures e.to in r.nodes {
      if c == u {
        assert e in Exits(edges, u);
      }
    }
  }

  lemma StepRooted(edges: seq<EdgeRow>, heuristics: Heuristic, start: int, end: int, st: State, s1: State, u: int, r: State)
    requires Rooted(edges, heuristics, start, st.nodes)
    requires forall v :: v in st.nodes && st.nodes[v].previous.Some? ==> st.nodes[v].previous.value in st.closed
    requires u in st.open && u in st.nodes && s1 == st.(open := st.open - {u}, closed := st.closed + {u})
    requires start in s1.closed
    requires ExpandedBy(s1, r, u, Exits(edges, u), heuristics, end)
    requires r.closed == s1.closed && u in r.nodes && r.nodes[u] == st.nodes[u]
    ensures Rooted(edges, heuristics, start, r.nodes)
  {
    forall v | v in r.nodes && v != start ensures LinkedBack(edges, heuristics, r.nodes, v) {
      if Updated(s1, r, v) {
        var e :| e in Exits(edges, u) && e.to == v;
        assert HasEdge(edges, e) && e.from == u;
      } else {
        var p := st.nodes[v].previous.value;
        assert p in s1.closed && !Updated(s1, r, p);
      }
    }
  }

  lemma StepLinksClosed(st: State, s1: State, u: int, r: State, rank: map<int, nat>, time: nat,
                        exits: seq<Edge>, heuristics: Heuristic, end: int)
    requires LinksClosed(st, rank, time) && st.nodes.Keys == st.open + st.closed && st.open * st.closed == {}
    requires u in st.open && s1 == st.(open := st.open - {u}, closed := st.closed + {u})
    requires ExpandedBy(s1, r, u, exits, heuristics, end)
    requires r.closed == s1.closed && u in r.nodes && r.nodes[u] == st.nodes[u]
    ensures LinksClosed(r, rank[u := time], time + 1)
  {
    var rank' := rank[u := time];
    forall v | v in r.nodes && r.nodes[v].previous.Some? ensures r.nodes[v].previous.value in r.closed {
      if !Updated(s1, r, v) {
        assert v in st.nodes && r.nodes[v] == st.nodes[v];
      }
    }
    forall v | v in r.closed && v in r.nodes && r.nodes[v].previous.Some? && r.nodes[v].previous.value in rank'
      ensures rank'[r.nodes[v].previous.value] < rank'[v]
    {
      assert !Updated(s1, r, v) && v in st.nodes && r.nodes[v] == st.nodes[v];
      var p := st.nodes[v].previous.value;
      assert p in st.closed;
      OutsideDisjoint(st.open, st.closed, p);
      assert p in rank;
      if v != u {
        assert v in st.closed && rank[p] < rank[v];
      }
    }
  }

  lemma OutsideDisjoint(a: set<int>, b: set<int>, x: int)
    requires a * b == {} && x in b
    ensures x !in a
  {
    assert x !in a * b;
  }

  /** Closing a best open node other than the end node and expanding it keeps the invariant and
      adds exactly that node to the closed list. */
  lemma Step(edges: seq<EdgeRow>, heuristics: Heuristic, start: int, end: int, st: State,
             rank: map<int, nat>, time: nat, u: int)
    requires Inv(edges, heuristics, start, end, st, rank, time)
    requires u in st.open && u != end
    ensures var r := Close(st, u, Exits(edges, u), heuristics, end);
            && Inv(edges, heuristics, start, end, r, rank[u := time], time + 1)
            && |Universe(edges, start) - r.closed| < |Universe(edges, start) - st.closed|
  {
    var s1 := st.(open := st.open - {u}, closed := st.closed + {u});
    var exits := Exits(edges, u);
    var r := ExpandAll(s1, u, exits, heuristics, end);
    ExpandAllEffect(s1, u, exits, heuristics, end);
    StepShaped(edges, start, end, st, s1, u, r, heuristics);
    StepExplored(edges, st, s1, u, r, heuristics, end);
    StepRooted(edges, heuristics, start, end, st, s1, u, r);
    StepLinksClosed(st, s1, u, r, rank, time, exits, heuristics, end);
    Shrinks(Universe(edges, start), st.closed, u);
  }

  // ---------------------------------------------------------------- the path

  /** path starts somewhere in the node map and follows previous links, one node per link,
      down to a node without a previous vertex. */
  ghost predicate Chain(nodes: map<int, VertexAstar>, path: seq<int>) {
    && |path| > 0
    && (forall i :: 0 <= i < |path| ==> path[i] in nodes)
    && (forall i :: 0 <= i < |path| - 1 ==> nodes[path[i]].previous == Some(path[i + 1]))
    && nodes[path[|path| - 1]].previous.None?
  }

  /** Following previous links lowers rank, so the walk back ends. */
  ghost predicate PreviousRanked(nodes: map<int, VertexAstar>, rank: map<int, nat>) {
    forall v :: v in nodes && nodes[v].previous.Some? ==>
      && v in rank && nodes[v].previous.value in nodes
      && (nodes[v].previous.value in rank ==> rank[nodes[v].previous.value] < rank[v])
  }

  function Height(rank: map<int, nat>, current: Option<int>): nat {
    match current
    case None => 0
    case Some(v) => if v in rank then rank[v] + 2 else 1
  }

  /** getAstarPath: from the end node's vertex along the previous links, appending each node id,
      so the list runs from the end node back to the first vertex without a previous one. With
      no vertex for the end node the list is empty. */
  method GetAstarPath(end: int, nodes: map<int, VertexAstar>, ghost rank: map<int, nat>) returns (path: seq<int>)
    requires PreviousRanked(nodes, rank)
    ensures end !in nodes ==> path == []
    ensures end in nodes ==> Chain(nodes, path) && path[0] == end
  {
    path := [];
    var current: Option<int> := if end in nodes then Some(end) else None;
    while current.Some?
      invariant current.Some? ==> current.value in nodes
      invariant path == [] ==> current == (if end in nodes then Some(end) else None)
      invariant path != [] ==>
                  && path[0] == end
                  && (forall i :: 0 <= i < |path| ==> path[i] in nodes)
                  && (forall i :: 0 <= i < |path| - 1 ==> nodes[path[i]].previous == Some(path[i + 1]))
                  && nodes[path[|path| - 1]].previous == current
      decreases Height(rank, current)
    {
      var v := current.value;
      assert nodes[v].previous.Some? ==> v in rank && nodes[v].previous.value in nodes;
      path := path + [v];
      current := nodes[v].previous;
    }
  }

  /** A chain of previous links in a rooted node map, read backwards, is a walk from the start
      node whose step costs add up to the first node's distance from the start. */
  lemma {:induction false} ChainIsWalk(edges: seq<EdgeRow>, heuristics: Heuristic, start: int,
                                       nodes: map<int, VertexAstar>, path: seq<int>) returns (walk: seq<Edge>)
    requires Rooted(edges, heuristics, start, nodes)
    requires Chain(nodes, path)
    ensures IsWalk(edges, start, path[0], walk)
    ensures Cost(StepCost(heuristics), walk) == nodes[path[0]].distanceFromStart
    ensures path == Reverse(Visits(start, walk))
    decreases |path|
  {
    if |path| == 1 {
      walk := [];
    } else {
      var rest := path[1..];
      ChainTail(nodes, path);
      var before := ChainIsWalk(edges, heuristics, start, nodes, rest);
      var e := LinkOf(edges, heuristics, nodes, path[0]);
      WalkAppend(edges, StepCost(heuristics), start, path[1], before, e);
      walk := before + [e];
      assert walk[..|walk| - 1] == before;
    }
  }

  lemma ChainTail(nodes: map<int, VertexAstar>, path: seq<int>)
    requires Chain(nodes, path) && |path| > 1
    ensures Chain(nodes, path[1..])
    ensures nodes[path[0]].previous == Some(path[1])
  {
    var rest := path[1..];
    forall i | 0 <= i < |rest| - 1 ensures nodes[rest[i]].previous == Some(rest[i + 1]) {
      assert rest[i] == path[i + 1] && rest[i + 1] == path[i + 2];
    }
  }

  lemma LinkOf(edges: seq<EdgeRow>, heuristics: Heuristic, nodes: map<int, VertexAstar>, v: int) returns (e: Edge)
    requires LinkedBack(edges, heuristics, nodes, v)
    ensures HasEdge(edges, e) && e.from == nodes[v].previous.value && e.to == v
    ensures nodes[v].distanceFromStart == nodes[e.from].distanceFromStart + heuristics(e.from, v)
  {
    e :| HasEdge(edges, e) && e.from == nodes[v].previous.value && e.to == v;
  }

  /** The ranks getAstarPath needs: closed nodes by closing order, open ones after all of them. */
  function FullRank(st: State, rank: map<int, nat>, time: nat): map<int, nat> {
    map v | v in st.nodes :: if v in rank then rank[v] else time
  }

  lemma FullRankRanks(edges: seq<EdgeRow>, heuristics: Heuristic, start: int, end: int, st: State,
                      rank: map<int, nat>, time: nat)
    requires Inv(edges, heuristics, start, end, st, rank, time)
    ensures PreviousRanked(st.nodes, FullRank(st, rank, time))
  {
  }

  /** The path getAstarPath rebuilds once the end node is taken from the open list is the end
      node's recorded walk from the start, reversed; when the start is the end it is the start alone. */
  lemma Found(edges: seq<EdgeRow>, heuristics: Heuristic, start: int, end: int, st: State,
              rank: map<int, nat>, time: nat, path: seq<int>) returns (walk: seq<Edge>)
    requires Inv(edges, heuristics, start, end, st, rank, time)
    requires Chain(st.nodes, path) && path[0] == end
    ensures IsWalk(edges, start, end, walk) && path == Reverse(Visits(start, walk))
    ensures Cost(StepCost(heuristics), walk) == st.nodes[end].distanceFromStart
    ensures start == end ==> path == [start]
  {
    walk := ChainIsWalk(edges, heuristics, start, st.nodes, path);
    if start == end && |path| > 1 {
      ChainTail(st.nodes, path);
    }
  }

  /** With the open list empty, every node a walk from the start reaches is closed. */
  lemma {:induction false} ExhaustedCloses(edges: seq<EdgeRow>, heuristics: Heuristic, start: int, end: int,
                                           st: State, rank: map<int, nat>, time: nat, v: int, p: seq<Edge>)
    requires Inv(edges, heuristics, start, end, st, rank, time) && st.open == {}
    requires IsWalk(edges, start, v, p)
    ensures v in st.closed
    decreases |p|
  {
    if |p| > 0 {
      var e := p[|p| - 1];
      WalkSplitLast(edges, StepCost(heuristics), start, v, p);
      ExhaustedCloses(edges, heuristics, start, end, st, rank, time, e.from, p[..|p| - 1]);
    }
  }

  /** An empty open list means the end node cannot be reached, and it is not the start. */
  lemma Exhausted(edges: seq<EdgeRow>, heuristics: Heuristic, start: int, end: int, st: State,
                  rank: map<int, nat>, time: nat)
    requires Inv(edges, heuristics, start, end, st, rank, time) && st.open == {}
    ensures !exists p :: IsWalk(edges, start, end, p)
    ensures start != end
  {
    forall p | IsWalk(edges, start, end, p) ensures false {
      ExhaustedCloses(edges, heuristics, start, end, st, rank, time, end, p);
    }
  }

  /** astar: repeatedly take a best open node; the end node ends the search with its path, any
      other node is closed and expanded. An empty open list means no walk leads from the start
      to the end node, and astar throws. The path is a real walk, end node first, but the search
      stops as soon as the end node leaves the open list, so it need not be a cheapest one. */
  method AStar(edges: seq<EdgeRow>, heuristics: Heuristic, start: int, end: int) returns (r: Result<seq<int>>, ghost walk: seq<Edge>)
    ensures r.Failure? <==> !exists p :: IsWalk(edges, start, end, p)
    ensures r.Failure? ==> r.error == PathNotFound
    ensures r.Success? ==> IsWalk(edges, start, end, walk) && r.value == Reverse(Visits(start, walk))
    ensures start == end ==> r == Success([start])
  {
    var st := Initial(heuristics, start, end);
    ghost var rank: map<int, nat> := map[];
    ghost var time: nat := 0;
    InitialInv(edges, heuristics, start, end);
    while st.open != {}
      invariant Inv(edges, heuristics, start, end, st, rank, time)
      decreases |Universe(edges, start) - st.closed|
    {
      ghost var best := MinimumExists(st.open, st.nodes);
      var u :| u in st.open && forall q :: q in st.open ==> Priority(st.nodes[u]) <= Priority(st.nodes[q]);
      if u == end {
        FullRankRanks(edges, heuristics, start, end, st, rank, time);
        var path := GetAstarPath(end, st.nodes, FullRank(st, rank, time));
        walk := Found(edges, heuristics, start, end, st, rank, time, path);
        return Success(path), walk;
      }
      var exits := Exits(edges, u);
      Step(edges, heuristics, start, end, st, rank, time, u);
      st := Close(st, u, exits, heuristics, end);
      rank, time := rank[u := time], time + 1;
    }
    Exhausted(edges, heuristics, start, end, st, rank, time);
    walk := [];
    return Failure(PathNotFound), walk;
  }
}
