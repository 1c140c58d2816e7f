/** Main.dijkstra: a priority-queue search from a start node over the exits of a network's
    edge table, followed by a walk back along the 'previous' links from the end node.

    The Java code keeps two kinds of Vertex objects: the start vertex (cost 0, no previous),
    which is never put in the node map, and one node-map vertex per node an edge has entered,
    the start node included when an edge leads back to it. Ref names them. */
module Dijkstra {
  import opened Store
  import opened Graph

  datatype Ref = Seed | Mapped(node: int)

  function NodeOf(start: int, r: Ref): int {
    if r.Seed? then start else r.node
  }

  /** minimumCost and previous of every vertex created so far, and the vertices queued. */
  datatype State = State(cost: map<Ref, nat>, previous: map<Ref, Ref>, queue: set<Ref>)

  /** The vertices created and no longer queued. */
  function Done(s: State): set<Ref> {
    s.cost.Keys - s.queue
  }

  /** Every vertex the search can create: the start vertex and one per node an edge enters. */
  function Vertices(edges: seq<EdgeRow>): (r: set<Ref>)
    ensures Seed in r
    ensures forall e :: HasEdge(edges, e) ==> Mapped(e.to) in r
  {
    {Seed} + set n | n in Targets(edges) :: Mapped(n)
  }

  // ---------------------------------------------------------------- relaxation

  /** One iteration of the forEach over the exits of u: a vertex met for the first time is
      created (its cost reads as infinite) and so always takes the offered cost; a known one
      takes it only when it is strictly cheaper. Either way it is re-queued behind u. */
  function Relax(s: State, u: Ref, e: Edge, w: Weight): State
    requires u in s.cost
  {
    var v := Mapped(e.to);
    var c := s.cost[u] + w(e);
    if v !in s.cost || c < s.cost[v] then State(s.cost[v := c], s.previous[v := u], s.queue + {v})
    else s
  }

  /** The whole forEach, edge by edge in getExits order. */
  function RelaxAll(s: State, u: Ref, exits: seq<Edge>, w: Weight): (r: State)
    requires u in s.cost
    ensures u in r.cost && r.cost[u] == s.cost[u]
    decreases |exits|
  {
    if |exits| == 0 then s else RelaxAll(Relax(s, u, exits[0], w), u, exits[1..], w)
  }

  /** x was created or made cheaper between s and r. */
  predicate Lowered(s: State, r: State, x: Ref) {
    x in r.cost && (x !in s.cost || r.cost[x] < s.cost[x])
  }

  /** Relaxing never removes a vertex and never raises a cost. */
  ghost predicate Monotone(s: State, r: State) {
    forall x :: x in s.cost ==> x in r.cost && r.cost[x] <= s.cost[x]
  }

  /** After relaxing the exits of u, each target costs at most u's cost plus the edge's weight. */
  ghost predicate Bounded(s: State, r: State, u: Ref, exits: seq<Edge>, w: Weight)
    requires u in s.cost
  {
    forall e :: e in exits ==> Mapped(e.to) in r.cost && r.cost[Mapped(e.to)] <= s.cost[u] + w(e)
  }

  /** A vertex relaxing lowered is queued, points back to u, and costs u's cost plus the weight
      of an exit of u into its node. */
  ghost predicate LoweredVia(s: State, r: State, u: Ref, exits: seq<Edge>, w: Weight)
    requires u in s.cost
  {
    forall x :: Lowered(s, r, x) ==>
      && x.Mapped? && x in r.queue && x in r.previous && r.previous[x] == u
      && exists e :: e in exits && e.to == x.node && r.cost[x] == s.cost[u] + w(e)
  }

  /** Nothing else changes: queue and previous links move only for lowered vertices. */
  ghost predicate OthersKept(s: State, r: State) {
    && (forall x :: x in r.queue ==> x in s.queue || Lowered(s, r, x))
    && (forall x :: x in r.previous ==> x in s.previous || Lowered(s, r, x))
    && (forall x :: x in s.cost && !Lowered(s, r, x) ==>
          && (x in r.queue <==> x in s.queue)
          && (x in s.previous ==> x in r.previous && r.previous[x] == s.previous[x]))
  }

  /** What relaxing the exits of u does, in full. */
  ghost predicate RelaxedBy(s: State, r: State, u: Ref, exits: seq<Edge>, w: Weight)
    requires u in s.cost
  {
    && Monotone(s, r)
    && Bounded(s, r, u, exits, w)
    && LoweredVia(s, r, u, exits, w)
    && OthersKept(s, r)
  }

  lemma RelaxEffect(s: State, u: Ref, e: Edge, w: Weight)
    requires u in s.cost
    ensures RelaxedBy(s, Relax(s, u, e, w), u, [e], w)
  {
    var r := Relax(s, u, e, w);
    forall x | Lowered(s, r, x)
      ensures exists e' :: e' in [e] && e'.to == x.node && r.cost[x] == s.cost[u] + w(e')
    {
      assert e in [e];
    }
  }

  lemma {:induction false} RelaxAllEffect(s: State, u: Ref, exits: seq<Edge>, w: Weight)
    requires u in s.cost
    ensures RelaxedBy(s, RelaxAll(s, u, exits, w), u, exits, w)
    decreases |exits|
  {
    if |exits| > 0 {
      var s1 := Relax(s, u, exits[0], w);
      var r := RelaxAll(s, u, exits, w);
      RelaxEffect(s, u, exits[0], w);
      RelaxAllEffect(s1, u, exits[1..], w);
      assert forall e :: e in exits <==> e == exits[0] || e in exits[1..];
      BoundedCompose(s, s1, r, u, exits, w);
      LoweredViaCompose(s, s1, r, u, exits, w);
      OthersKeptCompose(s, s1, r, u, w);
    }
  }

  lemma BoundedCompose(s: State, s1: State, r: State, u: Ref, exits: seq<Edge>, w: Weight)
    requires u in s.cost && |exits| > 0
    requires forall e :: e in exits <==> e == exits[0] || e in exits[1..]
    requires Bounded(s, s1, u, [exits[0]], w)
    requires u in s1.cost && s1.cost[u] == s.cost[u]
    requires Monotone(s1, r) && Bounded(s1, r, u, exits[1..], w)
    ensures Bounded(s, r, u, exits, w)
  {
    assert exits[0] in [exits[0]];
  }

  lemma LoweredViaCompose(s: State, s1: State, r: State, u: Ref, exits: seq<Edge>, w: Weight)
    requires u in s.cost && |exits| > 0
    requires forall e :: e in exits <==> e == exits[0] || e in exits[1..]
    requires Monotone(s, s1) && LoweredVia(s, s1, u, [exits[0]], w)
    requires u in s1.cost && s1.cost[u] == s.cost[u]
    requires Monotone(s1, r) && OthersKept(s1, r) && LoweredVia(s1, r, u, exits[1..], w)
    ensures LoweredVia(s, r, u, exits, w)
  {
    forall x | Lowered(s, r, x)
      ensures && x.Mapped? && x in r.queue && x in r.previous && r.previous[x] == u
              && exists e :: e in exits && e.to == x.node && r.cost[x] == s.cost[u] + w(e)
    {
      if Lowered(s1, r, x) {
        var e :| e in exits[1..] && e.to == x.node && r.cost[x] == s1.cost[u] + w(e);
        assert e in exits;
      } else {
        assert Lowered(s, s1, x);
        var e :| e in [exits[0]] && e.to == x.node && s1.cost[x] == s.cost[u] + w(e);
        assert e in exits;
      }
    }
  }

  lemma OthersKeptCompose(s: State, s1: State, r: State, u: Ref, w: Weight)
    requires u in s.cost
    requires Monotone(s, s1) && OthersKept(s, s1)
    requires Monotone(s1, r) && OthersKept(s1, r)
    ensures OthersKept(s, r)
  {
  }

  // ---------------------------------------------------------------- loop invariant

  /** Costs: the start vertex costs 0, every vertex lies in the finite universe, and no done
      vertex costs more than a queued one. */
  ghost predicate CostsOrdered(edges: seq<EdgeRow>, s: State) {
    && Seed in s.cost && s.cost[Seed] == 0
    && s.queue <= s.cost.Keys <= Vertices(edges)
    && (forall d, q :: d in Done(s) && q in s.queue ==> s.cost[d] <= s.cost[q])
  }

  /** Every exit of a done vertex has been relaxed. */
  ghost predicate ExitsRelaxed(edges: seq<EdgeRow>, w: Weight, start: int, s: State) {
    forall d, e :: d in Done(s) && HasEdge(edges, e) && e.from == NodeOf(start, d) ==>
      Mapped(e.to) in s.cost && s.cost[Mapped(e.to)] <= s.cost[d] + w(e)
  }

  /** The previous link of r is a real edge into r's node whose weight makes up r's cost. */
  ghost predicate Linked(edges: seq<EdgeRow>, w: Weight, start: int, s: State, r: Ref) {
    && r in s.cost && r in s.previous && s.previous[r] in s.cost && r.Mapped?
    && exists e :: HasEdge(edges, e) && e.from == NodeOf(start, s.previous[r]) && e.to == r.node
                 && s.cost[r] == s.cost[s.previous[r]] + w(e)
  }

  /** Every vertex but the start one has a previous vertex, which is done. */
  ghost predicate LinksDone(edges: seq<EdgeRow>, w: Weight, start: int, s: State) {
    && (forall r :: r in s.previous <==> r in s.cost && r != Seed)
    && (forall r :: r in s.previous ==> s.previous[r] in Done(s))
    && (forall r :: r in s.previous ==> Linked(edges, w, start, s, r))
  }

  /** rank numbers the done vertices in the order they were polled; previous links of done
      vertices point to earlier ones, so walking back along them ends. */
  ghost predicate Ranked(s: State, rank: map<Ref, nat>, time: nat) {
    && rank.Keys == Done(s)
    && (forall r :: r in rank ==> rank[r] < time)
    && (forall r :: r in s.previous && r in rank && s.previous[r] in rank ==> rank[s.previous[r]] < rank[r])
  }

  ghost predicate Inv(edges: seq<EdgeRow>, w: Weight, start: int, s: State, rank: map<Ref, nat>, time: nat) {
    && CostsOrdered(edges, s)
    && ExitsRelaxed(edges, w, start, s)
    && LinksDone(edges, w, start, s)
    && Ranked(s, rank, time)
  }

  lemma InitialInv(edges: seq<EdgeRow>, w: Weight, start: int)
    ensures Inv(edges, w, start, State(map[Seed := 0], map[], {Seed}), map[], 0)
  {
  }

  /** A vertex with the least queued cost. */
  lemma MinimumExists(queue: set<Ref>, cost: map<Ref, nat>) returns (u: Ref)
    requires queue != {} && queue <= cost.Keys
    ensures u in queue && forall q :: q in queue ==> cost[u] <= cost[q]
    decreases |queue|
  {
    var x :| x in queue;
    if queue == {x} {
      u := x;
    } else {
      var v := MinimumExists(queue - {x}, cost);
      u := if cost[x] <= cost[v] then x else v;
    }
  }

  /** The costs after polling u and relaxing its exits. */
  lemma StepCosts(edges: seq<EdgeRow>, w: Weight, start: int, s: State, u: Ref, r: State)
    requires CostsOrdered(edges, s)
    requires u in s.queue && forall q :: q in s.queue ==> s.cost[u] <= s.cost[q]
    requires RelaxedBy(s.(queue := s.queue - {u}), r, u, Exits(edges, NodeOf(start, u)), w)
    ensures CostsOrdered(edges, r)
    ensures Done(r) == Done(s) + {u}
    ensures forall d :: d in Done(r) ==> r.cost[d] == s.cost[d]
  {
    var s1 := s.(queue := s.queue - {u});
    StepVertices(edges, w, start, s1, u, r);
    assert Done(s1) == Done(s) + {u};
    forall d | d in Done(s1) ensures !Lowered(s1, r, d) {
      assert s.cost[d] <= s.cost[u];
    }
    StepDone(s1, r, u, Exits(edges, NodeOf(start, u)), w);
    StepOrdered(s, s1, r, u, Exits(edges, NodeOf(start, u)), w);
  }

  /** Relaxing u's exits gives every vertex it queues a cost of at least u's, and u costs at
      least every done vertex, so done vertices still cost no more than queued ones. */
  lemma StepOrdered(s: State, s1: State, r: State, u: Ref, exits: seq<Edge>, w: Weight)
    requires u in s.queue && s.queue <= s.cost.Keys && s1 == s.(queue := s.queue - {u})
    requires forall d, q :: d in Done(s) && q in s.queue ==> s.cost[d] <= s.cost[q]
    requires forall q :: q in s.queue ==> s.cost[u] <= s.cost[q]
    requires Monotone(s1, r) && LoweredVia(s1, r, u, exits, w) && OthersKept(s1, r)
    requires Done(r) == Done(s) + {u} && forall d :: d in Done(s1) ==> !Lowered(s1, r, d)
    ensures forall d, q :: d in Done(r) && q in r.queue ==> r.cost[d] <= r.cost[q]
  {
    forall d, q | d in Done(r) && q in r.queue ensures r.cost[d] <= r.cost[q] {
      assert r.cost[d] == s.cost[d];
      assert s.cost[d] <= s.cost[u];
      if !Lowered(s1, r, q) {
        assert q in s1.queue;
      }
    }
  }

  /** Relaxing queues every vertex it lowers; when it lowers no done vertex, the done vertices
      stay the same. */
  lemma StepDone(s1: State, r: State, u: Ref, exits: seq<Edge>, w: Weight)
    requires u in s1.cost
    requires Monotone(s1, r) && LoweredVia(s1, r, u, exits, w) && OthersKept(s1, r)
    requires forall d :: d in Done(s1) ==> !Lowered(s1, r, d)
    ensures Done(r) == Done(s1)
  {
  }

  /** Relaxing the exits of u creates only vertices for nodes that edges enter. */
  lemma StepVertices(edges: seq<EdgeRow>, w: Weight, start: int, s1: State, u: Ref, r: State)
    requires u in s1.cost && s1.cost.Keys <= Vertices(edges)
    requires Monotone(s1, r) && LoweredVia(s1, r, u, Exits(edges, NodeOf(start, u)), w)
    ensures r.cost.Keys <= Vertices(edges)
  {
    var exits := Exits(edges, NodeOf(start, u));
    forall x | x in r.cost ensures x in Vertices(edges) {
      if Lowered(s1, r, x) {
        var e :| e in exits && e.to == x.node && r.cost[x] == s1.cost[u] + w(e);
        assert HasEdge(edges, e);
      }
    }
  }

  /** After the step, the exits of every done vertex, u's included, have been relaxed. */
  lemma StepRelaxed(edges: seq<EdgeRow>, w: Weight, start: int, s: State, u: Ref, r: State)
    requires ExitsRelaxed(edges, w, start, s)
    requires u in s.queue && s.queue <= s.cost.Keys
    requires Monotone(s, r)
    requires Bounded(s.(queue := s.queue - {u}), r, u, Exits(edges, NodeOf(start, u)), w)
    requires Done(r) == Done(s) + {u}
    requires forall d :: d in Done(r) ==> r.cost[d] == s.cost[d]
    ensures ExitsRelaxed(edges, w, start, r)
  {
    var exits := Exits(edges, NodeOf(start, u));
    forall d, e | d in Done(r) && HasEdge(edges, e) && e.from == NodeOf(start, d)
      ensures Mapped(e.to) in r.cost && r.cost[Mapped(e.to)] <= r.cost[d] + w(e)
    {
      if d == u {
        assert e in exits;
      }
    }
  }

  /** After the step, previous links still lead to done vertices along real edges. */
  lemma StepLinks(edges: seq<EdgeRow>, w: Weight, start: int, s: State, s1: State, u: Ref, r: State)
    requires LinksDone(edges, w, start, s)
    requires u in s.queue && s.queue <= s.cost.Keys && s1 == s.(queue := s.queue - {u})
    requires RelaxedBy(s1, r, u, Exits(edges, NodeOf(start, u)), w)
    requires Done(r) == Done(s) + {u}
    requires forall d :: d in Done(r) ==> r.cost[d] == s.cost[d]
    ensures LinksDone(edges, w, start, r)
  {
    var exits := Exits(edges, NodeOf(start, u));
    StepLinkKeys(s1, r, u, exits, w);
    StepLinkTargets(s, s1, r, u, exits, w);
    StepLinked(edges, w, start, s, s1, u, r);
  }

  /** After the step, exactly the vertices other than the start one still have previous links. */
  lemma StepLinkKeys(s1: State, r: State, u: Ref, exits: seq<Edge>, w: Weight)
    requires u in s1.cost
    requires forall x :: x in s1.previous <==> x in s1.cost && x != Seed
    requires Monotone(s1, r) && LoweredVia(s1, r, u, exits, w) && OthersKept(s1, r)
    ensures forall x :: x in r.previous <==> x in r.cost && x != Seed
  {
  }

  /** After the step, every previous link leads to a done vertex. */
  lemma StepLinkTargets(s: State, s1: State, r: State, u: Ref, exits: seq<Edge>, w: Weight)
    requires u in s1.cost && s1.previous == s.previous && s1.cost == s.cost
    requires forall x :: x in s.previous ==> x in s.cost && s.previous[x] in Done(s)
    requires Monotone(s1, r) && LoweredVia(s1, r, u, exits, w) && OthersKept(s1, r)
    requires Done(r) == Done(s) + {u}
    ensures forall x :: x in r.previous ==> r.previous[x] in Done(r)
  {
  }

  /** After the step, every previous link is still a real edge whose weight makes up the cost. */
  lemma StepLinked(edges: seq<EdgeRow>, w: Weight, start: int, s: State, s1: State, u: Ref, r: State)
    requires u in s1.cost && s1.previous == s.previous && s1.cost == s.cost
    requires forall x :: x in s.previous ==> s.previous[x] in Done(s)
    requires forall x :: x in s.previous ==> Linked(edges, w, start, s, x)
    requires Monotone(s1, r) && OthersKept(s1, r)
    requires LoweredVia(s1, r, u, Exits(edges, NodeOf(start, u)), w)
    requires Done(r) == Done(s) + {u}
    requires forall d :: d in Done(r) ==> r.cost[d] == s.cost[d]
    ensures forall x :: x in r.previous ==> Linked(edges, w, start, r, x)
  {
    forall x | x in r.previous ensures Linked(edges, w, start, r, x) {
      if Lowered(s1, r, x) {
        LinkedLowered(edges, w, start, s1, u, r, x);
      } else {
        LinkedKept(edges, w, start, s, s1, r, x);
      }
    }
  }

  /** A vertex the step lowered is linked to u by the exit that lowered it. */
  lemma LinkedLowered(edges: seq<EdgeRow>, w: Weight, start: int, s1: State, u: Ref, r: State, x: Ref)
    requires u in s1.cost && u in r.cost && r.cost[u] == s1.cost[u]
    requires LoweredVia(s1, r, u, Exits(edges, NodeOf(start, u)), w) && Lowered(s1, r, x)
    ensures Linked(edges, w, start, r, x)
  {
    var e :| e in Exits(edges, NodeOf(start, u)) && e.to == x.node && r.cost[x] == s1.cost[u] + w(e);
    assert HasEdge(edges, e) && e.from == NodeOf(start, u);
  }

  /** A vertex the step left alone keeps its link, whose far end is done and so unchanged. */
  lemma LinkedKept(edges: seq<EdgeRow>, w: Weight, start: int, s: State, s1: State, r: State, x: Ref)
    requires s1.previous == s.previous && s1.cost == s.cost
    requires x in r.previous && x in s.previous && !Lowered(s1, r, x)
    requires s.previous[x] in Done(s) && Linked(edges, w, start, s, x)
    requires Monotone(s1, r) && OthersKept(s1, r)
    requires forall d :: d in Done(s) ==> d in r.cost && r.cost[d] == s.cost[d]
    ensures Linked(edges, w, start, r, x)
  {
    var y := s.previous[x];
    var e :| HasEdge(edges, e) && e.from == NodeOf(start, y) && e.to == x.node
             && s.cost[x] == s.cost[y] + w(e);
  }

  /** After the step, u is ranked last and previous links still lead to earlier vertices. */
  lemma StepRanked(s: State, s1: State, rank: map<Ref, nat>, time: nat, u: Ref, r: State)
    requires Ranked(s, rank, time)
    requires u in s.queue && u in s.cost && s1.previous == s.previous && s1.cost == s.cost
    requires forall x :: x in s.previous ==> x in s.cost && s.previous[x] in Done(s)
    requires OthersKept(s1, r) && Monotone(s1, r)
    requires Done(r) == Done(s) + {u}
    requires forall d :: d in Done(r) ==> r.cost[d] == s.cost[d]
    ensures Ranked(r, rank[u := time], time + 1)
  {
    forall x | x in Done(r) ensures !Lowered(s1, r, x) && x in s.cost {
    }
  }

  /** Polling a cheapest queued vertex and relaxing its exits keeps the invariant and makes
      exactly that vertex done. */
  lemma Step(edges: seq<EdgeRow>, w: Weight, start: int, s: State, rank: map<Ref, nat>, time: nat, u: Ref)
    requires Inv(edges, w, start, s, rank, time)
    requires u in s.queue && forall q :: q in s.queue ==> s.cost[u] <= s.cost[q]
    ensures var r := RelaxAll(s.(queue := s.queue - {u}), u, Exits(edges, NodeOf(start, u)), w);
            && Inv(edges, w, start, r, rank[u := time], time + 1)
            && |Vertices(edges) - Done(r)| < |Vertices(edges) - Done(s)|
  {
    var s1 := s.(queue := s.queue - {u});
    var exits := Exits(edges, NodeOf(start, u));
    var r := RelaxAll(s1, u, exits, w);
    RelaxAllEffect(s1, u, exits, w);
    StepCosts(edges, w, start, s, u, r);
    StepRelaxed(edges, w, start, s, u, r);
    StepLinks(edges, w, start, s, s1, u, r);
    StepRanked(s, s1, rank, time, u, r);
    Shrinks(Vertices(edges), Done(s), u);
  }

  // ---------------------------------------------------------------- what the search computes

  /** Once the queue is empty, no walk from the start node is cheaper than the cost recorded
      for its end node, and a node no vertex was created for is not reachable at all. */
  lemma {:induction false} CostsAreLeast(edges: seq<EdgeRow>, w: Weight, start: int, s: State, v: int, p: seq<Edge>)
    requires ExitsRelaxed(edges, w, start, s) && s.queue == {} && Seed in s.cost && s.cost[Seed] == 0
    requires IsWalk(edges, start, v, p) && |p| > 0
    ensures Mapped(v) in s.cost && s.cost[Mapped(v)] <= Cost(w, p)
    decreases |p|
  {
    var e := p[|p| - 1];
    var q := p[..|p| - 1];
    WalkSplitLast(edges, w, start, v, p);
    if |q| == 0 {
      assert Seed in Done(s) && NodeOf(start, Seed) == e.from && HasEdge(edges, e);
    } else {
      CostsAreLeast(edges, w, start, s, e.from, q);
      assert Mapped(e.from) in Done(s) && NodeOf(start, Mapped(e.from)) == e.from;
    }
  }

  /** Once the queue is empty, the previous links of every vertex spell a walk from the start
      node whose cost is the vertex's recorded cost. */
  lemma {:induction false} CostsAreMet(edges: seq<EdgeRow>, w: Weight, start: int, s: State, rank: map<Ref, nat>,
                                       x: Ref) returns (p: seq<Edge>)
    requires Backtrackable(edges, w, start, s, rank)
    requires x in s.cost
    ensures IsWalk(edges, start, NodeOf(start, x), p) && Cost(w, p) == s.cost[x]
    ensures x.Mapped? ==> |p| > 0
    decreases if x in rank then rank[x] else 0
  {
    if x == Seed {
      p := [];
    } else {
      var y := s.previous[x];
      var e := LinkBack(edges, w, start, s, rank, x);
      var q := CostsAreMet(edges, w, start, s, rank, y);
      WalkAppend(edges, w, start, NodeOf(start, y), q, e);
      p := q + [e];
    }
  }

  /** The queue is empty: created vertices are exactly the reachable nodes, at least cost. */
  lemma Finished(edges: seq<EdgeRow>, w: Weight, start: int, s: State, rank: map<Ref, nat>, time: nat)
    requires Inv(edges, w, start, s, rank, time) && s.queue == {}
    ensures forall v :: Mapped(v) in s.cost <==> Reaches(edges, start, v)
    ensures forall v, p :: IsWalk(edges, start, v, p) && |p| > 0 ==> Mapped(v) in s.cost && s.cost[Mapped(v)] <= Cost(w, p)
  {
    FinishedBacktrackable(edges, w, start, s, rank, time);
    forall v ensures Mapped(v) in s.cost <==> Reaches(edges, start, v) {
      if Mapped(v) in s.cost {
        var p := CostsAreMet(edges, w, start, s, rank, Mapped(v));
      }
      if Reaches(edges, start, v) {
        var p :| IsWalk(edges, start, v, p) && |p| > 0;
        CostsAreLeast(edges, w, start, s, v, p);
      }
    }
    forall v, p | IsWalk(edges, start, v, p) && |p| > 0
      ensures Mapped(v) in s.cost && s.cost[Mapped(v)] <= Cost(w, p)
    {
      CostsAreLeast(edges, w, start, s, v, p);
    }
  }

  /** Vertex.equals compares node ids only, so the start vertex and a node-map vertex of the
      start node are equal for the queue's remove. They never meet there: the start vertex is
      the only vertex queued until it is polled, and relaxing queues node-map vertices alone. */
  lemma SeedPolledFirst(s: State, u: Ref, exits: seq<Edge>, w: Weight)
    requires Seed in s.queue ==> s.queue == {Seed}
    requires u in s.queue && u in s.cost
    ensures Seed !in RelaxAll(s.(queue := s.queue - {u}), u, exits, w).queue
  {
    RelaxAllEffect(s.(queue := s.queue - {u}), u, exits, w);
  }

  /** The search loop of dijkstra: poll a cheapest queued vertex, relax its exits, repeat until
      the queue is empty. Ties between equally cheap vertices are broken arbitrarily, as the
      priority queue does. The costs it leaves are the least walk costs from the start node. */
  method Search(edges: seq<EdgeRow>, w: Weight, start: int) returns (s: State, ghost rank: map<Ref, nat>, ghost time: nat)
    ensures Inv(edges, w, start, s, rank, time) && s.queue == {}
    ensures s.cost[Seed] == 0
    ensures forall v :: Mapped(v) in s.cost <==> Reaches(edges, start, v)
    ensures forall v, p :: IsWalk(edges, start, v, p) && |p| > 0 ==> Mapped(v) in s.cost && s.cost[Mapped(v)] <= Cost(w, p)
  {
    s := State(map[Seed := 0], map[], {Seed});
    rank, time := map[], 0;
    while s.queue != {}
      invariant Inv(edges, w, start, s, rank, time)
      invariant Seed in s.queue ==> s.queue == {Seed}
      decreases |Vertices(edges) - Done(s)|
    {
      ghost var cheapest := MinimumExists(s.queue, s.cost);
      var u :| u in s.queue && forall q :: q in s.queue ==> s.cost[u] <= s.cost[q];
      ghost var before := s;
      var exits := Exits(edges, NodeOf(start, u));
      s := RelaxAll(s.(queue := s.queue - {u}), u, exits, w);
      Step(edges, w, start, before, rank, time, u);
      SeedPolledFirst(before, u, exits, w);
      rank, time := rank[u := time], time + 1;
    }
    Finished(edges, w, start, s, rank, time);
  }

  // ---------------------------------------------------------------- the path

  /** What backtracking needs of a finished search: every vertex but the start one has a
      previous link along a real edge, to a vertex polled earlier. */
  ghost predicate Backtrackable(edges: seq<EdgeRow>, w: Weight, start: int, s: State, rank: map<Ref, nat>) {
    && Seed in s.cost && s.cost[Seed] == 0
    && (forall r :: r in s.previous <==> r in s.cost && r != Seed)
    && (forall r :: r in s.previous ==> Linked(edges, w, start, s, r))
    && (forall r :: r in s.previous ==> r in rank && s.previous[r] in rank && rank[s.previous[r]] < rank[r])
  }

  lemma FinishedBacktrackable(edges: seq<EdgeRow>, w: Weight, start: int, s: State, rank: map<Ref, nat>, time: nat)
    requires Inv(edges, w, start, s, rank, time) && s.queue == {}
    ensures Backtrackable(edges, w, start, s, rank)
  {
  }

  /** One link back: the edge behind the previous link of r. */
  lemma LinkBack(edges: seq<EdgeRow>, w: Weight, start: int, s: State, rank: map<Ref, nat>, r: Ref) returns (e: Edge)
    requires Backtrackable(edges, w, start, s, rank) && r in s.previous
    ensures r.Mapped? && s.previous[r] in s.cost && s.previous[r] in rank && rank[s.previous[r]] < rank[r]
    ensures HasEdge(edges, e) && e.from == NodeOf(start, s.previous[r]) && e.to == NodeOf(start, r)
    ensures s.cost[r] == s.cost[s.previous[r]] + w(e)
  {
    e :| HasEdge(edges, e) && e.from == NodeOf(start, s.previous[r]) && e.to == r.node
         && s.cost[r] == s.cost[s.previous[r]] + w(e);
  }

  /** Backtracking has reached r: walk leads from r's node to the end node, making up the rest
      of the end vertex's cost, and path holds the nodes walk enters, last first. */
  ghost predicate BackFrom(edges: seq<EdgeRow>, w: Weight, start: int, s: State, end: int, r: Ref,
                           walk: seq<Edge>, path: seq<int>) {
    && r in s.cost && Mapped(end) in s.cost
    && IsWalk(edges, NodeOf(start, r), end, walk)
    && s.cost[Mapped(end)] == s.cost[r] + Cost(w, walk)
    && (r == Mapped(end) || |walk| > 0)
    && |path| == |walk|
    && forall i :: 0 <= i < |walk| ==> path[i] == walk[|walk| - 1 - i].to
  }

  lemma BackStep(edges: seq<EdgeRow>, w: Weight, start: int, s: State, rank: map<Ref, nat>, end: int, r: Ref,
                 walk: seq<Edge>, path: seq<int>) returns (e: Edge)
    requires Backtrackable(edges, w, start, s, rank) && r in s.previous
    requires BackFrom(edges, w, start, s, end, r, walk, path)
    ensures s.previous[r] in rank && rank[s.previous[r]] < rank[r]
    ensures BackFrom(edges, w, start, s, end, s.previous[r], [e] + walk, path + [NodeOf(start, r)])
  {
    e := LinkBack(edges, w, start, s, rank, r);
    WalkPrepend(edges, w, NodeOf(start, r), end, e, walk);
  }

  /** The backtracking loop of dijkstra: from the node-map vertex of the end node along the
      previous links until the start vertex, appending each node id, so the list runs from the
      end node back to the start node. No vertex for the end node gives the empty list. */
  method Backtrack(ghost edges: seq<EdgeRow>, ghost w: Weight, start: int, s: State, ghost rank: map<Ref, nat>,
                   end: int) returns (path: seq<int>, ghost walk: seq<Edge>)
    requires Backtrackable(edges, w, start, s, rank)
    ensures Mapped(end) !in s.cost ==> path == []
    ensures Mapped(end) in s.cost ==>
              && IsWalk(edges, start, end, walk) && |walk| > 0
              && Cost(w, walk) == s.cost[Mapped(end)]
              && path == Reverse(Visits(start, walk))
  {
    walk := [];
    if Mapped(end) !in s.cost {
      return [], walk;
    }
    var r := Mapped(end);
    path := [];
    while r in s.previous
      invariant BackFrom(edges, w, start, s, end, r, walk, path)
      decreases if r in rank then rank[r] else 0
    {
      ghost var e := BackStep(edges, w, start, s, rank, end, r, walk, path);
      path := path + [NodeOf(start, r)];
      walk := [e] + walk;
      r := s.previous[r];
    }
    BackDone(edges, w, start, s, rank, end, r, walk, path);
    path := path + [NodeOf(start, r)];
  }

  lemma BackDone(edges: seq<EdgeRow>, w: Weight, start: int, s: State, rank: map<Ref, nat>, end: int, r: Ref,
                 walk: seq<Edge>, path: seq<int>)
    requires Backtrackable(edges, w, start, s, rank) && r !in s.previous
    requires BackFrom(edges, w, start, s, end, r, walk, path)
    ensures r == Seed && NodeOf(start, r) == start
    ensures IsWalk(edges, start, end, walk) && |walk| > 0 && Cost(w, walk) == s.cost[Mapped(end)]
    ensures path + [start] == Reverse(Visits(start, walk))
  {
    ReversedVisits(start, walk, path + [start]);
  }

  /** dijkstra as written: search, then backtrack from the end node's node-map vertex. The list
      is empty exactly when no walk with at least one edge leads from start to end; otherwise
      it is the node sequence, end first, of a cheapest such walk. Because the start vertex is
      kept out of the node map, the list never consists of one node, not even when end is
      the start node. */
  method Dijkstra(edges: seq<EdgeRow>, w: Weight, start: int, end: int) returns (path: seq<int>, ghost walk: seq<Edge>)
    ensures path == [] <==> !Reaches(edges, start, end)
    ensures path != [] ==> ShortestNonEmpty(edges, w, start, end, walk) && path == Reverse(Visits(start, walk))
    ensures |path| != 1
  {
    var s, rank, time := Search(edges, w, start);
    FinishedBacktrackable(edges, w, start, s, rank, time);
    path, walk := Backtrack(edges, w, start, s, rank, end);
  }

  /** dijkstra with the start node answered by itself: a walk with no edge costs nothing, so
      the path from a node to itself is that node alone. Everything else is as in Dijkstra. */
  method ShortestPath(edges: seq<EdgeRow>, w: Weight, start: int, end: int) returns (path: seq<int>, ghost walk: seq<Edge>)
    ensures path == [] <==> !exists p :: IsWalk(edges, start, end, p)
    ensures path != [] ==> Shortest(edges, w, start, end, walk) && path == Reverse(Visits(start, walk))
    ensures start == end ==> path == [start]
  {
    if start == end {
      path, walk := [start], [];
      assert IsWalk(edges, start, end, walk);
      return;
    }
    path, walk := Dijkstra(edges, w, start, end);
  }

  /** The smallest input showing the difference: with an empty edge table, dijkstra from node 1
      to node 1 answers the empty list, although the walk without edges leads there. */
  method DijkstraMissesTrivialPath() returns (asWritten: seq<int>, corrected: seq<int>)
    ensures asWritten == [] && corrected == [1]
  {
    var w: Weight := (e: Edge) => 1;
    ghost var walk: seq<Edge>;
    assert !Reaches([], 1, 1);
    asWritten, walk := Dijkstra([], w, 1, 1);
    corrected, walk := ShortestPath([], w, 1, 1);
  }
}
