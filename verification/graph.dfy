/** The directed graph a network's edge table describes, as the path searches see it: the
    exits of a node are the edges whose 'from' column names it (getExits), a walk follows
    exits edge by edge, and its cost is the sum of the caller-supplied edge weights. */
module Graph {
  import opened Store

  /** An edge weight, as the edge-cost function handed to the searches computes it. */
  type Weight = Edge -> nat

  /** p follows edges of the table from a to b; the empty walk stays at a == b. */
  ghost predicate IsWalk(edges: seq<EdgeRow>, a: int, b: int, p: seq<Edge>) {
    && (forall i :: 0 <= i < |p| ==> HasEdge(edges, p[i]))
    && (forall i :: 0 <= i < |p| - 1 ==> p[i].to == p[i + 1].from)
    && (if |p| == 0 then a == b else p[0].from == a && p[|p| - 1].to == b)
  }

  function Cost(w: Weight, p: seq<Edge>): nat {
    if |p| == 0 then 0 else Cost(w, p[..|p| - 1]) + w(p[|p| - 1])
  }

  /** Some walk with at least one edge leads from a to b. */
  ghost predicate Reaches(edges: seq<EdgeRow>, a: int, b: int) {
    exists p :: IsWalk(edges, a, b, p) && |p| > 0
  }

  /** Extending a walk by an exit of its last node gives a walk, costlier by that edge. */
  lemma WalkAppend(edges: seq<EdgeRow>, w: Weight, a: int, b: int, p: seq<Edge>, e: Edge)
    requires IsWalk(edges, a, b, p)
    requires HasEdge(edges, e) && e.from == b
    ensures IsWalk(edges, a, e.to, p + [e])
    ensures Cost(w, p + [e]) == Cost(w, p) + w(e)
  {
    assert (p + [e])[..|p|] == p;
  }

  /** A walk with at least one edge is a shorter walk followed by an exit of its end. */
  lemma WalkSplitLast(edges: seq<EdgeRow>, w: Weight, a: int, b: int, p: seq<Edge>)
    requires IsWalk(edges, a, b, p) && |p| > 0
    ensures IsWalk(edges, a, p[|p| - 1].from, p[..|p| - 1])
    ensures HasEdge(edges, p[|p| - 1]) && p[|p| - 1].to == b
    ensures Cost(w, p) == Cost(w, p[..|p| - 1]) + w(p[|p| - 1])
  {
  }

  lemma {:induction false} CostPrepend(w: Weight, e: Edge, p: seq<Edge>)
    ensures Cost(w, [e] + p) == w(e) + Cost(w, p)
    decreases |p|
  {
    if |p| > 0 {
      assert ([e] + p)[..|p|] == [e] + p[..|p| - 1];
      CostPrepend(w, e, p[..|p| - 1]);
    }
  }

  /** An edge into the first node of a walk, followed by the walk, is a walk. */
  lemma WalkPrepend(edges: seq<EdgeRow>, w: Weight, a: int, b: int, e: Edge, p: seq<Edge>)
    requires IsWalk(edges, a, b, p)
    requires HasEdge(edges, e) && e.to == a
    ensures IsWalk(edges, e.from, b, [e] + p)
    ensures Cost(w, [e] + p) == w(e) + Cost(w, p)
  {
    CostPrepend(w, e, p);
  }

  /** p is a cheapest walk from a to b. */
  ghost predicate Shortest(edges: seq<EdgeRow>, w: Weight, a: int, b: int, p: seq<Edge>) {
    IsWalk(edges, a, b, p) && forall q :: IsWalk(edges, a, b, q) ==> Cost(w, p) <= Cost(w, q)
  }

  /** p is a cheapest walk from a to b among those with at least one edge. */
  ghost predicate ShortestNonEmpty(edges: seq<EdgeRow>, w: Weight, a: int, b: int, p: seq<Edge>) {
    && IsWalk(edges, a, b, p) && |p| > 0
    && forall q :: IsWalk(edges, a, b, q) && |q| > 0 ==> Cost(w, p) <= Cost(w, q)
  }

  /** The nodes a walk visits, from its start to its end. */
  function Visits(a: int, p: seq<Edge>): (r: seq<int>)
    ensures |r| == |p| + 1
    ensures r[0] == a
    ensures forall i :: 0 <= i < |p| ==> r[i + 1] == p[i].to
  {
    if |p| == 0 then [a] else Visits(a, p[..|p| - 1]) + [p[|p| - 1].to]
  }

  function Reverse(s: seq<int>): (r: seq<int>)
    ensures |r| == |s|
    ensures forall i :: 0 <= i < |s| ==> r[i] == s[|s| - 1 - i]
  {
    if |s| == 0 then [] else [s[|s| - 1]] + Reverse(s[..|s| - 1])
  }

  /** A list holding the nodes a walk enters, last first, and then its start node, is the
      walk's node sequence reversed. */
  lemma ReversedVisits(a: int, p: seq<Edge>, path: seq<int>)
    requires |path| == |p| + 1 && path[|p|] == a
    requires forall i :: 0 <= i < |p| ==> path[i] == p[|p| - 1 - i].to
    ensures path == Reverse(Visits(a, p))
  {
    var v := Visits(a, p);
    forall i | 0 <= i < |path| ensures path[i] == Reverse(v)[i] {
      if i < |p| {
        assert v[|p| - 1 - i + 1] == p[|p| - 1 - i].to;
      }
    }
  }

  /** Every node an edge of the table enters: the nodes a search can discover. */
  function Targets(edges: seq<EdgeRow>): (r: set<int>)
    ensures forall e :: HasEdge(edges, e) ==> e.to in r
  {
    set j | 0 <= j < |edges| :: edges[j].edge.to
  }

  /** Finishing one more unfinished element of a finite universe shrinks what is left: the
      termination measure of both searches. */
  lemma Shrinks<T>(universe: set<T>, finished: set<T>, u: T)
    requires u in universe && u !in finished
    ensures |universe - (finished + {u})| < |universe - finished|
  {
    assert universe - (finished + {u}) == (universe - finished) - {u};
  }
}
