/** The AND/OR graphs the landmark engine reads.
    Graph construction and the collapse of strongly connected components
    happen elsewhere; here a graph is a sequence of node records whose
    identifiers are their own indices. */
module Graphs {

  /** Structural kind: an AND node needs all its predecessors, an OR node one of them. */
  datatype NodeType = And | Or

  /** Content kind. `Other` stands for any content kind the landmark code never tests. */
  datatype ContentType = Fact | Operator | Method | Other

  /** One graph node; `preds` and `succs` hold node identifiers. */
  datatype Node = Node(id: nat, kind: NodeType, content: ContentType, preds: seq<nat>, succs: seq<nat>)

  type Graph = seq<Node>

  /** Identifiers are indices and every edge stays inside the graph. */
  ghost predicate WellFormed(g: Graph)
  {
    forall n :: 0 <= n < |g| ==>
      g[n].id == n &&
      (forall p :: p in g[n].preds ==> p < |g|) &&
      (forall s :: s in g[n].succs ==> s < |g|)
  }

  /** Predecessor and successor lists describe the same edges. */
  ghost predicate Consistent(g: Graph)
  {
    forall n, m :: 0 <= n < |g| && 0 <= m < |g| ==> (m in g[n].succs <==> n in g[m].preds)
  }

  /** A node without predecessors; the worklists start from these. */
  predicate IsSource(g: Graph, n: nat)
  {
    n < |g| && g[n].preds == []
  }

  /** `p` is a walk along successor edges from a source to `n`. */
  ghost predicate IsPathTo(g: Graph, p: seq<nat>, n: nat)
  {
    |p| > 0 && p[|p| - 1] == n &&
    (forall i :: 0 <= i < |p| ==> p[i] < |g|) &&
    IsSource(g, p[0]) &&
    (forall i :: 0 <= i < |p| - 1 ==> p[i + 1] in g[p[i]].succs)
  }

  ghost predicate Reachable(g: Graph, n: nat)
  {
    exists p :: IsPathTo(g, p, n)
  }

  lemma SourceReachable(g: Graph, n: nat)
    requires IsSource(g, n)
    ensures Reachable(g, n)
  {
    assert IsPathTo(g, [n], n);
  }

  lemma ReachableStep(g: Graph, n: nat, s: nat)
    requires WellFormed(g) && n < |g| && Reachable(g, n) && s in g[n].succs
    ensures Reachable(g, s)
  {
    var p :| IsPathTo(g, p, n);
    var q := p + [s];
    assert forall i :: 0 <= i < |q| - 1 ==> q[i + 1] in g[q[i]].succs by {
      forall i | 0 <= i < |q| - 1
        ensures q[i + 1] in g[q[i]].succs
      {
        if i < |p| - 1 {
          assert q[i] == p[i] && q[i + 1] == p[i + 1];
        } else {
          assert q[i] == n && q[i + 1] == s;
        }
      }
    }
    assert IsPathTo(g, q, s);
  }

  /** The identifiers of the predecessor-less nodes at index `i` or above, in order. */
  function SourcesFrom(g: Graph, i: nat): (r: seq<nat>)
    requires i <= |g|
    ensures forall x :: x in r <==> i <= x && IsSource(g, x)
    decreases |g| - i
  {
    if i == |g| then []
    else (if g[i].preds == [] then [i] else []) + SourcesFrom(g, i + 1)
  }

  /** All predecessor-less nodes, in graph order. */
  function SourceIds(g: Graph): (r: seq<nat>)
    ensures forall x :: x in r <==> IsSource(g, x)
  {
    SourcesFrom(g, 0)
  }
}
