/** Two small graphs on which the extraction rules can be followed by hand. */
module Scenarios {
  import opened Graphs
  import opened Rules

  /** Facts F0 = 0 and F1 = 1 are sources; A = 2 is an AND node over both;
      O = 3 is an OR node over F0 and A. */
  const AndOrGraph: Graph := [
    Node(0, Or, Fact, [], [2, 3]),
    Node(1, Or, Fact, [], [2]),
    Node(2, And, Operator, [0, 1], [3]),
    Node(3, Or, Fact, [0, 2], [])
  ]

  lemma AndOrWellFormed()
    ensures WellFormed(AndOrGraph)
  {
    var g := AndOrGraph;
    forall n | 0 <= n < |g|
      ensures g[n].id == n && (forall p :: p in g[n].preds ==> p < |g|) && (forall s :: s in g[n].succs ==> s < |g|)
    {
    }
  }

  lemma AndOrShape()
    ensures WellFormed(AndOrGraph) && Consistent(AndOrGraph)
    ensures IsSource(AndOrGraph, 0) && IsSource(AndOrGraph, 1)
    ensures Reachable(AndOrGraph, 2) && Reachable(AndOrGraph, 3)
  {
    AndOrWellFormed();
    var g := AndOrGraph;
    forall n, m | 0 <= n < |g| && 0 <= m < |g|
      ensures m in g[n].succs <==> n in g[m].preds
    {
    }
    assert IsPathTo(g, [0, 2], 2);
    assert IsPathTo(g, [0, 3], 3);
  }

  /** A collects the landmarks of both facts. */
  lemma AndNode(T: Table)
    requires |T| == 4 && T[0] == {0} && T[1] == {1}
    ensures WellFormed(AndOrGraph) && BottomUpCandidate(AndOrGraph, T, 2) == {0, 1, 2}
  {
    AndOrWellFormed();
    assert AndOrGraph[2].preds == [0, 1];
    assert UnionAll(T, [0, 1]) == {0, 1} by {
      assert UnionAll(T, [1]) == {1};
    }
  }

  /** O keeps only F0, which both of its alternatives need. */
  lemma OrNode(T: Table)
    requires |T| == 4 && T[0] == {0} && T[2] == {0, 1, 2}
    ensures WellFormed(AndOrGraph) && BottomUpCandidate(AndOrGraph, T, 3) == {0, 3}
  {
    AndOrWellFormed();
    assert AndOrGraph[3].preds == [0, 2];
    assert IntersectAll(T, [0, 2]) == {0} by {
      assert IntersectAll(T, [2]) == {0, 1, 2};
    }
  }

  /** Whatever table the bottom-up extraction leaves on this graph is this one:
      A needs both facts, O only what its two alternatives share. */
  lemma AndOrExample(T: Table)
    requires TableInv(BottomUp, AndOrGraph, T) && Fixpoint(BottomUp, AndOrGraph, T)
    ensures T == [{0}, {1}, {0, 1, 2}, {0, 3}]
  {
    assert |T| == 4 && T[0] == {0} && T[1] == {1} &&
      T[2] == BottomUpCandidate(AndOrGraph, T, 2) && T[3] == BottomUpCandidate(AndOrGraph, T, 3) by {
      AndOrShape();
      ReachableIffNonEmpty(BottomUp, AndOrGraph, T);
    }
    AndNode(T);
    OrNode(T);
    FourEntries(T, {0}, {1}, {0, 1, 2}, {0, 3});
  }

  lemma FourEntries(T: Table, a: set<nat>, b: set<nat>, c: set<nat>, d: set<nat>)
    requires |T| == 4 && T[0] == a && T[1] == b && T[2] == c && T[3] == d
    ensures T == [a, b, c, d]
  {
  }

  /** Methods M1 = 0 and M2 = 1, fact F = 2, operator OP = 3 with predecessors
      M1, M2 and F, and a landmark X = 4 shared by both methods. */
  const OperatorGraph: Graph := [
    Node(0, Or, Method, [], [3]),
    Node(1, Or, Method, [], [3]),
    Node(2, Or, Fact, [], [3]),
    Node(3, Or, Operator, [0, 1, 2], []),
    Node(4, Or, Fact, [], [])
  ]

  /** The table of the operator example: each method's entry holds itself and X. */
  const OperatorTable: Table := [{0, 4}, {1, 4}, {2}, {}, {}]

  lemma OperatorGraphWellFormed()
    ensures WellFormed(OperatorGraph)
  {
    var g := OperatorGraph;
    forall n | 0 <= n < |g|
      ensures g[n].id == n && (forall p :: p in g[n].preds ==> p < |g|) && (forall s :: s in g[n].succs ==> s < |g|)
    {
    }
  }

  /** The method predecessors of OP are M1 and M2. */
  lemma OperatorMethods()
    ensures MethodPreds(OperatorGraph, [0, 1, 2]) == [0, 1]
  {
    assert MethodPreds(OperatorGraph, [2]) == [];
    assert MethodPreds(OperatorGraph, [1, 2]) == [1];
  }

  /** What M1 and M2 share is X. */
  lemma OperatorShared()
    ensures IntersectAll(OperatorTable, [0, 1]) == {4}
  {
    var T := OperatorTable;
    assert IntersectAll(T, [1]) == {1, 4};
    assert {0, 4} * {1, 4} == {4};
  }

  /** The operator keeps what its two methods share and itself; the entry of
      its fact predecessor F is not added. */
  lemma OperatorExample()
    ensures WellFormed(OperatorGraph)
    ensures TopDownCandidate(OperatorGraph, OperatorTable, 3) == {3, 4}
  {
    OperatorGraphWellFormed();
    assert OperatorGraph[3].preds == [0, 1, 2];
    OperatorMethods();
    OperatorShared();
  }
}
