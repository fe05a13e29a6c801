/** The per-node candidate rules of the two landmark extractions, the
    invariants their worklists keep, and the lemmas behind those invariants. */
module Rules {
  import opened Graphs

  /** A landmark table: entry `n` holds the identifiers of the landmarks of node `n`. */
  type Table = seq<set<nat>>

  /** Which extraction a rule belongs to. */
  datatype Direction = BottomUp | TopDown

  /** Intersection of the entries named by a non-empty list of identifiers. */
  function IntersectAll(T: Table, ids: seq<nat>): (r: set<nat>)
    requires |ids| > 0
    requires forall p :: p in ids ==> p < |T|
    ensures forall x :: x in r <==> (forall p :: p in ids ==> x in T[p])
    decreases |ids|
  {
    assert ids[0] in ids;
    if |ids| == 1 then T[ids[0]]
    else
      assert forall p :: p in ids <==> p == ids[0] || p in ids[1..];
      T[ids[0]] * IntersectAll(T, ids[1..])
  }

  /** Union of the entries named by a list of identifiers; empty for no identifiers. */
  function UnionAll(T: Table, ids: seq<nat>): (r: set<nat>)
    requires forall p :: p in ids ==> p < |T|
    ensures forall x :: x in r <==> (exists p :: p in ids && x in T[p])
    decreases |ids|
  {
    if ids == [] then {}
    else
      assert ids[0] in ids;
      assert forall p :: p in ids <==> p == ids[0] || p in ids[1..];
      T[ids[0]] + UnionAll(T, ids[1..])
  }

  /** The METHOD nodes among `ps`, in order. */
  function MethodPreds(g: Graph, ps: seq<nat>): (r: seq<nat>)
    requires forall p :: p in ps ==> p < |g|
    ensures forall p :: p in r <==> p in ps && g[p].content == Method
    decreases |ps|
  {
    if ps == [] then []
    else
      assert ps[0] in ps;
      assert forall p :: p in ps <==> p == ps[0] || p in ps[1..];
      (if g[ps[0]].content == Method then [ps[0]] else []) + MethodPreds(g, ps[1..])
  }

  /** Bottom-up rule: an OR node keeps what all its predecessors share, an AND
      node collects what any predecessor needs, and a node is its own landmark. */
  function BottomUpCandidate(g: Graph, T: Table, n: nat): (r: set<nat>)
    requires WellFormed(g) && |T| == |g| && n < |g|
    ensures n in r
    ensures g[n].preds == [] ==> r == {n}
    ensures g[n].kind == Or && g[n].preds != [] ==>
      forall x :: x in r <==> x == n || forall p :: p in g[n].preds ==> x in T[p]
    ensures g[n].kind == And && g[n].preds != [] ==>
      forall x :: x in r <==> x == n || exists p :: p in g[n].preds && x in T[p]
  {
    var ps := g[n].preds;
    var inherited :=
      if g[n].kind == Or && ps != [] then IntersectAll(T, ps)
      else if g[n].kind == And && ps != [] then UnionAll(T, ps)
      else {};
    inherited + {n}
  }

  /** Top-down rule: an OPERATOR node with predecessors keeps what all its
      METHOD predecessors share (nothing when it has none); every other node
      follows the bottom-up rule. The landmarks of the non-method predecessors
      of an operator are gathered in `landmark.py` (`forced_landmarks`) but never
      merged into the result, so they are absent here as well. */
  function TopDownCandidate(g: Graph, T: Table, n: nat): (r: set<nat>)
    requires WellFormed(g) && |T| == |g| && n < |g|
    ensures n in r
    ensures g[n].preds == [] ==> r == {n}
    ensures g[n].content == Operator && g[n].preds != [] ==>
      forall x :: x in r <==> (x == n ||
        ((exists m :: m in g[n].preds && g[m].content == Method) &&
         (forall m :: m in g[n].preds && g[m].content == Method ==> x in T[m])))
    ensures g[n].content != Operator ==> r == BottomUpCandidate(g, T, n)
  {
    if g[n].content == Operator && g[n].preds != [] then
      var methods := MethodPreds(g, g[n].preds);
      assert methods != [] <==> exists m :: m in g[n].preds && g[m].content == Method by {
        if methods != [] { assert methods[0] in methods; }
      }
      (if methods != [] then IntersectAll(T, methods) else {}) + {n}
    else
      BottomUpCandidate(g, T, n)
  }

  /** The entries of an operator's non-method predecessors never reach its
      top-down candidate. */
  lemma ForcedLandmarksIgnored(g: Graph, T: Table, U: Table, n: nat)
    requires WellFormed(g) && |T| == |g| && |U| == |g| && n < |g|
    requires g[n].content == Operator
    requires forall m :: m in g[n].preds && g[m].content == Method ==> T[m] == U[m]
    ensures TopDownCandidate(g, T, n) == TopDownCandidate(g, U, n)
  {
    if g[n].preds != [] {
      forall x
        ensures x in TopDownCandidate(g, T, n) <==> x in TopDownCandidate(g, U, n)
      {
      }
    }
  }

  function Candidate(dir: Direction, g: Graph, T: Table, n: nat): (r: set<nat>)
    requires WellFormed(g) && |T| == |g| && n < |g|
    ensures n in r
  {
    match dir
    case BottomUp => BottomUpCandidate(g, T, n)
    case TopDown => TopDownCandidate(g, T, n)
  }

  /** Every entry names only nodes of the graph. */
  ghost predicate Bounded(T: Table, N: nat)
  {
    forall i, x :: 0 <= i < |T| && x in T[i] ==> x < N
  }

  /** `U` is `T` with entries only enlarged. */
  ghost predicate Grows(T: Table, U: Table)
  {
    |T| == |U| && forall i :: 0 <= i < |T| ==> T[i] <= U[i]
  }

  /** Every stored entry lies inside the candidate the rule would compute now. */
  ghost predicate BelowCandidate(dir: Direction, g: Graph, T: Table)
  {
    WellFormed(g) && |T| == |g| &&
    forall n :: 0 <= n < |g| ==> T[n] <= Candidate(dir, g, T, n)
  }

  ghost predicate OwnIdWhenNonEmpty(T: Table)
  {
    forall n :: 0 <= n < |T| && T[n] != {} ==> n in T[n]
  }

  ghost predicate OnlyReached(g: Graph, T: Table)
  {
    forall n :: 0 <= n < |T| && T[n] != {} ==> Reachable(g, n)
  }

  /** A node the worklist has not reached: empty, and so are all its predecessors. */
  ghost predicate Dormant(g: Graph, T: Table, n: nat)
    requires WellFormed(g) && |T| == |g| && n < |g|
  {
    T[n] == {} && g[n].preds != [] && forall p :: p in g[n].preds ==> T[p] == {}
  }

  /** Node `n` needs no further processing. */
  ghost predicate Settled(dir: Direction, g: Graph, T: Table, n: nat)
    requires WellFormed(g) && |T| == |g| && n < |g|
  {
    T[n] == Candidate(dir, g, T, n) || Dormant(g, T, n)
  }

  ghost predicate Fixpoint(dir: Direction, g: Graph, T: Table)
    requires WellFormed(g) && |T| == |g|
  {
    forall n :: 0 <= n < |g| ==> Settled(dir, g, T, n)
  }

  /** What holds of a table before and after every run of its extraction. */
  ghost predicate TableInv(dir: Direction, g: Graph, T: Table)
  {
    WellFormed(g) && |T| == |g| && Bounded(T, |g|) &&
    BelowCandidate(dir, g, T) && OwnIdWhenNonEmpty(T) && OnlyReached(g, T) &&
    (Consistent(g) ==> forall n :: 0 <= n < |g| && !IsSource(g, n) ==> Settled(dir, g, T, n))
  }

  /** The table both extractions start from: one independent empty set per node. */
  function EmptyTable(N: nat): (T: Table)
    ensures |T| == N && forall i :: 0 <= i < N ==> T[i] == {}
  {
    seq(N, _ => {})
  }

  lemma EmptyTableInv(dir: Direction, g: Graph)
    requires WellFormed(g)
    ensures TableInv(dir, g, EmptyTable(|g|))
  {
  }

  /** Sum of the entry sizes; it only rises while the extraction runs. */
  ghost function Potential(T: Table): nat
  {
    if T == [] then 0 else Potential(T[..|T| - 1]) + |T[|T| - 1]|
  }

  lemma {:induction false} PotentialUpdate(T: Table, i: nat, S: set<nat>)
    requires i < |T|
    ensures Potential(T[i := S]) + |T[i]| == Potential(T) + |S|
    decreases |T|
  {
    var k := |T| - 1;
    if i == k {
      assert T[i := S][..k] == T[..k];
    } else {
      assert T[i := S][..k] == T[..k][i := S];
      PotentialUpdate(T[..k], i, S);
    }
  }

  /** The identifiers below `N`. */
  ghost function Below(N: nat): (s: set<nat>)
    ensures forall x: nat :: x in s <==> x < N
    ensures |s| == N
  {
    if N == 0 then {} else Below(N - 1) + {N - 1}
  }

  lemma {:induction false} SubsetSize(A: set<nat>, B: set<nat>)
    requires A <= B
    ensures |A| <= |B|
    decreases |A|
  {
    if A != {} {
      var x :| x in A;
      SubsetSize(A - {x}, B - {x});
    }
  }

  /** A set of identifiers below `N` has at most `N` members. */
  lemma BoundedSize(S: set<nat>, N: nat)
    requires forall x :: x in S ==> x < N
    ensures |S| <= N
  {
    assert S <= Below(N);
    SubsetSize(S, Below(N));
  }

  lemma {:induction false} PotentialBound(T: Table, N: nat)
    requires Bounded(T, N)
    ensures Potential(T) <= |T| * N
    decreases |T|
  {
    if T != [] {
      var k := |T| - 1;
      assert Bounded(T[..k], N);
      PotentialBound(T[..k], N);
      assert T[k] <= Below(N);
      SubsetSize(T[k], Below(N));
      MulSucc(k, N);
    }
  }

  lemma MulSucc(k: nat, N: nat)
    ensures (k + 1) * N == k * N + N
  {
  }

  /** The candidate is monotone in the table: larger entries give a larger candidate. */
  lemma CandidateMonotone(dir: Direction, g: Graph, T: Table, U: Table, n: nat)
    requires WellFormed(g) && |T| == |g| && Grows(T, U) && n < |g|
    ensures Candidate(dir, g, T, n) <= Candidate(dir, g, U, n)
  {
  }

  /** The candidate of `n` reads only the entries of its predecessors. */
  lemma CandidateLocal(dir: Direction, g: Graph, T: Table, U: Table, n: nat)
    requires WellFormed(g) && |T| == |g| && |U| == |g| && n < |g|
    requires forall p :: p in g[n].preds ==> T[p] == U[p]
    ensures Candidate(dir, g, T, n) == Candidate(dir, g, U, n)
  {
  }

  lemma CandidateBounded(dir: Direction, g: Graph, T: Table, n: nat)
    requires WellFormed(g) && |T| == |g| && Bounded(T, |g|) && n < |g|
    ensures forall x :: x in Candidate(dir, g, T, n) ==> x < |g|
  {
    var c := Candidate(dir, g, T, n);
    forall x | x in c
      ensures x < |g|
    {
      if x != n {
        var m :| m in g[n].preds && x in T[m];
      }
    }
  }

  /** Storing a node's candidate keeps every entry inside its (new) candidate,
      and only enlarges the table. */
  lemma {:induction false} UpdateKeepsBelowCandidate(dir: Direction, g: Graph, T: Table, n: nat)
    requires BelowCandidate(dir, g, T) && n < |g|
    ensures Grows(T, T[n := Candidate(dir, g, T, n)])
    ensures BelowCandidate(dir, g, T[n := Candidate(dir, g, T, n)])
  {
    var U := T[n := Candidate(dir, g, T, n)];
    assert Grows(T, U);
    forall m | 0 <= m < |g|
      ensures U[m] <= Candidate(dir, g, U, m)
    {
      CandidateMonotone(dir, g, T, U, m);
    }
  }

  /** With every entry inside its candidate, a candidate that differs from the
      stored entry is a strict superset of it: the top-down `!=` trigger fires
      only on strict growth. */
  lemma ChangeIsGrowth(dir: Direction, g: Graph, T: Table, n: nat)
    requires BelowCandidate(dir, g, T) && n < |g|
    ensures Candidate(dir, g, T, n) != T[n] <==> T[n] < Candidate(dir, g, T, n)
  {
  }

  /** Storing the candidate of `n` unsettles only successors of `n`. */
  lemma {:induction false} UpdateKeepsSettled(dir: Direction, g: Graph, T: Table, n: nat, rest: seq<nat>)
    requires WellFormed(g) && Consistent(g) && |T| == |g| && n < |g|
    requires forall m :: 0 <= m < |g| ==> m == n || m in rest || Settled(dir, g, T, m)
    ensures forall m :: 0 <= m < |g| ==>
      m in rest || m in g[n].succs || Settled(dir, g, T[n := Candidate(dir, g, T, n)], m)
  {
    var U := T[n := Candidate(dir, g, T, n)];
    forall m | 0 <= m < |g| && m !in rest && m !in g[n].succs
      ensures Settled(dir, g, U, m)
    {
      assert n !in g[m].preds;
      CandidateLocal(dir, g, T, U, m);
      if m != n {
        assert U[m] == T[m];
        assert forall p :: p in g[m].preds ==> U[p] == T[p];
      }
    }
  }

  /** In a settled table every node on a path from a source holds its candidate,
      and so contains its own identifier. */
  lemma {:induction false} FixpointCoversPath(dir: Direction, g: Graph, T: Table, p: seq<nat>, n: nat)
    requires WellFormed(g) && Consistent(g) && |T| == |g| && Fixpoint(dir, g, T)
    requires IsPathTo(g, p, n)
    ensures T[n] == Candidate(dir, g, T, n) && n in T[n]
    decreases |p|
  {
    if |p| > 1 {
      var q := p[..|p| - 1];
      var m := q[|q| - 1];
      assert p[|p| - 1] in g[p[|p| - 2]].succs;
      assert IsPathTo(g, q, m);
      FixpointCoversPath(dir, g, T, q, m);
      assert m in g[n].preds;
      assert Settled(dir, g, T, n);
    } else {
      assert Settled(dir, g, T, n);
    }
  }

  /** At a fixpoint the non-empty entries are exactly the reachable nodes; a
      reachable node holds its candidate and a source holds only itself. */
  lemma ReachableIffNonEmpty(dir: Direction, g: Graph, T: Table)
    requires TableInv(dir, g, T) && Consistent(g) && Fixpoint(dir, g, T)
    ensures forall n :: 0 <= n < |g| ==> (Reachable(g, n) <==> T[n] != {})
    ensures forall n :: 0 <= n < |g| && Reachable(g, n) ==> n in T[n] && T[n] == Candidate(dir, g, T, n)
    ensures forall n: nat :: IsSource(g, n) ==> T[n] == {n}
  {
    forall n | 0 <= n < |g| && Reachable(g, n)
      ensures n in T[n] && T[n] == Candidate(dir, g, T, n)
    {
      var p :| IsPathTo(g, p, n);
      FixpointCoversPath(dir, g, T, p, n);
    }
    forall n: nat | IsSource(g, n)
      ensures T[n] == {n}
    {
      SourceReachable(g, n);
    }
  }

  /** What the extraction worklist keeps, from the table `T0` it started with:
      the table invariants, growth since the start, a bound on the potential,
      queued nodes reachable, and every node either queued or settled. */
  ghost predicate WorklistInv(dir: Direction, g: Graph, T0: Table, T: Table, queue: seq<nat>)
  {
    WellFormed(g) && |T| == |g| && Bounded(T, |g|) && Potential(T) <= |g| * |g| &&
    BelowCandidate(dir, g, T) && OwnIdWhenNonEmpty(T) && OnlyReached(g, T) && Grows(T0, T) &&
    (forall i :: 0 <= i < |queue| ==> queue[i] < |g| && Reachable(g, queue[i])) &&
    (Consistent(g) ==> forall n :: 0 <= n < |g| ==> n in queue || Settled(dir, g, T, n))
  }

  /** The worklist seeded with the predecessor-less nodes. */
  lemma WorklistStart(dir: Direction, g: Graph, T: Table)
    requires TableInv(dir, g, T)
    ensures WorklistInv(dir, g, T, T, SourceIds(g))
  {
    var queue := SourceIds(g);
    forall i | 0 <= i < |queue|
      ensures queue[i] < |g| && Reachable(g, queue[i])
    {
      assert queue[i] in queue;
      SourceReachable(g, queue[i]);
    }
    PotentialBound(T, |g|);
  }

  /** Replacing an entry by a strict superset raises the potential, which stays
      bounded. */
  lemma GrowPotential(T: Table, n: nat, c: set<nat>, N: nat)
    requires n < |T| && T[n] < c && Bounded(T[n := c], N)
    ensures Potential(T) < Potential(T[n := c]) <= |T| * N
  {
    PotentialUpdate(T, n, c);
    assert !(c <= T[n]);
    var y :| y in c && y !in T[n];
    SubsetSize(T[n], c - {y});
    PotentialBound(T[n := c], N);
  }

  /** Storing a strictly larger candidate for a reachable node keeps the
      table-level parts of the worklist invariant and raises the potential. */
  lemma GrowTable(dir: Direction, g: Graph, T0: Table, T: Table, n: nat)
    requires WellFormed(g) && |T| == |g| && Bounded(T, |g|) && n < |g|
    requires BelowCandidate(dir, g, T) && OwnIdWhenNonEmpty(T) && OnlyReached(g, T) && Grows(T0, T)
    requires Reachable(g, n) && T[n] < Candidate(dir, g, T, n)
    ensures var U := T[n := Candidate(dir, g, T, n)];
      Bounded(U, |g|) && Potential(U) <= |g| * |g| && Potential(T) < Potential(U) &&
      BelowCandidate(dir, g, U) && OwnIdWhenNonEmpty(U) && OnlyReached(g, U) && Grows(T0, U)
  {
    var c := Candidate(dir, g, T, n);
    var U := T[n := c];
    UpdateKeepsBelowCandidate(dir, g, T, n);
    CandidateBounded(dir, g, T, n);
    assert Bounded(U, |g|);
    GrowPotential(T, n, c, |g|);
    assert OwnIdWhenNonEmpty(U);
    assert OnlyReached(g, U);
  }

  /** The queue after dequeuing a reachable `n` and appending its successors
      holds only reachable nodes. */
  lemma GrowQueue(g: Graph, queue: seq<nat>)
    requires WellFormed(g) && queue != []
    requires forall i :: 0 <= i < |queue| ==> queue[i] < |g| && Reachable(g, queue[i])
    ensures var q := queue[1..] + g[queue[0]].succs;
      forall i :: 0 <= i < |q| ==> q[i] < |g| && Reachable(g, q[i])
  {
    var n := queue[0];
    var rest := queue[1..];
    var q := rest + g[n].succs;
    forall i | 0 <= i < |q|
      ensures q[i] < |g| && Reachable(g, q[i])
    {
      if i < |rest| {
        assert q[i] == queue[i + 1];
      } else {
        assert q[i] in g[n].succs;
        ReachableStep(g, n, q[i]);
      }
    }
  }

  /** After storing the candidate of `n`, every node is queued or settled. */
  lemma GrowSettled(dir: Direction, g: Graph, T: Table, queue: seq<nat>)
    requires WellFormed(g) && Consistent(g) && |T| == |g| && queue != [] && queue[0] < |g|
    requires forall m :: 0 <= m < |g| ==> m in queue || Settled(dir, g, T, m)
    ensures var n := queue[0];
      forall m :: 0 <= m < |g| ==>
        m in queue[1..] + g[n].succs || Settled(dir, g, T[n := Candidate(dir, g, T, n)], m)
  {
    var n := queue[0];
    assert forall m :: m in queue ==> m == n || m in queue[1..];
    UpdateKeepsSettled(dir, g, T, n, queue[1..]);
  }

  /** Dequeue `n`, store its strictly larger candidate and queue its successors:
      the invariant holds again and the potential has risen. */
  lemma WorklistGrow(dir: Direction, g: Graph, T0: Table, T: Table, queue: seq<nat>)
    requires WorklistInv(dir, g, T0, T, queue) && queue != []
    requires T[queue[0]] < Candidate(dir, g, T, queue[0])
    ensures WorklistInv(dir, g, T0, T[queue[0] := Candidate(dir, g, T, queue[0])],
                        queue[1..] + g[queue[0]].succs)
    ensures Potential(T) < Potential(T[queue[0] := Candidate(dir, g, T, queue[0])])
  {
    assert queue[0] in queue;
    GrowTable(dir, g, T0, T, queue[0]);
    GrowQueue(g, queue);
    if Consistent(g) {
      GrowSettled(dir, g, T, queue);
    }
  }

  /** Dequeue `n` whose candidate is no strict superset of its entry: nothing
      changes, and `n` is settled. */
  lemma WorklistSkip(dir: Direction, g: Graph, T0: Table, T: Table, queue: seq<nat>)
    requires WorklistInv(dir, g, T0, T, queue) && queue != []
    requires !(T[queue[0]] < Candidate(dir, g, T, queue[0]))
    ensures WorklistInv(dir, g, T0, T, queue[1..])
  {
    var n := queue[0];
    assert queue[0] in queue;
    assert T[n] == Candidate(dir, g, T, n);
    assert forall m :: m in queue ==> m == n || m in queue[1..];
    forall i | 0 <= i < |queue[1..]|
      ensures queue[1..][i] < |g| && Reachable(g, queue[1..][i])
    {
      assert queue[1..][i] == queue[i + 1];
    }
  }

  /** An empty worklist leaves a table that meets the table invariant, has only
      grown, and is a fixpoint when the graph's edge lists agree. */
  lemma WorklistDone(dir: Direction, g: Graph, T0: Table, T: Table)
    requires WorklistInv(dir, g, T0, T, [])
    ensures TableInv(dir, g, T) && Grows(T0, T)
    ensures Consistent(g) ==> Fixpoint(dir, g, T)
  {
  }
}
