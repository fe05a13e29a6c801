/** The landmark tables of one planning model and the three extractions over them. */
module Landmark {
  import opened Graphs
  import opened Rules

  /** The seeding bound of the bidirectional combination: the bit length of the
      goal bitset, read as `len(bin(goals)) - 2`, which is 1 for no goals. */
  function SeedLimit(goals: set<nat>): (r: nat)
    ensures r >= 1
    ensures forall f :: f in goals ==> f < r
    ensures goals != {} ==> r - 1 in goals
    ensures goals == {} ==> r == 1
  {
    if goals == {} then 1
    else
      HasMax(goals);
      var m :| m in goals && forall f :: f in goals ==> f <= m;
      m + 1
  }

  lemma {:induction false} HasMax(s: set<nat>)
    requires s != {}
    ensures exists m :: m in s && forall f :: f in s ==> f <= m
    decreases |s|
  {
    var x :| x in s;
    if s != {x} {
      HasMax(s - {x});
      var m :| m in s - {x} && forall f :: f in s - {x} ==> f <= m;
      assert forall f :: f in s ==> f == x || f in s - {x};
      if x <= m {
        assert forall f :: f in s ==> f <= m;
      } else {
        assert forall f :: f in s ==> f <= x;
      }
    }
  }

  /** What the facts below `k` contribute: the landmarks of every unachieved
      goal fact and every true fact itself (`FactSeedsMembers`). */
  function FactSeeds(bu: Table, goals: set<nat>, state: set<nat>, k: nat): set<nat>
    requires forall f :: f in goals && f !in state ==> f < |bu|
  {
    if k == 0 then {}
    else
      FactSeeds(bu, goals, state, k - 1) +
      (if k - 1 in goals && k - 1 !in state then bu[k - 1] else {}) +
      (if k - 1 in state then {k - 1} else {})
  }

  lemma {:induction false} FactSeedsMembers(bu: Table, goals: set<nat>, state: set<nat>, k: nat, x: nat)
    requires forall f :: f in goals && f !in state ==> f < |bu|
    ensures x in FactSeeds(bu, goals, state, k) <==>
      (x < k && x in state) || exists f :: f < k && f in goals && f !in state && x in bu[f]
  {
    if k > 0 {
      FactSeedsMembers(bu, goals, state, k - 1, x);
      if exists f :: f < k && f in goals && f !in state && x in bu[f] {
        var f :| f < k && f in goals && f !in state && x in bu[f];
        if f < k - 1 {
          assert x in FactSeeds(bu, goals, state, k - 1);
        }
      }
      if exists f :: f < k - 1 && f in goals && f !in state && x in bu[f] {
        var f :| f < k - 1 && f in goals && f !in state && x in bu[f];
        assert f < k;
      }
    }
  }

  /** Landmarks of the first `k` tasks of the task network. */
  function TaskSeeds(bu: Table, tasks: seq<nat>, k: nat): (r: set<nat>)
    requires k <= |tasks|
    requires forall i :: 0 <= i < |tasks| ==> tasks[i] < |bu|
    ensures forall i :: 0 <= i < k ==> bu[tasks[i]] <= r
    ensures forall x :: x in r ==> exists i :: 0 <= i < k && x in bu[tasks[i]]
  {
    if k == 0 then {}
    else TaskSeeds(bu, tasks, k - 1) + bu[tasks[k - 1]]
  }

  /** Everything the bidirectional combination adds before its closure. */
  function Seeds(bu: Table, goals: set<nat>, state: set<nat>, tasks: seq<nat>): set<nat>
    requires forall f :: f in goals && f !in state ==> f < |bu|
    requires forall i :: 0 <= i < |tasks| ==> tasks[i] < |bu|
  {
    FactSeeds(bu, goals, state, SeedLimit(goals)) +
    TaskSeeds(bu, tasks, |tasks|)
  }

  /** The seeds are exactly the landmarks of the unachieved goal facts, the true
      facts below the seeding bound, and the landmarks of the tasks; in
      particular a true fact at or above the bound is seeded only when it is
      itself such a landmark. */
  lemma SeedsExact(bu: Table, goals: set<nat>, state: set<nat>, tasks: seq<nat>, x: nat)
    requires forall f :: f in goals && f !in state ==> f < |bu|
    requires forall i :: 0 <= i < |tasks| ==> tasks[i] < |bu|
    ensures x in Seeds(bu, goals, state, tasks) <==>
      (x < SeedLimit(goals) && x in state) ||
      (exists f :: f < SeedLimit(goals) && f in goals && f !in state && x in bu[f]) ||
      (exists i :: 0 <= i < |tasks| && x in bu[tasks[i]])
  {
    var limit := SeedLimit(goals);
    FactSeedsMembers(bu, goals, state, limit, x);
    if exists i :: 0 <= i < |tasks| && x in bu[tasks[i]] {
      var i :| 0 <= i < |tasks| && x in bu[tasks[i]];
      assert bu[tasks[i]] <= TaskSeeds(bu, tasks, |tasks|);
    }
  }

  /** A seed that the closure expands: an operator, or a fact not yet true. */
  predicate Expandable(g: Graph, state: set<nat>, n: nat)
    requires n < |g|
  {
    g[n].content == Operator || (g[n].content == Fact && n !in state)
  }

  /** How many entries of the queue are already visited. */
  function CountIn(q: seq<nat>, visited: set<nat>): (c: nat)
    ensures c <= |q|
  {
    if q == [] then 0
    else CountIn(q[..|q| - 1], visited) + (if q[|q| - 1] in visited then 1 else 0)
  }

  lemma {:induction false} CountInFront(q: seq<nat>, visited: set<nat>)
    requires q != []
    ensures CountIn(q, visited) == CountIn(q[1..], visited) + (if q[0] in visited then 1 else 0)
    decreases |q|
  {
    if |q| > 1 {
      var k := |q| - 1;
      assert q[1..][..k - 1] == q[..k][1..];
      CountInFront(q[..k], visited);
    }
  }

  /** The members of a queue. */
  function Elems(q: seq<nat>): (r: set<nat>)
    ensures forall m :: m in r <==> m in q
  {
    set m | m in q
  }

  /** The inner loops of the closure: append every member of `lms` not yet
      visited, each exactly once, and nothing else. */
  method EnqueueUnvisited(queue: seq<nat>, lms: set<nat>, visited: set<nat>) returns (q: seq<nat>)
    ensures |queue| <= |q| && q[..|queue|] == queue
    ensures |q| == |queue| + |lms - visited|
    ensures Elems(q[|queue|..]) == lms - visited
    ensures Elems(q) == Elems(queue) + (lms - visited)
    ensures CountIn(q, visited) == CountIn(queue, visited)
  {
    q := queue;
    var pending := lms;
    assert EnqueueInv(queue, lms, visited, pending, q) by {
      assert q[|queue|..] == [];
      assert (lms - pending) - visited == {};
    }
    while pending != {}
      invariant EnqueueInv(queue, lms, visited, pending, q)
      decreases |pending|
    {
      var lm :| lm in pending;
      ghost var q0, pending0 := q, pending;
      pending := pending - {lm};
      if lm !in visited {
        q := q + [lm];
      }
      EnqueueStep(queue, lms, visited, pending0, q0, lm, q);
    }
    EnqueueDone(queue, lms, visited, q);
  }

  /** Loop invariant of `EnqueueUnvisited`: the queue has grown by exactly the
      unvisited members of `lms` already taken, each once. */
  ghost predicate EnqueueInv(queue: seq<nat>, lms: set<nat>, visited: set<nat>, pending: set<nat>, q: seq<nat>)
  {
    pending <= lms &&
    |queue| <= |q| && q[..|queue|] == queue &&
    |q| == |queue| + |(lms - pending) - visited| &&
    Elems(q[|queue|..]) == (lms - pending) - visited &&
    CountIn(q, visited) == CountIn(queue, visited)
  }

  /** With nothing pending, the appended part is exactly the unvisited members. */
  lemma EnqueueDone(queue: seq<nat>, lms: set<nat>, visited: set<nat>, q: seq<nat>)
    requires EnqueueInv(queue, lms, visited, {}, q)
    ensures |queue| <= |q| && q[..|queue|] == queue
    ensures |q| == |queue| + |lms - visited|
    ensures Elems(q[|queue|..]) == lms - visited
    ensures Elems(q) == Elems(queue) + (lms - visited)
    ensures CountIn(q, visited) == CountIn(queue, visited)
  {
    assert (lms - {}) - visited == lms - visited;
    ElemsSplit(q, |queue|);
  }

  /** Taking one member of `pending`, and appending it when it is not yet
      visited, keeps the invariant. */
  lemma EnqueueStep(queue: seq<nat>, lms: set<nat>, visited: set<nat>, pending: set<nat>,
                    q0: seq<nat>, lm: nat, q: seq<nat>)
    requires EnqueueInv(queue, lms, visited, pending, q0) && lm in pending
    requires q == if lm in visited then q0 else q0 + [lm]
    ensures EnqueueInv(queue, lms, visited, pending - {lm}, q)
  {
    var added := (lms - pending) - visited;
    if lm in visited {
      assert (lms - (pending - {lm})) - visited == added;
    } else {
      assert (lms - (pending - {lm})) - visited == added + {lm} && lm !in added;
      AppendFresh(queue, q0, lm, added, visited);
    }
  }

  /** The members of a queue are those of its two parts. */
  lemma ElemsSplit(q: seq<nat>, k: nat)
    requires k <= |q|
    ensures Elems(q) == Elems(q[..k]) + Elems(q[k..])
  {
    assert q == q[..k] + q[k..];
  }

  /** Appending an entry not yet in the appended part grows it by one. */
  lemma AppendFresh(queue: seq<nat>, q0: seq<nat>, lm: nat, added: set<nat>, visited: set<nat>)
    requires |queue| <= |q0| && q0[..|queue|] == queue && |q0| == |queue| + |added|
    requires Elems(q0[|queue|..]) == added && lm !in added && lm !in visited
    requires CountIn(q0, visited) == CountIn(queue, visited)
    ensures (q0 + [lm])[..|queue|] == queue
    ensures |q0 + [lm]| == |queue| + |added + {lm}|
    ensures Elems((q0 + [lm])[|queue|..]) == added + {lm}
    ensures CountIn(q0 + [lm], visited) == CountIn(queue, visited)
  {
    var q := q0 + [lm];
    assert q[..|q| - 1] == q0;
    assert q[..|queue|] == q0[..|queue|];
    assert q[|queue|..] == q0[|queue|..] + [lm];
  }

  class Landmarks {
    /** The bottom-up graph and the top-down graph (inverted at tasks and methods). */
    const buGraph: Graph
    const tdGraph: Graph
    /** Number of nodes; both tables are sized from the bottom-up graph. */
    const size: nat
    var bu: Table
    var td: Table

    ghost predicate Valid()
      reads this
    {
      WellFormed(buGraph) && WellFormed(tdGraph) &&
      |buGraph| == size && |tdGraph| == size &&
      TableInv(BottomUp, buGraph, bu) && TableInv(TopDown, tdGraph, td)
    }

    constructor (buGraph: Graph, tdGraph: Graph)
      requires WellFormed(buGraph) && WellFormed(tdGraph) && |tdGraph| == |buGraph|
      ensures Valid()
      ensures this.buGraph == buGraph && this.tdGraph == tdGraph && size == |buGraph|
      ensures bu == EmptyTable(size) && td == EmptyTable(size)
    {
      this.buGraph := buGraph;
      this.tdGraph := tdGraph;
      size := |buGraph|;
      bu := EmptyTable(|buGraph|);
      td := EmptyTable(|buGraph|);
      EmptyTableInv(BottomUp, buGraph);
      EmptyTableInv(TopDown, tdGraph);
    }

    /** Bottom-up extraction: a FIFO worklist seeded with the predecessor-less
        nodes; an entry is replaced only by a strict superset, and then every
        successor is queued again (the readiness test in `landmark.py` is
        always true, so it is left out). */
    method BottomUpLms()
      requires Valid()
      modifies this`bu
      ensures Valid()
      ensures Grows(old(bu), bu)
      ensures Consistent(buGraph) ==> Fixpoint(BottomUp, buGraph, bu)
    {
      var queue := SourceIds(buGraph);
      WorklistStart(BottomUp, buGraph, bu);
      while queue != []
        invariant WorklistInv(BottomUp, buGraph, old(bu), bu, queue)
        decreases size * size - Potential(bu), |queue|
      {
        var n := queue[0];
        var candidate := BottomUpCandidate(buGraph, bu, n);
        if bu[n] < candidate {
          WorklistGrow(BottomUp, buGraph, old(bu), bu, queue);
          bu := bu[n := candidate];
          queue := queue[1..] + buGraph[n].succs;
        } else {
          WorklistSkip(BottomUp, buGraph, old(bu), bu, queue);
          queue := queue[1..];
        }
      }
      WorklistDone(BottomUp, buGraph, old(bu), bu);
    }

    /** Top-down extraction over the inverted graph, with the operator rule of
        `TopDownCandidate`. `landmark.py` stores a candidate whenever it differs
        from the entry; because every entry lies inside its candidate
        (`BelowCandidate`), a difference is always strict growth
        (`ChangeIsGrowth`), which gives the same termination measure as the
        bottom-up pass. */
    method TopDownLms()
      requires Valid()
      modifies this`td
      ensures Valid()
      ensures Grows(old(td), td)
      ensures Consistent(tdGraph) ==> Fixpoint(TopDown, tdGraph, td)
    {
      var queue := SourceIds(tdGraph);
      WorklistStart(TopDown, tdGraph, td);
      while queue != []
        invariant WorklistInv(TopDown, tdGraph, old(td), td, queue)
        decreases size * size - Potential(td), |queue|
      {
        var n := queue[0];
        var candidate := TopDownCandidate(tdGraph, td, n);
        ChangeIsGrowth(TopDown, tdGraph, td, n);
        if candidate != td[n] {
          WorklistGrow(TopDown, tdGraph, old(td), td, queue);
          td := td[n := candidate];
          queue := queue[1..] + tdGraph[n].succs;
        } else {
          WorklistSkip(TopDown, tdGraph, old(td), td, queue);
          queue := queue[1..];
        }
      }
      WorklistDone(TopDown, tdGraph, old(td), td);
    }

    /** Bidirectional combination for one search state: seed with the
        landmarks of the unachieved goal facts, the true facts and the pending
        tasks; queue the operator seeds and the seeds that are facts not yet
        true, mark the others visited; then close under both tables.
        `expanded` is the set of nodes the closure dequeued. */
    method BidirectionalLms(goals: set<nat>, state: set<nat>, tasks: seq<nat>)
      returns (result: set<nat>, ghost expanded: set<nat>)
      requires Valid()
      requires forall f :: f in goals && f !in state ==> f < size
      requires forall f :: f in state && f < SeedLimit(goals) ==> f < size
      requires forall i :: 0 <= i < |tasks| ==> tasks[i] < size
      ensures result == Seeds(bu, goals, state, tasks) + expanded
      ensures forall f :: f < SeedLimit(goals) && f in goals && f !in state ==> bu[f] <= result
      ensures forall f :: f < SeedLimit(goals) && f in state ==> f in result
      ensures forall i :: 0 <= i < |tasks| ==> bu[tasks[i]] <= result
      ensures forall n :: n in Seeds(bu, goals, state, tasks) ==>
        n < size && (n in expanded <==> Expandable(buGraph, state, n))
      ensures forall n :: n in expanded ==> n < size && td[n] + bu[n] <= result
      ensures forall x :: x in expanded ==>
        (x in Seeds(bu, goals, state, tasks) && Expandable(buGraph, state, x)) ||
        exists m :: m in expanded && m != x && m < size && x in td[m] + bu[m]
      ensures forall x :: x in result ==> x < size
    {
      var seeds := SeedLandmarks(bu, goals, state, tasks);
      SeedsCover(bu, goals, state, tasks);
      var queue, visited := Classify(buGraph, seeds, state);
      result, expanded := Close(bu, td, seeds, queue, visited);
    }
  }

  /** Seeding phase of the bidirectional combination. */
  method SeedLandmarks(bu: Table, goals: set<nat>, state: set<nat>, tasks: seq<nat>)
    returns (bid: set<nat>)
    requires Bounded(bu, |bu|)
    requires forall f :: f in goals && f !in state ==> f < |bu|
    requires forall f :: f in state && f < SeedLimit(goals) ==> f < |bu|
    requires forall i :: 0 <= i < |tasks| ==> tasks[i] < |bu|
    ensures bid == Seeds(bu, goals, state, tasks)
    ensures forall x :: x in bid ==> x < |bu|
  {
    var limit := SeedLimit(goals);
    bid := FactLandmarks(bu, goals, state, limit);
    ghost var facts := bid;
    // the landmarks of every task in the task network
    var i := 0;
    while i < |tasks|
      invariant i <= |tasks|
      invariant bid == facts + TaskSeeds(bu, tasks, i)
    {
      assert (facts + TaskSeeds(bu, tasks, i)) + bu[tasks[i]] == facts + (TaskSeeds(bu, tasks, i) + bu[tasks[i]]);
      bid := bid + bu[tasks[i]];
      i := i + 1;
    }
    SeedsBounded(bu, goals, state, tasks);
  }

  /** Goal facts not yet true contribute their landmarks, true facts themselves. */
  method FactLandmarks(bu: Table, goals: set<nat>, state: set<nat>, limit: nat)
    returns (bid: set<nat>)
    requires forall f :: f in goals && f !in state ==> f < |bu|
    ensures bid == FactSeeds(bu, goals, state, limit)
  {
    bid := {};
    var f := 0;
    while f < limit
      invariant f <= limit
      invariant bid == FactSeeds(bu, goals, state, f)
    {
      if f in goals && f !in state {
        bid := bid + bu[f];
      }
      if f in state {
        bid := bid + {f};
      }
      f := f + 1;
    }
  }

  lemma SeedsBounded(bu: Table, goals: set<nat>, state: set<nat>, tasks: seq<nat>)
    requires Bounded(bu, |bu|)
    requires forall f :: f in goals && f !in state ==> f < |bu|
    requires forall f :: f in state && f < SeedLimit(goals) ==> f < |bu|
    requires forall i :: 0 <= i < |tasks| ==> tasks[i] < |bu|
    ensures forall x :: x in Seeds(bu, goals, state, tasks) ==> x < |bu|
  {
    forall x | x in Seeds(bu, goals, state, tasks)
      ensures x < |bu|
    {
      SeedsExact(bu, goals, state, tasks, x);
    }
  }

  /** Every unachieved goal fact below the bound contributes all its landmarks,
      every true fact below the bound itself, and every task all its landmarks. */
  lemma SeedsCover(bu: Table, goals: set<nat>, state: set<nat>, tasks: seq<nat>)
    requires forall f :: f in goals && f !in state ==> f < |bu|
    requires forall i :: 0 <= i < |tasks| ==> tasks[i] < |bu|
    ensures forall f :: f < SeedLimit(goals) && f in goals && f !in state ==> bu[f] <= Seeds(bu, goals, state, tasks)
    ensures forall f :: f < SeedLimit(goals) && f in state ==> f in Seeds(bu, goals, state, tasks)
    ensures forall i :: 0 <= i < |tasks| ==> bu[tasks[i]] <= Seeds(bu, goals, state, tasks)
  {
    forall x: nat
      ensures x < SeedLimit(goals) && x in state ==> x in Seeds(bu, goals, state, tasks)
      ensures (exists f :: f < SeedLimit(goals) && f in goals && f !in state && x in bu[f]) ==> x in Seeds(bu, goals, state, tasks)
      ensures (exists i :: 0 <= i < |tasks| && x in bu[tasks[i]]) ==> x in Seeds(bu, goals, state, tasks)
    {
      SeedsExact(bu, goals, state, tasks, x);
    }
  }

  /** Classification phase: expandable seeds are queued, the others visited. */
  method Classify(g: Graph, seeds: set<nat>, state: set<nat>)
    returns (queue: seq<nat>, visited: set<nat>)
    requires WellFormed(g)
    requires forall x :: x in seeds ==> x < |g|
    ensures forall x :: x in queue ==> x in seeds && Expandable(g, state, x)
    ensures forall x :: x in seeds && Expandable(g, state, x) ==> x in queue
    ensures forall x :: x in visited <==> x in seeds && !Expandable(g, state, x)
  {
    queue, visited := [], {};
    var rest := seeds;
    while rest != {}
      invariant rest <= seeds
      invariant forall x :: x in queue ==> x in seeds && Expandable(g, state, x)
      invariant forall x :: x in seeds - rest && Expandable(g, state, x) ==> x in queue
      invariant forall x :: x in visited <==> x in seeds - rest && !Expandable(g, state, x)
      decreases |rest|
    {
      var lm :| lm in rest;
      rest := rest - {lm};
      var node := g[lm];
      if node.content == Operator {
        queue := queue + [node.id];
      } else if node.content == Fact && lm !in state {
        queue := queue + [node.id];
      } else {
        visited := visited + {node.id};
      }
    }
  }

  /** Closure phase: dequeue a node, record it, and queue every not yet visited
      member of its top-down and bottom-up entries. A node is marked visited
      only when dequeued, so it may be queued, and expanded, more than once. */
  method Close(bu: Table, td: Table, seeds: set<nat>, queue0: seq<nat>, visited0: set<nat>)
    returns (bid: set<nat>, ghost expanded: set<nat>)
    requires |td| == |bu| && Bounded(bu, |bu|) && Bounded(td, |bu|)
    requires forall x :: x in seeds ==> x < |bu|
    requires forall x :: x in queue0 ==> x in seeds && x !in visited0
    requires visited0 <= seeds
    ensures bid == seeds + expanded
    ensures forall x :: x in queue0 ==> x in expanded
    ensures forall x :: x in expanded ==> x !in visited0
    ensures forall n :: n in expanded ==> n < |bu| && td[n] + bu[n] <= bid
    ensures forall x :: x in expanded ==>
      x in queue0 || exists m :: m in expanded && m != x && m < |bu| && x in td[m] + bu[m]
  {
    var queue: seq<nat> := queue0;
    var visited := visited0;
    bid := seeds;
    expanded := {};
    ghost var initial := Elems(queue0);
    while queue != []
      invariant CloseInv(bu, td, seeds, initial, visited0, queue, visited, bid, expanded)
      invariant Justified(bu, td, initial, expanded, queue)
      decreases |bu| - |visited|, CountIn(queue, visited)
    {
      var n := queue[0];
      assert n in visited + Elems(queue);
      ghost var before: seq<nat> := queue;
      ghost var visitedBefore := visited;
      ghost var bidBefore := bid;
      ghost var expandedBefore := expanded;
      queue := queue[1..];
      visited := visited + {n};
      bid := bid + {n};
      expanded := expanded + {n};
      queue := EnqueueUnvisited(queue, td[n], visited);
      ghost var after := queue;
      queue := EnqueueUnvisited(queue, bu[n], visited);
      CloseStep(bu, td, seeds, initial, visited0, before, visitedBefore, bidBefore, expandedBefore, after, queue);
      CloseMeasure(|bu|, before, visitedBefore, after, queue);
      JustifiedStep(bu, td, initial, visitedBefore, expandedBefore, before, after, queue);
    }
    CloseDone(bu, td, seeds, initial, visited0, visited, bid, expanded);
  }

  /** Loop invariant of the closure: `expanded` holds the dequeued nodes, and
      every node queued at the start and every entry of an expanded node is
      visited or still queued. */
  ghost predicate CloseInv(bu: Table, td: Table, seeds: set<nat>, initial: set<nat>, visited0: set<nat>,
                           queue: seq<nat>, visited: set<nat>, bid: set<nat>, expanded: set<nat>)
  {
    |td| == |bu| &&
    visited == visited0 + expanded &&
    bid == seeds + expanded &&
    expanded !! visited0 &&
    Elems(queue) !! visited0 &&
    (forall x :: x in visited + Elems(queue) ==> x < |bu|) &&
    initial <= visited + Elems(queue) &&
    (forall n :: n in expanded ==> n < |bu| && td[n] + bu[n] <= visited + Elems(queue))
  }

  /** Some other expanded node has `x` in one of its entries. */
  ghost predicate FromExpanded(bu: Table, td: Table, expanded: set<nat>, x: nat)
  {
    exists m :: m in expanded && m != x && m < |bu| && m < |td| && x in td[m] + bu[m]
  }

  /** Nothing is expanded or queued that did not come from the initial queue
      or from an entry of another expanded node. */
  ghost predicate Justified(bu: Table, td: Table, initial: set<nat>, expanded: set<nat>, queue: seq<nat>)
  {
    forall x :: x in expanded + Elems(queue) ==> x in initial || FromExpanded(bu, td, expanded, x)
  }

  /** One dequeue-and-expand step keeps every expanded or queued node justified. */
  lemma JustifiedStep(bu: Table, td: Table, initial: set<nat>, visited: set<nat>, expanded: set<nat>,
                      queue: seq<nat>, after: seq<nat>, q: seq<nat>)
    requires |td| == |bu| && queue != [] && queue[0] < |bu|
    requires Justified(bu, td, initial, expanded, queue)
    requires Elems(after) == Elems(queue[1..]) + (td[queue[0]] - (visited + {queue[0]}))
    requires Elems(q) == Elems(after) + (bu[queue[0]] - (visited + {queue[0]}))
    ensures Justified(bu, td, initial, expanded + {queue[0]}, q)
  {
    var n := queue[0];
    forall x | x in (expanded + {n}) + Elems(q)
      ensures x in initial || FromExpanded(bu, td, expanded + {n}, x)
    {
      if x in expanded + Elems(queue) {
        if x !in initial {
          var m :| m in expanded && m != x && m < |bu| && m < |td| && x in td[m] + bu[m];
          assert m in expanded + {n};
        }
      } else {
        assert x in td[n] + bu[n] && x != n;
      }
    }
  }

  /** One dequeue-and-expand step keeps the closure invariant. */
  lemma CloseStep(bu: Table, td: Table, seeds: set<nat>, initial: set<nat>, visited0: set<nat>,
                  queue: seq<nat>, visited: set<nat>, bid: set<nat>, expanded: set<nat>,
                  after: seq<nat>, q: seq<nat>)
    requires Bounded(bu, |bu|) && Bounded(td, |bu|)
    requires queue != [] && CloseInv(bu, td, seeds, initial, visited0, queue, visited, bid, expanded)
    requires queue[0] < |bu|
    requires Elems(after) == Elems(queue[1..]) + (td[queue[0]] - (visited + {queue[0]}))
    requires Elems(q) == Elems(after) + (bu[queue[0]] - (visited + {queue[0]}))
    ensures CloseInv(bu, td, seeds, initial, visited0, q, visited + {queue[0]}, bid + {queue[0]}, expanded + {queue[0]})
  {
    var n := queue[0];
    var v, e := visited + {n}, expanded + {n};
    assert Elems(queue) == {n} + Elems(queue[1..]) by {
      assert forall m :: m in queue ==> m == n || m in queue[1..];
    }
    assert visited + Elems(queue) <= v + Elems(q);
    assert td[n] + bu[n] <= v + Elems(q);
    forall x | x in v + Elems(q)
      ensures x < |bu|
    {
      if x !in visited + Elems(queue) {
        assert x in td[n] || x in bu[n];
      }
    }
  }

  /** Dequeuing a node either visits a new node or drops an already visited
      entry, and the appends add only unvisited entries. */
  lemma CloseMeasure(N: nat, queue: seq<nat>, visited: set<nat>, after: seq<nat>, q: seq<nat>)
    requires queue != [] && queue[0] < N
    requires forall x :: x in visited ==> x < N
    requires CountIn(after, visited + {queue[0]}) == CountIn(queue[1..], visited + {queue[0]})
    requires CountIn(q, visited + {queue[0]}) == CountIn(after, visited + {queue[0]})
    ensures 0 <= N - |visited + {queue[0]}| <= N - |visited|
    ensures N - |visited + {queue[0]}| == N - |visited| ==>
      CountIn(q, visited + {queue[0]}) < CountIn(queue, visited)
  {
    var v := visited + {queue[0]};
    CountInFront(queue, visited);
    BoundedSize(v, N);
    if queue[0] in visited {
      assert v == visited;
    } else {
      assert |v| == |visited| + 1;
    }
  }

  /** With the queue empty, every initially queued node was expanded, every
      expanded node's entries were added, and every expanded node was queued
      at the start or found in an entry of another expanded node. */
  lemma CloseDone(bu: Table, td: Table, seeds: set<nat>, initial: set<nat>, visited0: set<nat>,
                  visited: set<nat>, bid: set<nat>, expanded: set<nat>)
    requires visited0 <= seeds && initial !! visited0
    requires CloseInv(bu, td, seeds, initial, visited0, [], visited, bid, expanded)
    requires Justified(bu, td, initial, expanded, [])
    ensures initial <= expanded
    ensures forall n :: n in expanded ==> n < |bu| && td[n] + bu[n] <= bid
    ensures forall x :: x in expanded ==>
      x in initial || exists m :: m in expanded && m != x && m < |bu| && x in td[m] + bu[m]
  {
    assert Elems([]) == {};
  }
}
