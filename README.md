# Landmark engine of an HTN planner, in Dafny

This project models the landmark engine of an HTN planner and proves what each
part of it computes. The engine has four parts:

- **Bottom-up extraction.** A worklist fixpoint over an AND/OR graph. It gives
  every node the set of nodes that must be achieved on the way to it: an OR
  node takes the intersection of its predecessors' entries, an AND node their
  union, and every node is its own landmark.
- **Top-down extraction.** The same worklist over the graph inverted at tasks
  and methods. An OPERATOR node keeps only what all of its METHOD predecessors
  share.
- **Bidirectional combination.** For one search state it seeds a set from
  three sources: the goal facts not yet true, the true facts, and the pending
  tasks. It then closes that set under both tables.
- **Per-search-node ledger** (`LM_Node`). It tracks the required landmarks, the
  achieved ones and the two counters whose difference is the heuristic value.

## Layout

| file | module | contents |
|---|---|---|
| `graphs.dfy` | `Graphs` | node records, well-formedness, pred/succ consistency, paths from sources |
| `rules.dfy` | `Rules` | the per-node candidate rules, the table invariants, the worklist lemmas |
| `landmarks.dfy` | `Landmark` | class `Landmarks` (two tables updated in place) with the three extractions |
| `lm_node.dfy` | `Ledger` | the ledger as a value with its algebra, and class `LMNode` |
| `scenarios.dfy` | `Scenarios` | two small graphs worked by hand |

## How the Python code is represented

- **Bit sets.** Python integers used as bit sets (`lms`, `mark`, goals, state)
  become `set<nat>`: bit `i` is set exactly when `i` is in the set.
- **Tables.** The landmark tables become `seq<set<nat>>` fields that the
  methods reassign.
- **Graphs.** A graph is a sequence of node records whose identifier is their
  index.
- **Worklists.** A worklist is a `seq<nat>` of node identifiers, popped at the
  front and appended at the back.
- **Set iteration.** Iteration over a Python set takes an arbitrary member
  (`:|`), so every proved property holds for every iteration order.

**Termination.** Both extractions terminate by the lexicographic measure
(N·N − Σₙ|Tₙ|, queue length). The closure of the bidirectional combination
terminates by (N − |visited|, number of queue entries already visited).

**Conditional fixpoint.** The fixpoint properties of the two extractions are
stated for graphs whose predecessor and successor lists describe the same edges
(`Graphs.Consistent`). The methods do not require it.

**Top-down operators: description and code disagree.** The comment at
`landmark.py` lines 77-78 calls an operator an AND node with respect to facts,
which would add the landmarks of its non-method predecessors
(`forced_landmarks`) to its entry. The code gathers them but never adds them. The model follows the code. `Rules.ForcedLandmarksIgnored`
and `Scenarios.OperatorExample` state the resulting behaviour: for methods
{M1, X} and {M2, X} plus a fact F, the operator gets {X, OP}, not {X, F, OP}.

## Model

| member | source | states |
|---|---|---|
| Graphs.SourceIds | pyperplan/heuristics/landmarks/landmark.py:57 | the initial worklist holds exactly the nodes without predecessors |
| Rules.IntersectAll | pyperplan/heuristics/landmarks/landmark.py:63 | x is in the result iff it is in the entry of every listed predecessor |
| Rules.UnionAll | pyperplan/heuristics/landmarks/landmark.py:66 | x is in the result iff it is in the entry of some listed predecessor |
| Rules.MethodPreds | pyperplan/heuristics/landmarks/landmark.py:96-98 | keeps exactly the METHOD predecessors |
| Rules.BottomUpCandidate | pyperplan/heuristics/landmarks/landmark.py:60-68 | a node is in its own candidate; a source gets {n}; OR: own id or in every predecessor's entry; AND: own id or in some predecessor's entry |
| Rules.TopDownCandidate | pyperplan/heuristics/landmarks/landmark.py:87-110 | an operator with predecessors gets its own id plus what every METHOD predecessor holds (nothing without methods); other nodes follow the bottom-up rule |
| Rules.ForcedLandmarksIgnored | pyperplan/heuristics/landmarks/landmark.py:95-103 | an operator's top-down candidate does not depend on the entries of its non-method predecessors |
| Rules.EmptyTable | pyperplan/heuristics/landmarks/landmark.py:47-49 | one independent empty entry per node |
| Rules.EmptyTableInv | pyperplan/heuristics/landmarks/landmark.py:47-49 | the empty table satisfies the table invariant of both extractions |
| Rules.CandidateMonotone | pyperplan/heuristics/landmarks/landmark.py:62-68 | enlarging entries never shrinks a candidate |
| Rules.CandidateLocal | pyperplan/heuristics/landmarks/landmark.py:62-68 | a candidate reads only the entries of the node's predecessors |
| Rules.UpdateKeepsBelowCandidate | pyperplan/heuristics/landmarks/landmark.py:113-114 | storing a candidate only enlarges the table and keeps every entry inside its current candidate |
| Rules.ChangeIsGrowth | pyperplan/heuristics/landmarks/landmark.py:112-114 | with entries inside their candidates, a candidate differs from the entry iff it strictly contains it, so the `!=` trigger fires only on growth |
| Rules.PotentialBound | pyperplan/heuristics/landmarks/landmark.py:69-70 | the sum of entry sizes is at most N·N, which bounds the number of updates |
| Rules.UpdateKeepsSettled | pyperplan/heuristics/landmarks/landmark.py:69-73 | after an update only the successors of the updated node can be unsettled, and they are the ones re-queued |
| Rules.FixpointCoversPath | pyperplan/heuristics/landmarks/landmark.py:57-73 | at a fixpoint every node on a path from a source holds its candidate and contains its own id |
| Rules.ReachableIffNonEmpty | pyperplan/heuristics/landmarks/landmark.py:57-73 | at a fixpoint an entry is non-empty iff its node is reachable from a source; reachable nodes hold their candidate and their own id; sources hold {n} |
| Rules.WorklistStart | pyperplan/heuristics/landmarks/landmark.py:57 | the worklist invariant holds for the source queue |
| Rules.WorklistGrow | pyperplan/heuristics/landmarks/landmark.py:69-73 | a strict-growth update with successors re-queued keeps the worklist invariant and raises the potential |
| Rules.WorklistSkip | pyperplan/heuristics/landmarks/landmark.py:59-69 | dropping a node whose candidate brings nothing new keeps the worklist invariant |
| Rules.WorklistDone | pyperplan/heuristics/landmarks/landmark.py:58 | an empty worklist leaves a fixpoint |
| Landmark.Landmarks.constructor | pyperplan/heuristics/landmarks/landmark.py:43-49 | both tables start empty and sized by the bottom-up graph |
| Landmark.Landmarks.BottomUpLms | pyperplan/heuristics/landmarks/landmark.py:56-73 | terminates, only enlarges entries, keeps them inside [0, N), and leaves a fixpoint of the bottom-up rule |
| Landmark.Landmarks.TopDownLms | pyperplan/heuristics/landmarks/landmark.py:81-128 | terminates although the trigger is `!=`, only enlarges entries, and leaves a fixpoint of the top-down rule |
| Landmark.SeedLimit | pyperplan/heuristics/landmarks/landmark.py:148 | the bit length of the goals, at least 1: every goal lies below it, and when there are goals the highest one is exactly one below it |
| Landmark.FactSeedsMembers | pyperplan/heuristics/landmarks/landmark.py:148-153 | the fact loop adds exactly the true facts below the bound and the landmarks of the unachieved goal facts |
| Landmark.TaskSeeds | pyperplan/heuristics/landmarks/landmark.py:156-158 | the task loop adds exactly the bottom-up landmarks of the listed tasks |
| Landmark.SeedsExact | pyperplan/heuristics/landmarks/landmark.py:148-158 | a node is seeded iff it is a true fact below the bound, a landmark of an unachieved goal fact, or a landmark of a task |
| Landmark.SeedsCover | pyperplan/heuristics/landmarks/landmark.py:148-158 | the seeds contain the landmarks of every unachieved goal fact, every true fact below the bound, and the landmarks of every task |
| Landmark.SeedsBounded | pyperplan/heuristics/landmarks/landmark.py:148-158 | every seed is a node of the graph |
| Landmark.FactLandmarks | pyperplan/heuristics/landmarks/landmark.py:148-153 | the fact loop computes the fact seeds |
| Landmark.SeedLandmarks | pyperplan/heuristics/landmarks/landmark.py:143-158 | the seeding loops compute the seeds, all below N |
| Landmark.Classify | pyperplan/heuristics/landmarks/landmark.py:160-167 | operators and facts not yet true are queued; every other seed is marked visited |
| Landmark.EnqueueUnvisited | pyperplan/heuristics/landmarks/landmark.py:173-179 | keeps the old queue as a prefix and appends each member not yet visited exactly once and nothing else (the appended part has the size of `lms − visited` and exactly its members); the visited count of the queue is unchanged |
| Landmark.EnqueueStep | pyperplan/heuristics/landmarks/landmark.py:173-179 | taking one pending member, and appending it when unvisited, keeps the append invariant |
| Landmark.EnqueueDone | pyperplan/heuristics/landmarks/landmark.py:173-179 | with nothing pending, the appended part is exactly the unvisited members, each once |
| Landmark.CloseStep | pyperplan/heuristics/landmarks/landmark.py:169-179 | one dequeue-and-expand keeps the closure invariant |
| Landmark.CloseMeasure | pyperplan/heuristics/landmarks/landmark.py:169-179 | one dequeue-and-expand decreases (N − visited, visited entries in the queue) although nodes can be queued repeatedly |
| Landmark.CloseDone | pyperplan/heuristics/landmarks/landmark.py:169-182 | with the queue empty, every initially queued node was expanded, each expanded node's entries are in the result, and every expanded node was queued at the start or found in an entry of another expanded node |
| Landmark.JustifiedStep | pyperplan/heuristics/landmarks/landmark.py:169-179 | one dequeue-and-expand queues only entries of the node just expanded, so every queued or expanded node stays traceable to the start queue or to another expanded node |
| Landmark.Close | pyperplan/heuristics/landmarks/landmark.py:169-182 | terminates; the result is the seeds plus the expanded nodes; the queued seeds are expanded, the visited ones never; for an expanded n, td[n] ∪ bu[n] lies in the result; and an expanded node was either queued at the start or lies in td or bu of another expanded node |
| Landmark.Landmarks.BidirectionalLms | pyperplan/heuristics/landmarks/landmark.py:130-182 | the result contains the seeds; a seed is expanded iff it is an operator or a fact not yet true; the result is closed under both tables for expanded nodes; an expanded node is an expandable seed or lies in an entry of another expanded node; everything stays below N |
| Ledger.Mark | pyperplan/heuristics/landmarks/landmark.py:21-24 | `lms` and the required count are unchanged; `id` becomes marked iff it is a landmark |
| Ledger.MarkIdempotent | pyperplan/heuristics/landmarks/landmark.py:21-24 | marking an identifier twice is marking it once |
| Ledger.MarkKeepsWellCounted | pyperplan/heuristics/landmarks/landmark.py:21-24 | marking keeps mark ⊆ lms and both counters equal to the set sizes |
| Ledger.MarkValue | pyperplan/heuristics/landmarks/landmark.py:21-35 | marking lowers the value by exactly one on an unachieved landmark, leaves it otherwise, and it stays non-negative |
| Ledger.AddOne | pyperplan/heuristics/landmarks/landmark.py:29-31 | one identifier is counted when new and changes nothing otherwise |
| Ledger.AddLmsKeepsWellCounted | pyperplan/heuristics/landmarks/landmark.py:28-32 | adding landmarks keeps the counters equal to the set sizes |
| Ledger.AddLmsValue | pyperplan/heuristics/landmarks/landmark.py:28-35 | adding landmarks raises the value by the number of new ones; it is unchanged iff none is new |
| Ledger.AddLmsIdempotent | pyperplan/heuristics/landmarks/landmark.py:28-32 | adding the same landmarks twice is adding them once |
| Ledger.AddLmsCompose | pyperplan/heuristics/landmarks/landmark.py:28-32 | two additions in a row equal one addition of the union |
| Ledger.EmptyWellCounted | pyperplan/heuristics/landmarks/landmark.py:13-17 | a fresh ledger is well counted, with value 0 |
| Ledger.ValueCountsUnachieved | pyperplan/heuristics/landmarks/landmark.py:34-35 | for a well-counted ledger the value is the number of unachieved landmarks: non-negative, and 0 iff all are achieved |
| Ledger.LMNode.constructor | pyperplan/heuristics/landmarks/landmark.py:7-17 | a child is a value copy of its parent (valid if the parent is); a root ledger is empty |
| Ledger.LMNode.MarkLm | pyperplan/heuristics/landmarks/landmark.py:21-24 | the new state is `Mark` of the old one, and validity is kept |
| Ledger.LMNode.UpdateLms | pyperplan/heuristics/landmarks/landmark.py:28-32 | the new state adds the listed identifiers, each counted once whatever the order; validity is kept |
| Ledger.LMNode.LmValue | pyperplan/heuristics/landmarks/landmark.py:34-35 | for a valid ledger, the number of required landmarks not yet achieved, never negative |
| Scenarios.AndNode | pyperplan/heuristics/landmarks/landmark.py:65-68 | an AND node over two source facts gets both facts and itself |
| Scenarios.OrNode | pyperplan/heuristics/landmarks/landmark.py:62-68 | an OR node over F0 and that AND node gets only what both share, F0, and itself |
| Scenarios.AndOrExample | pyperplan/heuristics/landmarks/landmark.py:56-73 | every table the bottom-up extraction can leave on the four-node graph is [{F0}, {F1}, {F0, F1, A}, {F0, O}] |
| Scenarios.OperatorExample | pyperplan/heuristics/landmarks/landmark.py:93-110 | with methods {M1, X}, {M2, X} and a fact F as predecessors, the operator's candidate is {X, OP}, without F |

## Left out

- Graph construction and the collapse of strongly connected components are left out. They live in `and_or_graphs` and `sccs`, which are not part of this model. Both graphs are inputs with these preconditions:
  - identifiers equal indices;
  - every edge stays inside the graph;
  - the top-down graph has as many nodes as the bottom-up one, since both tables are sized from the bottom-up graph.
- The readiness test before re-queuing a successor (`len(...) != None`) is always true, so successors are always re-queued.
- `[set()] * n` makes all entries alias one set object. Entries are only ever replaced, never mutated, so this is harmless, and the model uses independent empty entries.
- `LM_Node.__str__` (string rendering), the unused `len_nodes` parameter, the write-only `dot_visited` set, and the commented-out debugging output are left out.
- The planning model and task records are left out. Only the goal bit set and each task's `global_id` are read; they become a set and a sequence of identifiers.
- The benchmark driver `run_benchmarks.py` is left out: directory listing, timing, logging and calls into the grounder and search.
- Landmark.Landmarks.BottomUpLms: the fixpoint is promised only for graphs whose predecessor and successor lists agree (`Consistent`); on other graphs only growth, bounds and termination are stated.
- Landmark.Landmarks.BottomUpLms: on a graph with a cycle, several tables can be fixpoints above the start table, and the contract does not say which one is left. For example, take the graph 0 → 1 ⇄ 2, where 1 is an OR node over [0, 2] and 2 is an AND node over [1]. The run leaves [{0}, {1}, {1, 2}], but [{0}, {0, 1}, {0, 1, 2}] meets the same contract. Leastness and uniqueness on acyclic graphs are not proved.
- Landmark.Landmarks.TopDownLms: the same two gaps apply as for the bottom-up pass: the fixpoint only under `Consistent`, and on cyclic graphs the contract does not say which fixpoint is left.
- Landmark.Landmarks.BidirectionalLms: does not state that the result is the least set that contains the seeds and is closed under both tables. It states the seeds, which seeds are expanded, and closure under both tables. It also states that each expanded node is an expandable seed or lies in an entry of another expanded node. That rules out arbitrary extra nodes, but a cycle of nodes naming one another is not excluded by the statement alone.
- Landmark.Close: the same gap as `BidirectionalLms`. It states the closure from below, and from above only that every expanded node was queued at the start or lies in an entry of another expanded node, not full leastness.
- Landmark.SeedLandmarks: requires every unachieved goal fact, every true fact below the goal bit length, and every task identifier to be below the node count. On other inputs `landmark.py` raises `IndexError` at lines 150, 157 and 161 (a table index out of range). That error path is not modelled. `Landmark.Landmarks.BidirectionalLms` and `Landmark.FactLandmarks` carry the same preconditions.
- Landmark.Landmarks.BidirectionalLms: the state facts at or above the goal bit length are not seeded. `Landmark.SeedsExact` states this as the code does it.
- Ledger.LMNode.UpdateLms: takes the new identifiers as a sequence in the order they are visited. Any iterable the Python method accepts, a set included, is such a sequence.
- Ledger.LMNode: that changing a child leaves its parent unchanged follows from the frames (`modifies this` on a freshly allocated child); there is no separate lemma for it.
