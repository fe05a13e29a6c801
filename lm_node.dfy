/** The per-search-node landmark ledger: which landmarks a node still has to
    achieve, which it has achieved, and the two counters whose difference is
    the landmark heuristic value. The bit sets of node identifiers are sets. */
module Ledger {

  /** The four fields of a ledger, as a value. */
  datatype LedgerState = LedgerState(lms: set<nat>, mark: set<nat>, numberLms: int, achievedLms: int)

  /** A ledger with no landmarks. */
  const Empty := LedgerState({}, {}, 0, 0)

  /** The counters count the two sets, and only landmarks are marked. */
  predicate WellCounted(s: LedgerState)
  {
    s.mark <= s.lms && s.numberLms == |s.lms| && s.achievedLms == |s.mark|
  }

  /** Landmarks still to be achieved. */
  function Value(s: LedgerState): int
  {
    s.numberLms - s.achievedLms
  }

  /** Marking `id` as achieved: only a landmark not yet marked is counted. */
  function Mark(s: LedgerState, id: nat): (r: LedgerState)
    ensures r.lms == s.lms && r.numberLms == s.numberLms
    ensures r.mark == s.mark + (if id in s.lms then {id} else {})
  {
    if id in s.lms && id !in s.mark then
      s.(mark := s.mark + {id}, achievedLms := s.achievedLms + 1)
    else
      s
  }

  /** Adding the landmarks `lms`: each one not already present is counted once,
      whatever order they come in. */
  function AddLms(s: LedgerState, lms: set<nat>): (r: LedgerState)
  {
    LedgerState(s.lms + lms, s.mark, s.numberLms + |lms - s.lms|, s.achievedLms)
  }

  lemma EmptyWellCounted()
    ensures WellCounted(Empty) && Value(Empty) == 0
  {
  }

  lemma DiffSize(A: set<nat>, B: set<nat>)
    requires B <= A
    ensures |A - B| == |A| - |B|
  {
    assert A == (A - B) + B;
  }

  /** For a valid ledger the value is the number of unachieved landmarks, so it
      is never negative and is zero exactly when every landmark is achieved. */
  lemma ValueCountsUnachieved(s: LedgerState)
    requires WellCounted(s)
    ensures Value(s) == |s.lms - s.mark|
    ensures Value(s) >= 0
    ensures Value(s) == 0 <==> s.lms <= s.mark
  {
    DiffSize(s.lms, s.mark);
    if s.lms - s.mark == {} {
      assert s.lms <= s.mark;
    } else {
      var x :| x in s.lms - s.mark;
      assert !(s.lms <= s.mark);
    }
  }

  lemma MarkKeepsWellCounted(s: LedgerState, id: nat)
    requires WellCounted(s)
    ensures WellCounted(Mark(s, id))
  {
  }

  /** Marking lowers the value by one exactly when `id` is an unachieved landmark. */
  lemma MarkValue(s: LedgerState, id: nat)
    requires WellCounted(s)
    ensures Value(Mark(s, id)) == Value(s) - (if id in s.lms - s.mark then 1 else 0)
    ensures Value(Mark(s, id)) >= 0
  {
    MarkKeepsWellCounted(s, id);
    ValueCountsUnachieved(Mark(s, id));
  }

  /** Marking the same identifier twice counts it once. */
  lemma MarkIdempotent(s: LedgerState, id: nat)
    ensures Mark(Mark(s, id), id) == Mark(s, id)
  {
  }

  lemma AddLmsKeepsWellCounted(s: LedgerState, lms: set<nat>)
    requires WellCounted(s)
    ensures WellCounted(AddLms(s, lms))
  {
    assert s.lms + lms == s.lms + (lms - s.lms);
    assert s.lms !! (lms - s.lms);
  }

  /** Adding landmarks never lowers the value: it rises by the number of new ones. */
  lemma AddLmsValue(s: LedgerState, lms: set<nat>)
    ensures Value(AddLms(s, lms)) == Value(s) + |lms - s.lms|
    ensures Value(AddLms(s, lms)) >= Value(s)
    ensures Value(AddLms(s, lms)) == Value(s) <==> lms <= s.lms
  {
    if !(lms <= s.lms) {
      var x :| x in lms && x !in s.lms;
      assert x in lms - s.lms;
    }
  }

  /** Adding the same landmarks twice is adding them once. */
  lemma AddLmsIdempotent(s: LedgerState, lms: set<nat>)
    ensures AddLms(AddLms(s, lms), lms) == AddLms(s, lms)
  {
    assert lms - (s.lms + lms) == {};
  }

  /** Two additions in a row are one addition of the union. */
  lemma AddLmsCompose(s: LedgerState, a: set<nat>, b: set<nat>)
    ensures AddLms(AddLms(s, a), b) == AddLms(s, a + b)
  {
    var fromA, fromB := a - s.lms, b - (s.lms + a);
    assert (a + b) - s.lms == fromA + fromB;
    assert fromA !! fromB;
  }

  /** The identifiers a list names. */
  function Members(ids: seq<nat>): (r: set<nat>)
    ensures forall x :: x in r <==> x in ids
  {
    set x | x in ids
  }

  lemma MembersStep(ids: seq<nat>, i: nat)
    requires i < |ids|
    ensures Members(ids[..i + 1]) == Members(ids[..i]) + {ids[i]}
  {
    assert ids[..i + 1] == ids[..i] + [ids[i]];
  }

  /** Adding a single landmark: counted when new, no change otherwise. */
  lemma AddOne(s: LedgerState, lm: nat)
    ensures lm in s.lms ==> AddLms(s, {lm}) == s
    ensures lm !in s.lms ==>
      AddLms(s, {lm}) == s.(lms := s.lms + {lm}, numberLms := s.numberLms + 1)
  {
    if lm in s.lms {
      assert {lm} - s.lms == {};
      assert s.lms + {lm} == s.lms;
    } else {
      assert {lm} - s.lms == {lm};
    }
  }

  /** The ledger of one search node. A child starts from a copy of its parent's
      ledger; the copy is a value, so later changes to either do not reach the
      other. */
  class LMNode {
    var lms: set<nat>
    var mark: set<nat>
    var numberLms: int
    var achievedLms: int

    function State(): LedgerState
      reads this
    {
      LedgerState(lms, mark, numberLms, achievedLms)
    }

    ghost predicate Valid()
      reads this
    {
      WellCounted(State())
    }

    constructor (parent: LMNode?)
      ensures parent != null ==> State() == parent.State()
      ensures parent == null ==> State() == Empty
      ensures parent == null || parent.Valid() ==> Valid()
    {
      if parent != null {
        lms := parent.lms;
        mark := parent.mark;
        numberLms := parent.numberLms;
        achievedLms := parent.achievedLms;
      } else {
        lms := {};
        mark := {};
        numberLms := 0;
        achievedLms := 0;
      }
    }

    /** Record that `id` is achieved. */
    method MarkLm(id: nat)
      modifies this
      ensures State() == Mark(old(State()), id)
      ensures old(Valid()) ==> Valid()
    {
      if WellCounted(State()) {
        MarkKeepsWellCounted(State(), id);
      }
      if id in lms && id !in mark {
        mark := mark + {id};
        achievedLms := achievedLms + 1;
      }
    }

    /** Add the landmarks listed in `newLms`, in the order given; an identifier
        listed twice is counted once. */
    method UpdateLms(newLms: seq<nat>)
      modifies this
      ensures State() == AddLms(old(State()), Members(newLms))
      ensures old(Valid()) ==> Valid()
    {
      ghost var s0 := State();
      if WellCounted(s0) {
        AddLmsKeepsWellCounted(s0, Members(newLms));
      }
      assert AddLms(s0, Members(newLms[..0])) == s0;
      for i := 0 to |newLms|
        invariant State() == AddLms(s0, Members(newLms[..i]))
      {
        var lmId := newLms[i];
        ghost var before := State();
        ghost var after := if lmId in before.lms then before
          else LedgerState(before.lms + {lmId}, before.mark, before.numberLms + 1, before.achievedLms);
        assert AddLms(s0, Members(newLms[..i + 1])) == after by {
          MembersStep(newLms, i);
          AddLmsCompose(s0, Members(newLms[..i]), {lmId});
          AddOne(before, lmId);
        }
        if lmId !in lms {
          lms := lms + {lmId};
          numberLms := numberLms + 1;
        }
        assert State() == after;
      }
      assert newLms[..|newLms|] == newLms;
    }

    /** The heuristic value: for a valid ledger, the number of landmarks not yet achieved. */
    function LmValue(): (v: int)
      reads this
      ensures Valid() ==> v == |lms - mark| && v >= 0
    {
      if WellCounted(State()) then
        ValueCountsUnachieved(State());
        numberLms - achievedLms
      else
        numberLms - achievedLms
    }
  }
}
