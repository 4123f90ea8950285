/**
  MarkovChainStats of include/bwsl/MarkovChainStats.hpp, the older twin of
  MoveStats: the same propose-then-complete bookkeeping with the same
  MoveInvalidSequence failures, no Add, and ratios that divide by the number
  of proposals without a guard, so all three are NaN (None) before the first
  proposal. The transitions are those of MoveStatistics; the probabilities
  fed to the plain sum are kept as the list `probs`.
*/
module MarkovChain {
  import opened Wrappers
  import opened MoveResults
  import opened MoveStatistics

  /** GetAcceptedRatio: accepted / proposed, NaN (None) before any
      proposal. */
  function AcceptedRatio(c: Counters): (r: Option<real>)
    ensures r.None? <==> c.proposed == 0
    ensures r.Some? ==> r.value * c.proposed as real == c.accepted as real
  {
    if c.proposed == 0 then None else Some(c.accepted as real / c.proposed as real)
  }

  /** The unguarded acceptance ratio agrees with the guarded one of
      MoveStats once a move was proposed; before that only MoveStats has a
      value, 0. The other two ratios are the same functions in both
      classes. */
  lemma AcceptedRatioAgrees(c: Counters)
    ensures c.proposed > 0 ==> AcceptedRatio(c) == Some(c.AcceptedRatio())
    ensures c.proposed == 0 ==> AcceptedRatio(c) == None && c.AcceptedRatio() == 0.0
  {
    if c.proposed > 0 {
      var r := AcceptedRatio(c).value;
      var n := c.proposed as real;
      assert r * n == c.AcceptedRatio() * n;
      assert r == c.AcceptedRatio();
    }
  }

  class MarkovChainStats {
    var pending: bool
    var proposed: nat
    var accepted: nat
    var rejected: nat
    var impossible: nat
    var probs: seq<real>

    /** The counters the fields hold. */
    function State(): Counters
      reads this
    {
      Counters(pending, proposed, accepted, rejected, impossible, probs)
    }

    constructor ()
      ensures State() == Initial
    {
      pending, proposed, accepted, rejected, impossible, probs := false, 0, 0, 0, 0, [];
    }

    /** Propose: UpdateIfNotProposed on `proposed`. */
    method Propose() returns (outcome: Outcome)
      modifies this
      ensures outcome == Done <==> !old(pending)
      ensures outcome == Done ==> ProposeStep(old(State())) == Some(State())
      ensures outcome == MoveInvalidSequence ==> State() == old(State())
    {
      if pending {
        return MoveInvalidSequence;
      }
      proposed := proposed + 1;
      pending := true;
      return Done;
    }

    /** UpdateIfProposed on the counter of `status`. */
    method UpdateIfProposed(status: MoveStatus, p: real) returns (outcome: Outcome)
      modifies this
      ensures outcome == Done <==> old(pending)
      ensures outcome == Done ==> CompleteStep(old(State()), status, p) == Some(State())
      ensures outcome == MoveInvalidSequence ==> State() == old(State())
    {
      if !pending {
        return MoveInvalidSequence;
      }
      match status {
        case Accepted => accepted := accepted + 1;
        case Rejected => rejected := rejected + 1;
        case Impossible => impossible := impossible + 1;
      }
      pending := false;
      probs := probs + [p];
      return Done;
    }

    /** Accept(prob). */
    method Accept(p: real) returns (outcome: Outcome)
      modifies this
      ensures outcome == Done <==> old(pending)
      ensures outcome == Done ==> CompleteStep(old(State()), Accepted, p) == Some(State())
      ensures outcome == MoveInvalidSequence ==> State() == old(State())
    {
      outcome := UpdateIfProposed(Accepted, p);
    }

    /** Reject(prob). */
    method Reject(p: real) returns (outcome: Outcome)
      modifies this
      ensures outcome == Done <==> old(pending)
      ensures outcome == Done ==> CompleteStep(old(State()), Rejected, p) == Some(State())
      ensures outcome == MoveInvalidSequence ==> State() == old(State())
    {
      outcome := UpdateIfProposed(Rejected, p);
    }

    /** Impossible(): records probability 0. */
    method Impossible() returns (outcome: Outcome)
      modifies this
      ensures outcome == Done <==> old(pending)
      ensures outcome == Done ==> CompleteStep(old(State()), MoveStatus.Impossible, 0.0) == Some(State())
      ensures outcome == MoveInvalidSequence ==> State() == old(State())
    {
      outcome := UpdateIfProposed(MoveStatus.Impossible, 0.0);
    }

    /** Reset: all counters to zero, nothing pending, nothing recorded. */
    method Reset()
      modifies this
      ensures State() == Initial
    {
      pending, proposed, accepted, rejected, impossible, probs := false, 0, 0, 0, 0, [];
    }
  }
}
