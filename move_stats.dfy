/**
  MoveStats of include/bwsl/mcutils/MoveStats.hpp: the bookkeeping of one
  Markov chain Monte Carlo move. A move is proposed, then completed exactly
  once as accepted, rejected or impossible; a call out of that order throws
  MoveInvalidSequence before anything changes.

  The counters are described by the value `Counters` and its transition
  functions; the class keeps them in fields and each method is proved to
  make the transition the function describes. The probabilities fed to
  the compensated sum are kept as the list `probs`; the sum itself is not
  part of this model.
*/
module MoveStatistics {
  import opened Wrappers
  import opened MoveResults

  /** The counters of a move and the probabilities recorded so far. */
  datatype Counters = Counters(
    pending: bool,
    proposed: nat,
    accepted: nat,
    rejected: nat,
    impossible: nat,
    probs: seq<real>)
  {
    /** Every proposal is completed once, except the pending one, and every
        completion records one probability. */
    predicate Valid()
    {
      proposed == accepted + rejected + impossible + (if pending then 1 else 0)
      && |probs| == accepted + rejected + impossible
    }

    /** GetAcceptedRatio: 0 before any proposal, accepted / proposed after. */
    function AcceptedRatio(): (r: real)
      ensures proposed == 0 ==> r == 0.0
      ensures proposed > 0 ==> r * proposed as real == accepted as real
    {
      if proposed == 0 then 0.0 else accepted as real / proposed as real
    }

    /** GetRejectedRatio: rejected / proposed, NaN (None) before any
        proposal. */
    function RejectedRatio(): (r: Option<real>)
      ensures r.None? <==> proposed == 0
      ensures r.Some? ==> r.value * proposed as real == rejected as real
    {
      if proposed == 0 then None else Some(rejected as real / proposed as real)
    }

    /** GetImpossibleRatio: impossible / proposed, NaN (None) before any
        proposal. */
    function ImpossibleRatio(): (r: Option<real>)
      ensures r.None? <==> proposed == 0
      ensures r.Some? ==> r.value * proposed as real == impossible as real
    {
      if proposed == 0 then None else Some(impossible as real / proposed as real)
    }
  }

  /** A new or reset move: nothing proposed, nothing recorded. */
  const Initial := Counters(false, 0, 0, 0, 0, [])

  /** UpdateIfNotProposed on `proposed`: fails while a proposal is pending. */
  function ProposeStep(c: Counters): Option<Counters>
  {
    if c.pending then None
    else Some(c.(pending := true, proposed := c.proposed + 1))
  }

  /** UpdateIfProposed on the counter of `status`, recording `p`: fails when
      no proposal is pending. */
  function CompleteStep(c: Counters, status: MoveStatus, p: real): Option<Counters>
  {
    if !c.pending then None
    else match status
      case Accepted => Some(c.(pending := false, accepted := c.accepted + 1, probs := c.probs + [p]))
      case Rejected => Some(c.(pending := false, rejected := c.rejected + 1, probs := c.probs + [p]))
      case Impossible => Some(c.(pending := false, impossible := c.impossible + 1, probs := c.probs + [p]))
  }

  /** Add: a proposal followed by the completion the result names; an
      impossible result goes through Impossible(), which records 0. */
  function AddStep(c: Counters, res: MoveResult): Option<Counters>
  {
    match ProposeStep(c)
    case None => None
    case Some(c1) => CompleteStep(c1, res.status, if res.IsImpossible() then 0.0 else res.prob)
  }

  /** Proposing succeeds exactly when nothing is pending, keeps the counters
      valid and leaves a proposal pending. */
  lemma ProposeValid(c: Counters)
    requires c.Valid()
    ensures ProposeStep(c).Some? <==> !c.pending
    ensures ProposeStep(c).Some? ==> ProposeStep(c).value.Valid() && ProposeStep(c).value.pending
  {
  }

  /** Completing succeeds exactly when a proposal is pending, keeps the
      counters valid, clears the pending flag and raises the counter of the
      status by one. */
  lemma CompleteValid(c: Counters, status: MoveStatus, p: real)
    requires c.Valid()
    ensures CompleteStep(c, status, p).Some? <==> c.pending
    ensures CompleteStep(c, status, p).Some? ==>
      var d := CompleteStep(c, status, p).value;
      d.Valid() && !d.pending && d.proposed == c.proposed
      && d.accepted + d.rejected + d.impossible == c.accepted + c.rejected + c.impossible + 1
  {
  }

  /** Add succeeds exactly when nothing is pending, leaves nothing pending,
      counts one more proposal and one more completion of the result's
      status, and records the result's probability (0 for an impossible
      move). */
  lemma AddResultValid(c: Counters, res: MoveResult)
    requires c.Valid()
    ensures AddStep(c, res).Some? <==> !c.pending
    ensures AddStep(c, res).Some? ==>
      var d := AddStep(c, res).value;
      d.Valid() && !d.pending && d.proposed == c.proposed + 1
      && d.accepted == c.accepted + (if res.IsAccepted() then 1 else 0)
      && d.rejected == c.rejected + (if res.IsRejected() then 1 else 0)
      && d.impossible == c.impossible + (if res.IsImpossible() then 1 else 0)
      && d.probs == c.probs + [if res.IsImpossible() then 0.0 else res.prob]
  {
    if !c.pending {
      ProposeValid(c);
      CompleteValid(ProposeStep(c).value, res.status, if res.IsImpossible() then 0.0 else res.prob);
    }
  }

  // ---------------------------------------------------------------------------
  // Runs of calls
  // ---------------------------------------------------------------------------

  /** A call on the statistics. */
  datatype Call = ProposeCall | CompleteCall(status: MoveStatus, p: real)

  function Step(c: Counters, call: Call): Option<Counters>
  {
    match call
    case ProposeCall => ProposeStep(c)
    case CompleteCall(status, p) => CompleteStep(c, status, p)
  }

  /** The counters after a run of calls, or None when one of them throws. */
  function Run(c: Counters, calls: seq<Call>): Option<Counters>
    decreases |calls|
  {
    if calls == [] then Some(c)
    else match Step(c, calls[0])
      case None => None
      case Some(d) => Run(d, calls[1..])
  }

  function CountProposals(calls: seq<Call>): nat
  {
    if calls == [] then 0 else (if calls[0].ProposeCall? then 1 else 0) + CountProposals(calls[1..])
  }

  function CountCompletions(calls: seq<Call>, status: MoveStatus): nat
  {
    if calls == [] then 0
    else
      var here := if calls[0].CompleteCall? && calls[0].status == status then 1 else 0;
      here + CountCompletions(calls[1..], status)
  }

  /** A run that does not throw keeps the counters valid, and each counter
      grows by the number of calls of its kind; the counters never
      decrease. */
  lemma {:induction false} RunCounts(c: Counters, calls: seq<Call>)
    requires c.Valid() && Run(c, calls).Some?
    ensures var d := Run(c, calls).value;
      d.Valid()
      && d.proposed == c.proposed + CountProposals(calls)
      && d.accepted == c.accepted + CountCompletions(calls, Accepted)
      && d.rejected == c.rejected + CountCompletions(calls, Rejected)
      && d.impossible == c.impossible + CountCompletions(calls, MoveStatus.Impossible)
      && c.probs <= d.probs
    decreases |calls|
  {
    if calls != [] {
      var d := Step(c, calls[0]).value;
      if calls[0].ProposeCall? {
        ProposeValid(c);
      } else {
        CompleteValid(c, calls[0].status, calls[0].p);
      }
      RunCounts(d, calls[1..]);
    }
  }

  /** A proposal and a completion with status s. */
  function Round(s: MoveStatus, p: real): seq<Call>
  {
    [ProposeCall, CompleteCall(s, p)]
  }

  /** n rounds with the same status and probability. */
  function Rounds(n: nat, s: MoveStatus, p: real): seq<Call>
  {
    if n == 0 then [] else Round(s, p) + Rounds(n - 1, s, p)
  }

  /** From a state with nothing pending, n rounds of status s succeed and
      add n proposals and n completions of s. */
  lemma {:induction false} RoundsRun(c: Counters, n: nat, s: MoveStatus, p: real)
    requires c.Valid() && !c.pending
    ensures Run(c, Rounds(n, s, p)).Some?
    ensures var d := Run(c, Rounds(n, s, p)).value;
      d.Valid() && !d.pending && d.proposed == c.proposed + n
      && d.accepted == c.accepted + (if s == Accepted then n else 0)
      && d.rejected == c.rejected + (if s == Rejected then n else 0)
      && d.impossible == c.impossible + (if s == MoveStatus.Impossible then n else 0)
    decreases n
  {
    if n > 0 {
      var c1 := ProposeStep(c).value;
      var c2 := CompleteStep(c1, s, p).value;
      ProposeValid(c);
      CompleteValid(c1, s, p);
      RoundsRun(c2, n - 1, s, p);
      RunAppend(c, Round(s, p), Rounds(n - 1, s, p));
      assert Run(c, Round(s, p)) == Some(c2) by {
        assert Run(c2, []) == Some(c2);
        assert [CompleteCall(s, p)][1..] == [];
        assert Run(c1, [CompleteCall(s, p)]) == Some(c2);
        assert Round(s, p)[1..] == [CompleteCall(s, p)];
      }
    }
  }

  /** Running two lists of calls one after the other. */
  lemma {:induction false} RunAppend(c: Counters, xs: seq<Call>, ys: seq<Call>)
    ensures Run(c, xs + ys) == match Run(c, xs) case None => None case Some(d) => Run(d, ys)
    decreases |xs|
  {
    if xs == [] {
      assert xs + ys == ys;
    } else {
      assert (xs + ys)[0] == xs[0] && (xs + ys)[1..] == xs[1..] + ys;
      match Step(c, xs[0])
      case None =>
      case Some(d) => RunAppend(d, xs[1..], ys);
    }
  }

  /** Two batches of rounds, n of status s and then m of status t, from a
      state with nothing pending (na accepted and then nr rejected moves
      from a new move, in the tests) succeed and add n + m proposals and
      the completions of each status. */
  lemma RoundsThenRounds(c: Counters, n: nat, s: MoveStatus, p: real, m: nat, t: MoveStatus, q: real)
    requires c.Valid() && !c.pending
    ensures Run(c, Rounds(n, s, p) + Rounds(m, t, q)).Some?
    ensures var d := Run(c, Rounds(n, s, p) + Rounds(m, t, q)).value;
      d.Valid() && !d.pending && d.proposed == c.proposed + n + m
      && d.accepted == c.accepted + (if s == Accepted then n else 0) + (if t == Accepted then m else 0)
      && d.rejected == c.rejected + (if s == Rejected then n else 0) + (if t == Rejected then m else 0)
      && d.impossible == c.impossible + (if s == MoveStatus.Impossible then n else 0)
         + (if t == MoveStatus.Impossible then m else 0)
  {
    var xs, ys := Rounds(n, s, p), Rounds(m, t, q);
    RoundsRun(c, n, s, p);
    var b := Run(c, xs).value;
    RoundsRun(b, m, t, q);
    RunAppend(c, xs, ys);
  }

  /** The run of the tests: from a new move (valid, nothing proposed yet),
      600 accepted and then 400 rejected moves give the ratios 0.6, 0.4 and
      0. */
  lemma RatiosExample(c: Counters, na: nat, nr: nat)
    requires c.Valid() && c.proposed == 0 && na == 600 && nr == 400
    ensures Run(c, Rounds(na, Accepted, 0.6) + Rounds(nr, Rejected, 0.6)).Some?
    ensures var d := Run(c, Rounds(na, Accepted, 0.6) + Rounds(nr, Rejected, 0.6)).value;
      d.AcceptedRatio() == 0.6 && d.RejectedRatio() == Some(0.4) && d.ImpossibleRatio() == Some(0.0)
  {
    RoundsThenRounds(c, na, Accepted, 0.6, nr, Rejected, 0.6);
    var d := Run(c, Rounds(na, Accepted, 0.6) + Rounds(nr, Rejected, 0.6)).value;
    SixtyForty(d);
  }

  lemma SixtyForty(d: Counters)
    requires d.proposed == 1000 && d.accepted == 600 && d.rejected == 400 && d.impossible == 0
    ensures d.AcceptedRatio() == 0.6 && d.RejectedRatio() == Some(0.4) && d.ImpossibleRatio() == Some(0.0)
  {
  }

  /** A count out of at most that many, as a fraction, lies in [0, 1]. */
  lemma Fraction(a: nat, n: nat)
    requires 0 < n && a <= n
    ensures 0.0 <= a as real / n as real <= 1.0
  {
  }

  /** With valid counters the ratios lie in [0, 1]; once nothing is pending
      they add up to 1. */
  lemma RatiosBounded(c: Counters)
    requires c.Valid() && c.proposed > 0
    ensures 0.0 <= c.AcceptedRatio() <= 1.0
    ensures 0.0 <= c.RejectedRatio().value <= 1.0
    ensures 0.0 <= c.ImpossibleRatio().value <= 1.0
    ensures !c.pending ==>
      c.AcceptedRatio() + c.RejectedRatio().value + c.ImpossibleRatio().value == 1.0
  {
    var n := c.proposed as real;
    Fraction(c.accepted, c.proposed);
    Fraction(c.rejected, c.proposed);
    Fraction(c.impossible, c.proposed);
    if !c.pending {
      var a, r, i := c.accepted as real, c.rejected as real, c.impossible as real;
      assert a / n + r / n + i / n == (a + r + i) / n;
      assert a + r + i == n;
    }
  }

  // ---------------------------------------------------------------------------
  // The class
  // ---------------------------------------------------------------------------

  /** What a call reports: done, or the MoveInvalidSequence it throws. */
  datatype Outcome = Done | MoveInvalidSequence

  class MoveStats {
    var pending: bool
    var proposed: nat
    var accepted: nat
    var rejected: nat
    var impossible: nat
    var probs: seq<real>

    /** The counters the fields hold. */
    function State(): Counters
      reads this
    {
      Counters(pending, proposed, accepted, rejected, impossible, probs)
    }

    constructor ()
      ensures State() == Initial
    {
      pending, proposed, accepted, rejected, impossible, probs := false, 0, 0, 0, 0, [];
    }

    /** Propose: throws while a proposal is pending. */
    method Propose() returns (outcome: Outcome)
      modifies this
      ensures outcome == Done <==> !old(pending)
      ensures outcome == Done ==> ProposeStep(old(State())) == Some(State())
      ensures outcome == MoveInvalidSequence ==> State() == old(State())
    {
      if pending {
        return MoveInvalidSequence;
      }
      proposed := proposed + 1;
      pending := true;
      return Done;
    }

    /** UpdateIfProposed: throws when no proposal is pending. */
    method UpdateIfProposed(status: MoveStatus, p: real) returns (outcome: Outcome)
      modifies this
      ensures outcome == Done <==> old(pending)
      ensures outcome == Done ==> CompleteStep(old(State()), status, p) == Some(State())
      ensures outcome == MoveInvalidSequence ==> State() == old(State())
    {
      if !pending {
        return MoveInvalidSequence;
      }
      match status {
        case Accepted => accepted := accepted + 1;
        case Rejected => rejected := rejected + 1;
        case Impossible => impossible := impossible + 1;
      }
      pending := false;
      probs := probs + [p];
      return Done;
    }

    /** Accept(prob). */
    method Accept(p: real) returns (outcome: Outcome)
      modifies this
      ensures outcome == Done <==> old(pending)
      ensures outcome == Done ==> CompleteStep(old(State()), Accepted, p) == Some(State())
      ensures outcome == MoveInvalidSequence ==> State() == old(State())
    {
      outcome := UpdateIfProposed(Accepted, p);
    }

    /** Reject(prob). */
    method Reject(p: real) returns (outcome: Outcome)
      modifies this
      ensures outcome == Done <==> old(pending)
      ensures outcome == Done ==> CompleteStep(old(State()), Rejected, p) == Some(State())
      ensures outcome == MoveInvalidSequence ==> State() == old(State())
    {
      outcome := UpdateIfProposed(Rejected, p);
    }

    /** Impossible(): records probability 0. */
    method Impossible() returns (outcome: Outcome)
      modifies this
      ensures outcome == Done <==> old(pending)
      ensures outcome == Done ==> CompleteStep(old(State()), MoveStatus.Impossible, 0.0) == Some(State())
      ensures outcome == MoveInvalidSequence ==> State() == old(State())
    {
      outcome := UpdateIfProposed(MoveStatus.Impossible, 0.0);
    }

    /** Add(res): Propose, then the completion the status of res names. */
    method Add(res: MoveResult) returns (outcome: Outcome)
      modifies this
      ensures outcome == Done <==> !old(pending)
      ensures outcome == Done ==> AddStep(old(State()), res) == Some(State())
      ensures outcome == MoveInvalidSequence ==> State() == old(State())
    {
      outcome := Propose();
      if outcome == MoveInvalidSequence {
        return;
      }
      match res.status
      case Accepted => outcome := Accept(res.prob);
      case Rejected => outcome := Reject(res.prob);
      case Impossible => outcome := Impossible();
    }

    /** Reset: all counters to zero, nothing pending, nothing recorded. */
    method Reset()
      modifies this
      ensures State() == Initial
    {
      pending, proposed, accepted, rejected, impossible, probs := false, 0, 0, 0, 0, [];
    }
  }
}
