/**
  MoveResult of include/bwsl/mcutils/MoveResult.hpp and the MoveStatus enum
  of include/bwsl/mcutils/MoveStatus.hpp: what a Monte Carlo move reports
  back, a status and the probability it was accepted or rejected with.
*/
module MoveResults {

  /** The outcome of a proposed move, stored as a character code. */
  datatype MoveStatus = Accepted | Rejected | Impossible
  {
    /** The character the enum stores for each status. */
    function Code(): (c: char)
      ensures c == 'A' || c == 'R' || c == 'I'
    {
      match this
      case Accepted => 'A'
      case Rejected => 'R'
      case Impossible => 'I'
    }
  }

  /** Distinct statuses have distinct codes. */
  lemma CodeInjective(s: MoveStatus, t: MoveStatus)
    ensures s.Code() == t.Code() <==> s == t
  {
  }

  datatype MoveResult = MoveResult(status: MoveStatus, prob: real)
  {
    predicate IsAccepted() { status == Accepted }

    predicate IsRejected() { status == Rejected }

    predicate IsImpossible() { status == MoveStatus.Impossible }

    /** Builder of an accepted move. */
    static function Accept(p: real): (r: MoveResult)
      ensures r.IsAccepted() && r.prob == p
    {
      MoveResult(Accepted, p)
    }

    /** Builder of a rejected move. */
    static function Reject(p: real): (r: MoveResult)
      ensures r.IsRejected() && r.prob == p
    {
      MoveResult(Rejected, p)
    }

    /** Builder of an impossible move: the probability given is dropped. */
    static function Impossible(p: real): (r: MoveResult)
      ensures r.IsImpossible() && r.prob == 0.0
    {
      MoveResult(MoveStatus.Impossible, 0.0)
    }
  }

  /** A default-constructed result: impossible, with probability 0. */
  const Default := MoveResult(MoveStatus.Impossible, 0.0)

  /** The default result is what the Impossible builder makes, whatever it
      is given. */
  lemma DefaultIsImpossible(p: real)
    ensures Default.IsImpossible() && Default.prob == 0.0
    ensures MoveResult.Impossible(p) == Default
  {
  }

  /** Exactly one of the three status tests holds for every result. */
  lemma ExactlyOneStatus(r: MoveResult)
    ensures r.IsAccepted() || r.IsRejected() || r.IsImpossible()
    ensures !(r.IsAccepted() && r.IsRejected())
    ensures !(r.IsAccepted() && r.IsImpossible())
    ensures !(r.IsRejected() && r.IsImpossible())
  {
  }
}
