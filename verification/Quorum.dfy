/** Quorum evaluation: a counting rule that may decide before every vote is in. */
module Quorum {
  import opened Wrappers

  datatype Decision = Approve | Deny

  datatype Verdict = Approved | Denied | Pending

  /** `quorum_type` is free text in the database; anything but the three supported types is an error. */
  datatype QuorumType = NOfM | SingleSenior | RoleWeighted | Unsupported(name: string)

  datatype Policy = Policy(quorumType: QuorumType, quorumN: Option<int>, quorumM: Option<int>)

  datatype Error = UnsupportedQuorumType(name: string)

  function Count(votes: seq<Decision>, d: Decision): (n: nat)
    ensures n <= |votes|
  {
    if votes == [] then 0 else (if votes[0] == d then 1 else 0) + Count(votes[1..], d)
  }

  /** `policy.quorum_n ?? 1` */
  function OrOne(n: Option<int>): int { if n.Some? then n.value else 1 }

  function CountRule(n: int, m: int, votes: seq<Decision>): Verdict
  {
    var approveCount, denyCount := Count(votes, Approve), Count(votes, Deny);
    if approveCount >= n then Approved else
    var votesRemaining := m - approveCount - denyCount;
    if approveCount + votesRemaining < n then Denied else Pending
  }

  function Evaluate(policy: Policy, votes: seq<Decision>): Result<Verdict, Error>
  {
    match policy.quorumType
    case NOfM => Ok(CountRule(OrOne(policy.quorumN), OrOne(policy.quorumM), votes))
    case SingleSenior =>
      if Count(votes, Approve) >= 1 then Ok(Approved)
      else if Count(votes, Deny) >= 1 then Ok(Denied)
      else Ok(Pending)
    case RoleWeighted => Ok(CountRule(OrOne(policy.quorumN), OrOne(policy.quorumM), votes))
    case Unsupported(name) => Err(UnsupportedQuorumType(name))
  }

  // ---- counting ------------------------------------------------------------

  lemma {:induction false} CountConcat(a: seq<Decision>, b: seq<Decision>, d: Decision)
    ensures Count(a + b, d) == Count(a, d) + Count(b, d)
  {
    if a == [] {
      assert a + b == b;
    } else {
      assert (a + b)[1..] == a[1..] + b;
      CountConcat(a[1..], b, d);
    }
  }

  lemma {:induction false} CountsAddUp(votes: seq<Decision>)
    ensures Count(votes, Approve) + Count(votes, Deny) == |votes|
  {
    if votes != [] {
      CountsAddUp(votes[1..]);
    }
  }

  lemma {:induction false} CountIsMultiplicity(votes: seq<Decision>, d: Decision)
    ensures Count(votes, d) == multiset(votes)[d]
  {
    if votes != [] {
      CountIsMultiplicity(votes[1..], d);
      assert votes == [votes[0]] + votes[1..];
    }
  }

  function Repeat(d: Decision, n: nat): (votes: seq<Decision>)
    ensures |votes| == n
  {
    seq(n, _ => d)
  }

  lemma {:induction false} CountRepeat(d: Decision, n: nat, other: Decision)
    ensures Count(Repeat(d, n), other) == if d == other then n else 0
  {
    if n != 0 {
      assert Repeat(d, n)[1..] == Repeat(d, n - 1);
      CountRepeat(d, n - 1, other);
    }
  }

  // ---- the rule is the outcome of collecting every vote ----------------------

  /** The order in which votes arrive does not matter. */
  lemma OrderIsIrrelevant(policy: Policy, a: seq<Decision>, b: seq<Decision>)
    requires multiset(a) == multiset(b)
    ensures Evaluate(policy, a) == Evaluate(policy, b)
  {
    CountIsMultiplicity(a, Approve);
    CountIsMultiplicity(b, Approve);
    CountIsMultiplicity(a, Deny);
    CountIsMultiplicity(b, Deny);
  }

  /** `later` completes `votes` to a full poll of `m` voters. */
  predicate Completes(m: int, votes: seq<Decision>, later: seq<Decision>) { |votes| + |later| == m }

  /** With every one of the `m` votes in, approval is a head count. */
  predicate FullPollApproves(n: int, poll: seq<Decision>) { Count(poll, Approve) >= n }

  /** The most and the fewest approvals a completion can reach. */
  lemma ExtremeCompletions(m: int, votes: seq<Decision>)
    requires |votes| <= m
    ensures Completes(m, votes, Repeat(Approve, m - |votes|)) && Completes(m, votes, Repeat(Deny, m - |votes|))
    ensures Count(votes + Repeat(Approve, m - |votes|), Approve) == Count(votes, Approve) + m - |votes|
    ensures Count(votes + Repeat(Deny, m - |votes|), Approve) == Count(votes, Approve)
  {
    CountRepeat(Approve, m - |votes|, Approve);
    CountRepeat(Deny, m - |votes|, Approve);
    CountConcat(votes, Repeat(Approve, m - |votes|), Approve);
    CountConcat(votes, Repeat(Deny, m - |votes|), Approve);
  }

  /**
   The three answers mean what they say. With at most `m` votes in: approved when every
   completion is approved, denied when none is, pending when it still depends.
  */
  lemma CountRuleIsExact(n: int, m: int, votes: seq<Decision>)
    requires |votes| <= m
    ensures CountRule(n, m, votes) == Approved <==> forall later :: Completes(m, votes, later) ==> FullPollApproves(n, votes + later)
    ensures CountRule(n, m, votes) == Denied <==> forall later :: Completes(m, votes, later) ==> !FullPollApproves(n, votes + later)
    ensures CountRule(n, m, votes) == Pending <==>
              && (exists later :: Completes(m, votes, later) && FullPollApproves(n, votes + later))
              && (exists later :: Completes(m, votes, later) && !FullPollApproves(n, votes + later))
  {
    CountsAddUp(votes);
    ExtremeCompletions(m, votes);
    var up, down := Repeat(Approve, m - |votes|), Repeat(Deny, m - |votes|);
    assert FullPollApproves(n, votes + up) <==> Count(votes, Approve) + m - |votes| >= n;
    assert FullPollApproves(n, votes + down) <==> Count(votes, Approve) >= n;
    forall later | Completes(m, votes, later)
      ensures Count(votes, Approve) <= Count(votes + later, Approve) <= Count(votes, Approve) + m - |votes|
    {
      CountConcat(votes, later, Approve);
    }
  }

  predicate CountsVotes(policy: Policy) { policy.quorumType.NOfM? || policy.quorumType.RoleWeighted? }

  /** The same for the policies themselves: `n_of_m` and `role_weighted` answer what the full poll will have to say. */
  lemma EvaluationIsExact(policy: Policy, votes: seq<Decision>)
    requires CountsVotes(policy) && |votes| <= OrOne(policy.quorumM)
    ensures var n, m := OrOne(policy.quorumN), OrOne(policy.quorumM);
            && (Evaluate(policy, votes) == Ok(Approved) <==> forall later :: Completes(m, votes, later) ==> FullPollApproves(n, votes + later))
            && (Evaluate(policy, votes) == Ok(Denied) <==> forall later :: Completes(m, votes, later) ==> !FullPollApproves(n, votes + later))
            && (Evaluate(policy, votes) == Ok(Pending) <==>
                  && (exists later :: Completes(m, votes, later) && FullPollApproves(n, votes + later))
                  && (exists later :: Completes(m, votes, later) && !FullPollApproves(n, votes + later)))
  {
    hide FullPollApproves, CountRule;
    CountRuleIsExact(OrOne(policy.quorumN), OrOne(policy.quorumM), votes);
  }

  /** A senior approver's single vote is decisive in either direction; among several one approval is enough. */
  lemma SeniorDecides(policy: Policy, d: Decision, votes: seq<Decision>)
    requires policy.quorumType.SingleSenior?
    ensures Evaluate(policy, [d]) == Ok(if d == Approve then Approved else Denied)
    ensures Evaluate(policy, votes) == Ok(if Approve in votes then Approved else if votes != [] then Denied else Pending)
  {
    CountIsMultiplicity(votes, Approve);
    CountIsMultiplicity(votes, Deny);
    if votes != [] {
      assert votes[0] in votes;
    }
  }

  /** A policy that leaves `n` or `m` open means one; any other kind of policy is an error that names it. */
  lemma DefaultsAreOne(n: Option<int>, m: Option<int>, votes: seq<Decision>, name: string)
    ensures Evaluate(Policy(NOfM, None, m), votes) == Evaluate(Policy(NOfM, Some(1), m), votes)
    ensures Evaluate(Policy(NOfM, n, None), votes) == Evaluate(Policy(NOfM, n, Some(1)), votes)
    ensures Evaluate(Policy(RoleWeighted, n, m), votes) == Evaluate(Policy(NOfM, n, m), votes)
    ensures Evaluate(Policy(Unsupported(name), n, m), votes) == Err(UnsupportedQuorumType(name))
    ensures Evaluate(Policy(NOfM, Some(2), Some(3)), [Approve]) == Ok(Pending)
    ensures Evaluate(Policy(NOfM, None, None), [Approve]) == Ok(Approved) && Evaluate(Policy(NOfM, None, None), [Deny]) == Ok(Denied)
  {
    assert [Approve][1..] == [] && [Deny][1..] == [];
  }

  /** Once decided, decided: no further votes up to `m` change the answer. */
  lemma DecisionIsStable(n: int, m: int, votes: seq<Decision>, later: seq<Decision>)
    requires |votes + later| <= m && CountRule(n, m, votes) != Pending
    ensures CountRule(n, m, votes + later) == CountRule(n, m, votes)
  {
    CountConcat(votes, later, Approve);
    CountConcat(votes, later, Deny);
    CountsAddUp(votes);
    CountsAddUp(later);
  }

  /**
   Beyond `m` votes that is lost, exactly as follows: an approval survives everything, and
   a denial survives every `k` further votes if and only if they cannot reach `n` approvals.
  */
  lemma DenialSurvivesIff(n: int, m: int, votes: seq<Decision>, k: nat)
    ensures CountRule(n, m, votes) == Denied ==>
              ((forall later :: |later| == k ==> CountRule(n, m, votes + later) == Denied) <==> Count(votes, Approve) + k < n)
    ensures CountRule(n, m, votes) == Approved ==> forall later :: |later| == k ==> CountRule(n, m, votes + later) == Approved
  {
    forall later: seq<Decision> | |later| == k
      ensures Count(votes + later, Approve) == Count(votes, Approve) + Count(later, Approve)
      ensures Count(votes + later, Deny) == Count(votes, Deny) + Count(later, Deny)
      ensures Count(later, Approve) + Count(later, Deny) == k
    {
      CountConcat(votes, later, Approve);
      CountConcat(votes, later, Deny);
      CountsAddUp(later);
    }
    CountRepeat(Approve, k, Approve);
    assert |Repeat(Approve, k)| == k;
    if CountRule(n, m, votes) == Denied && n <= Count(votes, Approve) + k {
      assert CountRule(n, m, votes + Repeat(Approve, k)) == Approved;
    }
  }

  /** For instance, with `n == m == 1`, one vote too many turns a denial into an approval. */
  lemma DecisionIsNotStableBeyondM()
    ensures CountRule(1, 1, [Deny]) == Denied && CountRule(1, 1, [Deny, Approve]) == Approved
  {
  }

  /** The number of votes looked at when polling stops at the first decision, starting with `k` of them. */
  function StopsAt(n: int, m: int, votes: seq<Decision>, k: nat): (stop: nat)
    requires k <= |votes|
    ensures k <= stop <= |votes|
    ensures stop == |votes| || CountRule(n, m, votes[..stop]) != Pending
    ensures forall j :: k <= j < stop ==> CountRule(n, m, votes[..j]) == Pending
    decreases |votes| - k
  {
    if k == |votes| || CountRule(n, m, votes[..k]) != Pending then k else StopsAt(n, m, votes, k + 1)
  }

  /** Stopping at the first decision gives the answer of the full poll, and the full poll always decides. */
  lemma EarlyResolutionIsSound(n: int, m: int, votes: seq<Decision>)
    requires |votes| == m
    ensures var stop := StopsAt(n, m, votes, 0);
            && CountRule(n, m, votes[..stop]) != Pending
            && CountRule(n, m, votes[..stop]) == CountRule(n, m, votes)
            && (CountRule(n, m, votes) == Approved <==> FullPollApproves(n, votes))
  {
    var stop := StopsAt(n, m, votes, 0);
    CountsAddUp(votes);
    assert votes[..|votes|] == votes;
    assert votes == votes[..stop] + votes[stop..];
    if CountRule(n, m, votes[..stop]) != Pending {
      DecisionIsStable(n, m, votes[..stop], votes[stop..]);
    }
  }

  /** A policy that leaves a request open until somebody votes. */
  predicate WellFormed(policy: Policy)
  {
    match policy.quorumType
    case SingleSenior => true
    case Unsupported(_) => false
    case _ => 1 <= OrOne(policy.quorumN) <= OrOne(policy.quorumM)
  }

  /** A supported policy whose numbers leave nothing to vote on. */
  predicate IsIllFormed(policy: Policy) { CountsVotes(policy) && !WellFormed(policy) }

  /** Such a policy has its answer before the first vote and after every one. */
  lemma IllFormedIsNeverPending(policy: Policy, votes: seq<Decision>)
    ensures IsIllFormed(policy) ==> Evaluate(policy, votes).Ok? && Evaluate(policy, votes).value != Pending
  {
  }

  /** Nothing in the service checks `1 <= n <= m`; it is exactly what keeps a request without votes pending. */
  lemma OpenAtFirst(policy: Policy)
    ensures Evaluate(policy, []) == Ok(Pending) <==> WellFormed(policy)
  {
  }

  /** The most votes a policy can use. */
  function Seats(policy: Policy): int
  {
    if policy.quorumType.SingleSenior? then 1 else OrOne(policy.quorumM)
  }

  /** No seat too many: with one vote less a poll can still be open. */
  lemma SeatsAreNeeded(policy: Policy)
    requires WellFormed(policy)
    ensures 1 <= Seats(policy)
    ensures exists votes: seq<Decision> :: |votes| == Seats(policy) - 1 && Evaluate(policy, votes) == Ok(Pending)
  {
    if policy.quorumType.SingleSenior? {
      var none: seq<Decision> := [];
      assert |none| == 0 && Evaluate(policy, none) == Ok(Pending);
    } else {
      var n, m := OrOne(policy.quorumN), OrOne(policy.quorumM);
      var up, down := Repeat(Approve, n - 1), Repeat(Deny, m - n);
      CountRepeat(Approve, n - 1, Approve);
      CountRepeat(Approve, n - 1, Deny);
      CountRepeat(Deny, m - n, Approve);
      CountRepeat(Deny, m - n, Deny);
      CountConcat(up, down, Approve);
      CountConcat(up, down, Deny);
      assert |up + down| == m - 1 && Evaluate(policy, up + down) == Ok(Pending);
    }
  }

  /** Under a well-formed policy polling is over after at most `Seats` votes. */
  lemma SeatsSuffice(policy: Policy, votes: seq<Decision>)
    requires WellFormed(policy) && |votes| >= Seats(policy)
    ensures Evaluate(policy, votes).Ok? && Evaluate(policy, votes).value != Pending
  {
    CountsAddUp(votes);
  }
}
