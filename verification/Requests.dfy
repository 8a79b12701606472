/**
 The life of an approval request: creation, votes, resolution and break-glass.

 A service call is one atomic step. Who may vote is a parameter; the service's own
 rule, that only the requester may, is an instance of it. Times, ids, the delegation
 check and the success of signing are arguments of the calls.
*/
module Requests {
  import opened Wrappers
  import opened Quorum

  type Id = nat
  type User = nat

  datatype PolicyRow = PolicyRow(rule: Policy, version: int)

  datatype Request = Request(
    policyId: Id, policyVersion: int, requester: User,
    status: Verdict, resolvedAt: Option<int>, breakGlass: bool, needsReview: bool)

  datatype VoteRow = VoteRow(requestId: Id, approver: User, decision: Decision)

  datatype Db = Db(policies: map<Id, PolicyRow>, requests: map<Id, Request>, votes: seq<VoteRow>)

  datatype Error =
    | PolicyNotFound
    | DuplicateId
    | RequestNotFound
    | AlreadyResolved(status: Verdict)
    | DelegationExpired
    | SigningFailed
    | AlreadyVoted
    | BreakGlassAlreadyApplied
    | NoSuchQuorum(reason: Quorum.Error)

  type VoterRule = (User, User) -> bool

  /** `WHERE id = $1 AND requester_id = $2` with the voter's own id: only the requester is found. */
  const OnlyRequester: VoterRule := (requester, approver) => requester == approver

  /** `SELECT decision FROM approval_votes WHERE request_id = $1` */
  function VotesOf(votes: seq<VoteRow>, id: Id): (ds: seq<Decision>)
  {
    if votes == [] then [] else
    var front, last := votes[..|votes| - 1], votes[|votes| - 1];
    VotesOf(front, id) + if last.requestId == id then [last.decision] else []
  }

  predicate HasVoted(votes: seq<VoteRow>, id: Id, approver: User)
  {
    exists i :: 0 <= i < |votes| && votes[i].requestId == id && votes[i].approver == approver
  }

  // ---- the calls -----------------------------------------------------------

  function CreateOutcome(db: Db, id: Id, policyId: Id): Option<Error>
  {
    if policyId !in db.policies then Some(PolicyNotFound)
    else if id in db.requests then Some(DuplicateId)
    else None
  }

  function AfterCreate(db: Db, id: Id, policyId: Id, requester: User): Db
  {
    if CreateOutcome(db, id, policyId).Some? then db
    else db.(requests := db.requests[id := Request(policyId, db.policies[policyId].version, requester, Pending, None, false, false)])
  }

  datatype Ballot = Ballot(id: Id, approver: User, decision: Decision, delegationOk: bool, canSign: bool, now: int)

  /** Everything that can turn a vote away before it is stored. */
  function VoteRefusal(rule: VoterRule, db: Db, b: Ballot): Option<Error>
  {
    if b.id !in db.requests || !rule(db.requests[b.id].requester, b.approver) then Some(RequestNotFound)
    else if db.requests[b.id].status != Pending then Some(AlreadyResolved(db.requests[b.id].status))
    else if !b.delegationOk then Some(DelegationExpired)
    else if !b.canSign then Some(SigningFailed)
    else if HasVoted(db.votes, b.id, b.approver) then Some(AlreadyVoted)
    else None
  }

  /** The table after the vote is stored, before the quorum is looked at. */
  function WithVote(db: Db, b: Ballot): Db
  {
    db.(votes := db.votes + [VoteRow(b.id, b.approver, b.decision)])
  }

  /** `evaluateQuorum` over the stored votes and the policy as it stands now, not as it was when the request was made. */
  function Tally(db: Db, id: Id): Result<Verdict, Quorum.Error>
    requires id in db.requests && db.requests[id].policyId in db.policies
  {
    Evaluate(db.policies[db.requests[id].policyId].rule, VotesOf(db.votes, id))
  }

  function VoteOutcome(rule: VoterRule, db: Db, b: Ballot): Result<Verdict, Error>
    requires PoliciesKnown(db)
  {
    var refusal := VoteRefusal(rule, db, b);
    if refusal.Some? then Err(refusal.value) else
    match Tally(WithVote(db, b), b.id)
    case Err(e) => Err(NoSuchQuorum(e))
    case Ok(verdict) => Ok(verdict)
  }

  /** An unsupported policy makes the call fail after the vote has been stored. */
  function AfterVote(rule: VoterRule, db: Db, b: Ballot): Db
    requires PoliciesKnown(db)
  {
    if VoteRefusal(rule, db, b).Some? then db else
    var voted := WithVote(db, b);
    match Tally(voted, b.id)
    case Err(_) => voted
    case Ok(Pending) => voted
    case Ok(verdict) => voted.(requests := db.requests[b.id := db.requests[b.id].(status := verdict, resolvedAt := Some(b.now))])
  }

  function BreakGlassOutcome(db: Db, id: Id, actor: User): Option<Error>
  {
    if id !in db.requests || db.requests[id].requester != actor then Some(RequestNotFound)
    else if db.requests[id].breakGlass then Some(BreakGlassAlreadyApplied)
    else if db.requests[id].status != Pending then Some(AlreadyResolved(db.requests[id].status))
    else None
  }

  function AfterBreakGlass(db: Db, id: Id, actor: User, now: int): Db
  {
    if BreakGlassOutcome(db, id, actor).Some? then db
    else db.(requests := db.requests[id := db.requests[id].(status := Approved, breakGlass := true, needsReview := true, resolvedAt := Some(now))])
  }

  /** `REFERENCES approval_policies ON DELETE RESTRICT` */
  ghost predicate PoliciesKnown(db: Db)
  {
    forall id :: id in db.requests ==> db.requests[id].policyId in db.policies
  }

  class ApprovalService {
    const rule: VoterRule
    var policies: map<Id, PolicyRow>
    var requests: map<Id, Request>
    var votes: seq<VoteRow>

    ghost function Tables(): Db reads this { Db(policies, requests, votes) }

    constructor (rule: VoterRule)
      ensures this.rule == rule && Tables() == Db(map[], map[], [])
    {
      this.rule, policies, requests, votes := rule, map[], map[], [];
    }

    method CreatePolicy(id: Id, row: PolicyRow) returns (error: Option<Error>)
      modifies this`policies
      ensures error == if id in old(policies) then Some(DuplicateId) else None
      ensures Tables() == AfterPolicy(old(Tables()), id, row)
    {
      if id in policies {
        return Some(DuplicateId);
      }
      policies := policies[id := row];
      error := None;
    }

    method CreateRequest(id: Id, policyId: Id, requester: User) returns (error: Option<Error>)
      modifies this`requests
      ensures error == CreateOutcome(old(Tables()), id, policyId)
      ensures Tables() == AfterCreate(old(Tables()), id, policyId, requester)
    {
      if policyId !in policies {
        return Some(PolicyNotFound);
      }
      var policyVersionSnapshot := policies[policyId].version;
      if id in requests {
        return Some(DuplicateId);
      }
      requests := requests[id := Request(policyId, policyVersionSnapshot, requester, Pending, None, false, false)];
      error := None;
    }

    method SubmitVote(b: Ballot) returns (r: Result<Verdict, Error>)
      requires PoliciesKnown(Tables())
      modifies this`requests, this`votes
      ensures r == VoteOutcome(rule, old(Tables()), b)
      ensures Tables() == AfterVote(rule, old(Tables()), b)
    {
      if b.id !in requests || !rule(requests[b.id].requester, b.approver) {
        return Err(RequestNotFound);
      }
      var currentRequest := requests[b.id];
      if currentRequest.status != Pending {
        return Err(AlreadyResolved(currentRequest.status));
      }
      if !b.delegationOk {
        return Err(DelegationExpired);
      }
      if !b.canSign {
        return Err(SigningFailed);
      }
      if HasVoted(votes, b.id, b.approver) {
        return Err(AlreadyVoted);
      }
      votes := votes + [VoteRow(b.id, b.approver, b.decision)];
      var quorumResult := Evaluate(policies[currentRequest.policyId].rule, VotesOf(votes, b.id));
      if quorumResult.Err? {
        return Err(NoSuchQuorum(quorumResult.error));
      }
      if quorumResult.value == Approved || quorumResult.value == Denied {
        requests := requests[b.id := currentRequest.(status := quorumResult.value, resolvedAt := Some(b.now))];
      }
      r := Ok(quorumResult.value);
    }

    method BreakGlass(id: Id, actor: User, now: int) returns (error: Option<Error>)
      modifies this`requests
      ensures error == BreakGlassOutcome(old(Tables()), id, actor)
      ensures Tables() == AfterBreakGlass(old(Tables()), id, actor, now)
    {
      if id !in requests || requests[id].requester != actor {
        return Some(RequestNotFound);
      }
      if requests[id].breakGlass {
        return Some(BreakGlassAlreadyApplied);
      }
      if requests[id].status != Pending {
        return Some(AlreadyResolved(requests[id].status));
      }
      requests := requests[id := requests[id].(status := Approved, breakGlass := true, needsReview := true, resolvedAt := Some(now))];
      error := None;
    }
  }

  // ---- runs ----------------------------------------------------------------

  function AfterPolicy(db: Db, id: Id, row: PolicyRow): Db
  {
    if id in db.policies then db else db.(policies := db.policies[id := row])
  }

  datatype Step =
    | NewPolicy(id: Id, row: PolicyRow)
    | NewRequest(id: Id, policyId: Id, requester: User)
    | Vote(ballot: Ballot)
    | Override(id: Id, actor: User, now: int)

  function Apply(rule: VoterRule, db: Db, step: Step): Db
    requires PoliciesKnown(db)
  {
    match step
    case NewPolicy(id, row) => AfterPolicy(db, id, row)
    case NewRequest(id, policyId, requester) => AfterCreate(db, id, policyId, requester)
    case Vote(b) => AfterVote(rule, db, b)
    case Override(id, actor, now) => AfterBreakGlass(db, id, actor, now)
  }

  lemma PoliciesStayKnown(rule: VoterRule, db: Db, step: Step)
    requires PoliciesKnown(db)
    ensures PoliciesKnown(Apply(rule, db, step))
  {
  }

  function Run(rule: VoterRule, db: Db, steps: seq<Step>): (end: Db)
    requires PoliciesKnown(db)
    ensures PoliciesKnown(end)
    decreases |steps|
  {
    if steps == [] then db else
    PoliciesStayKnown(rule, db, steps[0]);
    Run(rule, Apply(rule, db, steps[0]), steps[1..])
  }

  const EMPTY := Db(map[], map[], [])

  // ---- what every run keeps ------------------------------------------------

  function RuleOf(db: Db, id: Id): Policy
    requires id in db.requests && db.requests[id].policyId in db.policies
  {
    db.policies[db.requests[id].policyId].rule
  }

  /**
   A request's row against its votes: resolved exactly when it left pending; a
   break-glassed one is approved, flagged for review and was undecided by its votes;
   any other has the status its votes call for, under a well-formed policy at any time
   and under an ill-formed one as soon as there is a vote.
  */
  ghost predicate RequestOk(db: Db, id: Id)
    requires id in db.requests && db.requests[id].policyId in db.policies
  {
    var r := db.requests[id];
    && (r.resolvedAt.Some? <==> r.status != Pending)
    && (r.breakGlass <==> r.needsReview)
    && (r.breakGlass ==> r.status == Approved)
    && (WellFormed(RuleOf(db, id)) ==>
          && Tally(db, id) == Ok(if r.breakGlass then Pending else r.status)
          && |VotesOf(db.votes, id)| <= Seats(RuleOf(db, id)))
    && (RuleOf(db, id).quorumType.Unsupported? && !r.breakGlass ==> r.status == Pending)
    && (IsIllFormed(RuleOf(db, id)) ==>
          if r.breakGlass || r.status == Pending then VotesOf(db.votes, id) == []
          else VotesOf(db.votes, id) != [] && Tally(db, id) == Ok(r.status))
  }

  ghost predicate VotesOk(rule: VoterRule, db: Db)
  {
    && (forall i :: 0 <= i < |db.votes| ==>
          db.votes[i].requestId in db.requests && rule(db.requests[db.votes[i].requestId].requester, db.votes[i].approver))
    && (forall i, j :: 0 <= i < j < |db.votes| ==>
          db.votes[i].requestId != db.votes[j].requestId || db.votes[i].approver != db.votes[j].approver)
  }

  ghost predicate Invariant(rule: VoterRule, db: Db)
  {
    && PoliciesKnown(db)
    && VotesOk(rule, db)
    && forall id :: id in db.requests ==> RequestOk(db, id)
  }

  lemma VotesOfAppended(votes: seq<VoteRow>, v: VoteRow, id: Id)
    ensures VotesOf(votes + [v], id) == VotesOf(votes, id) + if v.requestId == id then [v.decision] else []
  {
  }

  lemma {:induction false} NoVotesYet(votes: seq<VoteRow>, id: Id)
    requires forall i :: 0 <= i < |votes| ==> votes[i].requestId != id
    ensures VotesOf(votes, id) == []
    decreases |votes|
  {
    if votes != [] {
      NoVotesYet(votes[..|votes| - 1], id);
    }
  }

  lemma CreateKeepsInvariant(rule: VoterRule, db: Db, id: Id, policyId: Id, requester: User)
    requires Invariant(rule, db)
    ensures Invariant(rule, AfterCreate(db, id, policyId, requester))
  {
    hide Evaluate, WellFormed, IsIllFormed;
    var after := AfterCreate(db, id, policyId, requester);
    forall k | k in after.requests ensures RequestOk(after, k) {
      if k in db.requests {
        assert RequestOk(db, k);
      } else {
        NoVotesYet(db.votes, k);
        OpenAtFirst(RuleOf(after, k));
        SeatsArePositive(RuleOf(after, k));
      }
    }
  }

  lemma SeatsArePositive(policy: Policy)
    ensures WellFormed(policy) ==> 1 <= Seats(policy)
  {
  }

  lemma VoteKeepsRequest(rule: VoterRule, db: Db, b: Ballot, id: Id)
    requires Invariant(rule, db) && id in db.requests
    ensures RequestOk(AfterVote(rule, db, b), id)
  {
    hide WellFormed, IsIllFormed, Seats, HasVoted, CountRule;
    assert RequestOk(db, id);
    VotesOfAppended(db.votes, VoteRow(b.id, b.approver, b.decision), id);
    if id == b.id && VoteRefusal(rule, db, b).None? {
      RoomForAnother(RuleOf(db, id), VotesOf(db.votes, id));
      IllFormedIsNeverPending(RuleOf(db, id), VotesOf(db.votes, id) + [b.decision]);
      assert Tally(WithVote(db, b), id) == Evaluate(RuleOf(db, id), VotesOf(db.votes, id) + [b.decision]);
    } else {
      assert VotesOf(AfterVote(rule, db, b).votes, id) == VotesOf(db.votes, id);
    }
  }

  /** While the votes leave a request pending, there is a seat for one more. */
  lemma RoomForAnother(policy: Policy, votes: seq<Decision>)
    requires WellFormed(policy) ==> Evaluate(policy, votes) == Ok(Pending)
    ensures WellFormed(policy) ==> |votes| + 1 <= Seats(policy)
  {
    if WellFormed(policy) && |votes| >= Seats(policy) {
      SeatsSuffice(policy, votes);
    }
  }

  lemma VoteKeepsInvariant(rule: VoterRule, db: Db, b: Ballot)
    requires Invariant(rule, db)
    ensures Invariant(rule, AfterVote(rule, db, b))
  {
    hide RequestOk, Tally;
    forall id | id in db.requests ensures RequestOk(AfterVote(rule, db, b), id) {
      VoteKeepsRequest(rule, db, b, id);
    }
  }

  lemma BreakGlassKeepsInvariant(rule: VoterRule, db: Db, id: Id, actor: User, now: int)
    requires Invariant(rule, db)
    ensures Invariant(rule, AfterBreakGlass(db, id, actor, now))
  {
  }

  lemma StepKeepsInvariant(rule: VoterRule, db: Db, step: Step)
    requires Invariant(rule, db)
    ensures Invariant(rule, Apply(rule, db, step))
  {
    hide Evaluate, WellFormed, IsIllFormed, Seats;
    match step
    case NewPolicy(id, row) =>
      forall k | k in db.requests ensures RequestOk(Apply(rule, db, step), k) {
        assert RequestOk(db, k);
      }
    case NewRequest(id, policyId, requester) => CreateKeepsInvariant(rule, db, id, policyId, requester);
    case Vote(b) => VoteKeepsInvariant(rule, db, b);
    case Override(id, actor, now) => BreakGlassKeepsInvariant(rule, db, id, actor, now);
  }

  /** The invariant over whole runs, from any state that has it; the empty database does. */
  lemma {:induction false} RunKeepsInvariant(rule: VoterRule, db: Db, steps: seq<Step>)
    requires Invariant(rule, db)
    ensures Invariant(rule, Run(rule, db, steps))
    ensures Invariant(rule, EMPTY)
    decreases |steps|
  {
    hide RequestOk, Apply;
    if steps != [] {
      StepKeepsInvariant(rule, db, steps[0]);
      RunKeepsInvariant(rule, Apply(rule, db, steps[0]), steps[1..]);
    }
  }

  /**
   A vote that is not refused fails exactly under an unsupported policy. A failing call
   leaves the tables as they were exactly when the vote was refused: otherwise the vote
   stays, the request stays pending, and the same voter is turned away from then on.
  */
  lemma FailedVoteIsExact(rule: VoterRule, db: Db, b: Ballot, again: Ballot)
    requires PoliciesKnown(db)
    ensures VoteRefusal(rule, db, b).None? ==> (VoteOutcome(rule, db, b).Err? <==> RuleOf(db, b.id).quorumType.Unsupported?)
    ensures VoteOutcome(rule, db, b).Err? ==> (AfterVote(rule, db, b) == db <==> VoteRefusal(rule, db, b).Some?)
    ensures VoteOutcome(rule, db, b).Err? && VoteRefusal(rule, db, b).None? && again.id == b.id && again.approver == b.approver ==>
              var after := AfterVote(rule, db, b);
              && VotesOf(after.votes, b.id) == VotesOf(db.votes, b.id) + [b.decision]
              && after.requests == db.requests
              && (again.delegationOk && again.canSign ==> VoteRefusal(rule, after, again) == Some(AlreadyVoted))
  {
    var row := VoteRow(b.id, b.approver, b.decision);
    VotesOfAppended(db.votes, row, b.id);
    assert (db.votes + [row])[|db.votes|] == row;
  }

  /** The answer of a vote that succeeds is the request's status afterwards; nothing else changes but its one vote and its resolution. */
  lemma VoteAnswerIsStored(rule: VoterRule, db: Db, b: Ballot)
    requires PoliciesKnown(db) && VoteOutcome(rule, db, b).Ok?
    ensures var verdict, before, after := VoteOutcome(rule, db, b).value, db.requests[b.id], AfterVote(rule, db, b);
            && b.id in after.requests
            && after.requests[b.id].status == verdict
            && after.requests[b.id] == before.(status := verdict, resolvedAt := if verdict == Pending then before.resolvedAt else Some(b.now))
            && after.requests == db.requests[b.id := after.requests[b.id]]
            && after.policies == db.policies && after.votes == db.votes + [VoteRow(b.id, b.approver, b.decision)]
            && Ok(verdict) == Evaluate(RuleOf(db, b.id), VotesOf(after.votes, b.id))
  {
    hide Evaluate, HasVoted;
  }

  /** What turns a vote away, in the order of the checks. */
  lemma RefusalIsExact(rule: VoterRule, db: Db, b: Ballot)
    ensures var refusal := VoteRefusal(rule, db, b);
            var found := b.id in db.requests && rule(db.requests[b.id].requester, b.approver);
            var voted := exists i :: 0 <= i < |db.votes| && db.votes[i].requestId == b.id && db.votes[i].approver == b.approver;
            && (refusal == Some(RequestNotFound) <==> !found)
            && (found ==> (db.requests[b.id].status != Pending <==> refusal == Some(AlreadyResolved(db.requests[b.id].status))))
            && (found && db.requests[b.id].status == Pending ==>
                  && (refusal == Some(DelegationExpired) <==> !b.delegationOk)
                  && (refusal == Some(SigningFailed) <==> b.delegationOk && !b.canSign)
                  && (refusal == Some(AlreadyVoted) <==> b.delegationOk && b.canSign && voted)
                  && (refusal == None <==> b.delegationOk && b.canSign && !voted))
    ensures PoliciesKnown(db) && VoteRefusal(rule, db, b).Some? ==>
              VoteOutcome(rule, db, b) == Err(VoteRefusal(rule, db, b).value) && AfterVote(rule, db, b) == db
  {
    hide Evaluate;
  }

  /** Break-glass is the requester's, and works on a pending request; anybody else changes nothing. */
  lemma BreakGlassIsExact(db: Db, id: Id, actor: User, now: int)
    ensures var outcome, after := BreakGlassOutcome(db, id, actor), AfterBreakGlass(db, id, actor, now);
            && (outcome == Some(RequestNotFound) <==> id !in db.requests || db.requests[id].requester != actor)
            && (outcome.Some? ==> after == db)
            && (id in db.requests && db.requests[id].requester == actor ==>
                  && (outcome == Some(BreakGlassAlreadyApplied) <==> db.requests[id].breakGlass)
                  && (!db.requests[id].breakGlass && db.requests[id].status != Pending <==> outcome == Some(AlreadyResolved(db.requests[id].status)))
                  && (!db.requests[id].breakGlass && db.requests[id].status == Pending <==> outcome == None))
            && (outcome == None ==>
                  after == db.(requests := db.requests[id :=
                    Request(db.requests[id].policyId, db.requests[id].policyVersion, actor, Approved, Some(now), true, true)]))
  {
  }

  /** A new request: which errors, and what is recorded, the version of the policy included. */
  lemma CreationIsExact(db: Db, id: Id, policyId: Id, requester: User)
    ensures var outcome, after := CreateOutcome(db, id, policyId), AfterCreate(db, id, policyId, requester);
            && (outcome == Some(PolicyNotFound) <==> policyId !in db.policies)
            && (outcome == Some(DuplicateId) <==> policyId in db.policies && id in db.requests)
            && (outcome == None <==> policyId in db.policies && id !in db.requests)
            && (outcome.Some? ==> after == db)
            && (outcome == None ==>
                  after == db.(requests := db.requests[id := Request(policyId, db.policies[policyId].version, requester, Pending, None, false, false)]))
  {
  }

  /** Who asked, under which policy and in which version, stays as it was recorded; so does the policy's rule. */
  lemma {:induction false} SnapshotIsKept(rule: VoterRule, db: Db, steps: seq<Step>, id: Id)
    requires PoliciesKnown(db) && id in db.requests
    ensures var end := Run(rule, db, steps);
            && id in end.requests
            && end.requests[id].requester == db.requests[id].requester
            && end.requests[id].policyId == db.requests[id].policyId
            && end.requests[id].policyVersion == db.requests[id].policyVersion
            && RuleOf(end, id) == RuleOf(db, id)
    decreases |steps|
  {
    if steps != [] {
      PoliciesStayKnown(rule, db, steps[0]);
      StepKeepsSnapshot(rule, db, steps[0], id);
      SnapshotIsKept(rule, Apply(rule, db, steps[0]), steps[1..], id);
    }
  }

  lemma StepKeepsSnapshot(rule: VoterRule, db: Db, step: Step, id: Id)
    requires PoliciesKnown(db) && id in db.requests
    ensures var after := Apply(rule, db, step);
            && id in after.requests
            && after.requests[id].requester == db.requests[id].requester
            && after.requests[id].policyId == db.requests[id].policyId
            && after.requests[id].policyVersion == db.requests[id].policyVersion
            && after.requests[id].policyId in after.policies && RuleOf(after, id) == RuleOf(db, id)
  {
    hide Evaluate, HasVoted;
  }

  /** Resolution is final: whatever happens later, a resolved request keeps its row and its votes. */
  lemma {:induction false} ResolutionIsFinal(rule: VoterRule, db: Db, steps: seq<Step>, id: Id)
    requires PoliciesKnown(db) && id in db.requests && db.requests[id].status != Pending
    ensures var end := Run(rule, db, steps);
            id in end.requests && end.requests[id] == db.requests[id] && VotesOf(end.votes, id) == VotesOf(db.votes, id)
    decreases |steps|
  {
    if steps != [] {
      PoliciesStayKnown(rule, db, steps[0]);
      StepLeavesResolved(rule, db, steps[0], id);
      ResolutionIsFinal(rule, Apply(rule, db, steps[0]), steps[1..], id);
    }
  }

  lemma StepLeavesResolved(rule: VoterRule, db: Db, step: Step, id: Id)
    requires PoliciesKnown(db) && id in db.requests && db.requests[id].status != Pending
    ensures var after := Apply(rule, db, step);
            id in after.requests && after.requests[id] == db.requests[id] && VotesOf(after.votes, id) == VotesOf(db.votes, id)
  {
    hide Evaluate, HasVoted;
    if step.Vote? {
      VotesOfAppended(db.votes, VoteRow(step.ballot.id, step.ballot.approver, step.ballot.decision), id);
    }
  }

  /** The stored status agrees with the votes from the start exactly when the policy is well-formed; nobody checks that. */
  lemma StatusAgreesIffWellFormed(rule: VoterRule, db: Db, id: Id, policyId: Id, requester: User)
    requires Invariant(rule, db) && CreateOutcome(db, id, policyId).None?
    ensures var after := AfterCreate(db, id, policyId, requester);
            after.requests[id].status == Pending && (Tally(after, id) == Ok(after.requests[id].status) <==> WellFormed(db.policies[policyId].rule))
  {
    hide Evaluate, WellFormed;
    NoVotesYet(db.votes, id);
    OpenAtFirst(db.policies[policyId].rule);
  }

  /**
   Over whole runs: unless break-glass set it, a request's status is what its votes call
   for exactly when the policy is supported and is well-formed or has been voted on. An
   ill-formed policy is decided by its first vote, whatever that is.
  */
  lemma StatusAgreesExactly(rule: VoterRule, steps: seq<Step>, id: Id)
    requires id in Run(rule, EMPTY, steps).requests && !Run(rule, EMPTY, steps).requests[id].breakGlass
    ensures var end := Run(rule, EMPTY, steps);
            Tally(end, id) == Ok(end.requests[id].status) <==>
              !RuleOf(end, id).quorumType.Unsupported? && (WellFormed(RuleOf(end, id)) || VotesOf(end.votes, id) != [])
  {
    RunKeepsInvariant(rule, EMPTY, steps);
    hide Run, CountRule;
    var end := Run(rule, EMPTY, steps);
    assert RequestOk(end, id);
    if IsIllFormed(RuleOf(end, id)) {
      IllFormedIsNeverPending(RuleOf(end, id), VotesOf(end.votes, id));
    }
  }

  // ---- the service's own voter rule ------------------------------------------

  lemma {:induction false} AtMostOneVote(votes: seq<VoteRow>, id: Id)
    requires forall i, j :: 0 <= i < j < |votes| ==> votes[i].requestId != id || votes[j].requestId != id
    ensures |VotesOf(votes, id)| <= 1
    decreases |votes|
  {
    if votes != [] {
      var front := votes[..|votes| - 1];
      if votes[|votes| - 1].requestId == id {
        NoVotesYet(front, id);
      } else {
        AtMostOneVote(front, id);
      }
    }
  }

  lemma CountOfAtMostOne(votes: seq<Decision>)
    requires |votes| <= 1
    ensures Count(votes, Approve) <= 1 && Count(votes, Deny) <= 1 && Count(votes, Approve) + Count(votes, Deny) <= 1
  {
  }

  /**
   Only the requester may vote and nobody votes twice, so a request never has more
   than one vote. A policy asking for two or more approvals is then never approved by
   voting: approval implies break-glass, and a denial needs `n == m`.
  */
  lemma OneVoteIsNotAQuorum(steps: seq<Step>, id: Id)
    requires id in Run(OnlyRequester, EMPTY, steps).requests
    ensures var end := Run(OnlyRequester, EMPTY, steps);
            var r, policy := end.requests[id], RuleOf(end, id);
            && |VotesOf(end.votes, id)| <= 1
            && (CountsVotes(policy) && WellFormed(policy) && OrOne(policy.quorumN) >= 2 ==>
                  && (r.status == Approved ==> r.breakGlass && r.needsReview)
                  && (r.status == Denied ==> OrOne(policy.quorumN) == OrOne(policy.quorumM)))
  {
    hide Run;
    RunKeepsInvariant(OnlyRequester, EMPTY, steps);
    var end := Run(OnlyRequester, EMPTY, steps);
    assert RequestOk(end, id);
    AtMostOneVote(end.votes, id);
    CountOfAtMostOne(VotesOf(end.votes, id));
  }
}
