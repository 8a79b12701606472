/**
 Refresh-token families with every service call as one atomic step.

 A token is known by the digest of its raw value, here a number. Random tokens, new
 family ids and the clock are arguments of the calls; a family id is fresh when no row
 has it, as `gen_random_uuid` makes it.
*/
module RefreshTokens {
  import opened Wrappers

  type User = nat
  type Family = nat
  type Hash = nat

  const REFRESH_TOKEN_TTL_MS := 7 * 24 * 60 * 60 * 1000

  datatype Token = Token(hash: Hash, user: User, family: Family, revoked: bool, expiresAt: int)

  datatype Error = InvalidToken | TokenExpired | ReuseDetected | DuplicateHash | SessionNotFound

  // ---- queries -------------------------------------------------------------

  /** `WHERE token_hash = $1`: the row with this digest, or the length when there is none. */
  function Find(rows: seq<Token>, hash: Hash): (i: nat)
    ensures i <= |rows|
    ensures i < |rows| ==> rows[i].hash == hash
    ensures forall j :: 0 <= j < i ==> rows[j].hash != hash
  {
    if rows == [] || rows[0].hash == hash then 0 else 1 + Find(rows[1..], hash)
  }

  function Revoke(t: Token): Token { t.(revoked := true) }

  /** `UPDATE … SET revoked = true WHERE id = $1` */
  function RevokeOne(rows: seq<Token>, i: nat): (r: seq<Token>)
    requires i < |rows|
    ensures |r| == |rows|
  {
    rows[i := Revoke(rows[i])]
  }

  /** `UPDATE … SET revoked = true WHERE family_id = $1` */
  function RevokeFamily(rows: seq<Token>, family: Family): (r: seq<Token>)
    ensures |r| == |rows|
  {
    seq(|rows|, i requires 0 <= i < |rows| => if rows[i].family == family then Revoke(rows[i]) else rows[i])
  }

  /** `UPDATE … WHERE family_id = $1 AND user_id = $2 AND revoked = false` */
  function RevokeOwned(rows: seq<Token>, user: User, family: Family): (r: seq<Token>)
    ensures |r| == |rows|
  {
    seq(|rows|, i requires 0 <= i < |rows| => if rows[i].family == family && rows[i].user == user then Revoke(rows[i]) else rows[i])
  }

  function NewToken(hash: Hash, user: User, family: Family, now: int): Token
  {
    Token(hash, user, family, false, now + REFRESH_TOKEN_TTL_MS)
  }

  /** The insert fails on the unique `token_hash`. */
  function Insert(rows: seq<Token>, t: Token): Option<seq<Token>>
  {
    if Find(rows, t.hash) < |rows| then None else Some(rows + [t])
  }

  // ---- calls ---------------------------------------------------------------

  datatype Call =
    | Issue(user: User, family: Family, hash: Hash, now: int)
    | Rotate(presented: Hash, newHash: Hash, now: int)
    | DeleteFamily(user: User, family: Family)

  function RotateOutcome(rows: seq<Token>, presented: Hash, newHash: Hash, now: int): Option<Error>
  {
    var i := Find(rows, presented);
    if i == |rows| then Some(InvalidToken)
    else if rows[i].expiresAt < now then Some(TokenExpired)
    else if rows[i].revoked then Some(ReuseDetected)
    else if Find(rows, newHash) < |rows| then Some(DuplicateHash)
    else None
  }

  /** No transaction: when the insert fails the presented token stays revoked. */
  function AfterRotate(rows: seq<Token>, presented: Hash, newHash: Hash, now: int): seq<Token>
  {
    var i := Find(rows, presented);
    if i == |rows| || rows[i].expiresAt < now then rows
    else if rows[i].revoked then RevokeFamily(rows, rows[i].family)
    else
      var spent := RevokeOne(rows, i);
      match Insert(spent, NewToken(newHash, rows[i].user, rows[i].family, now))
      case None => spent
      case Some(longer) => longer
  }

  function AfterIssue(rows: seq<Token>, user: User, family: Family, hash: Hash, now: int): seq<Token>
  {
    match Insert(rows, NewToken(hash, user, family, now))
    case None => rows
    case Some(longer) => longer
  }

  function Apply(rows: seq<Token>, call: Call): seq<Token>
  {
    match call
    case Issue(user, family, hash, now) => AfterIssue(rows, user, family, hash, now)
    case Rotate(presented, newHash, now) => AfterRotate(rows, presented, newHash, now)
    case DeleteFamily(user, family) => RevokeOwned(rows, user, family)
  }

  function Run(rows: seq<Token>, calls: seq<Call>): seq<Token>
    decreases |calls|
  {
    if calls == [] then rows else Run(Apply(rows, calls[0]), calls[1..])
  }

  class RefreshTokenTable {
    var rows: seq<Token>

    constructor ()
      ensures rows == []
    {
      rows := [];
    }

    method IssueRefreshToken(user: User, family: Family, hash: Hash, now: int) returns (error: Option<Error>)
      modifies this
      ensures rows == AfterIssue(old(rows), user, family, hash, now)
      ensures error == if Find(old(rows), hash) < |old(rows)| then Some(DuplicateHash) else None
    {
      var inserted := Insert(rows, NewToken(hash, user, family, now));
      if inserted.None? {
        return Some(DuplicateHash);
      }
      rows := inserted.value;
      error := None;
    }

    method RotateRefreshToken(presented: Hash, newHash: Hash, now: int) returns (error: Option<Error>)
      modifies this
      ensures rows == AfterRotate(old(rows), presented, newHash, now)
      ensures error == RotateOutcome(old(rows), presented, newHash, now)
    {
      var id := Find(rows, presented);
      if id == |rows| {
        return Some(InvalidToken);
      }
      var Token(_, userId, familyId, revoked, expiresAt) := rows[id];
      if expiresAt < now {
        return Some(TokenExpired);
      }
      if revoked {
        rows := RevokeFamily(rows, familyId);
        return Some(ReuseDetected);
      }
      FindAfterRevoke(rows, id, newHash);
      rows := RevokeOne(rows, id);
      error := IssueRefreshToken(userId, familyId, newHash, now);
    }

    method DeleteSession(user: User, family: Family) returns (error: Option<Error>)
      modifies this
      ensures rows == RevokeOwned(old(rows), user, family)
      ensures error == if exists i :: 0 <= i < |old(rows)| && IsLiveOf(old(rows)[i], user, family) then None else Some(SessionNotFound)
    {
      var updated := RevokeOwned(rows, user, family);
      OwnedIsUntouched(rows, user, family);
      error := if updated == rows then Some(SessionNotFound) else None;
      rows := updated;
    }
  }

  predicate IsLiveOf(t: Token, user: User, family: Family) { t.user == user && t.family == family && !t.revoked }

  lemma OwnedIsUntouched(rows: seq<Token>, user: User, family: Family)
    ensures RevokeOwned(rows, user, family) != rows <==> exists i :: 0 <= i < |rows| && IsLiveOf(rows[i], user, family)
  {
    var owned := RevokeOwned(rows, user, family);
    assert owned == rows <==> forall j :: 0 <= j < |rows| ==> owned[j] == rows[j];
  }

  lemma {:induction false} FindAfterRevoke(rows: seq<Token>, i: nat, hash: Hash)
    requires i < |rows|
    ensures Find(RevokeOne(rows, i), hash) == Find(rows, hash)
  {
    var a, b := Find(rows, hash), Find(RevokeOne(rows, i), hash);
    assert forall j :: 0 <= j < |rows| ==> RevokeOne(rows, i)[j].hash == rows[j].hash;
  }

  // ---- what every run keeps ------------------------------------------------

  predicate HasFamily(rows: seq<Token>, family: Family) { exists i :: 0 <= i < |rows| && rows[i].family == family }

  /** No token of the family can be rotated any more. */
  predicate Dead(rows: seq<Token>, family: Family)
  {
    forall i :: 0 <= i < |rows| && rows[i].family == family ==> rows[i].revoked
  }

  /** A family belongs to one user and all its tokens but the newest are revoked. */
  predicate IsChain(rows: seq<Token>)
  {
    forall i, j :: 0 <= i < j < |rows| && rows[i].family == rows[j].family ==> rows[i].revoked && rows[i].user == rows[j].user
  }

  /** Digests are unique and a new session gets a family id nobody has. */
  predicate IsFresh(rows: seq<Token>, call: Call)
  {
    call.Issue? ==> !HasFamily(rows, call.family)
  }

  predicate AllFresh(rows: seq<Token>, calls: seq<Call>)
    decreases |calls|
  {
    calls == [] || (IsFresh(rows, calls[0]) && AllFresh(Apply(rows, calls[0]), calls[1..]))
  }

  lemma CallKeepsChain(rows: seq<Token>, call: Call)
    requires IsChain(rows) && IsFresh(rows, call)
    ensures IsChain(Apply(rows, call))
  {
    hide Find;
  }

  lemma {:induction false} RunKeepsChain(rows: seq<Token>, calls: seq<Call>)
    requires IsChain(rows) && AllFresh(rows, calls)
    ensures IsChain(Run(rows, calls))
    decreases |calls|
  {
    hide Apply, IsChain, IsFresh;
    if calls != [] {
      CallKeepsChain(rows, calls[0]);
      RunKeepsChain(Apply(rows, calls[0]), calls[1..]);
    }
  }

  /** At any time a family has at most one token that can still be rotated. */
  lemma OneLiveToken(calls: seq<Call>, i: nat, j: nat)
    requires AllFresh([], calls)
    requires i < |Run([], calls)| && j < |Run([], calls)|
    ensures var rows := Run([], calls);
            rows[i].family == rows[j].family && !rows[i].revoked && !rows[j].revoked ==> i == j
  {
    hide Run, AllFresh;
    RunKeepsChain([], calls);
  }

  lemma DeadStaysDead(rows: seq<Token>, call: Call, family: Family)
    requires HasFamily(rows, family) && Dead(rows, family) && IsFresh(rows, call)
    ensures HasFamily(Apply(rows, call), family) && Dead(Apply(rows, call), family)
  {
    hide Find;
    var k :| 0 <= k < |rows| && rows[k].family == family;
    assert Apply(rows, call)[k].family == family;
  }

  /** A family without live tokens never has one again. */
  lemma {:induction false} DeadForever(rows: seq<Token>, calls: seq<Call>, family: Family)
    requires HasFamily(rows, family) && Dead(rows, family) && AllFresh(rows, calls)
    ensures Dead(Run(rows, calls), family)
    decreases |calls|
  {
    hide Apply, HasFamily, Dead, IsFresh;
    if calls != [] {
      DeadStaysDead(rows, calls[0], family);
      DeadForever(Apply(rows, calls[0]), calls[1..], family);
    }
  }

  /**
   Reuse detection, exactly. Presenting a revoked token ends its family for good if and
   only if that token has not expired yet; the expiry check comes first, so an expired one
   leaves the family as it was.
  */
  lemma ReuseKillsFamily(rows: seq<Token>, presented: Hash, newHash: Hash, now: int, later: seq<Call>)
    requires Find(rows, presented) < |rows| && rows[Find(rows, presented)].revoked
    requires AllFresh(AfterRotate(rows, presented, newHash, now), later)
    ensures var t := rows[Find(rows, presented)];
            var after := AfterRotate(rows, presented, newHash, now);
            && (Dead(after, t.family) <==> now <= t.expiresAt || Dead(rows, t.family))
            && (now <= t.expiresAt ==> RotateOutcome(rows, presented, newHash, now) == Some(ReuseDetected) && Dead(Run(after, later), t.family))
            && (t.expiresAt < now ==> RotateOutcome(rows, presented, newHash, now) == Some(TokenExpired) && after == rows)
  {
    hide Find, Run, AllFresh;
    var i := Find(rows, presented);
    var after := AfterRotate(rows, presented, newHash, now);
    if now <= rows[i].expiresAt {
      assert after[i].family == rows[i].family;
      DeadForever(after, later, rows[i].family);
    }
  }

  /** A token replayed after its expiry leaves its successor alive, however the session came about. */
  lemma ExpiredReplayIsHarmless(user: User, family: Family, first: Hash, second: Hash, third: Hash, issued: int, rotated: int, replayed: int)
    requires first != second && rotated <= issued + REFRESH_TOKEN_TTL_MS < replayed
    ensures var calls := [Issue(user, family, first, issued), Rotate(first, second, rotated), Rotate(first, third, replayed)];
            && AllFresh([], calls)
            && Run([], calls) == [Revoke(NewToken(first, user, family, issued)), NewToken(second, user, family, rotated)]
            && !Dead(Run([], calls), family)
  {
    var issue, rotate, replay := Issue(user, family, first, issued), Rotate(first, second, rotated), Rotate(first, third, replayed);
    var one, two := NewToken(first, user, family, issued), NewToken(second, user, family, rotated);
    assert [issue, rotate, replay][1..] == [rotate, replay] && [rotate, replay][1..] == [replay] && [replay][1..] == [];
    assert Apply([], issue) == [one];
    assert Apply([one], rotate) == [Revoke(one), two];
    assert Apply([Revoke(one), two], replay) == [Revoke(one), two];
    hide Apply;
    assert Run([Revoke(one), two], [replay]) == [Revoke(one), two] && AllFresh([Revoke(one), two], [replay]);
    assert Run([one], [rotate, replay]) == [Revoke(one), two] && AllFresh([one], [rotate, replay]);
    var end := [Revoke(one), two];
    assert end[1] == two;
  }

  /** The owner of a family can end it for good; nobody else's request touches it. */
  lemma DeleteEndsSession(rows: seq<Token>, user: User, family: Family, i: nat, later: seq<Call>)
    requires IsChain(rows) && i < |rows| && rows[i].family == family
    requires AllFresh(RevokeOwned(rows, user, family), later)
    ensures rows[i].user == user ==> Dead(Run(RevokeOwned(rows, user, family), later), family)
    ensures rows[i].user != user ==> RevokeOwned(rows, user, family) == rows
  {
    hide Run, AllFresh;
    var after := RevokeOwned(rows, user, family);
    assert forall j :: 0 <= j < |rows| && rows[j].family == family ==> rows[j].user == rows[i].user;
    assert after[i].family == family;
    if rows[i].user == user {
      DeadForever(after, later, family);
    }
  }

  /** A successful rotation spends the presented token and leaves exactly its successor alive. */
  lemma RotationPassesTheBaton(rows: seq<Token>, presented: Hash, newHash: Hash, now: int)
    requires IsChain(rows) && RotateOutcome(rows, presented, newHash, now).None?
    ensures var i, after := Find(rows, presented), AfterRotate(rows, presented, newHash, now);
            && |after| == |rows| + 1
            && after[|rows|] == Token(newHash, rows[i].user, rows[i].family, false, now + REFRESH_TOKEN_TTL_MS)
            && after[i].revoked
            && forall j :: 0 <= j < |after| && after[j].family == rows[i].family && !after[j].revoked ==> j == |rows|
  {
  }

  // ---- answers and lifetimes -------------------------------------------------

  predicate Known(rows: seq<Token>, hash: Hash) { exists i :: 0 <= i < |rows| && rows[i].hash == hash }

  /** Every answer of a rotation. A token is known by its digest alone; it expires seven days after it was issued, to the millisecond. */
  lemma RotationIsExact(rows: seq<Token>, presented: Hash, newHash: Hash, now: int)
    ensures var i, r := Find(rows, presented), RotateOutcome(rows, presented, newHash, now);
            && (r == Some(InvalidToken) <==> !Known(rows, presented))
            && (Known(rows, presented) ==>
                  && i < |rows| && rows[i].hash == presented
                  && (r == Some(TokenExpired) <==> rows[i].expiresAt < now)
                  && (r == Some(ReuseDetected) <==> now <= rows[i].expiresAt && rows[i].revoked)
                  && (r == Some(DuplicateHash) <==> now <= rows[i].expiresAt && !rows[i].revoked && Known(rows, newHash))
                  && (r == None <==> now <= rows[i].expiresAt && !rows[i].revoked && !Known(rows, newHash)))
            && (r in {Some(InvalidToken), Some(TokenExpired)} ==> AfterRotate(rows, presented, newHash, now) == rows)
  {
    if Known(rows, presented) {
      var k :| 0 <= k < |rows| && rows[k].hash == presented;
    }
    if Known(rows, newHash) {
      var k :| 0 <= k < |rows| && rows[k].hash == newHash;
    }
  }

  /** A token issued at `made`, by a login or by a rotation, can be rotated until seven days later and no longer. */
  lemma LifetimeIsExact(rows: seq<Token>, user: User, family: Family, hash: Hash, made: int, newHash: Hash, now: int)
    requires !Known(rows, hash) && !Known(rows, newHash) && newHash != hash
    ensures var issued := AfterIssue(rows, user, family, hash, made);
            && issued == rows + [Token(hash, user, family, false, made + 604_800_000)]
            && (RotateOutcome(issued, hash, newHash, now) == None <==> now - made <= 604_800_000)
            && (now - made > 604_800_000 ==>
                  RotateOutcome(issued, hash, newHash, now) == Some(TokenExpired) && AfterRotate(issued, hash, newHash, now) == issued)
  {
    NewestIsFound(rows, NewToken(hash, user, family, made), newHash);
  }

  lemma NewestIsFound(rows: seq<Token>, t: Token, other: Hash)
    requires !Known(rows, t.hash) && !Known(rows, other) && other != t.hash
    ensures Find(rows, t.hash) == |rows| && Find(rows, other) == |rows|
    ensures Find(rows + [t], t.hash) == |rows| && Find(rows + [t], other) == |rows| + 1
  {
    var all := rows + [t];
    assert forall i :: 0 <= i < |rows| ==> all[i] == rows[i];
    assert all[|rows|] == t;
    assert Find(rows, t.hash) == |rows| && Find(rows, other) == |rows|;
    var i, j := Find(all, t.hash), Find(all, other);
    assert i < |rows| ==> Known(rows, t.hash);
    assert j < |rows| ==> Known(rows, other);
  }

  /** What a successful rotation leaves: the presented token revoked, one new token of the same user and family that lives seven days from now, and every other row as it was. */
  lemma SuccessorIsExact(rows: seq<Token>, presented: Hash, newHash: Hash, now: int, newer: Hash, later: int)
    requires RotateOutcome(rows, presented, newHash, now) == None
    requires !Known(rows, newer) && newer != newHash
    ensures var i, after := Find(rows, presented), AfterRotate(rows, presented, newHash, now);
            && after == rows[i := rows[i].(revoked := true)] + [Token(newHash, rows[i].user, rows[i].family, false, now + 604_800_000)]
            && (RotateOutcome(after, newHash, newer, later) == None <==> later - now <= 604_800_000)
            && (later - now > 604_800_000 ==>
                  RotateOutcome(after, newHash, newer, later) == Some(TokenExpired) && AfterRotate(after, newHash, newer, later) == after)
  {
    var i := Find(rows, presented);
    var spent := RevokeOne(rows, i);
    FindAfterRevoke(rows, i, newHash);
    assert forall k :: 0 <= k < |rows| ==> spent[k].hash == rows[k].hash;
    RotationIsExact(rows, presented, newHash, now);
    LifetimeIsExact(spent, rows[i].user, rows[i].family, newHash, now, newer, later);
  }

  /** Killing and deleting reach exactly the rows they should: the family's, and the owner's of that family. */
  lemma RevocationIsExact(rows: seq<Token>, presented: Hash, newHash: Hash, now: int, user: User, family: Family, k: nat)
    requires k < |rows|
    ensures RotateOutcome(rows, presented, newHash, now) == Some(ReuseDetected) ==>
              var after := AfterRotate(rows, presented, newHash, now);
              && |after| == |rows|
              && after[k] == if rows[k].family == rows[Find(rows, presented)].family then rows[k].(revoked := true) else rows[k]
    ensures RotateOutcome(rows, presented, newHash, now) == Some(DuplicateHash) ==>
              AfterRotate(rows, presented, newHash, now) == rows[Find(rows, presented) := rows[Find(rows, presented)].(revoked := true)]
    ensures |RevokeOwned(rows, user, family)| == |rows|
    ensures RevokeOwned(rows, user, family)[k] ==
              if rows[k].family == family && rows[k].user == user then rows[k].(revoked := true) else rows[k]
    ensures Known(rows, newHash) ==> forall made :: AfterIssue(rows, user, family, newHash, made) == rows
  {
    var i := Find(rows, presented);
    if i < |rows| { FindAfterRevoke(rows, i, newHash); }
    if Known(rows, newHash) {
      var j :| 0 <= j < |rows| && rows[j].hash == newHash;
    }
  }
}
