/**
 The same token table when calls overlap: every query of a rotation is its own step,
 and queries of any number of calls interleave freely.

 `parents[i]` records which token row `i` succeeded; it is bookkeeping of the model.
*/
module RotationRace {
  import opened Wrappers
  import opened RefreshTokens

  type CallId = nat

  /** Where a rotation stands between two of its queries. */
  datatype Phase =
    | Revoking(id: nat)       // read a live token, about to revoke it
    | Killing(family: Family) // read a revoked token, about to revoke the family
    | Inserting(id: nat)      // revoked its token, about to insert the successor
    | Done(successor: nat)
    | Failed(error: Error)

  datatype State = State(rows: seq<Token>, parents: seq<Option<nat>>, calls: map<CallId, Phase>)

  datatype Step =
    | Login(user: User, family: Family, hash: Hash, now: int)
    | Read(call: CallId, presented: Hash, now: int)
    | Write(call: CallId, newHash: Hash, now: int)
    | Delete(user: User, family: Family)

  function AfterRead(rows: seq<Token>, presented: Hash, now: int): Phase
  {
    var i := Find(rows, presented);
    if i == |rows| then Failed(InvalidToken)
    else if rows[i].expiresAt < now then Failed(TokenExpired)
    else if rows[i].revoked then Killing(rows[i].family)
    else Revoking(i)
  }

  /** The next writing query of a call that has read. */
  function AfterWrite(st: State, call: CallId, newHash: Hash, now: int): State
    requires call in st.calls
  {
    match st.calls[call]
    case Revoking(id) =>
      if id < |st.rows| then st.(rows := RevokeOne(st.rows, id), calls := st.calls[call := Inserting(id)]) else st
    case Killing(family) => st.(rows := RevokeFamily(st.rows, family), calls := st.calls[call := Failed(ReuseDetected)])
    case Inserting(id) =>
      if |st.rows| <= id then st else
      (match Insert(st.rows, NewToken(newHash, st.rows[id].user, st.rows[id].family, now))
       case None => st.(calls := st.calls[call := Failed(DuplicateHash)])
       case Some(longer) => State(longer, st.parents + [Some(id)], st.calls[call := Done(|st.rows|)]))
    case _ => st
  }

  function Apply(st: State, step: Step): State
  {
    match step
    case Login(user, family, hash, now) =>
      (match Insert(st.rows, NewToken(hash, user, family, now))
       case None => st
       case Some(longer) => st.(rows := longer, parents := st.parents + [None]))
    case Read(call, presented, now) =>
      if call in st.calls then st else st.(calls := st.calls[call := AfterRead(st.rows, presented, now)])
    case Write(call, newHash, now) =>
      if call !in st.calls then st else AfterWrite(st, call, newHash, now)
    case Delete(user, family) => st.(rows := RevokeOwned(st.rows, user, family))
  }

  function Run(st: State, steps: seq<Step>): State
    decreases |steps|
  {
    if steps == [] then st else Run(Apply(st, steps[0]), steps[1..])
  }

  predicate IsFresh(st: State, step: Step) { step.Login? ==> !HasFamily(st.rows, step.family) }

  predicate AllFresh(st: State, steps: seq<Step>)
    decreases |steps|
  {
    steps == [] || (IsFresh(st, steps[0]) && AllFresh(Apply(st, steps[0]), steps[1..]))
  }

  const START := State([], [], map[])

  // ---- nothing is undone -----------------------------------------------------

  /** Rows are only added, keep everything but `revoked`, and `revoked` is only ever set. */
  predicate Grows(before: seq<Token>, after: seq<Token>)
  {
    && |before| <= |after|
    && forall i :: 0 <= i < |before| ==> after[i] == before[i] || after[i] == Revoke(before[i])
  }

  lemma StepGrows(st: State, step: Step)
    ensures Grows(st.rows, Apply(st, step).rows)
  {
  }

  /** Over any interleaving a revocation is never undone and no token changes hands. */
  lemma {:induction false} RunGrows(st: State, steps: seq<Step>)
    ensures Grows(st.rows, Run(st, steps).rows)
    decreases |steps|
  {
    hide Apply;
    if steps != [] {
      StepGrows(st, steps[0]);
      RunGrows(Apply(st, steps[0]), steps[1..]);
    }
  }

  // ---- successors ------------------------------------------------------------

  /** A successor's token is older, spent, and of the same user and family. */
  predicate IsSuccession(rows: seq<Token>, child: nat, parent: nat)
    requires child < |rows|
  {
    parent < child && rows[parent].revoked && rows[parent].user == rows[child].user && rows[parent].family == rows[child].family
  }

  predicate PhaseOk(st: State, phase: Phase)
    requires |st.parents| == |st.rows|
  {
    match phase
    case Revoking(id) => id < |st.rows|
    case Inserting(id) => id < |st.rows| && st.rows[id].revoked
    case Done(successor) => successor < |st.rows| && st.parents[successor].Some?
    case _ => true
  }

  predicate Sound(st: State)
  {
    && |st.parents| == |st.rows|
    && (forall i :: 0 <= i < |st.rows| && st.parents[i].Some? ==> IsSuccession(st.rows, i, st.parents[i].value))
    && (forall c :: c in st.calls ==> PhaseOk(st, st.calls[c]))
  }

  lemma StepIsSound(st: State, step: Step)
    requires Sound(st)
    ensures Sound(Apply(st, step))
  {
    hide Find;
    StepGrows(st, step);
  }

  /** Any token with a successor is revoked, and successors keep user and family, under every interleaving. */
  lemma {:induction false} RunIsSound(st: State, steps: seq<Step>)
    requires Sound(st)
    ensures Sound(Run(st, steps))
    ensures Sound(START)
    decreases |steps|
  {
    hide Apply, Sound;
    assert Sound(START) by { StartIsSound(); }
    if steps != [] {
      StepIsSound(st, steps[0]);
      RunIsSound(Apply(st, steps[0]), steps[1..]);
    }
  }

  lemma StartIsSound()
    ensures Sound(START) && Counted(START)
  {
  }

  // ---- counting --------------------------------------------------------------

  function TokensIn(rows: seq<Token>, family: Family): nat
  {
    if rows == [] then 0 else
    var last := rows[|rows| - 1];
    TokensIn(rows[..|rows| - 1], family) + if last.family == family then 1 else 0
  }

  function SuccessorsIn(rows: seq<Token>, parents: seq<Option<nat>>, family: Family): nat
    requires |parents| == |rows|
  {
    if rows == [] then 0 else
    var n := |rows| - 1;
    SuccessorsIn(rows[..n], parents[..n], family) + if rows[n].family == family && parents[n].Some? then 1 else 0
  }

  /** A family that exists has one token from its login and one per successor inserted. */
  ghost predicate Counted(st: State)
  {
    && |st.parents| == |st.rows|
    && forall family :: TokensIn(st.rows, family) ==
         SuccessorsIn(st.rows, st.parents, family) + if HasFamily(st.rows, family) then 1 else 0
  }

  lemma {:induction false} SameCounts(a: seq<Token>, b: seq<Token>, parents: seq<Option<nat>>, family: Family)
    requires |a| == |b| == |parents| && forall i :: 0 <= i < |a| ==> a[i].family == b[i].family
    ensures TokensIn(a, family) == TokensIn(b, family)
    ensures SuccessorsIn(a, parents, family) == SuccessorsIn(b, parents, family)
    ensures HasFamily(a, family) <==> HasFamily(b, family)
    decreases |a|
  {
    if a != [] {
      SameCounts(a[..|a| - 1], b[..|a| - 1], parents[..|a| - 1], family);
    }
    if HasFamily(a, family) {
      var i :| 0 <= i < |a| && a[i].family == family;
      assert b[i].family == family;
    }
    if HasFamily(b, family) {
      var i :| 0 <= i < |b| && b[i].family == family;
      assert a[i].family == family;
    }
  }

  lemma CountsAppended(rows: seq<Token>, parents: seq<Option<nat>>, t: Token, parent: Option<nat>, family: Family)
    requires |parents| == |rows|
    ensures TokensIn(rows + [t], family) == TokensIn(rows, family) + if t.family == family then 1 else 0
    ensures SuccessorsIn(rows + [t], parents + [parent], family) ==
              SuccessorsIn(rows, parents, family) + if t.family == family && parent.Some? then 1 else 0
    ensures HasFamily(rows + [t], family) <==> HasFamily(rows, family) || t.family == family
  {
  }

  lemma StepIsCounted(st: State, step: Step)
    requires Sound(st) && Counted(st) && IsFresh(st, step)
    ensures Counted(Apply(st, step))
  {
    hide Find, TokensIn, SuccessorsIn, HasFamily;
    var after := Apply(st, step);
    StepGrows(st, step);
    forall family
      ensures |after.parents| == |after.rows|
      ensures TokensIn(after.rows, family) == SuccessorsIn(after.rows, after.parents, family) + if HasFamily(after.rows, family) then 1 else 0
    {
      if |after.rows| == |st.rows| {
        SameCounts(st.rows, after.rows, st.parents, family);
      } else {
        var n := |st.rows|;
        assert after.rows == st.rows + [after.rows[n]] && after.parents == st.parents + [after.parents[n]];
        CountsAppended(st.rows, st.parents, after.rows[n], after.parents[n], family);
        if step.Write? {
          Witness(st.rows, st.calls[step.call].id);
        }
      }
    }
  }

  lemma Witness(rows: seq<Token>, i: nat)
    requires i < |rows|
    ensures HasFamily(rows, rows[i].family)
  {
  }

  /** The count over every interleaving, however many rotations overlap. */
  lemma {:induction false} RunIsCounted(st: State, steps: seq<Step>)
    requires Sound(st) && Counted(st) && AllFresh(st, steps)
    ensures Counted(Run(st, steps))
    decreases |steps|
  {
    hide Apply, Sound, Counted, IsFresh;
    if steps != [] {
      StepIsSound(st, steps[0]);
      StepIsCounted(st, steps[0]);
      RunIsCounted(Apply(st, steps[0]), steps[1..]);
    }
  }

  // ---- successors and the calls that made them ---------------------------------

  /** Rows with a predecessor and rotations that came to an end with a token correspond one to one. */
  ghost predicate Booked(st: State)
  {
    && (forall c, d :: c in st.calls && d in st.calls && c != d && st.calls[c].Done? ==> st.calls[c] != st.calls[d])
    && (forall i :: 0 <= i < |st.parents| && st.parents[i].Some? ==> Done(i) in st.calls.Values)
    && (forall c :: c in st.calls && st.calls[c].Done? ==> IsSuccessor(st.parents, st.calls[c].successor))
  }

  predicate IsSuccessor(parents: seq<Option<nat>>, i: nat) { i < |parents| && parents[i].Some? }

  lemma StepIsBooked(st: State, step: Step)
    requires Sound(st) && Booked(st)
    ensures Booked(Apply(st, step))
  {
    assert |st.parents| == |st.rows|;
    hide Find, Sound, Booked, RevokeOne, RevokeFamily, RevokeOwned;
    var after := Apply(st, step);
    match step
    case Login(_, _, _, _) => PhaseKeepsBooks(st, after, 0);
    case Read(call, _, _) => PhaseKeepsBooks(st, after, call);
    case Delete(_, _) => PhaseKeepsBooks(st, after, 0);
    case Write(call, _, _) =>
      if |after.parents| == |st.parents| {
        PhaseKeepsBooks(st, after, call);
      } else {
        SuccessorIsBooked(st, after, call);
      }
  }

  lemma PhaseKeepsBooks(st: State, after: State, call: CallId)
    requires Booked(st) && (after.parents == st.parents || after.parents == st.parents + [None])
    requires after.calls == st.calls ||
             (call in after.calls && after.calls == st.calls[call := after.calls[call]] && !after.calls[call].Done? && (call in st.calls ==> !st.calls[call].Done?))
    ensures Booked(after)
  {
    forall i | 0 <= i < |after.parents| && after.parents[i].Some? ensures Done(i) in after.calls.Values {
      var c :| c in st.calls && st.calls[c] == Done(i);
      assert after.calls[c] == Done(i);
    }
  }

  lemma SuccessorIsBooked(st: State, after: State, call: CallId)
    requires Booked(st) && |after.parents| == |st.parents| + 1 && after.parents[..|st.parents|] == st.parents && after.parents[|st.parents|].Some?
    requires call in st.calls && !st.calls[call].Done? && after.calls == st.calls[call := Done(|st.parents|)]
    ensures Booked(after)
  {
    forall i | 0 <= i < |after.parents| && after.parents[i].Some? ensures Done(i) in after.calls.Values {
      if i < |st.parents| {
        assert st.parents[i] == after.parents[i];
        var c :| c in st.calls && st.calls[c] == Done(i);
        assert after.calls[c] == Done(i);
      } else {
        assert after.calls[call] == Done(i);
      }
    }
    assert forall i :: 0 <= i < |st.parents| ==> after.parents[i] == st.parents[i];
  }

  /** Under every interleaving each successor was inserted by one rotation, and each rotation that was answered with a token inserted one. */
  lemma {:induction false} RunIsBooked(st: State, steps: seq<Step>)
    requires Sound(st) && Booked(st)
    ensures Booked(Run(st, steps))
    ensures Booked(START)
    decreases |steps|
  {
    hide Apply, Sound;
    if steps != [] {
      hide Booked;
      StepIsSound(st, steps[0]);
      StepIsBooked(st, steps[0]);
      RunIsBooked(Apply(st, steps[0]), steps[1..]);
    }
  }

  // ---- a spent token yields nothing ------------------------------------------

  predicate Hopeless(phase: Phase) { phase.Killing? || phase.Failed? }

  lemma {:induction false} HopelessForever(st: State, steps: seq<Step>, call: CallId)
    requires call in st.calls && Hopeless(st.calls[call])
    ensures call in Run(st, steps).calls && Hopeless(Run(st, steps).calls[call])
    decreases |steps|
  {
    if steps != [] {
      HopelessForever(Apply(st, steps[0]), steps[1..], call);
    }
  }

  /** A rotation that reads its token after the token was revoked never yields a successor, whatever else goes on. */
  lemma LateReadYieldsNothing(st: State, call: CallId, presented: Hash, now: int, steps: seq<Step>)
    requires call !in st.calls
    requires Find(st.rows, presented) < |st.rows| && st.rows[Find(st.rows, presented)].revoked
    ensures var end := Run(Apply(st, Read(call, presented, now)), steps);
            call in end.calls && !end.calls[call].Done?
  {
    hide Find, Run;
    HopelessForever(Apply(st, Read(call, presented, now)), steps, call);
  }

  // ---- when a dead family comes back ------------------------------------------

  /** Some rotation of the family has read a live token and not inserted the successor yet. */
  predicate InFlight(st: State, family: Family)
  {
    exists c :: c in st.calls && IsPending(st, st.calls[c], family)
  }

  predicate IsPending(st: State, phase: Phase, family: Family)
  {
    (phase.Revoking? || phase.Inserting?) && phase.id < |st.rows| && st.rows[phase.id].family == family
  }

  predicate Quiet(st: State, family: Family)
  {
    HasFamily(st.rows, family) && Dead(st.rows, family) && !InFlight(st, family)
  }

  lemma QuietStaysQuiet(st: State, step: Step, family: Family)
    requires Sound(st) && Quiet(st, family) && IsFresh(st, step)
    ensures Quiet(Apply(st, step), family)
  {
    var after := Apply(st, step);
    StepGrows(st, step);
    StepIsSound(st, step);
    var k :| 0 <= k < |st.rows| && st.rows[k].family == family;
    assert after.rows[k].family == family;
    StepKeepsDead(st, step, family);
    forall c | c in after.calls ensures !IsPending(after, after.calls[c], family) {
      NoNewPending(st, step, family, c);
    }
  }

  lemma StepKeepsDead(st: State, step: Step, family: Family)
    requires Sound(st) && Quiet(st, family) && IsFresh(st, step)
    ensures Dead(Apply(st, step).rows, family)
  {
  }

  lemma NoNewPending(st: State, step: Step, family: Family, c: CallId)
    requires Sound(st) && Quiet(st, family) && c in Apply(st, step).calls
    ensures !IsPending(Apply(st, step), Apply(st, step).calls[c], family)
  {
  }

  lemma {:induction false} QuietForever(st: State, steps: seq<Step>, family: Family)
    requires Sound(st) && Quiet(st, family) && AllFresh(st, steps)
    ensures Dead(Run(st, steps).rows, family)
    decreases |steps|
  {
    hide Apply, Sound, IsFresh, InFlight, Dead, HasFamily;
    if steps != [] {
      StepIsSound(st, steps[0]);
      QuietStaysQuiet(st, steps[0], family);
      QuietForever(Apply(st, steps[0]), steps[1..], family);
    }
  }

  lemma {:induction false} UnusedHash(rows: seq<Token>) returns (hash: Hash)
    ensures forall i :: 0 <= i < |rows| ==> rows[i].hash < hash
  {
    if rows == [] {
      hash := 0;
    } else {
      var h := UnusedHash(rows[1..]);
      hash := if h <= rows[0].hash then rows[0].hash + 1 else h;
    }
  }

  /** The rest of one pending rotation, uninterrupted, leaves its successor live. */
  lemma FinishPending(st: State, c: CallId, family: Family) returns (steps: seq<Step>)
    requires Sound(st) && c in st.calls && IsPending(st, st.calls[c], family)
    ensures AllFresh(st, steps) && !Dead(Run(st, steps).rows, family)
  {
    var hash := UnusedHash(st.rows);
    var insert := Write(c, hash, 0);
    if st.calls[c].Revoking? {
      var mid := Apply(st, insert);
      InsertPending(mid, c, family, insert);
      steps := [insert, insert];
      assert steps[1..] == [insert];
    } else {
      InsertPending(st, c, family, insert);
      steps := [insert];
    }
  }

  lemma InsertPending(st: State, c: CallId, family: Family, insert: Step)
    requires c in st.calls && st.calls[c].Inserting? && IsPending(st, st.calls[c], family)
    requires insert.Write? && insert.call == c && forall i :: 0 <= i < |st.rows| ==> st.rows[i].hash != insert.newHash
    ensures AllFresh(st, [insert]) && !Dead(Run(st, [insert]).rows, family)
  {
    var after := Apply(st, insert);
    assert [insert][1..] == [] && Run(st, [insert]) == after;
    assert after.rows[|st.rows|].family == family && !after.rows[|st.rows|].revoked;
  }

  /**
   Killing a family under overlapping calls. A family without live tokens can get one
   again exactly when, at that moment, some rotation of it is between its read and its
   insert; with none in flight it stays dead in every further run.
  */
  lemma ResurrectionIsExact(st: State, family: Family)
    requires Sound(st) && HasFamily(st.rows, family) && Dead(st.rows, family)
    ensures InFlight(st, family) <==> exists steps :: AllFresh(st, steps) && !Dead(Run(st, steps).rows, family)
  {
    hide Run, AllFresh, Dead, Sound;
    if InFlight(st, family) {
      var c :| c in st.calls && IsPending(st, st.calls[c], family);
      var steps := FinishPending(st, c, family);
    } else {
      forall steps | AllFresh(st, steps) ensures Dead(Run(st, steps).rows, family) {
        QuietForever(st, steps, family);
      }
    }
  }

  // ---- what overlapping calls break, and what they do not ----------------------

  /**
   Whatever the table and the other calls: two rotations that both read a live token before
   either revokes it leave two live successors of it.
  */
  lemma OverlappingRotationsFork(st: State, a: CallId, b: CallId, presented: Hash, hashA: Hash, hashB: Hash, now: int)
    requires a != b && a !in st.calls && b !in st.calls && |st.parents| == |st.rows|
    requires hashA != hashB && RotateOutcome(st.rows, presented, hashA, now).None? && RotateOutcome(st.rows, presented, hashB, now).None?
    ensures var read := Apply(Apply(st, Read(a, presented, now)), Read(b, presented, now));
            var spent := Apply(Apply(read, Write(a, hashA, now)), Write(b, hashB, now));
            var end := Apply(Apply(spent, Write(a, hashA, now)), Write(b, hashB, now));
            var i, n := Find(st.rows, presented), |st.rows|;
            && end.rows == AfterRotate(st.rows, presented, hashA, now) + [NewToken(hashB, st.rows[i].user, st.rows[i].family, now)]
            && end.parents == st.parents + [Some(i), Some(i)]
            && end.calls == st.calls[a := Done(n)][b := Done(n + 1)]
            && !IsChain(end.rows)
  {
    var i, n := Find(st.rows, presented), |st.rows|;
    FindAfterRevoke(st.rows, i, hashA);
    FindAfterRevoke(st.rows, i, hashB);
    Fork(st, a, b, i, presented, hashA, hashB, now);
    var first := RevokeOne(st.rows, i) + [NewToken(hashA, st.rows[i].user, st.rows[i].family, now)];
    assert AfterRotate(st.rows, presented, hashA, now) == first;
    hide Find, AfterRotate, RotateOutcome, Apply;
    TwoLive(first + [NewToken(hashB, st.rows[i].user, st.rows[i].family, now)], n);
  }

  lemma Fork(st: State, a: CallId, b: CallId, i: nat, presented: Hash, hashA: Hash, hashB: Hash, now: int)
    requires a != b && a !in st.calls && b !in st.calls && hashA != hashB
    requires i < |st.rows| && AfterRead(st.rows, presented, now) == Revoking(i)
    requires Find(RevokeOne(st.rows, i), hashA) == Find(RevokeOne(st.rows, i), hashB) == |st.rows|
    ensures var read := Apply(Apply(st, Read(a, presented, now)), Read(b, presented, now));
            var spent := Apply(Apply(read, Write(a, hashA, now)), Write(b, hashB, now));
            Apply(Apply(spent, Write(a, hashA, now)), Write(b, hashB, now)) == Forked(st, a, b, i, hashA, hashB, now)
  {
    hide Find, Apply, AfterRead;
    BothRead(st, a, b, presented, now);
    BothWrite(st.(calls := st.calls[a := Revoking(i)][b := Revoking(i)]), a, b, i, hashA, hashB, now);
    assert st.calls[a := Revoking(i)][b := Revoking(i)][a := Done(|st.rows|)][b := Done(|st.rows| + 1)]
        == st.calls[a := Done(|st.rows|)][b := Done(|st.rows| + 1)];
  }

  function Forked(st: State, a: CallId, b: CallId, i: nat, hashA: Hash, hashB: Hash, now: int): State
    requires i < |st.rows|
  {
    var t := st.rows[i];
    State(RevokeOne(st.rows, i) + [NewToken(hashA, t.user, t.family, now)] + [NewToken(hashB, t.user, t.family, now)],
          st.parents + [Some(i), Some(i)], st.calls[a := Done(|st.rows|)][b := Done(|st.rows| + 1)])
  }

  lemma BothWrite(st: State, a: CallId, b: CallId, i: nat, hashA: Hash, hashB: Hash, now: int)
    requires i < |st.rows| && a != b && a in st.calls && b in st.calls && st.calls[a] == st.calls[b] == Revoking(i)
    requires hashA != hashB && Find(RevokeOne(st.rows, i), hashA) == Find(RevokeOne(st.rows, i), hashB) == |st.rows|
    ensures var spent := Apply(Apply(st, Write(a, hashA, now)), Write(b, hashB, now));
            Apply(Apply(spent, Write(a, hashA, now)), Write(b, hashB, now)) == Forked(st, a, b, i, hashA, hashB, now)
  {
    hide Find, Apply;
    var once, n := RevokeOne(st.rows, i), |st.rows|;
    BothRevoke(st, a, b, i, hashA, hashB, now);
    var spent := State(once, st.parents, st.calls[a := Inserting(i)][b := Inserting(i)]);
    InsertSuccessor(spent, a, i, hashA, now);
    var first := once + [NewToken(hashA, st.rows[i].user, st.rows[i].family, now)];
    var forked := State(first, st.parents + [Some(i)], st.calls[a := Done(n)][b := Inserting(i)]);
    assert forked.calls == spent.calls[a := Done(n)];
    InsertSuccessor(forked, b, i, hashB, now);
    assert forked.calls[b := Done(n + 1)] == st.calls[a := Done(n)][b := Done(n + 1)];
    assert forked.parents + [Some(i)] == st.parents + [Some(i), Some(i)];
  }

  lemma TwoLive(rows: seq<Token>, n: nat)
    requires n + 1 < |rows| && rows[n].family == rows[n + 1].family && !rows[n].revoked
    ensures !IsChain(rows)
  {
  }

  lemma BothRead(st: State, a: CallId, b: CallId, presented: Hash, now: int)
    requires a != b && a !in st.calls && b !in st.calls && AfterRead(st.rows, presented, now).Revoking?
    ensures Apply(Apply(st, Read(a, presented, now)), Read(b, presented, now)) ==
              st.(calls := st.calls[a := AfterRead(st.rows, presented, now)][b := AfterRead(st.rows, presented, now)])
  {
  }

  lemma BothRevoke(st: State, a: CallId, b: CallId, i: nat, hashA: Hash, hashB: Hash, now: int)
    requires i < |st.rows| && a != b && a in st.calls && b in st.calls && st.calls[a] == st.calls[b] == Revoking(i)
    ensures Apply(Apply(st, Write(a, hashA, now)), Write(b, hashB, now)) ==
              State(RevokeOne(st.rows, i), st.parents, st.calls[a := Inserting(i)][b := Inserting(i)])
  {
  }

  lemma InsertSuccessor(st: State, c: CallId, i: nat, hash: Hash, now: int)
    requires i < |st.rows| && c in st.calls && st.calls[c] == Inserting(i) && Find(st.rows, hash) == |st.rows|
    ensures Apply(st, Write(c, hash, now)) ==
              State(st.rows + [NewToken(hash, st.rows[i].user, st.rows[i].family, now)], st.parents + [Some(i)], st.calls[c := Done(|st.rows|)])
  {
  }

  // ---- a family forks exactly when a rotation reads a token another is about to revoke ----

  /** No token has two successors. */
  predicate NoFork(parents: seq<Option<nat>>)
  {
    forall i, j :: 0 <= i < j < |parents| && parents[i].Some? ==> parents[i] != parents[j]
  }

  predicate HasSuccessor(parents: seq<Option<nat>>, i: nat) { exists k :: 0 <= k < |parents| && parents[k] == Some(i) }

  /** A family belongs to one user, and each of its tokens but the newest has a successor. */
  predicate IsLinked(st: State)
  {
    forall i, j :: 0 <= i < j < |st.rows| && st.rows[i].family == st.rows[j].family ==>
      st.rows[i].user == st.rows[j].user && HasSuccessor(st.parents, i)
  }

  lemma InsertKeepsLinks(st: State, t: Token, parent: nat)
    requires |st.parents| == |st.rows| && IsLinked(st) && parent < |st.rows| && NoFork(st.parents + [Some(parent)])
    requires st.rows[parent].family == t.family && st.rows[parent].user == t.user
    ensures IsLinked(st.(rows := st.rows + [t], parents := st.parents + [Some(parent)]))
  {
    var after := st.(rows := st.rows + [t], parents := st.parents + [Some(parent)]);
    assert !HasSuccessor(st.parents, parent) by {
      assert (st.parents + [Some(parent)])[|st.rows|] == Some(parent);
      assert forall k :: 0 <= k < |st.parents| ==> (st.parents + [Some(parent)])[k] == st.parents[k];
    }
    forall i, j | 0 <= i < j < |after.rows| && after.rows[i].family == after.rows[j].family
      ensures after.rows[i].user == after.rows[j].user && HasSuccessor(after.parents, i)
    {
      if i == parent {
        assert after.parents[|st.rows|] == Some(i);
      } else {
        LinkKept(st, t, parent, i, j);
      }
    }
  }

  /** An older token of the family keeps its successor when the newest one gets its own. */
  lemma LinkKept(st: State, t: Token, parent: nat, i: nat, j: nat)
    requires |st.parents| == |st.rows| && IsLinked(st) && parent < |st.rows| && !HasSuccessor(st.parents, parent) && i != parent
    requires st.rows[parent].family == t.family && st.rows[parent].user == t.user
    requires i < j < |st.rows| + 1 && st.rows[i].family == (st.rows + [t])[j].family
    ensures st.rows[i].user == (st.rows + [t])[j].user && HasSuccessor(st.parents + [Some(parent)], i)
  {
    var newest := if j < |st.rows| then j else parent;
    assert i < newest;
    assert HasSuccessor(st.parents, i);
    var k :| 0 <= k < |st.parents| && st.parents[k] == Some(i);
    assert (st.parents + [Some(parent)])[k] == Some(i);
  }

  lemma StepKeepsLinks(st: State, step: Step)
    requires Sound(st) && IsLinked(st) && IsFresh(st, step) && NoFork(Apply(st, step).parents)
    ensures IsLinked(Apply(st, step))
  {
    hide Find, NoFork, HasSuccessor;
    var after := Apply(st, step);
    StepGrows(st, step);
    if |after.rows| == |st.rows| {
      assert after.parents == st.parents;
    } else if step.Write? {
      InsertKeepsLinks(st, after.rows[|st.rows|], st.calls[step.call].id);
    } else {
      LoginKeepsLinks(st, after);
    }
  }

  lemma LoginKeepsLinks(st: State, after: State)
    requires |st.parents| == |st.rows| && IsLinked(st)
    requires |after.rows| == |st.rows| + 1 && after.rows[..|st.rows|] == st.rows && after.parents == st.parents + [None]
    requires !HasFamily(st.rows, after.rows[|st.rows|].family)
    ensures IsLinked(after)
  {
    forall i, j | 0 <= i < j < |after.rows| && after.rows[i].family == after.rows[j].family
      ensures after.rows[i].user == after.rows[j].user && HasSuccessor(after.parents, i)
    {
      assert st.rows[i] == after.rows[i] && j < |st.rows|;
      assert st.rows[j] == after.rows[j];
      var k :| 0 <= k < |st.parents| && st.parents[k] == Some(i);
      assert after.parents[k] == Some(i);
    }
  }

  lemma {:induction false} ParentsGrow(st: State, steps: seq<Step>)
    ensures |st.parents| <= |Run(st, steps).parents| && Run(st, steps).parents[..|st.parents|] == st.parents
    decreases |steps|
  {
    if steps != [] {
      ParentsGrow(Apply(st, steps[0]), steps[1..]);
    }
  }

  lemma NoForkBefore(shorter: seq<Option<nat>>, longer: seq<Option<nat>>)
    requires |shorter| <= |longer| && longer[..|shorter|] == shorter && NoFork(longer)
    ensures NoFork(shorter)
  {
    assert forall i :: 0 <= i < |shorter| ==> shorter[i] == longer[i];
  }

  /**
   However the queries interleave: as long as no token has got two successors, the tokens
   of a family follow one another and all but the newest are revoked.
  */
  lemma {:induction false} UnforkedRunIsChain(st: State, steps: seq<Step>)
    requires Sound(st) && IsLinked(st) && AllFresh(st, steps) && NoFork(Run(st, steps).parents)
    ensures IsLinked(Run(st, steps)) && IsChain(Run(st, steps).rows)
    ensures IsLinked(START)
    decreases |steps|
  {
    if steps == [] {
      LinkedIsChain(st);
    } else {
      hide Apply, Sound, IsLinked, NoFork, IsFresh, IsChain;
      var next := Apply(st, steps[0]);
      ParentsGrow(next, steps[1..]);
      NoForkBefore(next.parents, Run(st, steps).parents);
      StepIsSound(st, steps[0]);
      StepKeepsLinks(st, steps[0]);
      UnforkedRunIsChain(next, steps[1..]);
    }
  }

  lemma LinkedIsChain(st: State)
    requires Sound(st) && IsLinked(st)
    ensures IsChain(st.rows)
  {
    forall i, j | 0 <= i < j < |st.rows| && st.rows[i].family == st.rows[j].family ensures st.rows[i].revoked {
      assert HasSuccessor(st.parents, i);
    }
  }

  // ---- the exact guard: what a rotation may read ---------------------------------

  predicate IsHolding(phase: Phase) { phase.Revoking? || phase.Inserting? }

  /** One rotation of a family at a time, on the family's newest token. */
  predicate Orderly(st: State)
    requires Sound(st)
  {
    && IsChain(st.rows)
    && NoFork(st.parents)
    && (forall c, d :: c in st.calls && d in st.calls && c != d && IsHolding(st.calls[c]) && IsHolding(st.calls[d]) ==>
          st.rows[st.calls[c].id].family != st.rows[st.calls[d].id].family)
    && (forall c, j ::
          && c in st.calls && IsHolding(st.calls[c]) && 0 <= j < |st.rows|
          && st.rows[j].family == st.rows[st.calls[c].id].family && !st.rows[j].revoked
          ==> st.calls[c] == Revoking(j))
    && (forall c :: c in st.calls && IsHolding(st.calls[c]) ==> !HasSuccessor(st.parents, st.calls[c].id))
  }

  /** A rotation does not find a token live that another rotation has read and is about to revoke. */
  predicate Undisturbed(st: State, step: Step)
  {
    step.Read? && step.call !in st.calls && AfterRead(st.rows, step.presented, step.now).Revoking? ==>
      AfterRead(st.rows, step.presented, step.now) !in st.calls.Values
  }

  predicate AllUndisturbed(st: State, steps: seq<Step>)
    decreases |steps|
  {
    steps == [] || (Undisturbed(st, steps[0]) && AllUndisturbed(Apply(st, steps[0]), steps[1..]))
  }

  lemma StepKeepsOrder(st: State, step: Step)
    requires Sound(st) && Orderly(st) && IsFresh(st, step) && Undisturbed(st, step)
    ensures Sound(Apply(st, step)) && Orderly(Apply(st, step))
  {
    StepIsSound(st, step);
    hide Find;
    match step
    case Login(_, _, _, _) => LoginKeepsOrder(st, step);
    case Read(_, _, _) => ReadKeepsOrder(st, step);
    case Delete(_, _) => RevokingKeepsOrder(st, Apply(st, step));
    case Write(call, _, _) => if call in st.calls { WriteKeepsOrder(st, step); }
  }

  lemma LoginKeepsOrder(st: State, step: Step)
    requires Sound(st) && Orderly(st) && IsFresh(st, step) && step.Login? && Sound(Apply(st, step))
    ensures Orderly(Apply(st, step))
  {
    hide Find;
    var after := Apply(st, step);
    forall c | c in st.calls && IsHolding(st.calls[c]) ensures !HasSuccessor(after.parents, st.calls[c].id) {
      assert !HasSuccessor(st.parents, st.calls[c].id);
      assert forall k :: 0 <= k < |st.parents| ==> after.parents[k] == st.parents[k];
    }
  }

  lemma ReadKeepsOrder(st: State, step: Step)
    requires Sound(st) && Orderly(st) && step.Read? && Undisturbed(st, step) && Sound(Apply(st, step))
    ensures Orderly(Apply(st, step))
  {
    hide Find;
  }

  /** Rows may be revoked, and calls may go on to their insert or end. */
  lemma RevokingKeepsOrder(st: State, after: State)
    requires Sound(st) && Orderly(st) && Sound(after) && Grows(st.rows, after.rows)
    requires |after.rows| == |st.rows| && after.parents == st.parents && after.calls.Keys == st.calls.Keys
    requires forall c :: c in st.calls ==>
               || after.calls[c] == st.calls[c]
               || !IsHolding(after.calls[c])
               || (IsHolding(st.calls[c]) && after.calls[c] == Inserting(st.calls[c].id))
    ensures Orderly(after)
  {
    hide HasSuccessor, NoFork;
    assert forall c :: c in after.calls && IsHolding(after.calls[c]) ==>
      IsHolding(st.calls[c]) && after.calls[c].id == st.calls[c].id && PhaseOk(after, after.calls[c]) && PhaseOk(st, st.calls[c]);
  }

  lemma WriteKeepsOrder(st: State, step: Step)
    requires Sound(st) && Orderly(st) && step.Write? && step.call in st.calls && Sound(Apply(st, step))
    ensures Orderly(Apply(st, step))
  {
    hide Find, HasSuccessor, NoFork, IsChain;
    StepGrows(st, step);
    var after := Apply(st, step);
    if |after.rows| == |st.rows| {
      RevokingKeepsOrder(st, after);
    } else {
      var n, id := |st.rows|, st.calls[step.call].id;
      hide Sound, Orderly;
      InsertKeepsOrder(st, after, step.call, id);
    }
  }

  lemma InsertKeepsOrder(st: State, after: State, call: CallId, id: nat)
    requires Sound(st) && Orderly(st) && Sound(after) && call in st.calls && st.calls[call] == Inserting(id) && id < |st.rows|
    requires |after.rows| == |st.rows| + 1 && after.rows[..|st.rows|] == st.rows
    requires after.rows[|st.rows|].family == st.rows[id].family && after.rows[|st.rows|].user == st.rows[id].user
    requires after.parents == st.parents + [Some(id)] && after.calls == st.calls[call := Done(|st.rows|)]
    ensures Orderly(after)
  {
    var n := |st.rows|;
    assert forall i :: 0 <= i < n ==> after.rows[i] == st.rows[i] && after.parents[i] == st.parents[i];
    assert !HasSuccessor(st.parents, id);
    assert IsChain(after.rows) by {
      hide Sound, HasSuccessor, NoFork;
      assert forall i :: 0 <= i < n && st.rows[i].family == st.rows[id].family ==> st.rows[i].revoked && st.rows[i].user == st.rows[id].user;
    }
    forall c | c in after.calls && IsHolding(after.calls[c]) ensures !HasSuccessor(after.parents, after.calls[c].id) {
      assert !HasSuccessor(st.parents, st.calls[c].id);
    }
  }

  predicate ReadFree(steps: seq<Step>) { forall i :: 0 <= i < |steps| ==> !steps[i].Read? }

  /** Whatever the calls under way do next, while no rotation begins every family stays a chain. */
  ghost predicate IsSafe(st: State)
  {
    forall steps :: ReadFree(steps) && AllFresh(st, steps) ==> IsChain(Run(st, steps).rows)
  }

  ghost predicate SafeThroughout(st: State, steps: seq<Step>)
    decreases |steps|
  {
    IsSafe(st) && (steps != [] ==> SafeThroughout(Apply(st, steps[0]), steps[1..]))
  }

  lemma {:induction false} RunKeepsOrder(st: State, steps: seq<Step>)
    requires Sound(st) && Orderly(st) && AllFresh(st, steps) && AllUndisturbed(st, steps)
    ensures Sound(Run(st, steps)) && Orderly(Run(st, steps))
    decreases |steps|
  {
    hide Apply, Sound, Orderly, IsFresh, Undisturbed;
    if steps != [] {
      StepKeepsOrder(st, steps[0]);
      RunKeepsOrder(Apply(st, steps[0]), steps[1..]);
    }
  }

  lemma {:induction false} ReadFreeIsUndisturbed(st: State, steps: seq<Step>)
    requires ReadFree(steps)
    ensures AllUndisturbed(st, steps)
    decreases |steps|
  {
    hide Apply;
    if steps != [] {
      ReadFreeIsUndisturbed(Apply(st, steps[0]), steps[1..]);
    }
  }

  lemma OrderIsSafe(st: State)
    requires Sound(st) && Orderly(st)
    ensures IsSafe(st)
  {
    hide Sound, AllFresh, AllUndisturbed, Run, IsChain, ReadFree;
    forall steps | ReadFree(steps) && AllFresh(st, steps) ensures IsChain(Run(st, steps).rows) {
      ReadFreeIsUndisturbed(st, steps);
      RunKeepsOrder(st, steps);
    }
  }

  /** Once a rotation has disturbed another, the two have only to finish. */
  lemma DisturbanceIsUnsafe(st: State, step: Step)
    requires Sound(st) && !Undisturbed(st, step)
    ensures !IsSafe(Apply(st, step))
  {
    var i := Find(st.rows, step.presented);
    var d :| d in st.calls && st.calls[d] == Revoking(i);
    var after, c := Apply(st, step), step.call;
    assert after == st.(calls := st.calls[c := Revoking(i)]);
    var hash := UnusedHash(st.rows);
    hide AfterRead, Apply, IsChain, Sound, Undisturbed;
    FindAfterRevoke(st.rows, i, hash);
    FindAfterRevoke(st.rows, i, hash + 1);
    BothWrite(after, c, d, i, hash, hash + 1, 0);
    hide Find;
    var first, second := Write(c, hash, 0), Write(d, hash + 1, 0);
    var steps := [first, second, first, second];
    RunOfFour(after, first, second, first, second);
    TwoLive(Run(after, steps).rows, |st.rows|);
    assert ReadFree(steps);
  }

  lemma RunOfFour(st: State, a: Step, b: Step, c: Step, d: Step)
    requires a.Write? && b.Write? && c.Write? && d.Write?
    ensures Run(st, [a, b, c, d]) == Apply(Apply(Apply(Apply(st, a), b), c), d) && AllFresh(st, [a, b, c, d])
  {
    hide Apply;
    assert [a, b, c, d][1..] == [b, c, d] && [b, c, d][1..] == [c, d] && [c, d][1..] == [d] && [d][1..] == [];
    RunFirst(st, [a, b, c, d]);
    RunFirst(Apply(st, a), [b, c, d]);
    RunFirst(Apply(Apply(st, a), b), [c, d]);
    RunFirst(Apply(Apply(Apply(st, a), b), c), [d]);
  }

  lemma RunFirst(st: State, steps: seq<Step>)
    requires steps != [] && !steps[0].Login?
    ensures Run(st, steps) == Run(Apply(st, steps[0]), steps[1..])
    ensures AllFresh(st, steps) <==> AllFresh(Apply(st, steps[0]), steps[1..])
  {
  }

  /**
   When interleaved calls keep every family a chain, exactly. The chain is safe at every
   moment of a run if and only if no rotation of the run finds a token live that another
   one has read and not yet revoked.
  */
  lemma {:induction false} GuardIsExact(st: State, steps: seq<Step>)
    requires Sound(st) && Orderly(st) && AllFresh(st, steps)
    ensures AllUndisturbed(st, steps) <==> SafeThroughout(st, steps)
    ensures Orderly(START)
    decreases |steps|
  {
    OrderIsSafe(st);
    assert Sound(START) && Orderly(START);
    hide Apply, Sound, Orderly, IsFresh, Undisturbed, IsSafe;
    if steps != [] {
      if Undisturbed(st, steps[0]) {
        StepKeepsOrder(st, steps[0]);
        GuardIsExact(Apply(st, steps[0]), steps[1..]);
      } else {
        DisturbanceIsUnsafe(st, steps[0]);
      }
    }
  }

  /** Every run that respects the guard, from the empty table: one successor at most, and every family a chain. */
  lemma RunKeepsChain(steps: seq<Step>)
    requires AllFresh(START, steps) && AllUndisturbed(START, steps)
    ensures var end := Run(START, steps);
            && IsChain(end.rows) && NoFork(end.parents)
            && (forall c, d :: c in end.calls && d in end.calls && c != d && IsHolding(end.calls[c]) && IsHolding(end.calls[d]) ==>
                  end.calls[c].id != end.calls[d].id)
  {
    hide Run, AllFresh, AllUndisturbed;
    assert Sound(START) && Orderly(START);
    RunKeepsOrder(START, steps);
  }

  /** Logins and deletions are one query each, and do to the table what the atomic calls do; the calls under way stay where they are. */
  lemma SingleQueriesAreAtomic(st: State, user: User, family: Family, hash: Hash, now: int)
    ensures Apply(st, Login(user, family, hash, now)).rows == RefreshTokens.Apply(st.rows, Issue(user, family, hash, now))
    ensures Apply(st, Delete(user, family)).rows == RefreshTokens.Apply(st.rows, DeleteFamily(user, family))
    ensures Apply(st, Login(user, family, hash, now)).calls == Apply(st, Delete(user, family)).calls == st.calls
  {
  }

  /** A rotation whose three queries run without interruption changes the table as the atomic call does. */
  lemma UninterruptedIsAtomic(st: State, call: CallId, presented: Hash, newHash: Hash, now: int)
    requires call !in st.calls
    ensures var read := Apply(st, Read(call, presented, now));
            var first := Apply(read, Write(call, newHash, now));
            var second := Apply(first, Write(call, newHash, now));
            && second.rows == AfterRotate(st.rows, presented, newHash, now)
            && second.calls == st.calls[call :=
                 match RotateOutcome(st.rows, presented, newHash, now)
                 case None => Done(|st.rows|)
                 case Some(error) => Failed(error)]
  {
    var phase := AfterRead(st.rows, presented, now);
    var read := st.(calls := st.calls[call := phase]);
    if phase.Revoking? {
      FindAfterRevoke(st.rows, phase.id, newHash);
      LiveRotation(read, call, phase.id, newHash, now);
      hide Find, Apply;
    } else {
      assert Apply(st, Read(call, presented, now)) == read;
      hide Find;
    }
  }

  /** The two writing queries of a rotation that read a live token. */
  lemma LiveRotation(st: State, call: CallId, i: nat, newHash: Hash, now: int)
    requires i < |st.rows| && call in st.calls && st.calls[call] == Revoking(i)
    ensures var spent := RevokeOne(st.rows, i);
            var second := Apply(Apply(st, Write(call, newHash, now)), Write(call, newHash, now));
            match Insert(spent, NewToken(newHash, st.rows[i].user, st.rows[i].family, now))
            case None => second.rows == spent && second.calls == st.calls[call := Failed(DuplicateHash)]
            case Some(longer) => second.rows == longer && second.calls == st.calls[call := Done(|st.rows|)]
  {
    hide Find;
    var mid := st.(rows := RevokeOne(st.rows, i), calls := st.calls[call := Inserting(i)]);
    assert Apply(st, Write(call, newHash, now)) == mid;
    assert mid.calls[call := Failed(DuplicateHash)] == st.calls[call := Failed(DuplicateHash)];
    assert mid.calls[call := Done(|st.rows|)] == st.calls[call := Done(|st.rows|)];
  }
}
