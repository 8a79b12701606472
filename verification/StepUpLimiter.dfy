/**
 The in-memory limiter of step-up attempts: a pruned list per user, against the full
 history of attempts. The time of each call is an argument.
*/
module StepUpLimiter {

  type User = string

  const WINDOW_MS := 60_000
  const MAX_ATTEMPTS := 3

  datatype Attempt = Attempt(user: User, time: int)

  /** `list.filter((t) => now - t < STEP_UP_WINDOW_MS)` */
  function Recent(times: seq<int>, now: int): (recent: seq<int>)
    ensures |recent| <= |times|
  {
    if times == [] then [] else
    var front, last := times[..|times| - 1], times[|times| - 1];
    Recent(front, now) + if now - last < WINDOW_MS then [last] else []
  }

  /** `stepUpAttempts.get(userId) ?? []` */
  function Get(attempts: map<User, seq<int>>, user: User): seq<int>
  {
    if user in attempts then attempts[user] else []
  }

  function AfterAttempt(attempts: map<User, seq<int>>, a: Attempt): map<User, seq<int>>
  {
    attempts[a.user := Recent(Get(attempts, a.user), a.time) + [a.time]]
  }

  /** The map after a whole history of attempts, starting from an empty one. */
  function Replay(history: seq<Attempt>): map<User, seq<int>>
  {
    if history == [] then map[] else AfterAttempt(Replay(history[..|history| - 1]), history[|history| - 1])
  }

  /** All times at which a user tried, whatever the verdict was. */
  function TimesOf(history: seq<Attempt>, user: User): seq<int>
  {
    if history == [] then [] else
    var last := history[|history| - 1];
    TimesOf(history[..|history| - 1], user) + if last.user == user then [last.time] else []
  }

  class Limiter {
    var attempts: map<User, seq<int>>
    ghost var history: seq<Attempt>

    ghost predicate Valid() reads this { attempts == Replay(history) }

    constructor ()
      ensures Valid() && history == []
    {
      attempts, history := map[], [];
    }

    /** Records the attempt; true when the user is now blocked. */
    method RecordStepUpAttempt(user: User, now: int) returns (blocked: bool)
      requires Valid()
      modifies this
      ensures Valid() && history == old(history) + [Attempt(user, now)]
      ensures NotBefore(TimesOf(old(history), user), now) ==> (blocked <==> FullHistoryBlocks(history, user, now))
      ensures blocked ==> FullHistoryBlocks(history, user, now)
      ensures blocked <==> BlocksLast(history)
      ensures forall other :: other != user ==> Get(attempts, other) == Get(old(attempts), other)
    {
      var prev := Recent(Get(attempts, user), now);
      prev := prev + [now];
      attempts := attempts[user := prev];
      ghost var before := history;
      history := history + [Attempt(user, now)];
      assert history[..|history| - 1] == before;
      LastVerdict(history);
      blocked := |prev| > MAX_ATTEMPTS;
    }

    /** Looks without recording. */
    method IsStepUpBlocked(user: User, now: int) returns (blocked: bool)
      requires Valid()
      ensures NotBefore(TimesOf(history, user), now) ==> (blocked <==> FullHistoryBlocks(history, user, now))
      ensures blocked ==> FullHistoryBlocks(history, user, now)
      ensures blocked <==> |Recent(Pruned(TimesOf(history, user)), now)| > 3
    {
      var prev := Recent(Get(attempts, user), now);
      ReplayIsPerUser(history, user);
      PruningIsExact(TimesOf(history, user), now);
      ForwardClock(TimesOf(history, user), now);
      blocked := |prev| > MAX_ATTEMPTS;
    }
  }

  // ---- the list against the history ------------------------------------------

  /** More than three of the user's attempts, over the full history, are younger than the window. */
  predicate FullHistoryBlocks(history: seq<Attempt>, user: User, now: int)
  {
    |Recent(TimesOf(history, user), now)| > MAX_ATTEMPTS
  }

  /** The verdict on the newest attempt, as the pruned list gives it. */
  predicate BlocksLast(history: seq<Attempt>)
    requires history != []
  {
    |Get(Replay(history), history[|history| - 1].user)| > MAX_ATTEMPTS
  }

  /** The clock has not gone back behind any of these times. */
  predicate NotBefore(times: seq<int>, now: int)
  {
    forall i :: 0 <= i < |times| ==> times[i] <= now
  }

  /** One user's list, as a function of that user's times alone. */
  function Pruned(times: seq<int>): seq<int>
  {
    if times == [] then [] else
    var front, last := times[..|times| - 1], times[|times| - 1];
    Recent(Pruned(front), last) + [last]
  }

  /** No user's attempts touch another's list. */
  lemma {:induction false} ReplayIsPerUser(history: seq<Attempt>, user: User)
    ensures Get(Replay(history), user) == Pruned(TimesOf(history, user))
    decreases |history|
  {
    if history != [] {
      var front, last := history[..|history| - 1], history[|history| - 1];
      ReplayIsPerUser(front, user);
      if last.user == user {
        var times := TimesOf(front, user);
        assert (times + [last.time])[..|times|] == times;
      } else {
        assert TimesOf(history, user) == TimesOf(front, user);
      }
    }
  }

  lemma RecentAppended(times: seq<int>, t: int, now: int)
    ensures Recent(times + [t], now) == Recent(times, now) + if now - t < WINDOW_MS then [t] else []
  {
  }

  lemma {:induction false} InRecent(times: seq<int>, now: int, t: int)
    ensures t in Recent(times, now) <==> t in times && now - t < WINDOW_MS
    decreases |times|
  {
    if times != [] {
      var front, last := times[..|times| - 1], times[|times| - 1];
      InRecent(front, now, t);
      assert times == front + [last];
    }
  }

  /** Everything still young at `now` was young at the time of pruning. */
  predicate KeptBy(times: seq<int>, pruning: int, now: int)
  {
    forall i :: 0 <= i < |times| && now - times[i] < WINDOW_MS ==> pruning - times[i] < WINDOW_MS
  }

  /** Pruning first at another time never adds anything, and loses nothing exactly when `KeptBy` holds. */
  lemma {:induction false} RecentTwice(times: seq<int>, pruning: int, now: int)
    ensures |Recent(Recent(times, pruning), now)| <= |Recent(times, now)|
    ensures KeptBy(times, pruning, now) ==> Recent(Recent(times, pruning), now) == Recent(times, now)
    ensures |Recent(Recent(times, pruning), now)| == |Recent(times, now)| ==> KeptBy(times, pruning, now)
    decreases |times|
  {
    if times != [] {
      var front, last := times[..|times| - 1], times[|times| - 1];
      RecentTwice(front, pruning, now);
      if pruning - last < WINDOW_MS {
        RecentAppended(Recent(front, pruning), last, now);
      } else {
        assert Recent(times, pruning) == Recent(front, pruning);
      }
    }
  }

  /** No later attempt came a whole window after one that is still young at `now`. */
  predicate NothingYoungPruned(times: seq<int>, now: int)
  {
    forall i, j :: 0 <= i < j < |times| && now - times[i] < WINDOW_MS ==> times[j] - times[i] < WINDOW_MS
  }

  /**
   The pruned list against the full history, under any clock. Pruning never makes the
   limiter stricter; and the two agree exactly when no attempt that is still young had
   been pruned by a later one, which takes a clock that went back.
  */
  lemma {:induction false} PruningIsExact(times: seq<int>, now: int)
    ensures |Recent(Pruned(times), now)| <= |Recent(times, now)|
    ensures NothingYoungPruned(times, now) ==> Recent(Pruned(times), now) == Recent(times, now)
    ensures |Recent(Pruned(times), now)| == |Recent(times, now)| ==> NothingYoungPruned(times, now)
    decreases |times|
  {
    if times != [] {
      var front, last := times[..|times| - 1], times[|times| - 1];
      var kept := Pruned(front);
      PruningIsExact(front, now);
      RecentTwice(kept, last, now);
      RecentAppended(Recent(kept, last), last, now);
      if Recent(kept, now) == Recent(front, now) {
        SameYoung(kept, front, last, now);
      }
      LastOne(times, now);
    }
  }

  lemma SameYoung(a: seq<int>, b: seq<int>, pruning: int, now: int)
    requires Recent(a, now) == Recent(b, now)
    ensures KeptBy(a, pruning, now) <==> KeptBy(b, pruning, now)
  {
    forall t ensures (t in a && now - t < WINDOW_MS) <==> (t in b && now - t < WINDOW_MS) {
      InRecent(a, now, t);
      InRecent(b, now, t);
    }
    assert forall i :: 0 <= i < |a| ==> a[i] in a;
    assert forall i :: 0 <= i < |b| ==> b[i] in b;
  }

  lemma LastOne(times: seq<int>, now: int)
    requires times != []
    ensures var front, last := times[..|times| - 1], times[|times| - 1];
            NothingYoungPruned(times, now) <==> NothingYoungPruned(front, now) && KeptBy(front, last, now)
  {
  }

  /** A clock that goes back can make it laxer: five attempts of a user within a minute, and none of them blocked. */
  lemma ClockGoingBackForgets(user: User)
    ensures var history := [Attempt(user, 0), Attempt(user, 0), Attempt(user, 0), Attempt(user, 60_000), Attempt(user, 59_999)];
            && (forall k :: 1 <= k <= 5 ==> !BlocksLast(history[..k]))
            && Young(history, user, 59_999) == 5
            && !NothingYoungPruned(TimesOf(history, user), 59_999)
  {
    var history := [Attempt(user, 0), Attempt(user, 0), Attempt(user, 0), Attempt(user, 60_000), Attempt(user, 59_999)];
    hide Recent, Pruned, TimesOf;
    ForgottenTimes();
    forall k | 1 <= k <= 5 ensures TimesOf(history[..k], user) == [0, 0, 0, 60_000, 59_999][..k] && !BlocksLast(history[..k]) {
      OneUsersTimes(history[..k], user);
      ReplayIsPerUser(history[..k], user);
    }
    assert history[..5] == history && [0, 0, 0, 60_000, 59_999][..5] == [0, 0, 0, 60_000, 59_999];
  }

  lemma {:induction false} OneUsersTimes(history: seq<Attempt>, user: User)
    requires forall i :: 0 <= i < |history| ==> history[i].user == user
    ensures |TimesOf(history, user)| == |history|
    ensures forall i :: 0 <= i < |history| ==> TimesOf(history, user)[i] == history[i].time
    decreases |history|
  {
    if history != [] {
      OneUsersTimes(history[..|history| - 1], user);
    }
  }

  /** The list starts afresh at 60 s, and the step back brings the first three attempts back into the window. */
  lemma ForgottenTimes()
    ensures var times := [0, 0, 0, 60_000, 59_999];
            && (forall k :: 0 <= k <= 5 ==> |Pruned(times[..k])| <= MAX_ATTEMPTS)
            && |Recent(times, 59_999)| == 5 && !NothingYoungPruned(times, 59_999)
  {
    hide Recent, Pruned;
    var a, b, c, d, e := [], [0], [0, 0], [0, 0, 0], [0, 0, 0, 60_000];
    var times := [0, 0, 0, 60_000, 59_999];
    assert b == a + [0] && c == b + [0] && d == c + [0] && e == d + [60_000] && times == e + [59_999];
    NothingThere(59_999);
    RecentAppended(a, 0, 59_999); RecentAppended(b, 0, 59_999); RecentAppended(c, 0, 59_999); RecentAppended(d, 60_000, 59_999); RecentAppended(e, 59_999, 59_999);
    ForgottenList();
    assert times[..0] == a && times[..1] == b && times[..2] == c && times[..3] == d && times[..4] == e && times[..5] == times;
    assert times[0] == 0 && times[3] == 60_000;
  }

  lemma ForgottenList()
    ensures Pruned([]) == [] && Pruned([0]) == [0] && Pruned([0, 0]) == [0, 0] && Pruned([0, 0, 0]) == [0, 0, 0]
    ensures Pruned([0, 0, 0, 60_000]) == [60_000] && Pruned([0, 0, 0, 60_000, 59_999]) == [60_000, 59_999]
  {
    hide Recent, Pruned;
    var a, b, c, d, e := [], [0], [0, 0], [0, 0, 0], [0, 0, 0, 60_000];
    assert b == a + [0] && c == b + [0] && d == c + [0] && e == d + [60_000] && [0, 0, 0, 60_000, 59_999] == e + [59_999];
    NothingThere(60_000);
    NothingThere(59_999);
    NothingThere(0);
    PrunedAppended(a, 0); PrunedAppended(b, 0); PrunedAppended(c, 0); PrunedAppended(d, 60_000); PrunedAppended(e, 59_999);
    RecentAppended(a, 0, 0); RecentAppended(b, 0, 0);
    RecentAppended(a, 0, 60_000); RecentAppended(b, 0, 60_000); RecentAppended(c, 0, 60_000);
    RecentAppended(a, 60_000, 59_999);
    assert [60_000] == a + [60_000];
  }

  lemma NothingThere(now: int)
    ensures Recent([], now) == [] && Pruned([]) == []
  {
  }

  lemma PrunedAppended(times: seq<int>, t: int)
    ensures Pruned(times + [t]) == Recent(Pruned(times), t) + [t]
  {
  }

  /** A clock that has not gone back prunes nothing that is still young. */
  lemma ForwardClock(times: seq<int>, now: int)
    ensures NotBefore(times, now) ==> NothingYoungPruned(times, now)
  {
  }

  lemma LastVerdict(history: seq<Attempt>)
    requires history != []
    ensures var last := history[|history| - 1];
            && BlocksLast(history) == (|Recent(Get(Replay(history[..|history| - 1]), last.user), last.time)| + 1 > MAX_ATTEMPTS)
            && (BlocksLast(history) ==> FullHistoryBlocks(history, last.user, last.time))
            && (NotBefore(TimesOf(history[..|history| - 1], last.user), last.time) ==>
                  BlocksLast(history) == FullHistoryBlocks(history, last.user, last.time))
  {
    var front, last := history[..|history| - 1], history[|history| - 1];
    var times := TimesOf(front, last.user);
    ReplayIsPerUser(front, last.user);
    PruningIsExact(times, last.time);
    RecentAppended(times, last.time, last.time);
    ForwardClock(times, last.time);
  }

  // ---- the bound over whole runs ---------------------------------------------

  /** The user's own attempts came in the order of their times. */
  predicate NonDecreasing(history: seq<Attempt>, user: User)
  {
    forall i, j :: 0 <= i < j < |history| && history[i].user == history[j].user == user ==> history[i].time <= history[j].time
  }

  lemma {:induction false} TimesAreNotAfter(history: seq<Attempt>, user: User, now: int)
    requires forall i :: 0 <= i < |history| && history[i].user == user ==> history[i].time <= now
    ensures NotBefore(TimesOf(history, user), now)
    decreases |history|
  {
    if history != [] {
      TimesAreNotAfter(history[..|history| - 1], user, now);
    }
  }

  /** How many of the user's attempts are young at `now`. */
  function Young(history: seq<Attempt>, user: User, now: int): nat { |Recent(TimesOf(history, user), now)| }

  lemma YoungStep(history: seq<Attempt>, user: User, now: int, p: nat)
    requires p < |history|
    ensures Young(history[..p + 1], user, now) ==
              Young(history[..p], user, now) + if history[p].user == user && now - history[p].time < WINDOW_MS then 1 else 0
  {
    var upTo, before := history[..p + 1], history[..p];
    assert upTo[..|upTo| - 1] == before && upTo[|upTo| - 1] == history[p];
    assert TimesOf(before, user) + [] == TimesOf(before, user);
    RecentAppended(TimesOf(history[..p], user), history[p].time, now);
  }

  lemma {:induction false} YoungGrows(history: seq<Attempt>, user: User, now: int, p: nat, q: nat)
    requires p <= q <= |history|
    ensures Young(history[..p], user, now) <= Young(history[..q], user, now)
    decreases q
  {
    if p < q {
      YoungStep(history, user, now, q - 1);
      YoungGrows(history, user, now, p, q - 1);
    }
  }

  /**
   Of four attempts of one user inside less than a minute, the fourth is blocked,
   whatever the verdicts on the others: so at most three are let through in any such
   span, and blocked attempts count as well.
  */
  lemma FourthInAMinuteIsBlocked(history: seq<Attempt>, user: User, i: nat, j: nat, k: nat, l: nat)
    requires NonDecreasing(history, user) && i < j < k < l < |history|
    requires history[i].user == history[j].user == history[k].user == history[l].user == user
    requires history[l].time - history[i].time < WINDOW_MS
    ensures BlocksLast(history[..l + 1])
  {
    hide Young, Recent, BlocksLast;
    var now := history[l].time;
    YoungStep(history, user, now, i);
    YoungGrows(history, user, now, i + 1, j);
    YoungStep(history, user, now, j);
    YoungGrows(history, user, now, j + 1, k);
    YoungStep(history, user, now, k);
    YoungGrows(history, user, now, k + 1, l);
    YoungStep(history, user, now, l);
    VerdictByYoung(history[..l + 1]);
  }

  lemma VerdictByYoung(history: seq<Attempt>)
    requires history != [] && NonDecreasing(history, history[|history| - 1].user)
    ensures var last := history[|history| - 1];
            BlocksLast(history) <==> Young(history, last.user, last.time) > MAX_ATTEMPTS
  {
    var front, last := history[..|history| - 1], history[|history| - 1];
    TimesAreNotAfter(front, last.user, last.time);
    LastVerdict(history);
  }
}
