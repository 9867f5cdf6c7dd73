/** Daily pool points of a roster (`DailyRosterPoints::get_total_points`) and the season
    totals and ordering that `PoolContext::get_final_rank` builds on top of them. */
module Scoring {
  import opened PoolTypes

  datatype SkaterPoints = SkaterPoints(goals: U8, assists: U8, shootoutGoals: Option<U8>)

  datatype GoalyPoints = GoalyPoints(goals: U8, assists: U8, win: bool, shutout: bool, overtime: bool)

  /** The players of a roster on one day, keyed by player id; `None` when the player did not play. */
  datatype DailyRoster = DailyRoster(
    forwards: map<string, Option<SkaterPoints>>,
    defenders: map<string, Option<SkaterPoints>>,
    goalies: map<string, Option<GoalyPoints>>)

  datatype DailyRosterPoints = DailyRosterPoints(roster: DailyRoster, isCumulated: bool)

  /** One skater's points for the day: goals and assists at their rates, shootout goals when
      recorded, and the hat-trick bonus from three goals up. */
  function SkaterScore(p: Option<SkaterPoints>, ptsGoals: nat, ptsAssists: nat, ptsShootout: nat, ptsHattrick: nat): nat
  {
    match p
    case None => 0
    case Some(sp) =>
      sp.goals * ptsGoals + sp.assists * ptsAssists
      + (match sp.shootoutGoals case Some(n) => n * ptsShootout case None => 0)
      + (if sp.goals >= 3 then ptsHattrick else 0)
  }

  /** A bonus worth `pts` when it was earned. */
  function Bonus(earned: bool, pts: nat): nat
  {
    if earned then pts else 0
  }

  /** One goalie's points for the day: goals and assists at their rates plus a bonus for each
      of a win, a shutout and an overtime. */
  function GoalyScore(p: Option<GoalyPoints>, s: PoolSettings): nat
  {
    match p
    case None => 0
    case Some(gp) =>
      var scored: nat := gp.goals * s.goaliesPtsGoals + gp.assists * s.goaliesPtsAssists;
      scored + Bonus(gp.win, s.goaliesPtsWins) + Bonus(gp.shutout, s.goaliesPtsShutouts)
      + Bonus(gp.overtime, s.goaliesPtsOvertimes)
  }

  function ForwardScorer(s: PoolSettings): Option<SkaterPoints> -> nat
  {
    p => SkaterScore(p, s.forwardPtsGoals, s.forwardPtsAssists, s.forwardPtsShootoutGoals, s.forwardPtsHattricks)
  }

  function DefenderScorer(s: PoolSettings): Option<SkaterPoints> -> nat
  {
    p => SkaterScore(p, s.defenderPtsGoals, s.defenderPtsAssists, s.defenderPtsShootoutGoals, s.defenderPtsHattricks)
  }

  function GoalyScorer(s: PoolSettings): Option<GoalyPoints> -> nat
  {
    p => GoalyScore(p, s)
  }

  /** The sum of `f` over the values of a map, in no particular order. */
  ghost function SumOver<V>(m: map<string, V>, f: V -> nat): nat
    decreases |m|
  {
    if m == map[] then 0
    else
      var k :| k in m;
      assert |m - {k}| < |m| by { assert m.Keys == (m - {k}).Keys + {k}; }
      f(m[k]) + SumOver(m - {k}, f)
  }

  lemma MapRemoveCard<V>(m: map<string, V>, k: string)
    requires k in m
    ensures |m - {k}| == |m| - 1
  {
    assert m.Keys == (m - {k}).Keys + {k};
  }

  /** The sum does not depend on the order in which the keys are taken: any key can be
      taken out first. */
  lemma {:induction false} SumOverRemove<V>(m: map<string, V>, f: V -> nat, k: string)
    requires k in m
    ensures SumOver(m, f) == f(m[k]) + SumOver(m - {k}, f)
    decreases |m|
  {
    var j :| j in m && SumOver(m, f) == f(m[j]) + SumOver(m - {j}, f);
    if j != k {
      MapRemoveCard(m, j);
      MapRemoveCard(m, k);
      SumOverRemove(m - {j}, f, k);
      SumOverRemove(m - {k}, f, j);
      assert m - {j} - {k} == m - {k} - {j};
    }
  }

  /** Replacing one value changes the sum by the difference of the two values. */
  lemma SumOverUpdate<V>(m: map<string, V>, f: V -> nat, k: string, v: V)
    requires k in m
    ensures SumOver(m[k := v], f) + f(m[k]) == SumOver(m, f) + f(v)
  {
    SumOverRemove(m, f, k);
    SumOverRemove(m[k := v], f, k);
    assert m[k := v] - {k} == m - {k};
  }

  /** A map whose values all score zero sums to zero. */
  lemma {:induction false} SumOverZero<V>(m: map<string, V>, f: V -> nat)
    requires forall k :: k in m ==> f(m[k]) == 0
    ensures SumOver(m, f) == 0
    decreases |m|
  {
    if m != map[] {
      var k :| k in m;
      SumOverRemove(m, f, k);
      MapRemoveCard(m, k);
      SumOverZero(m - {k}, f);
    }
  }

  /** The points of a roster for one day: every forward, defender and goalie who played. */
  ghost function DailyTotal(d: DailyRosterPoints, s: PoolSettings): nat
  {
    SumOver(d.roster.forwards, ForwardScorer(s))
    + SumOver(d.roster.defenders, DefenderScorer(s))
    + SumOver(d.roster.goalies, GoalyScorer(s))
  }

  /** The loop over one position's map of `get_total_points`. */
  method SumPoints<V>(m: map<string, V>, f: V -> nat) returns (total: nat)
    ensures total == SumOver(m, f)
  {
    total := 0;
    var rest := m;
    while rest != map[]
      invariant total + SumOver(rest, f) == SumOver(m, f)
      decreases |rest|
    {
      var k :| k in rest;
      SumOverRemove(rest, f, k);
      MapRemoveCard(rest, k);
      total := total + f(rest[k]);
      rest := rest - {k};
    }
  }

  /** `get_total_points`: the roster's points for the day (sums taken exactly; see README). */
  method GetTotalPoints(d: DailyRosterPoints, s: PoolSettings) returns (total: nat)
    ensures total == DailyTotal(d, s)
  {
    var forwards := SumPoints(d.roster.forwards, ForwardScorer(s));
    var defenders := SumPoints(d.roster.defenders, DefenderScorer(s));
    var goalies := SumPoints(d.roster.goalies, GoalyScorer(s));
    total := forwards + defenders + goalies;
  }

  /** A skater with at least as many goals, assists and shootout goals earns at least as many points. */
  lemma SkaterScoreMonotone(p: SkaterPoints, q: SkaterPoints, g: nat, a: nat, so: nat, ht: nat)
    requires p.goals <= q.goals && p.assists <= q.assists
    requires p.shootoutGoals.Some? ==> q.shootoutGoals.Some? && p.shootoutGoals.value <= q.shootoutGoals.value
    ensures SkaterScore(Some(p), g, a, so, ht) <= SkaterScore(Some(q), g, a, so, ht)
  {
    assert p.goals * g <= q.goals * g by { MulMonotone(p.goals, q.goals, g); }
    assert p.assists * a <= q.assists * a by { MulMonotone(p.assists, q.assists, a); }
    if p.shootoutGoals.Some? {
      MulMonotone(p.shootoutGoals.value, q.shootoutGoals.value, so);
    }
  }

  lemma MulMonotone(x: nat, y: nat, k: nat)
    requires x <= y
    ensures x * k <= y * k
  {
  }

  /** The hat-trick bonus is earned from the third goal on, and only then. */
  lemma HatTrickBonus(sp: SkaterPoints, g: nat, a: nat, so: nat, ht: nat)
    requires sp.goals == 2
    ensures SkaterScore(Some(sp.(goals := 3)), g, a, so, ht) == SkaterScore(Some(sp), g, a, so, ht) + g + ht
  {
  }

  // ---- Season totals -------------------------------------------------------------------

  /** Everyone who has a daily entry on some date. */
  ghost function Participants(sbd: map<string, map<string, DailyRosterPoints>>): set<string>
  {
    set d, p | d in sbd && p in sbd[d] :: p
  }

  ghost function DayScore(p: string, s: PoolSettings): map<string, DailyRosterPoints> -> nat
  {
    day => if p in day then DailyTotal(day[p], s) else 0
  }

  /** The season total of each participant with an entry: the sum, over all dates, of that
      participant's daily points. */
  ghost function SeasonTotals(sbd: map<string, map<string, DailyRosterPoints>>, s: PoolSettings): map<string, nat>
  {
    map p | p in Participants(sbd) :: SumOver(sbd, DayScore(p, s))
  }

  /** Adds one date's points to running totals, starting at zero for a newcomer. */
  ghost function AddDay(acc: map<string, nat>, day: map<string, DailyRosterPoints>, s: PoolSettings): map<string, nat>
  {
    map p | p in acc.Keys + day.Keys :: (if p in acc then acc[p] else 0) + (if p in day then DailyTotal(day[p], s) else 0)
  }

  lemma ParticipantsAddDay(done: map<string, map<string, DailyRosterPoints>>, d: string,
                           day: map<string, DailyRosterPoints>)
    requires d !in done
    ensures Participants(done[d := day]) == Participants(done) + day.Keys
  {
    var all := done[d := day];
    forall p | p in Participants(all) ensures p in Participants(done) + day.Keys {
      var e :| e in all && p in all[e];
      if e != d { assert e in done && p in done[e]; }
    }
    forall p | p in Participants(done) + day.Keys ensures p in Participants(all) {
      if p in day { assert d in all && p in all[d]; }
      else { var e :| e in done && p in done[e]; assert e in all && all[e] == done[e]; }
    }
  }

  /** A participant with no entry on any date scores zero over the season. */
  lemma AbsentScoresZero(done: map<string, map<string, DailyRosterPoints>>, p: string, s: PoolSettings)
    requires p !in Participants(done)
    ensures SumOver(done, DayScore(p, s)) == 0
  {
    forall e | e in done ensures DayScore(p, s)(done[e]) == 0 {
      assert p !in done[e];
    }
    SumOverZero(done, DayScore(p, s));
  }

  /** One participant's season total after one more date. */
  lemma SeasonTotalAddDayAt(done: map<string, map<string, DailyRosterPoints>>, d: string,
                            day: map<string, DailyRosterPoints>, s: PoolSettings, p: string)
    requires d !in done
    ensures SumOver(done[d := day], DayScore(p, s))
         == (if p in Participants(done) then SumOver(done, DayScore(p, s)) else 0) + DayScore(p, s)(day)
  {
    assert done[d := day] - {d} == done;
    SumOverRemove(done[d := day], DayScore(p, s), d);
    if p !in Participants(done) {
      AbsentScoresZero(done, p, s);
    }
  }

  /** The pointwise step of `SeasonTotalsAddDay`, for one participant of the longer season. */
  lemma SeasonTotalsAddDayAt(done: map<string, map<string, DailyRosterPoints>>, d: string,
                             day: map<string, DailyRosterPoints>, s: PoolSettings, p: string)
    requires d !in done
    requires p in Participants(done[d := day])
    ensures p in AddDay(SeasonTotals(done, s), day, s)
    ensures SeasonTotals(done[d := day], s)[p] == AddDay(SeasonTotals(done, s), day, s)[p]
  {
    ParticipantsAddDay(done, d, day);
    SeasonTotalAddDayAt(done, d, day, s, p);
    assert DayScore(p, s)(day) == if p in day then DailyTotal(day[p], s) else 0;
  }

  /** A season is its earlier dates plus one more: the totals grow by that date's points. */
  lemma SeasonTotalsAddDay(done: map<string, map<string, DailyRosterPoints>>, d: string,
                           day: map<string, DailyRosterPoints>, s: PoolSettings)
    requires d !in done
    ensures SeasonTotals(done[d := day], s) == AddDay(SeasonTotals(done, s), day, s)
  {
    ParticipantsAddDay(done, d, day);
    var lhs := SeasonTotals(done[d := day], s);
    var rhs := AddDay(SeasonTotals(done, s), day, s);
    assert lhs.Keys == Participants(done[d := day]);
    assert rhs.Keys == SeasonTotals(done, s).Keys + day.Keys;
    forall p | p in lhs ensures lhs[p] == rhs[p] {
      SeasonTotalsAddDayAt(done, d, day, s, p);
    }
    SameMap(lhs, rhs);
  }

  lemma SameMap(a: map<string, nat>, b: map<string, nat>)
    requires a.Keys == b.Keys && forall k :: k in a ==> a[k] == b[k]
    ensures a == b
  {
  }

  lemma SeasonTotalsEmpty(s: PoolSettings)
    ensures SeasonTotals(map[], s) == map[]
  {
    assert Participants(map[]) == {};
  }

  /** Adding a date entry by entry: running totals after the entries of `done` plus one more. */
  lemma AddDayStep(acc: map<string, nat>, done: map<string, DailyRosterPoints>, p: string,
                   e: DailyRosterPoints, s: PoolSettings)
    requires p !in done
    ensures AddDay(acc, done[p := e], s)
         == AddDay(acc, done, s)[p := (if p in acc then acc[p] else 0) + DailyTotal(e, s)]
  {
    var lhs := AddDay(acc, done[p := e], s);
    var rhs := AddDay(acc, done, s)[p := (if p in acc then acc[p] else 0) + DailyTotal(e, s)];
    assert lhs.Keys == rhs.Keys;
  }

  // ---- Ordering ------------------------------------------------------------------------

  /** The season total of each user of a list (zero for an unknown user). */
  function Scores(us: seq<string>, totals: map<string, nat>): (r: seq<nat>)
    ensures |r| == |us|
    ensures forall i :: 0 <= i < |us| && us[i] in totals ==> r[i] == totals[us[i]]
  {
    if us == [] then [] else [if us[0] in totals then totals[us[0]] else 0] + Scores(us[1..], totals)
  }

  predicate Distinct(us: seq<string>)
  {
    forall i, j :: 0 <= i < j < |us| ==> us[i] != us[j]
  }

  /** The users of a list that have total `q`. */
  ghost function WithScore(us: seq<string>, totals: map<string, nat>, q: nat): set<string>
  {
    set u | u in us && u in totals && totals[u] == q
  }

  lemma WithScoreCons(us: seq<string>, totals: map<string, nat>, q: nat)
    requires us != []
    ensures us[0] in totals && totals[us[0]] == q ==> WithScore(us, totals, q) == WithScore(us[1..], totals, q) + {us[0]}
    ensures !(us[0] in totals && totals[us[0]] == q) ==> WithScore(us, totals, q) == WithScore(us[1..], totals, q)
  {
    assert us == [us[0]] + us[1..];
  }

  /** Over a list naming each user once, a score occurs as many times as there are users with it. */
  lemma {:induction false} ScoresCount(us: seq<string>, totals: map<string, nat>, q: nat)
    requires Distinct(us)
    requires forall u :: u in us ==> u in totals
    ensures multiset(Scores(us, totals))[q] == |WithScore(us, totals, q)|
  {
    if us == [] {
      assert WithScore(us, totals, q) == {};
    } else {
      var tail := us[1..];
      assert Distinct(tail) by {
        forall i, j | 0 <= i < j < |tail| ensures tail[i] != tail[j] { assert us[i + 1] != us[j + 1]; }
      }
      ScoresCount(tail, totals, q);
      assert Scores(us, totals) == [totals[us[0]]] + Scores(tail, totals);
      assert multiset(Scores(us, totals)) == multiset{totals[us[0]]} + multiset(Scores(tail, totals));
      assert us[0] !in tail;
      WithScoreCons(us, totals, q);
    }
  }

  predicate NonIncreasing(a: seq<nat>)
  {
    forall i, j :: 0 <= i < j < |a| ==> a[i] >= a[j]
  }

  /** Inserts a value into a non-increasing list, keeping it non-increasing. */
  function InsertDesc(x: nat, a: seq<nat>): (r: seq<nat>)
    requires NonIncreasing(a)
    ensures NonIncreasing(r)
    ensures multiset(r) == multiset(a) + multiset{x}
    ensures |r| == |a| + 1 && (r[0] == x || (a != [] && r[0] == a[0]))
  {
    if a == [] || x >= a[0] then [x] + a
    else
      assert a == [a[0]] + a[1..];
      var rec := InsertDesc(x, a[1..]);
      assert a[0] >= rec[0];
      [a[0]] + rec
  }

  /** `sort()` followed by `reverse()`: the values from the largest to the smallest. */
  function SortDesc(a: seq<nat>): (r: seq<nat>)
    ensures NonIncreasing(r)
    ensures multiset(r) == multiset(a)
  {
    if a == [] then []
    else
      assert a == [a[0]] + a[1..];
      InsertDesc(a[0], SortDesc(a[1..]))
  }

  /** The participants whose total is `q`. */
  ghost function KeysWithScore(totals: map<string, nat>, q: nat): set<string>
  {
    set u | u in totals && totals[u] == q
  }

  /** A ranking in which each score occurs as often as among the participants names every
      participant when no two participants are tied. */
  lemma NoTiesRankEveryone(rank: seq<string>, totals: map<string, nat>)
    requires forall i :: 0 <= i < |rank| ==> rank[i] in totals
    requires forall q :: multiset(Scores(rank, totals))[q] == |KeysWithScore(totals, q)|
    requires forall u, v :: u in totals && v in totals && u != v ==> totals[u] != totals[v]
    ensures forall u :: u in totals ==> u in rank
  {
    forall u | u in totals ensures u in rank {
      var q := totals[u];
      assert KeysWithScore(totals, q) == {u};
      assert multiset(Scores(rank, totals))[q] == 1;
      assert q in multiset(Scores(rank, totals));
      var i :| 0 <= i < |rank| && Scores(rank, totals)[i] == q;
      assert rank[i] == u;
    }
  }
  // ---- get_final_rank -------------------------------------------------------------------

  /** Every daily entry of every date is a cumulated one. */
  predicate AllCumulated(sbd: map<string, map<string, DailyRosterPoints>>)
  {
    forall d, p :: d in sbd && p in sbd[d] ==> sbd[d][p].isCumulated
  }

  /** A final rank for the totals: one entry per participant, every entry a participant,
      totals from the highest down, and each total occurring as often as among the
      participants. Tied participants may share a place and push each other out. */
  ghost predicate IsFinalRank(rank: seq<string>, totals: map<string, nat>)
  {
    |rank| == |totals|
    && (forall i :: 0 <= i < |rank| ==> rank[i] in totals)
    && NonIncreasing(Scores(rank, totals))
    && (forall q :: multiset(Scores(rank, totals))[q] == |KeysWithScore(totals, q)|)
  }

  lemma {:induction false} DistinctCard(us: seq<string>)
    requires Distinct(us)
    ensures |set u | u in us| == |us|
  {
    if us != [] {
      var tail := us[1..];
      assert Distinct(tail) by {
        forall i, j | 0 <= i < j < |tail| ensures tail[i] != tail[j] { assert us[i + 1] != us[j + 1]; }
      }
      DistinctCard(tail);
      assert us[0] !in tail;
      assert (set u | u in us) == (set u | u in tail) + {us[0]};
    }
  }

  /** An enumeration of the participants without repetition has one score per participant,
      each score as often as among the participants. */
  lemma EnumerationScores(users: seq<string>, totals: map<string, nat>)
    requires Distinct(users)
    requires forall u :: u in users <==> u in totals
    ensures |users| == |totals|
    ensures forall q :: multiset(Scores(users, totals))[q] == |KeysWithScore(totals, q)|
  {
    DistinctCard(users);
    assert (set u | u in users) == totals.Keys;
    forall q ensures multiset(Scores(users, totals))[q] == |KeysWithScore(totals, q)| {
      ScoresCount(users, totals, q);
      assert WithScore(users, totals, q) == KeysWithScore(totals, q);
    }
  }

  /** Every entry of a date is cumulated. */
  predicate DayCumulated(day: map<string, DailyRosterPoints>)
  {
    forall p :: p in day ==> day[p].isCumulated
  }

  /** One iteration of the inner loop of `get_final_rank`: the entry's daily points are added
      to the participant's running total (0 when the participant has none yet). */
  method AddEntry(totals: map<string, nat>, day: map<string, DailyRosterPoints>, remaining: set<string>,
                  acc: map<string, nat>, p: string, s: PoolSettings)
    returns (next: map<string, nat>)
    requires p in remaining && p in day
    requires acc == AddDay(totals, day - remaining, s)
    requires DayCumulated(day - remaining) && day[p].isCumulated
    ensures next == AddDay(totals, day - (remaining - {p}), s)
    ensures DayCumulated(day - (remaining - {p}))
  {
    var dayPoints := GetTotalPoints(day[p], s);
    var previous := if p in acc then acc[p] else 0;
    assert day - (remaining - {p}) == (day - remaining)[p := day[p]];
    AddDayStep(totals, day - remaining, p, day[p], s);
    next := acc[p := previous + dayPoints];
  }

  /** A date without entries leaves the totals as they were. */
  lemma AddDayNothing(totals: map<string, nat>, s: PoolSettings)
    ensures AddDay(totals, map[], s) == totals
  {
  }

  /** The inner loop of `get_final_rank`: one date's entries added to the running totals,
      failing on the first entry that is not cumulated. */
  method AddDayPoints(totals: map<string, nat>, date: string, day: map<string, DailyRosterPoints>, s: PoolSettings)
    returns (r: Result<map<string, nat>>)
    ensures r.Ok? <==> DayCumulated(day)
    ensures r.Ok? ==> r.value == AddDay(totals, day, s)
    ensures r.Err? ==>
      (r.error.NotCumulated? && r.error.date == date
       && r.error.participant in day && !day[r.error.participant].isCumulated)
  {
    var acc := totals;
    var remaining := day.Keys;
    assert day - remaining == map[];
    AddDayNothing(totals, s);
    while remaining != {}
      invariant remaining <= day.Keys
      invariant DayCumulated(day - remaining)
      invariant acc == AddDay(totals, day - remaining, s)
      decreases |remaining|
    {
      var participant :| participant in remaining;
      if !day[participant].isCumulated {
        return Err(NotCumulated(date, participant));
      }
      acc := AddEntry(totals, day, remaining, acc, participant, s);
      remaining := remaining - {participant};
    }
    assert day - remaining == day;
    return Ok(acc);
  }

  /** One more date taken by the outer loop of `get_final_rank`: the dates done so far grow
      by it, and so do their totals. */
  lemma SeasonStep(sbd: map<string, map<string, DailyRosterPoints>>, remaining: set<string>, date: string, s: PoolSettings)
    requires date in remaining && remaining <= sbd.Keys
    requires AllCumulated(sbd - remaining)
    requires DayCumulated(sbd[date])
    ensures AllCumulated(sbd - (remaining - {date}))
    ensures SeasonTotals(sbd - (remaining - {date}), s) == AddDay(SeasonTotals(sbd - remaining, s), sbd[date], s)
  {
    var done := sbd - remaining;
    assert sbd - (remaining - {date}) == done[date := sbd[date]];
    SeasonTotalsAddDay(done, date, sbd[date], s);
  }

  /** The outer loop of `get_final_rank`: the season totals of all participants, or the first
      non-cumulated entry met. */
  method SeasonPoints(sbd: map<string, map<string, DailyRosterPoints>>, s: PoolSettings)
    returns (r: Result<map<string, nat>>)
    ensures r.Ok? <==> AllCumulated(sbd)
    ensures r.Ok? ==> r.value == SeasonTotals(sbd, s)
    ensures r.Err? ==>
      (r.error.NotCumulated? && r.error.date in sbd && r.error.participant in sbd[r.error.date]
       && !sbd[r.error.date][r.error.participant].isCumulated)
  {
    var totals: map<string, nat> := map[];
    var remaining := sbd.Keys;
    assert sbd - remaining == map[];
    SeasonTotalsEmpty(s);
    while remaining != {}
      invariant remaining <= sbd.Keys
      invariant AllCumulated(sbd - remaining)
      invariant totals == SeasonTotals(sbd - remaining, s)
      decreases |remaining|
    {
      var date :| date in remaining;
      var added := AddDayPoints(totals, date, sbd[date], s);
      if added.Err? {
        return Err(added.error);
      }
      SeasonStep(sbd, remaining, date, s);
      totals := added.value;
      remaining := remaining - {date};
    }
    assert sbd - remaining == sbd;
    return Ok(totals);
  }

  /** The loop of `get_final_rank` that maps each total to a user holding it (a later user
      with the same total replaces an earlier one), together with the order in which the
      users were visited and their totals in that order. */
  method MapPointsToUsers(totals: map<string, nat>) returns (pointsToUser: map<nat, string>, users: seq<string>, points: seq<nat>)
    ensures Distinct(users) && forall u :: u in users <==> u in totals
    ensures points == Scores(users, totals)
    ensures forall q :: q in pointsToUser ==> pointsToUser[q] in totals && totals[pointsToUser[q]] == q
    ensures forall x :: x in points ==> x in pointsToUser
  {
    pointsToUser := map[];
    users := [];
    points := [];
    var rest := totals;
    while rest != map[]
      invariant forall u :: u in rest ==> u in totals && rest[u] == totals[u]
      invariant forall u :: u in totals ==> (u in rest <==> u !in users)
      invariant forall u :: u in users ==> u in totals
      invariant Distinct(users)
      invariant |points| == |users| && forall i :: 0 <= i < |users| ==> points[i] == totals[users[i]]
      invariant forall q :: q in pointsToUser ==> pointsToUser[q] in totals && totals[pointsToUser[q]] == q
      invariant forall x :: x in points ==> x in pointsToUser
      decreases |rest|
    {
      var u :| u in rest;
      pointsToUser := pointsToUser[totals[u] := u];
      users := users + [u];
      points := points + [totals[u]];
      MapRemoveCard(rest, u);
      rest := rest - {u};
    }
  }

  /** The ranking half of `get_final_rank`: the totals sorted from the highest down, and each
      place given to the user the points-to-user map holds for that total. */
  method RankByPoints(totals: map<string, nat>) returns (rank: seq<string>)
    ensures IsFinalRank(rank, totals)
  {
    var pointsToUser, users, points := MapPointsToUsers(totals);
    var sorted := SortDesc(points);
    assert forall x :: x in sorted ==> x in pointsToUser by {
      forall x | x in sorted ensures x in pointsToUser {
        assert x in multiset(points);
      }
    }
    rank := UsersOfPoints(sorted, pointsToUser, totals);
    RankFromSorted(rank, sorted, users, totals);
  }

  /** The last loop of `get_final_rank`: each total, in order, replaced by the user the
      points-to-user map holds for it. */
  method UsersOfPoints(sorted: seq<nat>, pointsToUser: map<nat, string>, totals: map<string, nat>) returns (rank: seq<string>)
    requires forall x :: x in sorted ==> x in pointsToUser
    requires forall q :: q in pointsToUser ==> pointsToUser[q] in totals && totals[pointsToUser[q]] == q
    ensures |rank| == |sorted| && forall j :: 0 <= j < |rank| ==> rank[j] in totals && totals[rank[j]] == sorted[j]
  {
    rank := [];
    var i := 0;
    while i < |sorted|
      invariant 0 <= i <= |sorted|
      invariant |rank| == i
      invariant forall j :: 0 <= j < i ==> rank[j] in totals && totals[rank[j]] == sorted[j]
    {
      rank := rank + [pointsToUser[sorted[i]]];
      i := i + 1;
    }
  }

  /** Users listed in the order of the sorted totals form a final rank. */
  lemma RankFromSorted(rank: seq<string>, sorted: seq<nat>, users: seq<string>, totals: map<string, nat>)
    requires Distinct(users) && forall u :: u in users <==> u in totals
    requires NonIncreasing(sorted) && multiset(sorted) == multiset(Scores(users, totals))
    requires |rank| == |sorted| && forall j :: 0 <= j < |rank| ==> rank[j] in totals && totals[rank[j]] == sorted[j]
    ensures IsFinalRank(rank, totals)
  {
    EnumerationScores(users, totals);
    assert Scores(rank, totals) == sorted;
  }
}
