/** The state of a pool's `PoolContext` as a value, and what each of its operations does to
    that value. The `PoolContext` class (module `Context`) is proved to follow these functions;
    the lemmas at the end are the properties of the draft and trade engine. */
module ContextModel {
  import opened PoolTypes
  import opened Roster
  import opened Scoring

  /** Rounds of tradable picks: in each round, the original holder of a pick mapped to its current owner. */
  type Picks = seq<map<string, string>>

  datatype ContextState = ContextState(
    poolerRoster: map<string, PoolerRoster>,
    playersNameDrafted: seq<nat>,
    scoreByDay: Option<map<string, map<string, DailyRosterPoints>>>,
    tradablePicks: Option<Picks>,
    pastTradablePicks: Option<Picks>,
    players: map<nat, Player>)
  {
    /** `get_forwards_count`. */
    function GetForwardsCount(user: string): (r: Result<nat>)
      ensures r.Err? <==> user !in poolerRoster
      ensures r.Err? ==> r.error == UserDoesNotExist
    {
      if user in poolerRoster then Ok(|poolerRoster[user].forwards|) else Err(UserDoesNotExist)
    }

    /** `get_defenders_count`. */
    function GetDefendersCount(user: string): (r: Result<nat>)
      ensures r.Err? <==> user !in poolerRoster
      ensures r.Err? ==> r.error == UserDoesNotExist
    {
      if user in poolerRoster then Ok(|poolerRoster[user].defenders|) else Err(UserDoesNotExist)
    }

    /** `get_goalies_count`. */
    function GetGoaliesCount(user: string): (r: Result<nat>)
      ensures r.Err? <==> user !in poolerRoster
      ensures r.Err? ==> r.error == UserDoesNotExist
    {
      if user in poolerRoster then Ok(|poolerRoster[user].goalies|) else Err(UserDoesNotExist)
    }

    /** `get_reservists_count`. */
    function GetReservistsCount(user: string): (r: Result<nat>)
      ensures r.Err? <==> user !in poolerRoster
      ensures r.Err? ==> r.error == UserDoesNotExist
    {
      if user in poolerRoster then Ok(|poolerRoster[user].reservists|) else Err(UserDoesNotExist)
    }

    /** `get_roster_count`: the four counts added, or the error of a missing user. */
    function GetRosterCount(user: string): (r: Result<nat>)
      ensures r.Err? <==> user !in poolerRoster
      ensures r.Err? ==> r.error == UserDoesNotExist
      ensures r.Ok? ==> r.value == GetForwardsCount(user).value + GetDefendersCount(user).value
                                   + GetGoaliesCount(user).value + GetReservistsCount(user).value
    {
      if user in poolerRoster then Ok(poolerRoster[user].Count()) else Err(UserDoesNotExist)
    }
  }

  /** `PoolContext::new`: an empty roster for each participant, nothing drafted, empty score
      and pick records. */
  function NewContext(participants: seq<string>): (s: ContextState)
    ensures forall u :: u in s.poolerRoster <==> u in participants
    ensures forall u :: u in s.poolerRoster ==> s.poolerRoster[u] == EmptyRoster
    ensures s.playersNameDrafted == [] && s.players == map[]
    ensures s.scoreByDay == Some(map[]) && s.tradablePicks == Some([]) && s.pastTradablePicks == Some([])
  {
    ContextState(map u | u in participants :: EmptyRoster, [], Some(map[]), Some([]), Some([]), map[])
  }

  // ---- Drafting -------------------------------------------------------------------------

  /** Some roster already holds the player. */
  predicate PickedByAnyone(s: ContextState, id: nat)
  {
    exists u :: u in s.poolerRoster && s.poolerRoster[u].Possesses(id)
  }

  /** `add_drafted_player`: a drafter without a roster is silently skipped; otherwise the
      player is placed (slot, then reservists), recorded in `players` and appended to the
      draft history. */
  function AddDrafted(s: ContextState, player: Player, drafter: string, settings: PoolSettings): (r: Result<ContextState>)
    ensures drafter !in s.poolerRoster ==> r == Ok(s)
    ensures drafter in s.poolerRoster ==>
      (r.Err? <==> s.poolerRoster[drafter].Place(player.id, player.position, settings).None?)
    ensures r.Err? ==> r.error == NotEnoughSpace
    ensures r.Ok? && drafter in s.poolerRoster ==>
      r.value.playersNameDrafted == s.playersNameDrafted + [player.id]
      && r.value.poolerRoster.Keys == s.poolerRoster.Keys
      && r.value.poolerRoster[drafter].Count() == s.poolerRoster[drafter].Count() + 1
      && r.value.poolerRoster[drafter].Possesses(player.id)
      && (forall u :: u in s.poolerRoster && u != drafter ==> r.value.poolerRoster[u] == s.poolerRoster[u])
      && r.value.players == s.players[player.id := player]
      && r.value.scoreByDay == s.scoreByDay
      && r.value.tradablePicks == s.tradablePicks
      && r.value.pastTradablePicks == s.pastTradablePicks
  {
    if drafter !in s.poolerRoster then Ok(s)
    else
      match s.poolerRoster[drafter].Place(player.id, player.position, settings)
      case None => Err(NotEnoughSpace)
      case Some(placed) =>
        Ok(s.(poolerRoster := s.poolerRoster[drafter := placed],
              players := s.players[player.id := player],
              playersNameDrafted := s.playersNameDrafted + [player.id]))
  }

  /** Every roster has reached the total of the four caps. */
  predicate DraftDone(s: ContextState, settings: PoolSettings)
  {
    forall u :: u in s.poolerRoster ==> s.poolerRoster[u].Count() >= CapTotal(settings)
  }

  /** One round of fresh picks: every participant holds their own pick. */
  function IdentityRound(users: set<string>): (m: map<string, string>)
    ensures m.Keys == users && forall u :: u in m ==> m[u] == u
  {
    map u | u in users :: u
  }

  /** The picks of the next season: `tradable_picks` rounds of identity picks under dynastie
      settings, none otherwise. */
  function NewTradablePicks(users: set<string>, settings: PoolSettings): (r: Picks)
    ensures settings.dynastieSettings.None? ==> r == []
    ensures settings.dynastieSettings.Some? ==> |r| == settings.dynastieSettings.value.tradablePicks
    ensures forall i :: 0 <= i < |r| ==> r[i] == IdentityRound(users)
  {
    match settings.dynastieSettings
    case None => []
    case Some(ds) => seq(ds.tradablePicks, _ => IdentityRound(users))
  }

  /** `is_draft_done`: whether every roster is full and, when it is, the state with fresh
      tradable picks; otherwise the state unchanged. */
  function CheckDraftDone(s: ContextState, settings: PoolSettings): (r: (bool, ContextState))
    ensures r.0 <==> DraftDone(s, settings)
    ensures !r.0 ==> r.1 == s
    ensures r.0 ==> r.1 == s.(tradablePicks := Some(NewTradablePicks(s.poolerRoster.Keys, settings)))
  {
    if DraftDone(s, settings) then (true, s.(tradablePicks := Some(NewTradablePicks(s.poolerRoster.Keys, settings))))
    else (false, s)
  }

  /** The snake order: the position in the participant list of the drafter of pick `n`
      (counted from 0) — left to right in even rounds, right to left in odd rounds. */
  function SnakeIndex(n: nat, p: nat): (i: nat)
    requires p > 0
    ensures i < p
  {
    if (n / p) % 2 == 1 then p - 1 - n % p else n % p
  }

  /** `PoolContext::draft_player` (the snake draft of a new pool): the player must be free,
      the caller must be the drafter unless privileged; the player is then added and the
      completion of the draft checked. */
  function DraftClassic(s: ContextState, userId: string, player: Player, participants: seq<string>,
                        settings: PoolSettings, hasPrivileges: bool): (r: (Result<bool>, ContextState))
    ensures r.0.Err? ==> r.1 == s
    ensures PickedByAnyone(s, player.id) ==> r.0 == Err(AlreadyPicked)
    ensures !PickedByAnyone(s, player.id) && |participants| == 0 ==> r.0 == Err(Panic)
    ensures !PickedByAnyone(s, player.id) && |participants| > 0 && !hasPrivileges
            && participants[SnakeIndex(|s.playersNameDrafted|, |participants|)] != userId
            ==> r.0 == Err(NotYourTurn(participants[SnakeIndex(|s.playersNameDrafted|, |participants|)]))
    ensures r.0.Ok? ==>
      (|participants| > 0 && !PickedByAnyone(s, player.id)
       && (hasPrivileges || participants[SnakeIndex(|s.playersNameDrafted|, |participants|)] == userId))
  {
    if PickedByAnyone(s, player.id) then (Err(AlreadyPicked), s)
    else if |participants| == 0 then (Err(Panic), s)
    else
      var drafter := participants[SnakeIndex(|s.playersNameDrafted|, |participants|)];
      if !hasPrivileges && drafter != userId then (Err(NotYourTurn(drafter)), s)
      else
        match AddDrafted(s, player, drafter, settings)
        case Err(e) => (Err(e), s)
        case Ok(s1) =>
          var (done, s2) := CheckDraftDone(s1, settings);
          (Ok(done), s2)
  }

  /** A list of `k` zeros: the placeholders of skipped dynastie picks. */
  function Zeros(k: nat): (z: seq<nat>)
    ensures |z| == k && forall i :: 0 <= i < k ==> z[i] == 0
  {
    if k == 0 then [] else Zeros(k - 1) + [0]
  }

  /** The drafter of pick `n` in a dynastie draft before any roster is checked: the final rank
      read from the end, replaced by the current owner of that pick while past picks cover
      `n`; `None` when the pick's owner is missing (a panic). */
  function DynastieTurn(finalRank: seq<string>, past: Picks, n: nat): (d: Option<string>)
    requires |finalRank| > 0
    ensures n >= |past| * |finalRank| ==> d == Some(finalRank[|finalRank| - 1 - n % |finalRank|])
    ensures n < |past| * |finalRank| ==>
      var base := finalRank[|finalRank| - 1 - n % |finalRank|];
      n / |finalRank| < |past|
      && (base in past[n / |finalRank|] ==> d == Some(past[n / |finalRank|][base]))
      && (base !in past[n / |finalRank|] ==> d.None?)
  {
    var base := finalRank[|finalRank| - 1 - n % |finalRank|];
    if n < |past| * |finalRank| then
      assert n / |finalRank| < |past| by { DivBound(n, |finalRank|, |past|); }
      var round := past[n / |finalRank|];
      if base in round then Some(round[base]) else None
    else Some(base)
  }

  lemma DivBound(n: nat, p: nat, k: nat)
    requires p > 0 && n < k * p
    ensures 0 <= n / p < k
  {
    if n / p >= k {
      MulMonotone(k, n / p, p);
    }
  }

  /** Turn `n` of a dynastie draft goes to a participant whose roster is full. */
  predicate TurnFull(rosters: map<string, PoolerRoster>, finalRank: seq<string>, past: Picks, max: nat, n: nat)
    requires |finalRank| > 0
  {
    match DynastieTurn(finalRank, past, n)
    case Some(d) => d in rosters && rosters[d].Count() >= max
    case None => false
  }

  /** Every turn from `from` up to (not including) `to` goes to a full roster. */
  predicate TurnsFull(rosters: map<string, PoolerRoster>, finalRank: seq<string>, past: Picks, max: nat, from: nat, to: nat)
    requires |finalRank| > 0
  {
    forall n :: from <= n < to ==> TurnFull(rosters, finalRank, past, max, n)
  }

  lemma TurnsFullExtend(rosters: map<string, PoolerRoster>, finalRank: seq<string>, past: Picks, max: nat, from: nat, to: nat)
    requires |finalRank| > 0
    requires TurnFull(rosters, finalRank, past, max, from) && TurnsFull(rosters, finalRank, past, max, from + 1, to)
    ensures TurnsFull(rosters, finalRank, past, max, from, to)
  {
  }

  /** The loop of `find_dynastie_next_drafter` from `skipped` skipped picks on: a drafter
      whose roster is full gets a 0 placeholder and the turn passes on, until a drafter with
      room is found or every participant has been skipped. Returns the drafter and the
      new draft history. */
  function NextDynastie(rosters: map<string, PoolerRoster>, finalRank: seq<string>, past: Picks,
                        max: nat, drafted: seq<nat>, skipped: nat): (r: (Result<string>, seq<nat>))
    requires skipped < |finalRank|
    ensures exists k :: 0 <= k < |finalRank| - skipped + 1 && r.1 == drafted + Zeros(k)
    ensures r.0.Ok? ==> r.0.value in rosters && rosters[r.0.value].Count() < max
    ensures r.0.Err? ==> r.0.error in {Panic, UserDoesNotExist, AllPoolersFull}
    ensures r.0 == Err(AllPoolersFull) ==> r.1 == drafted + Zeros(|finalRank| - skipped)
    ensures |drafted| <= |r.1| && TurnsFull(rosters, finalRank, past, max, |drafted|, |r.1|)
    ensures r.0.Ok? ==> DynastieTurn(finalRank, past, |r.1|) == Some(r.0.value)
    ensures r.0 == Err(Panic) ==> DynastieTurn(finalRank, past, |r.1|).None?
    ensures r.0 == Err(UserDoesNotExist) ==>
      DynastieTurn(finalRank, past, |r.1|).Some? && DynastieTurn(finalRank, past, |r.1|).value !in rosters
    decreases |finalRank| - skipped
  {
    match DynastieTurn(finalRank, past, |drafted|)
    case None =>
      assert drafted == drafted + Zeros(0);
      (Err(Panic), drafted)
    case Some(d) =>
      if d !in rosters then
        assert drafted == drafted + Zeros(0);
        (Err(UserDoesNotExist), drafted)
      else if rosters[d].Count() >= max then
        assert TurnFull(rosters, finalRank, past, max, |drafted|);
        if skipped + 1 >= |finalRank| then
          assert |drafted + Zeros(1)| == |drafted| + 1;
          (Err(AllPoolersFull), drafted + Zeros(1))
        else
          var r := NextDynastie(rosters, finalRank, past, max, drafted + [0], skipped + 1);
          ZerosAppend(drafted, r.1, |finalRank|, skipped);
          TurnsFullExtend(rosters, finalRank, past, max, |drafted|, |r.1|);
          r
      else
        assert drafted == drafted + Zeros(0);
        (Ok(d), drafted)
  }

  /** One step of `NextDynastie`, as the loop of `find_dynastie_next_drafter` takes it. */
  lemma NextDynastieStep(rosters: map<string, PoolerRoster>, finalRank: seq<string>, past: Picks,
                         max: nat, drafted: seq<nat>, skipped: nat)
    requires skipped < |finalRank|
    ensures DynastieTurn(finalRank, past, |drafted|).None? ==>
      NextDynastie(rosters, finalRank, past, max, drafted, skipped) == (Err(Panic), drafted)
    ensures DynastieTurn(finalRank, past, |drafted|).Some? ==>
      var d := DynastieTurn(finalRank, past, |drafted|).value;
      NextDynastie(rosters, finalRank, past, max, drafted, skipped)
      == if d !in rosters then (Err(UserDoesNotExist), drafted)
         else if rosters[d].Count() < max then (Ok(d), drafted)
         else if skipped + 1 >= |finalRank| then (Err(AllPoolersFull), drafted + [0])
         else NextDynastie(rosters, finalRank, past, max, drafted + [0], skipped + 1)
  {
    assert Zeros(1) == [0];
  }

  lemma ZerosAppend(drafted: seq<nat>, out: seq<nat>, p: nat, skipped: nat)
    requires exists k :: 0 <= k < p - (skipped + 1) + 1 && out == drafted + [0] + Zeros(k)
    ensures exists k :: 0 <= k < p - skipped + 1 && out == drafted + Zeros(k)
  {
    var k :| 0 <= k < p - (skipped + 1) + 1 && out == drafted + [0] + Zeros(k);
    ZerosCons(k);
    assert out == drafted + Zeros(k + 1);
  }

  lemma {:induction false} ZerosCons(k: nat)
    ensures [0] + Zeros(k) == Zeros(k + 1)
  {
    if k > 0 {
      ZerosCons(k - 1);
    }
  }

  /** `find_dynastie_next_drafter`: no past picks is an error; an empty final rank panics;
      otherwise the loop, which leaves its placeholders in the history even when it fails. */
  function FindNext(s: ContextState, finalRank: seq<string>, settings: PoolSettings): (r: (Result<string>, ContextState))
    ensures r.1 == s.(playersNameDrafted := r.1.playersNameDrafted)
    ensures s.pastTradablePicks.None? ==> r == (Err(NoTradablePicks), s)
    ensures r.0.Ok? ==> r.0.value in s.poolerRoster && s.poolerRoster[r.0.value].Count() < CapTotal(settings)
    ensures exists k :: 0 <= k <= |finalRank| && r.1.playersNameDrafted == s.playersNameDrafted + Zeros(k)
    ensures s.pastTradablePicks.Some? && |finalRank| == 0 ==> r == (Err(Panic), s)
    ensures s.pastTradablePicks.Some? && |finalRank| > 0 ==>
      |s.playersNameDrafted| <= |r.1.playersNameDrafted|
      && TurnsFull(s.poolerRoster, finalRank, s.pastTradablePicks.value, CapTotal(settings),
                   |s.playersNameDrafted|, |r.1.playersNameDrafted|)
    ensures r.0.Ok? ==>
      s.pastTradablePicks.Some? && |finalRank| > 0
      && DynastieTurn(finalRank, s.pastTradablePicks.value, |r.1.playersNameDrafted|) == Some(r.0.value)
    ensures r.0 == Err(AllPoolersFull) ==> r.1.playersNameDrafted == s.playersNameDrafted + Zeros(|finalRank|)
  {
    match s.pastTradablePicks
    case None =>
      assert s.playersNameDrafted == s.playersNameDrafted + Zeros(0);
      (Err(NoTradablePicks), s)
    case Some(past) =>
      if |finalRank| == 0 then
        assert s.playersNameDrafted == s.playersNameDrafted + Zeros(0);
        (Err(Panic), s)
      else
        var (r, drafted) := NextDynastie(s.poolerRoster, finalRank, past, CapTotal(settings), s.playersNameDrafted, 0);
        (r, s.(playersNameDrafted := drafted))
  }

  /** `draft_player_dynastie`: like the snake draft, but the drafter comes from the final rank
      and the past picks, skipping full rosters. */
  function DraftDynastie(s: ContextState, userId: string, player: Player, finalRank: seq<string>,
                         settings: PoolSettings, hasPrivileges: bool): (r: (Result<bool>, ContextState))
    ensures PickedByAnyone(s, player.id) ==> r == (Err(AlreadyPicked), s)
    ensures r.1.poolerRoster != s.poolerRoster ==> r.0.Ok?
    ensures !PickedByAnyone(s, player.id) && FindNext(s, finalRank, settings).0.Err? ==>
      r == (Err(FindNext(s, finalRank, settings).0.error), FindNext(s, finalRank, settings).1)
    ensures !PickedByAnyone(s, player.id) && FindNext(s, finalRank, settings).0.Ok? && !hasPrivileges
            && FindNext(s, finalRank, settings).0.value != userId ==>
      r == (Err(NotYourTurn(FindNext(s, finalRank, settings).0.value)), FindNext(s, finalRank, settings).1)
    ensures r.0.Ok? ==>
      !PickedByAnyone(s, player.id) && FindNext(s, finalRank, settings).0.Ok?
      && var d := FindNext(s, finalRank, settings).0.value;
         (hasPrivileges || d == userId)
         && d in s.poolerRoster && s.poolerRoster[d].Place(player.id, player.position, settings).Some?
         && r.1.poolerRoster == s.poolerRoster[d := s.poolerRoster[d].Place(player.id, player.position, settings).value]
         && r.1.playersNameDrafted == FindNext(s, finalRank, settings).1.playersNameDrafted + [player.id]
         && r.1.players == s.players[player.id := player]
  {
    if PickedByAnyone(s, player.id) then (Err(AlreadyPicked), s)
    else
      var (next, s1) := FindNext(s, finalRank, settings);
      match next
      case Err(e) => (Err(e), s1)
      case Ok(drafter) =>
        if !hasPrivileges && drafter != userId then (Err(NotYourTurn(drafter)), s1)
        else
          match AddDrafted(s1, player, drafter, settings)
          case Err(e) => (Err(e), s1)
          case Ok(s2) =>
            var (done, s3) := CheckDraftDone(s2, settings);
            (Ok(done), s3)
  }

  // ---- Undo ----------------------------------------------------------------------------

  /** The pop loop of `undo_draft_player`: zeros are popped until the last real pick, which
      is returned with the history before it; `None` once the history is exhausted. */
  function PopToLastPick(drafted: seq<nat>): (r: Option<(nat, seq<nat>)>)
    ensures r.None? <==> forall i :: 0 <= i < |drafted| ==> drafted[i] == 0
    ensures r.Some? ==>
      (r.value.0 > 0 && |r.value.1| < |drafted|
       && drafted[..|r.value.1|] == r.value.1 && drafted[|r.value.1|] == r.value.0
       && forall i :: |r.value.1| < i < |drafted| ==> drafted[i] == 0)
    decreases |drafted|
  {
    if drafted == [] then None
    else
      var last := drafted[|drafted| - 1];
      var rest := drafted[..|drafted| - 1];
      if last > 0 then Some((last, rest))
      else
        var r := PopToLastPick(rest);
        if r.Some? then assert rest[..|r.value.1|] == drafted[..|r.value.1|]; r
        else r
  }

  /** Who made pick `n` according to the undo: the dynastie rule when the settings are
      dynastie ones and past picks exist (a pick is looked up in the past picks while
      `n` is under the settings' `tradable_picks` rounds), the snake rule otherwise.
      Out-of-range indices and missing keys are panics. */
  function UndoDrafter(participants: seq<string>, settings: PoolSettings, pastPicks: Option<Picks>, n: nat): (r: Result<string>)
    ensures |participants| == 0 ==> r == Err(Panic)
    ensures (settings.dynastieSettings.None? || pastPicks.None?) && |participants| > 0 ==>
      r == Ok(participants[SnakeIndex(n, |participants|)])
  {
    if |participants| == 0 then Err(Panic)
    else if settings.dynastieSettings.Some? && pastPicks.Some? then
      var p := |participants|;
      var base := participants[p - 1 - n % p];
      if n < settings.dynastieSettings.value.tradablePicks * p then
        if n / p < |pastPicks.value| && base in pastPicks.value[n / p] then Ok(pastPicks.value[n / p][base])
        else Err(Panic)
      else Ok(base)
    else Ok(participants[SnakeIndex(n, |participants|)])
  }

  lemma DivLower(n: nat, p: nat, k: nat)
    requires p > 0 && k * p <= n
    ensures k <= n / p
  {
    var q := n / p;
    assert n == q * p + n % p && n % p < p;
    if q < k {
      MulMonotone(q + 1, k, p);
    }
  }

  /** When the settings allow as many tradable rounds as there are past picks, the undo finds
      the drafter of a dynastie pick exactly as the draft did; a pick whose owner is missing
      is a panic on both sides. */
  lemma UndoDrafterDynastie(participants: seq<string>, settings: PoolSettings, past: Picks, n: nat)
    requires settings.dynastieSettings.Some? && |participants| > 0
    requires settings.dynastieSettings.value.tradablePicks == |past|
    ensures var r := UndoDrafter(participants, settings, Some(past), n);
            (r.Ok? <==> DynastieTurn(participants, past, n).Some?)
            && (r.Ok? ==> r.value == DynastieTurn(participants, past, n).value)
            && (r.Err? ==> r.error == Panic)
  {
    if n < |past| * |participants| {
      DivBound(n, |participants|, |past|);
      assert |past| * |participants| == settings.dynastieSettings.value.tradablePicks * |participants|;
    }
  }

  /** When the settings count more tradable rounds than there are past picks, undoing a pick
      of a round that has no past picks panics on the missing round. */
  lemma UndoDrafterMissingRound(participants: seq<string>, settings: PoolSettings, past: Picks, n: nat)
    requires settings.dynastieSettings.Some? && |participants| > 0
    requires |past| * |participants| <= n < settings.dynastieSettings.value.tradablePicks * |participants|
    ensures UndoDrafter(participants, settings, Some(past), n) == Err(Panic)
  {
    DivLower(n, |participants|, |past|);
  }

  /** `remove_player_from_roster`. */
  function RemoveFromRoster(s: ContextState, id: nat, user: string): (r: Result<ContextState>)
    ensures r.Err? <==> user !in s.poolerRoster || !s.poolerRoster[user].Possesses(id)
    ensures r.Err? ==> r.error == CouldNotRemove
    ensures r.Ok? ==> r.value == s.(poolerRoster := s.poolerRoster[user := s.poolerRoster[user].RemovePlayer(id).value])
  {
    if user !in s.poolerRoster then Err(CouldNotRemove)
    else
      match s.poolerRoster[user].RemovePlayer(id)
      case None => Err(CouldNotRemove)
      case Some(r) => Ok(s.(poolerRoster := s.poolerRoster[user := r]))
  }

  /** `add_player_to_roster`. */
  function AddToRoster(s: ContextState, id: nat, user: string): (r: Result<ContextState>)
    ensures r.Err? <==> user !in s.poolerRoster
    ensures r.Err? ==> r.error == CouldNotAdd
    ensures r.Ok? ==> r.value == s.(poolerRoster := s.poolerRoster[user := s.poolerRoster[user].AddReservist(id)])
  {
    if user !in s.poolerRoster then Err(CouldNotAdd)
    else Ok(s.(poolerRoster := s.poolerRoster[user := s.poolerRoster[user].AddReservist(id)]))
  }

  /** `undo_draft_player`: pops to the last real pick, works out who made it, takes the player
      off that roster and out of `players`. The pops persist whatever happens next. */
  function Undo(s: ContextState, participants: seq<string>, settings: PoolSettings): (r: (Result<()>, ContextState))
    ensures PopToLastPick(s.playersNameDrafted).None? ==> r == (Err(NothingToUndo), s.(playersNameDrafted := []))
    ensures PopToLastPick(s.playersNameDrafted).Some? ==>
      var id := PopToLastPick(s.playersNameDrafted).value.0;
      var rest := PopToLastPick(s.playersNameDrafted).value.1;
      var who := UndoDrafter(participants, settings, s.pastTradablePicks, |rest|);
      (r.0.Ok? <==> who.Ok? && who.value in s.poolerRoster && s.poolerRoster[who.value].Possesses(id))
      && (r.0.Ok? ==>
            r.1 == s.(poolerRoster := s.poolerRoster[who.value := s.poolerRoster[who.value].RemovePlayer(id).value],
                      playersNameDrafted := rest, players := s.players - {id}))
      && (r.0.Err? ==> r.1 == s.(playersNameDrafted := rest))
      && (who.Err? ==> r.0 == Err(who.error))
      && (who.Ok? && r.0.Err? ==> r.0 == Err(CouldNotRemove))
  {
    match PopToLastPick(s.playersNameDrafted)
    case None => (Err(NothingToUndo), s.(playersNameDrafted := []))
    case Some((id, rest)) =>
      var s1 := s.(playersNameDrafted := rest);
      match UndoDrafter(participants, settings, s.pastTradablePicks, |rest|)
      case Err(e) => (Err(e), s1)
      case Ok(drafter) =>
        match RemoveFromRoster(s1, id, drafter)
        case Err(e) => (Err(e), s1)
        case Ok(s2) => (Ok(()), s2.(players := s2.players - {id}))
  }

  // ---- Roster selections ----------------------------------------------------------------

  /** A selection of player ids a user may keep (`modify_roster`, `protect_players`): every id
      names a player of the pool, the user owns each of those players, and no player is
      selected twice or was already in `seen`. */
  predicate SelectionValid(s: ContextState, ids: seq<nat>, user: string, seen: set<nat>)
  {
    (forall i :: 0 <= i < |ids| ==>
       ids[i] in s.players && user in s.poolerRoster
       && s.poolerRoster[user].Possesses(s.players[ids[i]].id) && s.players[ids[i]].id !in seen)
    && (forall i, j :: 0 <= i < j < |ids| && ids[i] in s.players && ids[j] in s.players ==>
          s.players[ids[i]].id != s.players[ids[j]].id)
  }

  /** The selection loop of `modify_roster` and `protect_players`, id by id: an unknown id,
      then a repeated player, then (a missing roster is a panic) a player the user does not
      own stops it. */
  function SelectionCheck(s: ContextState, ids: seq<nat>, user: string, seen: set<nat>): (r: Result<()>)
    ensures r.Ok? <==> SelectionValid(s, ids, user, seen)
    ensures r.Err? ==> r.error == PlayerNotInPool || r.error.Duplicated? || r.error == Panic || r.error.NotPossessed?
    decreases |ids|
  {
    if ids == [] then Ok(())
    else if ids[0] !in s.players then Err(PlayerNotInPool)
    else
      var p := s.players[ids[0]];
      if p.id in seen then Err(Duplicated(p.id))
      else if user !in s.poolerRoster then Err(Panic)
      else if !s.poolerRoster[user].Possesses(p.id) then Err(NotPossessed(p.id))
      else
        var r := SelectionCheck(s, ids[1..], user, seen + {p.id});
        SelectionStep(s, ids, user, seen);
        r
  }

  /** A selection is valid exactly when its head is and its tail is, with the head's player
      counted as seen. */
  lemma SelectionStep(s: ContextState, ids: seq<nat>, user: string, seen: set<nat>)
    requires ids != [] && ids[0] in s.players
    ensures SelectionValid(s, ids, user, seen) <==>
      (user in s.poolerRoster && s.poolerRoster[user].Possesses(s.players[ids[0]].id)
       && s.players[ids[0]].id !in seen
       && SelectionValid(s, ids[1..], user, seen + {s.players[ids[0]].id}))
  {
    var pid := s.players[ids[0]].id;
    var tail := ids[1..];
    if SelectionValid(s, ids, user, seen) {
      forall i | 0 <= i < |tail| ensures tail[i] in s.players && s.players[tail[i]].id !in seen + {pid} {
        assert tail[i] == ids[i + 1];
      }
      forall i, j | 0 <= i < j < |tail| && tail[i] in s.players && tail[j] in s.players
        ensures s.players[tail[i]].id != s.players[tail[j]].id {
        assert tail[i] == ids[i + 1] && tail[j] == ids[j + 1];
      }
    }
    if user in s.poolerRoster && s.poolerRoster[user].Possesses(pid) && pid !in seen
       && SelectionValid(s, tail, user, seen + {pid}) {
      forall i | 0 <= i < |ids|
        ensures ids[i] in s.players && s.poolerRoster[user].Possesses(s.players[ids[i]].id)
                && s.players[ids[i]].id !in seen {
        if i > 0 { assert ids[i] == tail[i - 1]; }
      }
      forall i, j | 0 <= i < j < |ids| && ids[i] in s.players && ids[j] in s.players
        ensures s.players[ids[i]].id != s.players[ids[j]].id {
        assert ids[j] == tail[j - 1];
        if i > 0 { assert ids[i] == tail[i - 1]; }
      }
    }
  }

  // ---- Trades --------------------------------------------------------------------------

  /** `trade_roster_player`: off the giver's roster, onto the receiver's reservists. A failed
      addition keeps the removal. */
  function TradeRosterPlayer(s: ContextState, id: nat, giver: string, receiver: string): (r: (Result<()>, ContextState))
    ensures r.0.Err? && r.1 == s ==> giver !in s.poolerRoster || !s.poolerRoster[giver].Possesses(id)
    ensures r.0.Ok? ==> giver in s.poolerRoster && receiver in s.poolerRoster && s.poolerRoster[giver].Possesses(id)
  {
    match RemoveFromRoster(s, id, giver)
    case Err(e) => (Err(e), s)
    case Ok(s1) =>
      match AddToRoster(s1, id, receiver)
      case Err(e) => (Err(e), s1)
      case Ok(s2) => (Ok(()), s2)
  }

  /** The player loop of `trade_roster_items`: each id in turn, stopping at the first failure. */
  function MovePlayers(s: ContextState, ids: seq<nat>, giver: string, receiver: string): (r: (Result<()>, ContextState))
    ensures r.1.playersNameDrafted == s.playersNameDrafted && r.1.players == s.players
    ensures r.1.tradablePicks == s.tradablePicks && r.1.pastTradablePicks == s.pastTradablePicks
    ensures r.1.scoreByDay == s.scoreByDay && r.1.poolerRoster.Keys == s.poolerRoster.Keys
    decreases |ids|
  {
    if ids == [] then (Ok(()), s)
    else
      var (r, s1) := MovePlayers(s, ids[..|ids| - 1], giver, receiver);
      if r.Err? then (r, s1) else TradeRosterPlayer(s1, ids[|ids| - 1], giver, receiver)
  }

  /** The player loop one id further: that id is traded on what the earlier ones left. */
  lemma MovePlayersStep(s: ContextState, ids: seq<nat>, i: nat, giver: string, receiver: string)
    requires i < |ids|
    requires MovePlayers(s, ids[..i], giver, receiver).0.Ok?
    ensures MovePlayers(s, ids[..i + 1], giver, receiver)
         == TradeRosterPlayer(MovePlayers(s, ids[..i], giver, receiver).1, ids[i], giver, receiver)
  {
    assert ids[..i + 1][..i] == ids[..i];
  }

  /** The player loop stops at its first failure: once a prefix of the ids fails, the
      rest of them change nothing. */
  lemma {:induction false} MovePlayersStops(s: ContextState, ids: seq<nat>, k: nat, giver: string, receiver: string)
    requires k <= |ids|
    requires MovePlayers(s, ids[..k], giver, receiver).0.Err?
    ensures MovePlayers(s, ids, giver, receiver) == MovePlayers(s, ids[..k], giver, receiver)
    decreases |ids|
  {
    if k == |ids| {
      assert ids[..k] == ids;
    } else {
      assert ids[..|ids| - 1][..k] == ids[..k];
      MovePlayersStops(s, ids[..|ids| - 1], k, giver, receiver);
    }
  }

  /** The pick exists: its round is tracked and its original holder is in that round. */
  predicate HasPick(picks: Picks, k: Pick)
  {
    k.round < |picks| && k.from in picks[k.round]
  }

  /** Some pick of `items` is the pick of round `round` originally held by `from`. */
  predicate Listed(items: seq<Pick>, round: nat, from: string)
  {
    exists k :: k in items && k.round == round && k.from == from
  }

  /** One pick loop of `trade_roster_items`: each pick's current owner becomes `owner` when the
      original holder is in that round; a round past the end panics. */
  function ReassignPicks(picks: Option<Picks>, items: seq<Pick>, owner: string): (r: (Result<()>, Option<Picks>))
    ensures picks.None? ==> r == (Ok(()), None)
    ensures r.1.Some? <==> picks.Some?
    ensures r.1.Some? ==> |r.1.value| == |picks.value|
    ensures r.0.Ok? && picks.Some? ==> forall k :: k in items ==> k.round < |picks.value|
    ensures r.1.Some? ==> forall i :: 0 <= i < |picks.value| ==> r.1.value[i].Keys == picks.value[i].Keys
    ensures r.0.Ok? && picks.Some? ==>
      forall k :: k in items && HasPick(picks.value, k) ==> OwnsPick(r.1.value, k, owner)
    ensures r.1.Some? ==>
      forall i, f :: 0 <= i < |picks.value| && f in picks.value[i] && !Listed(items, i, f) ==>
        r.1.value[i][f] == picks.value[i][f]
    decreases |items|
  {
    if items == [] then (Ok(()), picks)
    else
      var (r, p1) := ReassignPicks(picks, items[..|items| - 1], owner);
      var pick := items[|items| - 1];
      assert forall k :: k in items ==> k in items[..|items| - 1] || k == pick;
      assert forall i, f :: Listed(items[..|items| - 1], i, f) ==> Listed(items, i, f);
      if r.Err? || p1.None? then (r, p1)
      else if pick.round >= |p1.value| then (Err(Panic), p1)
      else if pick.from in p1.value[pick.round] then (Ok(()), Some(AssignPick(p1.value, pick, owner)))
      else (Ok(()), p1)
  }

  /** One existing pick handed to `owner`: every round keeps its holders, and every other pick
      its owner. */
  function AssignPick(picks: Picks, pick: Pick, owner: string): (r: Picks)
    requires HasPick(picks, pick)
    ensures |r| == |picks| && OwnsPick(r, pick, owner)
    ensures forall i :: 0 <= i < |picks| ==> r[i].Keys == picks[i].Keys
    ensures forall i, f :: 0 <= i < |picks| && f in picks[i] && (i != pick.round || f != pick.from) ==>
              r[i][f] == picks[i][f]
  {
    picks[pick.round := picks[pick.round][pick.from := owner]]
  }

  /** The pick loop stops at its first panic: once a prefix of the picks fails, the rest of
      them change nothing. */
  lemma {:induction false} ReassignPicksStops(picks: Option<Picks>, items: seq<Pick>, k: nat, owner: string)
    requires k <= |items|
    requires ReassignPicks(picks, items[..k], owner).0.Err?
    ensures ReassignPicks(picks, items, owner) == ReassignPicks(picks, items[..k], owner)
    decreases |items|
  {
    if k == |items| {
      assert items[..k] == items;
    } else {
      assert items[..|items| - 1][..k] == items[..k];
      ReassignPicksStops(picks, items[..|items| - 1], k, owner);
    }
  }

  /** The pick checks of `validate_trade_items`, in order: a round past the end or an
      unknown original holder panics, a pick owned by someone else is an error. */
  function CheckPicks(picks: Picks, items: seq<Pick>, user: string): (r: Result<()>)
    ensures r.Ok? <==> forall k :: k in items ==> OwnsPick(picks, k, user)
    ensures r.Err? ==> r.error in {Panic, PickNotPossessed}
  {
    if items == [] then Ok(())
    else
      var k := items[0];
      assert k in items;
      if k.round >= |picks| || k.from !in picks[k.round] then Err(Panic)
      else if picks[k.round][k.from] != user then Err(PickNotPossessed)
      else
        var r := CheckPicks(picks, items[1..], user);
        assert forall j :: j in items ==> j == k || j in items[1..];
        r
  }

  predicate OwnsPick(picks: Picks, k: Pick, user: string)
  {
    k.round < |picks| && k.from in picks[k.round] && picks[k.round][k.from] == user
  }

  /** The side of a trade a user offers is theirs to give: every player is on their roster and
      every pick is currently theirs (when picks are tracked). A user without a roster passes. */
  predicate OwnsItems(s: ContextState, items: TradeItems, user: string)
  {
    user !in s.poolerRoster
    || ((forall id :: id in items.players ==> s.poolerRoster[user].Possesses(id))
        && (s.tradablePicks.Some? ==> forall k :: k in items.picks ==> OwnsPick(s.tradablePicks.value, k, user)))
  }

  /** `validate_trade_items`. */
  function ValidateTradeItems(s: ContextState, items: TradeItems, user: string): (r: Result<()>)
    ensures r.Ok? <==> OwnsItems(s, items, user)
    ensures user !in s.poolerRoster ==> r == Ok(())
    ensures r.Err? ==> r.error in {Panic, PlayerNotPossessed, PickNotPossessed}
  {
    if user !in s.poolerRoster then Ok(())
    else if exists id :: id in items.players && !s.poolerRoster[user].Possesses(id) then Err(PlayerNotPossessed)
    else if s.tradablePicks.Some? then CheckPicks(s.tradablePicks.value, items.picks, user)
    else Ok(())
  }

  /** `validate_trade`: one to five items a side, each side owned by the user offering it. */
  function ValidateTrade(s: ContextState, trade: Trade): (r: Result<()>)
    ensures r.Ok? <==> 0 < trade.fromItems.Size() <= 5 && 0 < trade.toItems.Size() <= 5
                       && OwnsItems(s, trade.fromItems, trade.proposedBy) && OwnsItems(s, trade.toItems, trade.askTo)
    ensures trade.fromItems.Size() == 0 || trade.toItems.Size() == 0 ==> r == Err(NoItemsOnOneSide)
    ensures r.Err? && r.error == TooManyItems ==> trade.fromItems.Size() > 5 || trade.toItems.Size() > 5
  {
    if trade.fromItems.Size() == 0 || trade.toItems.Size() == 0 then Err(NoItemsOnOneSide)
    else if trade.fromItems.Size() > 5 || trade.toItems.Size() > 5 then Err(TooManyItems)
    else
      match ValidateTradeItems(s, trade.fromItems, trade.proposedBy)
      case Err(e) => Err(e)
      case Ok(_) => ValidateTradeItems(s, trade.toItems, trade.askTo)
  }

  /** `trade_roster_items`: validation, then the players each way, then the picks each way;
      the first failure stops it, keeping what was already done. */
  function TradeRosterItems(s: ContextState, trade: Trade): (r: (Result<()>, ContextState))
    ensures ValidateTrade(s, trade).Err? ==> r == (Err(ValidateTrade(s, trade).error), s)
    ensures r.1.poolerRoster.Keys == s.poolerRoster.Keys && r.1.playersNameDrafted == s.playersNameDrafted
  {
    match ValidateTrade(s, trade)
    case Err(e) => (Err(e), s)
    case Ok(_) =>
      var (r1, s1) := MovePlayers(s, trade.fromItems.players, trade.proposedBy, trade.askTo);
      if r1.Err? then (r1, s1)
      else
        var (r2, s2) := MovePlayers(s1, trade.toItems.players, trade.askTo, trade.proposedBy);
        if r2.Err? then (r2, s2)
        else
          var (r3, p3) := ReassignPicks(s2.tradablePicks, trade.fromItems.picks, trade.askTo);
          if r3.Err? then (r3, s2.(tradablePicks := p3))
          else
            var (r4, p4) := ReassignPicks(p3, trade.toItems.picks, trade.proposedBy);
            (r4, s2.(tradablePicks := p4))
  }
}
