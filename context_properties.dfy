/** Properties of the draft and trade engine, stated over the `ContextState` functions. */
module ContextProperties {
  import opened PoolTypes
  import opened Roster
  import opened Scoring
  import opened ContextModel

  // ---- Snake order -----------------------------------------------------------------------

  lemma DivModUnique(k: nat, j: nat, p: nat)
    requires j < p
    ensures (k * p + j) / p == k && (k * p + j) % p == j
  {
    var n := k * p + j;
    var q, m := n / p, n % p;
    assert n == q * p + m;
    if q > k {
      MulMonotone(k + 1, q, p);
    } else if q < k {
      MulMonotone(q + 1, k, p);
    }
  }

  /** Pick `j` of round `k`: the `j`-th participant in an even round, the `j`-th from the
      end in an odd round. */
  lemma SnakeIndexOfRound(k: nat, j: nat, p: nat)
    requires j < p
    ensures SnakeIndex(k * p + j, p) == if k % 2 == 0 then j else p - 1 - j
  {
    DivModUnique(k, j, p);
  }

  /** The last pick of a round and the first pick of the next go to the same participant. */
  lemma SnakeRoundTurn(k: nat, p: nat)
    requires p > 0
    ensures SnakeIndex(k * p + (p - 1), p) == SnakeIndex((k + 1) * p, p)
  {
    SnakeIndexOfRound(k, p - 1, p);
    SnakeIndexOfRound(k + 1, 0, p);
    assert (k + 1) * p + 0 == (k + 1) * p;
  }

  /** The participant index of pick `j` of round `k`. */
  function RoundPick(k: nat, p: nat, j: nat): nat
    requires j < p
  {
    SnakeIndex(k * p + j, p)
  }

  /** Every participant drafts in each round ... */
  lemma SnakeRoundCoversAll(k: nat, p: nat, i: nat)
    requires i < p
    ensures exists j :: 0 <= j < p && RoundPick(k, p, j) == i
  {
    var j := if k % 2 == 0 then i else p - 1 - i;
    SnakeIndexOfRound(k, j, p);
    assert RoundPick(k, p, j) == i;
  }

  /** ... and only once: two picks of a round go to two different participants. */
  lemma SnakeRoundOnce(k: nat, p: nat, j1: nat, j2: nat)
    requires j1 < p && j2 < p && j1 != j2
    ensures RoundPick(k, p, j1) != RoundPick(k, p, j2)
  {
    SnakeIndexOfRound(k, j1, p);
    SnakeIndexOfRound(k, j2, p);
  }

  // ---- Draft and undo --------------------------------------------------------------------

  lemma PopAppended(drafted: seq<nat>, id: nat)
    requires id > 0
    ensures PopToLastPick(drafted + [id]) == Some((id, drafted))
  {
    assert (drafted + [id])[..|drafted|] == drafted;
  }

  /** Undoing a pick on top of a history whose last real pick is `id`, made by `d` under the
      snake rule, takes that pick off `d`'s roster. */
  lemma UndoSnakePick(s: ContextState, participants: seq<string>, settings: PoolSettings,
                      rest: seq<nat>, id: nat, d: string, back: PoolerRoster)
    requires settings.dynastieSettings.None? && |participants| > 0 && id > 0
    requires s.playersNameDrafted == rest + [id]
    requires participants[SnakeIndex(|rest|, |participants|)] == d
    requires d in s.poolerRoster && s.poolerRoster[d].RemovePlayer(id) == Some(back)
    ensures Undo(s, participants, settings)
         == (Ok(()), s.(playersNameDrafted := rest, poolerRoster := s.poolerRoster[d := back], players := s.players - {id}))
  {
    PopAppended(rest, id);
  }

  /** What a successful snake pick did: the player was free, the drafter of the turn got it,
      and the draft completion was checked. */
  lemma DraftClassicSuccess(s: ContextState, userId: string, player: Player, participants: seq<string>,
                            settings: PoolSettings, hasPrivileges: bool)
    requires DraftClassic(s, userId, player, participants, settings, hasPrivileges).0.Ok?
    ensures |participants| > 0 && !PickedByAnyone(s, player.id)
    ensures var d := participants[SnakeIndex(|s.playersNameDrafted|, |participants|)];
            AddDrafted(s, player, d, settings).Ok?
            && DraftClassic(s, userId, player, participants, settings, hasPrivileges).1
               == CheckDraftDone(AddDrafted(s, player, d, settings).value, settings).1
  {
  }

  /** A successful snake pick placed the player on the roster of the drafter of the turn,
      so that removing it from there gives that roster back. */
  lemma DraftClassicPlaces(s: ContextState, userId: string, player: Player, participants: seq<string>,
                           settings: PoolSettings, hasPrivileges: bool)
    requires forall u :: u in participants ==> u in s.poolerRoster
    requires DraftClassic(s, userId, player, participants, settings, hasPrivileges).0.Ok?
    ensures |participants| > 0
    ensures var d := participants[SnakeIndex(|s.playersNameDrafted|, |participants|)];
            var s2 := DraftClassic(s, userId, player, participants, settings, hasPrivileges).1;
            d in s2.poolerRoster && s2.poolerRoster[d].RemovePlayer(player.id) == Some(s.poolerRoster[d])
            && s2.playersNameDrafted == s.playersNameDrafted + [player.id]
            && s2.poolerRoster[d := s.poolerRoster[d]] == s.poolerRoster
  {
    DraftClassicSuccess(s, userId, player, participants, settings, hasPrivileges);
    var d := participants[SnakeIndex(|s.playersNameDrafted|, |participants|)];
    assert !s.poolerRoster[d].Possesses(player.id);
    AddDraftedPlaces(s, player, d, settings);
    PlaceRoundTrip(s.poolerRoster, d, player.id, player.position, settings);
  }

  /** A player placed on one roster of a map and taken off again gives the map back. */
  lemma PlaceRoundTrip(m: map<string, PoolerRoster>, d: string, id: nat, pos: Position, settings: PoolSettings)
    requires d in m && !m[d].Possesses(id) && m[d].Place(id, pos, settings).Some?
    ensures var m2 := m[d := m[d].Place(id, pos, settings).value];
            m2[d].RemovePlayer(id) == Some(m[d]) && m2[d := m[d]] == m
  {
    var orig := m[d];
    var placed := orig.Place(id, pos, settings).value;
    assert m[d := placed][d := orig] == m;
    RemoveAfterPlace(orig, id, pos, settings);
  }

  /** A pick added for a drafter with a roster: the player is placed on that roster, the
      pick is recorded, and the completion check changes neither. */
  lemma AddDraftedPlaces(s: ContextState, player: Player, d: string, settings: PoolSettings)
    requires d in s.poolerRoster
    requires AddDrafted(s, player, d, settings).Ok?
    ensures s.poolerRoster[d].Place(player.id, player.position, settings).Some?
    ensures var s2 := CheckDraftDone(AddDrafted(s, player, d, settings).value, settings).1;
            s2.poolerRoster == s.poolerRoster[d := s.poolerRoster[d].Place(player.id, player.position, settings).value]
            && s2.playersNameDrafted == s.playersNameDrafted + [player.id]
  {
  }

  /** The round trip of a snake draft: a successful pick followed by an undo with the same
      participants gives back the rosters and the draft history (the player id is a real
      one, not the 0 placeholder, and every participant has a roster). */
  lemma UndoAfterDraftClassic(s: ContextState, userId: string, player: Player, participants: seq<string>,
                              settings: PoolSettings, hasPrivileges: bool)
    requires settings.dynastieSettings.None?
    requires player.id > 0
    requires forall u :: u in participants ==> u in s.poolerRoster
    requires DraftClassic(s, userId, player, participants, settings, hasPrivileges).0.Ok?
    ensures var s2 := DraftClassic(s, userId, player, participants, settings, hasPrivileges).1;
            var u := Undo(s2, participants, settings);
            u.0.Ok? && u.1.poolerRoster == s.poolerRoster && u.1.playersNameDrafted == s.playersNameDrafted
            && player.id !in u.1.players
  {
    DraftClassicPlaces(s, userId, player, participants, settings, hasPrivileges);
    var s2 := DraftClassic(s, userId, player, participants, settings, hasPrivileges).1;
    var d := participants[SnakeIndex(|s.playersNameDrafted|, |participants|)];
    UndoSnakePick(s2, participants, settings, s.playersNameDrafted, player.id, d, s.poolerRoster[d]);
  }

  /** The round trip of a dynastie draft: a successful pick followed by an undo over the same
      final rank, with as many tradable rounds as past picks, gives back the rosters and takes
      the player out of the pool's players; the 0 placeholders the search left stay in the
      history. */
  lemma UndoAfterDraftDynastie(s: ContextState, userId: string, player: Player, finalRank: seq<string>,
                               settings: PoolSettings, hasPrivileges: bool)
    requires settings.dynastieSettings.Some? && s.pastTradablePicks.Some?
    requires settings.dynastieSettings.value.tradablePicks == |s.pastTradablePicks.value|
    requires player.id > 0
    requires DraftDynastie(s, userId, player, finalRank, settings, hasPrivileges).0.Ok?
    ensures var s2 := DraftDynastie(s, userId, player, finalRank, settings, hasPrivileges).1;
            var u := Undo(s2, finalRank, settings);
            u.0.Ok? && u.1.poolerRoster == s.poolerRoster && player.id !in u.1.players
            && exists k :: 0 <= k <= |finalRank| && u.1.playersNameDrafted == s.playersNameDrafted + Zeros(k)
  {
    var (next, s1) := FindNext(s, finalRank, settings);
    var d := next.value;
    var s2 := DraftDynastie(s, userId, player, finalRank, settings, hasPrivileges).1;
    assert !s.poolerRoster[d].Possesses(player.id);
    PlaceRoundTrip(s.poolerRoster, d, player.id, player.position, settings);
    PopAppended(s1.playersNameDrafted, player.id);
    UndoDrafterDynastie(finalRank, settings, s.pastTradablePicks.value, |s1.playersNameDrafted|);
    var k :| 0 <= k <= |finalRank| && s1.playersNameDrafted == s.playersNameDrafted + Zeros(k);
  }

  /** When every participant's roster is full, the dynastie search fails only after leaving
      one 0 placeholder per participant in the history. */
  lemma FullRostersLeavePlaceholders(s: ContextState, finalRank: seq<string>, settings: PoolSettings)
    requires s.pastTradablePicks.Some? && |finalRank| > 0
    requires forall u :: u in s.poolerRoster ==> s.poolerRoster[u].Count() >= CapTotal(settings)
    requires FindNext(s, finalRank, settings).0 == Err(AllPoolersFull)
    ensures FindNext(s, finalRank, settings).1.playersNameDrafted == s.playersNameDrafted + Zeros(|finalRank|)
  {
  }

  /** A successful dynastie pick goes to a participant whose roster had room, and the history
      holds the skipped picks' placeholders before the new pick. */
  /** The last pick recorded in `s2` went to the owner of that turn in the dynastie order, who
      holds the player, may draft for `userId`, and follows only turns whose rosters were full. */
  predicate DynastiePickMadeByTurn(s: ContextState, s2: ContextState, userId: string, id: nat,
                                   finalRank: seq<string>, settings: PoolSettings, hasPrivileges: bool)
  {
    var n := |s2.playersNameDrafted| - 1;
    s.pastTradablePicks.Some? && |finalRank| > 0 && n >= |s.playersNameDrafted|
    && DynastieTurn(finalRank, s.pastTradablePicks.value, n).Some?
    && var d := DynastieTurn(finalRank, s.pastTradablePicks.value, n).value;
       (hasPrivileges || d == userId)
       && d in s2.poolerRoster && s2.poolerRoster[d].Possesses(id)
       && TurnsFull(s.poolerRoster, finalRank, s.pastTradablePicks.value, CapTotal(settings),
                    |s.playersNameDrafted|, n)
  }

  lemma DraftDynastieRecordsPick(s: ContextState, userId: string, player: Player, finalRank: seq<string>,
                                 settings: PoolSettings, hasPrivileges: bool)
    requires DraftDynastie(s, userId, player, finalRank, settings, hasPrivileges).0.Ok?
    ensures var s2 := DraftDynastie(s, userId, player, finalRank, settings, hasPrivileges).1;
            exists k :: 0 <= k <= |finalRank| && s2.playersNameDrafted == s.playersNameDrafted + Zeros(k) + [player.id]
    ensures DynastiePickMadeByTurn(s, DraftDynastie(s, userId, player, finalRank, settings, hasPrivileges).1,
                                   userId, player.id, finalRank, settings, hasPrivileges)
  {
    var (next, s1) := FindNext(s, finalRank, settings);
    var k :| 0 <= k <= |finalRank| && s1.playersNameDrafted == s.playersNameDrafted + Zeros(k);
    assert s1.playersNameDrafted + [player.id] == s.playersNameDrafted + Zeros(k) + [player.id];
  }

  /** Past picks in which every participant still owns each of their own picks. */
  predicate IdentityPicks(past: Picks, users: seq<string>)
  {
    forall i, u :: 0 <= i < |past| && u in users ==> u in past[i] && past[i][u] == u
  }

  /** With no traded pick, a dynastie draft takes the final rank backwards, round after round. */
  lemma DynastieTurnIdentity(finalRank: seq<string>, past: Picks, n: nat)
    requires |finalRank| > 0 && IdentityPicks(past, finalRank)
    ensures DynastieTurn(finalRank, past, n) == Some(finalRank[|finalRank| - 1 - n % |finalRank|])
  {
    var base := finalRank[|finalRank| - 1 - n % |finalRank|];
    if n < |past| * |finalRank| {
      assert base in finalRank;
    }
  }

  /** With no traded pick and room on every roster, the next drafter is the final rank read
      from the end, and no placeholder pick is recorded. */
  lemma IdentityPicksReverseRank(rosters: map<string, PoolerRoster>, finalRank: seq<string>, past: Picks,
                                 max: nat, drafted: seq<nat>)
    requires |finalRank| > 0 && IdentityPicks(past, finalRank)
    requires forall u :: u in finalRank ==> u in rosters && rosters[u].Count() < max
    ensures NextDynastie(rosters, finalRank, past, max, drafted, 0)
            == (Ok(finalRank[|finalRank| - 1 - |drafted| % |finalRank|]), drafted)
  {
    DynastieTurnIdentity(finalRank, past, |drafted|);
    assert finalRank[|finalRank| - 1 - |drafted| % |finalRank|] in finalRank;
  }

  // ---- Trades ----------------------------------------------------------------------------

  function CountOf(): PoolerRoster -> nat
  {
    (r: PoolerRoster) => r.Count()
  }

  /** The number of players held by all the rosters together. */
  ghost function TotalPlayers(rosters: map<string, PoolerRoster>): nat
  {
    SumOver(rosters, CountOf())
  }

  /** A successful single-player trade takes the player off the giver, appends it to the
      receiver's reservists, leaves every other roster alone, and keeps the number of players
      the two hold together. */
  lemma TradeRosterPlayerMoves(s: ContextState, id: nat, giver: string, receiver: string)
    requires TradeRosterPlayer(s, id, giver, receiver).0.Ok?
    requires giver != receiver
    ensures var t := TradeRosterPlayer(s, id, giver, receiver).1.poolerRoster;
            t.Keys == s.poolerRoster.Keys
            && t[receiver].reservists == s.poolerRoster[receiver].reservists + [id]
            && t[giver] == s.poolerRoster[giver].RemovePlayer(id).value
            && t[giver].Count() + t[receiver].Count() == s.poolerRoster[giver].Count() + s.poolerRoster[receiver].Count()
            && (forall u :: u in t && u != giver && u != receiver ==> t[u] == s.poolerRoster[u])
  {
  }

  /** A successful single-player trade keeps the number of players in the pool. */
  lemma TradeRosterPlayerKeepsTotal(s: ContextState, id: nat, giver: string, receiver: string)
    requires TradeRosterPlayer(s, id, giver, receiver).0.Ok?
    ensures TotalPlayers(TradeRosterPlayer(s, id, giver, receiver).1.poolerRoster) == TotalPlayers(s.poolerRoster)
  {
    var m := s.poolerRoster;
    var removed := m[giver].RemovePlayer(id).value;
    var m1 := m[giver := removed];
    var added := m1[receiver].AddReservist(id);
    var m2 := m1[receiver := added];
    assert TradeRosterPlayer(s, id, giver, receiver).1.poolerRoster == m2;
    SumOverUpdate(m, CountOf(), giver, removed);
    SumOverUpdate(m1, CountOf(), receiver, added);
  }

  /** A player loop that went through keeps the number of players in the pool. */
  lemma {:induction false} MovePlayersKeepsTotal(s: ContextState, ids: seq<nat>, giver: string, receiver: string)
    requires MovePlayers(s, ids, giver, receiver).0.Ok?
    ensures TotalPlayers(MovePlayers(s, ids, giver, receiver).1.poolerRoster) == TotalPlayers(s.poolerRoster)
    decreases |ids|
  {
    if ids != [] {
      var (r, s1) := MovePlayers(s, ids[..|ids| - 1], giver, receiver);
      MovePlayersKeepsTotal(s, ids[..|ids| - 1], giver, receiver);
      TradeRosterPlayerKeepsTotal(s1, ids[|ids| - 1], giver, receiver);
    }
  }

  /** An executed trade neither creates nor loses players: the rosters hold as many players
      in all as before. */
  lemma TradeRosterItemsKeepsTotal(s: ContextState, trade: Trade)
    requires TradeRosterItems(s, trade).0.Ok?
    ensures TotalPlayers(TradeRosterItems(s, trade).1.poolerRoster) == TotalPlayers(s.poolerRoster)
  {
    var (r1, s1) := MovePlayers(s, trade.fromItems.players, trade.proposedBy, trade.askTo);
    MovePlayersKeepsTotal(s, trade.fromItems.players, trade.proposedBy, trade.askTo);
    MovePlayersKeepsTotal(s1, trade.toItems.players, trade.askTo, trade.proposedBy);
  }

  /** A successful single-player trade from a user who held the player once hands it over:
      the receiver holds it and the giver no longer does. */
  lemma TradeRosterPlayerHandsOver(s: ContextState, id: nat, giver: string, receiver: string)
    requires TradeRosterPlayer(s, id, giver, receiver).0.Ok?
    requires giver != receiver
    requires s.poolerRoster[giver].Ids()[id] == 1
    ensures var t := TradeRosterPlayer(s, id, giver, receiver).1.poolerRoster;
            t[receiver].Possesses(id) && !t[giver].Possesses(id)
  {
    var r := s.poolerRoster[giver].RemovePlayer(id).value;
    assert r.Ids()[id] == 0;
    PossessesIds(r, id);
  }

  /** The giver's ids in `after` are its ids in `before` less exactly `ids`, so it held all
      of them. */
  predicate GaveAway(before: map<string, PoolerRoster>, after: map<string, PoolerRoster>, ids: seq<nat>, giver: string)
  {
    giver in before ==> giver in after && after[giver].Ids() + multiset(ids) == before[giver].Ids()
  }

  /** The receiver's roster in `after` is its roster in `before` with `ids` appended to its
      reservists, in order. */
  predicate Received(before: map<string, PoolerRoster>, after: map<string, PoolerRoster>, ids: seq<nat>, receiver: string)
  {
    receiver in before ==>
      receiver in after && after[receiver] == before[receiver].(reservists := before[receiver].reservists + ids)
  }

  lemma GaveAwayStep(before: map<string, PoolerRoster>, s1: ContextState, ids: seq<nat>, giver: string, receiver: string)
    requires |ids| > 0 && giver != receiver
    requires TradeRosterPlayer(s1, ids[|ids| - 1], giver, receiver).0.Ok?
    requires giver in before ==> giver in s1.poolerRoster
    requires GaveAway(before, s1.poolerRoster, ids[..|ids| - 1], giver)
    ensures GaveAway(before, TradeRosterPlayer(s1, ids[|ids| - 1], giver, receiver).1.poolerRoster, ids, giver)
  {
    var front, id := ids[..|ids| - 1], ids[|ids| - 1];
    assert ids == front + [id];
    var m := s1.poolerRoster;
    assert TradeRosterPlayer(s1, id, giver, receiver).1.poolerRoster[giver] == m[giver].RemovePlayer(id).value;
    PossessesIds(m[giver], id);
    assert multiset(ids) == multiset(front) + multiset{id};
  }

  lemma ReceivedStep(before: map<string, PoolerRoster>, s1: ContextState, ids: seq<nat>, giver: string, receiver: string)
    requires |ids| > 0 && giver != receiver
    requires TradeRosterPlayer(s1, ids[|ids| - 1], giver, receiver).0.Ok?
    requires Received(before, s1.poolerRoster, ids[..|ids| - 1], receiver)
    ensures Received(before, TradeRosterPlayer(s1, ids[|ids| - 1], giver, receiver).1.poolerRoster, ids, receiver)
  {
    var id := ids[|ids| - 1];
    assert TradeRosterPlayer(s1, id, giver, receiver).1.poolerRoster[receiver] == s1.poolerRoster[receiver].AddReservist(id);
    if receiver in before {
      AppendSplit(before[receiver].reservists, ids);
    }
  }

  /** Appending all but the last id, then the last one, appends them all. */
  lemma AppendSplit(a: seq<nat>, ids: seq<nat>)
    requires |ids| > 0
    ensures a + ids[..|ids| - 1] + [ids[|ids| - 1]] == a + ids
  {
    assert ids == ids[..|ids| - 1] + [ids[|ids| - 1]];
  }

  /** A successful player loop succeeded on all but its last id, and then traded that one. */
  lemma MovePlayersLast(s: ContextState, ids: seq<nat>, giver: string, receiver: string)
    requires |ids| > 0
    requires MovePlayers(s, ids, giver, receiver).0.Ok?
    ensures MovePlayers(s, ids[..|ids| - 1], giver, receiver).0.Ok?
    ensures MovePlayers(s, ids, giver, receiver)
         == TradeRosterPlayer(MovePlayers(s, ids[..|ids| - 1], giver, receiver).1, ids[|ids| - 1], giver, receiver)
  {
  }

  /** A player loop that moved at least one player ran between two users holding rosters. */
  lemma MovePlayersNeedsRosters(s: ContextState, ids: seq<nat>, giver: string, receiver: string)
    requires |ids| > 0 && MovePlayers(s, ids, giver, receiver).0.Ok?
    ensures giver in s.poolerRoster && receiver in s.poolerRoster
  {
    MovePlayersLast(s, ids, giver, receiver);
  }

  /** The last player of a successful loop is taken off the giver on top of the others. */
  lemma GivesAwayLast(s: ContextState, ids: seq<nat>, giver: string, receiver: string)
    requires |ids| > 0 && giver != receiver
    requires MovePlayers(s, ids, giver, receiver).0.Ok?
    requires GaveAway(s.poolerRoster, MovePlayers(s, ids[..|ids| - 1], giver, receiver).1.poolerRoster, ids[..|ids| - 1], giver)
    ensures GaveAway(s.poolerRoster, MovePlayers(s, ids, giver, receiver).1.poolerRoster, ids, giver)
  {
    MovePlayersLast(s, ids, giver, receiver);
    GaveAwayStep(s.poolerRoster, MovePlayers(s, ids[..|ids| - 1], giver, receiver).1, ids, giver, receiver);
  }

  /** The last player of a successful loop joins the receiver after the others. */
  lemma DeliversLast(s: ContextState, ids: seq<nat>, giver: string, receiver: string)
    requires |ids| > 0 && giver != receiver
    requires MovePlayers(s, ids, giver, receiver).0.Ok?
    requires Received(s.poolerRoster, MovePlayers(s, ids[..|ids| - 1], giver, receiver).1.poolerRoster, ids[..|ids| - 1], receiver)
    ensures Received(s.poolerRoster, MovePlayers(s, ids, giver, receiver).1.poolerRoster, ids, receiver)
  {
    MovePlayersLast(s, ids, giver, receiver);
    ReceivedStep(s.poolerRoster, MovePlayers(s, ids[..|ids| - 1], giver, receiver).1, ids, giver, receiver);
  }

  /** The player loop of a trade, once it succeeds between two different users, takes every
      listed player off the giver. */
  lemma {:induction false} MovePlayersGivesAway(s: ContextState, ids: seq<nat>, giver: string, receiver: string)
    requires MovePlayers(s, ids, giver, receiver).0.Ok?
    requires giver != receiver
    ensures GaveAway(s.poolerRoster, MovePlayers(s, ids, giver, receiver).1.poolerRoster, ids, giver)
    decreases |ids|
  {
    if ids != [] {
      MovePlayersLast(s, ids, giver, receiver);
      MovePlayersGivesAway(s, ids[..|ids| - 1], giver, receiver);
      GivesAwayLast(s, ids, giver, receiver);
    }
  }

  /** The player loop of a trade, once it succeeds between two different users, appends every
      listed player to the receiver's reservists. */
  lemma {:induction false} MovePlayersDelivers(s: ContextState, ids: seq<nat>, giver: string, receiver: string)
    requires MovePlayers(s, ids, giver, receiver).0.Ok?
    requires giver != receiver
    ensures Received(s.poolerRoster, MovePlayers(s, ids, giver, receiver).1.poolerRoster, ids, receiver)
    decreases |ids|
  {
    if ids != [] {
      MovePlayersLast(s, ids, giver, receiver);
      MovePlayersDelivers(s, ids[..|ids| - 1], giver, receiver);
      DeliversLast(s, ids, giver, receiver);
    }
  }

  /** What a successful trade went through: validation, both player loops and both pick loops,
      the rosters being those the second player loop left. */
  lemma TradeRosterItemsSteps(s: ContextState, trade: Trade)
    requires TradeRosterItems(s, trade).0.Ok?
    ensures ValidateTrade(s, trade).Ok?
    ensures MovePlayers(s, trade.fromItems.players, trade.proposedBy, trade.askTo).0.Ok?
    ensures var s1 := MovePlayers(s, trade.fromItems.players, trade.proposedBy, trade.askTo).1;
            MovePlayers(s1, trade.toItems.players, trade.askTo, trade.proposedBy).0.Ok?
            && TradeRosterItems(s, trade).1.poolerRoster
               == MovePlayers(s1, trade.toItems.players, trade.askTo, trade.proposedBy).1.poolerRoster
  {
  }

  /** The players of a successful trade between two users with rosters change hands: counted
      with multiplicity, the proposer gives the offered players and gets the asked ones, the
      other side the reverse; each asked player ends with the proposer and each offered player
      not also asked ends with the other side. */
  lemma TradeRosterItemsMovesPlayers(s: ContextState, trade: Trade)
    requires TradeRosterItems(s, trade).0.Ok?
    requires trade.proposedBy != trade.askTo
    requires trade.proposedBy in s.poolerRoster && trade.askTo in s.poolerRoster
    ensures var t := TradeRosterItems(s, trade).1.poolerRoster;
            var p := trade.proposedBy;
            var a := trade.askTo;
            t[p].Ids() + multiset(trade.fromItems.players) == s.poolerRoster[p].Ids() + multiset(trade.toItems.players)
            && t[a].Ids() + multiset(trade.toItems.players) == s.poolerRoster[a].Ids() + multiset(trade.fromItems.players)
            && (forall id :: id in trade.toItems.players ==> t[p].Possesses(id))
            && (forall id :: id in trade.fromItems.players && id !in trade.toItems.players ==> t[a].Possesses(id))
  {
    var p, a := trade.proposedBy, trade.askTo;
    var from, to := trade.fromItems.players, trade.toItems.players;
    TradeRosterItemsSteps(s, trade);
    var s1 := MovePlayers(s, from, p, a).1;
    MovePlayersGivesAway(s, from, p, a);
    MovePlayersDelivers(s, from, p, a);
    MovePlayersGivesAway(s1, to, a, p);
    MovePlayersDelivers(s1, to, a, p);
    SwapIds(s.poolerRoster, s1.poolerRoster, TradeRosterItems(s, trade).1.poolerRoster, from, to, p, a);
  }

  /** Two hand-overs in opposite directions, seen on the rosters alone. */
  lemma SwapIds(m0: map<string, PoolerRoster>, m1: map<string, PoolerRoster>, m2: map<string, PoolerRoster>,
                from: seq<nat>, to: seq<nat>, p: string, a: string)
    requires p != a && p in m0 && a in m0 && m1.Keys == m0.Keys
    requires GaveAway(m0, m1, from, p) && Received(m0, m1, from, a)
    requires GaveAway(m1, m2, to, a) && Received(m1, m2, to, p)
    ensures p in m2 && a in m2
    ensures m2[p].Ids() + multiset(from) == m0[p].Ids() + multiset(to)
    ensures m2[a].Ids() + multiset(to) == m0[a].Ids() + multiset(from)
    ensures forall id :: id in to ==> m2[p].Possesses(id)
    ensures forall id :: id in from && id !in to ==> m2[a].Possesses(id)
  {
    assert m1[a].Ids() == m0[a].Ids() + multiset(from);
    assert m2[p].Ids() == m1[p].Ids() + multiset(to);
    forall id | id in to
      ensures m2[p].Possesses(id)
    {
      assert id in m2[p].reservists;
    }
    forall id | id in from && id !in to
      ensures m2[a].Possesses(id)
    {
      var lhs := m2[a].Ids() + multiset(to);
      var rhs := m0[a].Ids() + multiset(from);
      assert lhs[id] == m2[a].Ids()[id] + multiset(to)[id];
      assert rhs[id] == m0[a].Ids()[id] + multiset(from)[id];
      assert multiset(to)[id] == 0 && multiset(from)[id] > 0;
      PossessesIds(m2[a], id);
    }
  }

  /** The picks of a successful trade change hands: every asked pick that exists ends owned
      by the proposer, and every offered pick that exists and is not also asked ends owned by
      the other side. */
  lemma TradeRosterItemsMovesPicks(s: ContextState, trade: Trade)
    requires TradeRosterItems(s, trade).0.Ok?
    requires s.tradablePicks.Some?
    ensures var t := TradeRosterItems(s, trade).1.tradablePicks;
            t.Some?
            && (forall k :: k in trade.toItems.picks && HasPick(s.tradablePicks.value, k) ==>
                  OwnsPick(t.value, k, trade.proposedBy))
            && (forall k :: k in trade.fromItems.picks && HasPick(s.tradablePicks.value, k)
                             && !Listed(trade.toItems.picks, k.round, k.from) ==>
                  OwnsPick(t.value, k, trade.askTo))
  {
    var p, a := trade.proposedBy, trade.askTo;
    var s1 := MovePlayers(s, trade.fromItems.players, p, a).1;
    var s2 := MovePlayers(s1, trade.toItems.players, a, p).1;
    var p3 := ReassignPicks(s2.tradablePicks, trade.fromItems.picks, a).1;
    assert p3.Some?;
    forall k | k in trade.fromItems.picks && HasPick(s.tradablePicks.value, k)
                && !Listed(trade.toItems.picks, k.round, k.from)
      ensures OwnsPick(TradeRosterItems(s, trade).1.tradablePicks.value, k, a)
    {
      assert HasPick(p3.value, k);
    }
    forall k | k in trade.toItems.picks && HasPick(s.tradablePicks.value, k)
      ensures OwnsPick(TradeRosterItems(s, trade).1.tradablePicks.value, k, p)
    {
      assert HasPick(p3.value, k);
    }
  }
}
