/** `PoolContext`: the mutable part of a pool (rosters, draft history, scores, picks).
    Each method updates the fields in place as the engine does, and is proved to leave the
    fields in the state the matching function of `ContextModel` computes. */
module Context {
  import opened PoolTypes
  import opened Roster
  import opened Scoring
  import opened ContextModel

  class PoolContext {
    var poolerRoster: map<string, PoolerRoster>
    var playersNameDrafted: seq<nat>
    var scoreByDay: Option<map<string, map<string, DailyRosterPoints>>>
    var tradablePicks: Option<Picks>
    var pastTradablePicks: Option<Picks>
    var players: map<nat, Player>

    /** The fields as one value. */
    function State(): ContextState
      reads this
    {
      ContextState(poolerRoster, playersNameDrafted, scoreByDay, tradablePicks, pastTradablePicks, players)
    }

    /** `PoolContext::new`: one empty roster per participant. */
    constructor(participants: seq<string>)
      ensures State() == NewContext(participants)
    {
      var rosters: map<string, PoolerRoster> := map[];
      for i := 0 to |participants|
        invariant rosters == map u | u in participants[..i] :: EmptyRoster
      {
        assert participants[..i + 1] == participants[..i] + [participants[i]];
        rosters := rosters[participants[i] := EmptyRoster];
      }
      assert participants[..|participants|] == participants;
      poolerRoster := rosters;
      playersNameDrafted := [];
      scoreByDay := Some(map[]);
      tradablePicks := Some([]);
      pastTradablePicks := Some([]);
      players := map[];
    }

    /** The possession loop at the head of both draft operations: whether any roster
        already holds the player. */
    method PickedByAnyone(id: nat) returns (picked: bool)
      ensures picked <==> ContextModel.PickedByAnyone(State(), id)
    {
      var users := poolerRoster.Keys;
      while users != {}
        invariant users <= poolerRoster.Keys
        invariant forall u :: u in poolerRoster && u !in users ==> !poolerRoster[u].Possesses(id)
        decreases |users|
      {
        var u :| u in users;
        if poolerRoster[u].Possesses(id) {
          return true;
        }
        users := users - {u};
      }
      return false;
    }

    /** `add_drafted_player`. */
    method AddDraftedPlayer(player: Player, drafter: string, settings: PoolSettings) returns (r: Result<()>)
      modifies this
      ensures AddDrafted(old(State()), player, drafter, settings) == (if r.Ok? then Ok(State()) else Err(r.error))
      ensures r.Err? ==> State() == old(State())
    {
      if drafter in poolerRoster {
        var roster := poolerRoster[drafter];
        var isAdded := false;
        match player.position {
          case F =>
            if AsU8(|roster.forwards|) < settings.numberForwards {
              roster := roster.(forwards := roster.forwards + [player.id]);
              isAdded := true;
            }
          case D =>
            if AsU8(|roster.defenders|) < settings.numberDefenders {
              roster := roster.(defenders := roster.defenders + [player.id]);
              isAdded := true;
            }
          case G =>
            if AsU8(|roster.goalies|) < settings.numberGoalies {
              roster := roster.(goalies := roster.goalies + [player.id]);
              isAdded := true;
            }
        }
        if !isAdded {
          if AsU8(|roster.reservists|) < settings.numberReservists {
            roster := roster.(reservists := roster.reservists + [player.id]);
          } else {
            return Err(NotEnoughSpace);
          }
        }
        poolerRoster := poolerRoster[drafter := roster];
        players := players[player.id := player];
        playersNameDrafted := playersNameDrafted + [player.id];
      }
      return Ok(());
    }

    /** One round of fresh picks, built entry by entry. */
    static method NewRound(users: set<string>) returns (round: map<string, string>)
      ensures round == IdentityRound(users)
    {
      round := map[];
      var rest := users;
      while rest != {}
        invariant rest <= users
        invariant round.Keys == users - rest && forall u :: u in round ==> round[u] == u
        decreases |rest|
      {
        var u :| u in rest;
        round := round[u := u];
        rest := rest - {u};
      }
    }

    /** `is_draft_done`: stops at the first roster short of the cap total; when none is,
        replaces the tradable picks with the next season's identity picks. */
    method IsDraftDone(settings: PoolSettings) returns (r: Result<bool>)
      requires CapsFit(settings)
      modifies this
      ensures r.Ok? && (r.value, State()) == CheckDraftDone(old(State()), settings)
    {
      var isDone := true;
      var users := poolerRoster.Keys;
      while users != {}
        invariant users <= poolerRoster.Keys && isDone
        invariant forall u :: u in poolerRoster && u !in users ==> poolerRoster[u].Count() >= CapTotal(settings)
        decreases |users|
      {
        var u :| u in users;
        if poolerRoster[u].Count() < CapTotal(settings) {
          assert !DraftDone(State(), settings);
          isDone := false;
          break;
        }
        users := users - {u};
      }
      if isDone {
        assert DraftDone(State(), settings);
        var newPicks: Picks := [];
        if settings.dynastieSettings.Some? {
          var rounds := settings.dynastieSettings.value.tradablePicks;
          for k := 0 to rounds
            invariant State() == old(State())
            invariant |newPicks| == k && forall i :: 0 <= i < k ==> newPicks[i] == IdentityRound(poolerRoster.Keys)
          {
            var round := NewRound(poolerRoster.Keys);
            newPicks := newPicks + [round];
          }
        }
        assert newPicks == NewTradablePicks(poolerRoster.Keys, settings);
        tradablePicks := Some(newPicks);
      }
      return Ok(isDone);
    }

    /** `draft_player`: the snake draft of a new pool. */
    method DraftPlayer(userId: string, player: Player, participants: seq<string>, settings: PoolSettings,
                       hasPrivileges: bool) returns (r: Result<bool>)
      requires CapsFit(settings)
      modifies this
      ensures (r, State()) == DraftClassic(old(State()), userId, player, participants, settings, hasPrivileges)
    {
      var picked := PickedByAnyone(player.id);
      if picked {
        return Err(AlreadyPicked);
      }
      if |participants| == 0 {
        return Err(Panic);
      }
      var playersDrafted := |playersNameDrafted|;
      var round := playersDrafted / |participants|;
      var index := if round % 2 == 1 then |participants| - 1 - playersDrafted % |participants|
                   else playersDrafted % |participants|;
      var nextDrafter := participants[index];
      if !hasPrivileges && nextDrafter != userId {
        return Err(NotYourTurn(nextDrafter));
      }
      var added := AddDraftedPlayer(player, nextDrafter, settings);
      if added.Err? {
        return Err(added.error);
      }
      r := IsDraftDone(settings);
    }

    /** `find_dynastie_next_drafter`: walks the final rank backwards (through the past picks
        while they cover the pick), recording a 0 for every drafter whose roster is full. */
    method FindDynastieNextDrafter(finalRank: seq<string>, settings: PoolSettings) returns (r: Result<string>)
      requires CapsFit(settings)
      modifies this
      ensures (r, State()) == FindNext(old(State()), finalRank, settings)
    {
      var maxPlayerCount := CapTotal(settings);
      if pastTradablePicks.None? {
        return Err(NoTradablePicks);
      }
      var past := pastTradablePicks.value;
      if |finalRank| == 0 {
        return Err(Panic);
      }
      var continueCount := 0;
      var nextDrafter: string;
      while true
        invariant continueCount < |finalRank|
        invariant State() == old(State()).(playersNameDrafted := playersNameDrafted)
        invariant FindNext(old(State()), finalRank, settings).0
               == NextDynastie(poolerRoster, finalRank, past, maxPlayerCount, playersNameDrafted, continueCount).0
        invariant FindNext(old(State()), finalRank, settings).1.playersNameDrafted
               == NextDynastie(poolerRoster, finalRank, past, maxPlayerCount, playersNameDrafted, continueCount).1
        decreases |finalRank| - continueCount
      {
        NextDynastieStep(poolerRoster, finalRank, past, maxPlayerCount, playersNameDrafted, continueCount);
        ghost var turn := DynastieTurn(finalRank, past, |playersNameDrafted|);
        var nbPlayersDrafted := |playersNameDrafted|;
        var indexDraft := |finalRank| - 1 - nbPlayersDrafted % |finalRank|;
        nextDrafter := finalRank[indexDraft];
        if nbPlayersDrafted < |past| * |finalRank| {
          var roundIndex := nbPlayersDrafted / |finalRank|;
          assert 0 <= roundIndex < |past| by {
            DivBound(nbPlayersDrafted, |finalRank|, |past|);
          }
          var round := past[roundIndex];
          if nextDrafter !in round {
            assert turn.None?;
            return Err(Panic);
          }
          nextDrafter := round[nextDrafter];
        }
        assert turn == Some(nextDrafter);
        if nextDrafter !in poolerRoster {
          return Err(UserDoesNotExist);
        }
        if poolerRoster[nextDrafter].Count() >= maxPlayerCount {
          playersNameDrafted := playersNameDrafted + [0];
          continueCount := continueCount + 1;
          if continueCount >= |finalRank| {
            return Err(AllPoolersFull);
          }
          continue;
        }
        break;
      }
      return Ok(nextDrafter);
    }

    /** `draft_player_dynastie`. */
    method DraftPlayerDynastie(userId: string, player: Player, finalRank: seq<string>, settings: PoolSettings,
                               hasPrivileges: bool) returns (r: Result<bool>)
      requires CapsFit(settings)
      modifies this
      ensures (r, State()) == DraftDynastie(old(State()), userId, player, finalRank, settings, hasPrivileges)
    {
      var picked := PickedByAnyone(player.id);
      if picked {
        return Err(AlreadyPicked);
      }
      var next := FindDynastieNextDrafter(finalRank, settings);
      if next.Err? {
        return Err(next.error);
      }
      var nextDrafter := next.value;
      if !hasPrivileges && nextDrafter != userId {
        return Err(NotYourTurn(nextDrafter));
      }
      var added := AddDraftedPlayer(player, nextDrafter, settings);
      if added.Err? {
        return Err(added.error);
      }
      r := IsDraftDone(settings);
    }

    /** `remove_player_from_roster`: the first of forwards, defenders, goalies and reservists
        holding the player loses it. */
    method RemovePlayerFromRoster(id: nat, user: string) returns (r: Result<()>)
      modifies this
      ensures RemoveFromRoster(old(State()), id, user) == (if r.Ok? then Ok(State()) else Err(r.error))
      ensures r.Err? ==> State() == old(State())
    {
      if user in poolerRoster {
        var roster := poolerRoster[user];
        var removal := roster.RemoveForward(id);
        if removal.0 {
          poolerRoster := poolerRoster[user := removal.1];
          return Ok(());
        }
        removal := roster.RemoveDefender(id);
        if removal.0 {
          poolerRoster := poolerRoster[user := removal.1];
          return Ok(());
        }
        removal := roster.RemoveGoalie(id);
        if removal.0 {
          poolerRoster := poolerRoster[user := removal.1];
          return Ok(());
        }
        removal := roster.RemoveReservist(id);
        if removal.0 {
          poolerRoster := poolerRoster[user := removal.1];
          return Ok(());
        }
      }
      return Err(CouldNotRemove);
    }

    /** `add_player_to_roster`: the player joins the user's reservists. */
    method AddPlayerToRoster(id: nat, user: string) returns (r: Result<()>)
      modifies this
      ensures AddToRoster(old(State()), id, user) == (if r.Ok? then Ok(State()) else Err(r.error))
      ensures r.Err? ==> State() == old(State())
    {
      if user in poolerRoster {
        var roster := poolerRoster[user];
        poolerRoster := poolerRoster[user := roster.(reservists := roster.reservists + [id])];
        return Ok(());
      }
      return Err(CouldNotAdd);
    }

    /** Who made the pick at `pickNumber` (`undo_draft_player`'s lookup): the snake order,
        or in a dynasty pool the owner of that pick in the past season's picks. */
    method LatestDrafter(participants: seq<string>, settings: PoolSettings, pickNumber: nat) returns (r: Result<string>)
      ensures r == UndoDrafter(participants, settings, pastTradablePicks, pickNumber)
    {
      if |participants| == 0 {
        return Err(Panic);
      }
      if settings.dynastieSettings.Some? && pastTradablePicks.Some? {
        var past := pastTradablePicks.value;
        var index := |participants| - 1 - pickNumber % |participants|;
        var nextDrafter := participants[index];
        if pickNumber < settings.dynastieSettings.value.tradablePicks * |participants| {
          if pickNumber / |participants| >= |past| || nextDrafter !in past[pickNumber / |participants|] {
            return Err(Panic);
          }
          r := Ok(past[pickNumber / |participants|][nextDrafter]);
        } else {
          r := Ok(nextDrafter);
        }
      } else {
        var round := pickNumber / |participants|;
        var index := if round % 2 == 1 then |participants| - 1 - pickNumber % |participants|
                     else pickNumber % |participants|;
        r := Ok(participants[index]);
      }
    }

    /** `undo_draft_player`: pops the history down to the last real pick, finds who made it
        and takes the player back. */
    method UndoDraftPlayer(participants: seq<string>, settings: PoolSettings) returns (r: Result<()>)
      modifies this
      ensures (r, State()) == Undo(old(State()), participants, settings)
    {
      var latestPickId: nat;
      while true
        invariant State() == old(State()).(playersNameDrafted := playersNameDrafted)
        invariant PopToLastPick(old(playersNameDrafted)) == PopToLastPick(playersNameDrafted)
        decreases |playersNameDrafted|
      {
        if playersNameDrafted == [] {
          return Err(NothingToUndo);
        }
        var last := playersNameDrafted[|playersNameDrafted| - 1];
        playersNameDrafted := playersNameDrafted[..|playersNameDrafted| - 1];
        if last > 0 {
          latestPickId := last;
          break;
        }
      }
      ghost var popped := State();
      assert PopToLastPick(old(playersNameDrafted)) == Some((latestPickId, playersNameDrafted));
      var drafter := LatestDrafter(participants, settings, |playersNameDrafted|);
      if drafter.Err? {
        return Err(drafter.error);
      }
      var latestDrafter := drafter.value;
      r := RemovePlayerFromRoster(latestPickId, latestDrafter);
      if r.Err? {
        assert RemoveFromRoster(popped, latestPickId, latestDrafter) == Err(r.error);
        return;
      }
      assert RemoveFromRoster(popped, latestPickId, latestDrafter) == Ok(State());
      assert r.value == ();
      players := players - {latestPickId};
    }

    /** `trade_roster_player`: off the giver's roster, onto the receiver's reservists. */
    method TradeRosterPlayer(id: nat, giver: string, receiver: string) returns (r: Result<()>)
      modifies this
      ensures (r, State()) == ContextModel.TradeRosterPlayer(old(State()), id, giver, receiver)
    {
      r := RemovePlayerFromRoster(id, giver);
      if r.Err? {
        return;
      }
      r := AddPlayerToRoster(id, receiver);
      if r.Ok? {
        assert r.value == ();
      }
    }

    /** `validate_trade_items`: every offered player on the user's roster, then every offered
        pick currently the user's. */
    method ValidateTradeItems(items: TradeItems, user: string) returns (r: Result<()>)
      ensures r == ContextModel.ValidateTradeItems(State(), items, user)
    {
      if user in poolerRoster {
        var roster := poolerRoster[user];
        for i := 0 to |items.players|
          invariant forall j :: 0 <= j < i ==> roster.Possesses(items.players[j])
        {
          if !roster.Possesses(items.players[i]) {
            return Err(PlayerNotPossessed);
          }
        }
        if tradablePicks.Some? {
          var picks := tradablePicks.value;
          for i := 0 to |items.picks|
            invariant CheckPicks(picks, items.picks, user) == CheckPicks(picks, items.picks[i..], user)
          {
            var pick := items.picks[i];
            assert items.picks[i..] == [pick] + items.picks[i + 1..];
            if pick.round >= |picks| || pick.from !in picks[pick.round] {
              return Err(Panic);
            }
            if picks[pick.round][pick.from] != user {
              return Err(PickNotPossessed);
            }
          }
        }
      }
      return Ok(());
    }

    /** `validate_trade`. */
    method ValidateTrade(trade: Trade) returns (r: Result<()>)
      ensures r == ContextModel.ValidateTrade(State(), trade)
    {
      if trade.fromItems.Size() == 0 || trade.toItems.Size() == 0 {
        return Err(NoItemsOnOneSide);
      }
      if trade.fromItems.Size() > 5 || trade.toItems.Size() > 5 {
        return Err(TooManyItems);
      }
      r := ValidateTradeItems(trade.fromItems, trade.proposedBy);
      if r.Err? {
        return;
      }
      r := ValidateTradeItems(trade.toItems, trade.askTo);
    }

    /** The player loop of `trade_roster_items`. */
    method MovePlayers(ids: seq<nat>, giver: string, receiver: string) returns (r: Result<()>)
      modifies this
      ensures (r, State()) == ContextModel.MovePlayers(old(State()), ids, giver, receiver)
    {
      for i := 0 to |ids|
        invariant (Ok(()), State()) == ContextModel.MovePlayers(old(State()), ids[..i], giver, receiver)
      {
        MovePlayersStep(old(State()), ids, i, giver, receiver);
        r := TradeRosterPlayer(ids[i], giver, receiver);
        if r.Err? {
          MovePlayersStops(old(State()), ids, i + 1, giver, receiver);
          return;
        }
      }
      assert ids[..|ids|] == ids;
      return Ok(());
    }

    /** The pick loop of `trade_roster_items`: each pick, when its original holder is in its
        round, now belongs to `owner`. */
    method ReassignPicks(items: seq<Pick>, owner: string) returns (r: Result<()>)
      modifies this
      ensures (r, tradablePicks) == ContextModel.ReassignPicks(old(tradablePicks), items, owner)
      ensures State() == old(State()).(tradablePicks := tradablePicks)
    {
      for i := 0 to |items|
        invariant (Ok(()), tradablePicks) == ContextModel.ReassignPicks(old(tradablePicks), items[..i], owner)
        invariant State() == old(State()).(tradablePicks := tradablePicks)
      {
        assert items[..i + 1][..i] == items[..i];
        var pick := items[i];
        if tradablePicks.Some? {
          var picks := tradablePicks.value;
          if pick.round >= |picks| {
            ReassignPicksStops(old(tradablePicks), items, i + 1, owner);
            return Err(Panic);
          }
          if pick.from in picks[pick.round] {
            tradablePicks := Some(picks[pick.round := picks[pick.round][pick.from := owner]]);
          }
        }
      }
      assert items[..|items|] == items;
      return Ok(());
    }

    /** `trade_roster_items`. */
    method TradeRosterItems(trade: Trade) returns (r: Result<()>)
      modifies this
      ensures (r, State()) == ContextModel.TradeRosterItems(old(State()), trade)
    {
      r := ValidateTrade(trade);
      if r.Err? {
        return;
      }
      r := MovePlayers(trade.fromItems.players, trade.proposedBy, trade.askTo);
      if r.Err? {
        return;
      }
      r := MovePlayers(trade.toItems.players, trade.askTo, trade.proposedBy);
      if r.Err? {
        return;
      }
      r := ReassignPicks(trade.fromItems.picks, trade.askTo);
      if r.Err? {
        return;
      }
      r := ReassignPicks(trade.toItems.picks, trade.proposedBy);
    }

    /** `get_final_rank`: the season totals of every participant, ranked from the highest
        down; an error when no scores are recorded or an entry is not cumulated. */
    method GetFinalRank(settings: PoolSettings) returns (r: Result<seq<string>>)
      ensures scoreByDay.None? ==> r == Err(NoScoreRecorded)
      ensures scoreByDay.Some? ==> (r.Ok? <==> AllCumulated(scoreByDay.value))
      ensures r.Ok? ==> IsFinalRank(r.value, SeasonTotals(scoreByDay.value, settings))
      ensures r.Err? && scoreByDay.Some? ==>
        (r.error.NotCumulated? && r.error.date in scoreByDay.value
         && r.error.participant in scoreByDay.value[r.error.date]
         && !scoreByDay.value[r.error.date][r.error.participant].isCumulated)
    {
      if scoreByDay.None? {
        return Err(NoScoreRecorded);
      }
      var totals := SeasonPoints(scoreByDay.value, settings);
      if totals.Err? {
        return Err(totals.error);
      }
      var rank := RankByPoints(totals.value);
      return Ok(rank);
    }
  }
}
