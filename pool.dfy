/** `Pool`: a fantasy-hockey pool, its participants, settings, status, trades and context.
    Each method updates the fields in place as the engine does, and is proved to leave the
    pool in the state the matching function of `PoolModel` computes. The status checks of
    the engine always pass, so none appears here. */
module PoolEngine {
  import opened PoolTypes
  import opened Roster
  import opened Scoring
  import opened ContextModel
  import opened Context
  import opened PoolModel

  class Pool {
    var name: string
    var owner: string
    var numberPoolers: U8
    var participants: Option<seq<string>>
    var settings: PoolSettings
    var status: PoolState
    var finalRank: Option<seq<string>>
    var nbPlayerDrafted: U8
    var nbTrade: nat
    var trades: Option<seq<Trade>>
    var context: PoolContext?
    var dateUpdated: int
    var seasonStart: string
    var seasonEnd: string

    /** The fields as one value, with the context's fields in place of the context. */
    function Value(): PoolValue
      reads this, context
    {
      PoolValue(name, owner, numberPoolers, participants, settings, status, finalRank, nbPlayerDrafted,
                nbTrade, trades, if context == null then None else Some(context.State()),
                dateUpdated, seasonStart, seasonEnd)
    }

    /** `Pool::new`. */
    constructor(poolName: string, poolOwner: string, poolers: U8)
      ensures Value() == NewPool(poolName, poolOwner, poolers)
    {
      name := poolName;
      owner := poolOwner;
      numberPoolers := poolers;
      participants := None;
      settings := DefaultSettings();
      status := Created;
      finalRank := None;
      nbPlayerDrafted := 0;
      nbTrade := 0;
      trades := None;
      context := null;
      dateUpdated := 0;
      seasonStart := "2023-10-10";
      seasonEnd := "2024-04-18";
    }

    /** `create_trade`: `today` is the calendar day and `now` the time in milliseconds. */
    method CreateTrade(trade: Trade, userId: string, today: int, now: int) returns (r: Result<()>)
      modifies this
      ensures context == old(context)
      ensures (r, Value()) == PoolModel.CreateTrade(old(Value()), trade, userId, today, now)
    {
      if today > TRADE_DEADLINE_DAY {
        return Err(TradeDeadlinePassed);
      }
      if userId != trade.proposedBy {
        r := Value().HasPrivileges(userId);
        if r.Err? {
          return;
        }
      }
      if context == null {
        return Err(NoContext);
      }
      r := context.ValidateTrade(trade);
      if r.Err? {
        return;
      }
      if trade.proposedBy !in context.poolerRoster || trade.askTo !in context.poolerRoster {
        return Err(UsersNotInPool);
      }
      if trades.None? {
        return Err(NoTrades);
      }
      var list := trades.value;
      for i := 0 to |list|
        invariant forall j :: 0 <= j < i ==> list[j].status != NEW
      {
        if list[i].status == NEW {
          return Err(OneActiveTrade);
        }
      }
      trades := Some(list + [trade.(dateCreated := now, status := NEW, id := nbTrade)]);
      return Ok(());
    }

    /** `delete_trade`. */
    method DeleteTrade(userId: string, tradeId: nat) returns (r: Result<()>)
      modifies this
      ensures context == old(context)
      ensures (r, Value()) == PoolModel.DeleteTrade(old(Value()), userId, tradeId)
    {
      if nbTrade < tradeId {
        return Err(TradeDoesNotExist);
      }
      var privileged := Value().HasOwnerRights(userId) || Value().HasAssistantsRights(userId);
      if trades.None? {
        return Err(NoTrades);
      }
      var list := trades.value;
      match TradePosition(list, tradeId)
      case None =>
        return Err(TradeNotFound);
      case Some(i) =>
        if list[i].status != NEW {
          return Err(TradeNotDeletable);
        }
        if !privileged && list[i].proposedBy != userId {
          return Err(OnlyCreatorCanCancel);
        }
        trades := Some(list[..i] + list[i + 1..]);
        return Ok(());
    }

    /** `respond_trade`: `now` is the time in milliseconds. */
    method RespondTrade(userId: string, isAccepted: bool, tradeId: nat, now: int) returns (r: Result<()>)
      modifies this, context
      ensures context == old(context)
      ensures (r, Value()) == PoolModel.RespondTrade(old(Value()), userId, isAccepted, tradeId, now)
    {
      if nbTrade < tradeId {
        return Err(TradeDoesNotExist);
      }
      var privileged := Value().HasOwnerRights(userId) || Value().HasAssistantsRights(userId);
      if trades.None? {
        return Err(TradeNotFound);
      }
      var list := trades.value;
      match TradePosition(list, tradeId)
      case None =>
        return Err(TradeNotFound);
      case Some(i) =>
        if list[i].status != NEW {
          return Err(TradeNotRespondable);
        }
        if !privileged && list[i].askTo != userId {
          return Err(OnlyAskedCanRespond);
        }
        if list[i].dateCreated + TRADE_WAIT_MS > now {
          return Err(TradeTooRecent);
        }
        if isAccepted {
          if context == null {
            return Err(NoContext);
          }
          r := context.TradeRosterItems(list[i]);
          if r.Err? {
            return;
          }
          assert r.value == ();
          trades := Some(list[i := list[i].(status := ACCEPTED, dateAccepted := now)]);
        } else {
          trades := Some(list[i := list[i].(status := REFUSED)]);
          return Ok(());
        }
    }

    /** `fill_spot`. */
    method FillSpot(userId: string, filled: string, playerId: nat) returns (r: Result<()>)
      modifies context
      ensures (r, Value()) == PoolModel.FillSpot(old(Value()), userId, filled, playerId)
    {
      r := Value().ValidateParticipant(filled);
      if r.Err? {
        return;
      }
      if userId != filled {
        r := Value().HasPrivileges(userId);
        if r.Err? {
          return;
        }
      }
      if context == null {
        return Err(NoContext);
      }
      if playerId !in context.players {
        return Err(PlayerNotInPool);
      }
      var player := context.players[playerId];
      if filled !in context.poolerRoster {
        return Err(Panic);
      }
      var before := context.poolerRoster[filled];
      if player.id in before.forwards || player.id in before.defenders || player.id in before.goalies
         || player.id !in before.reservists {
        return Err(NotOnlyReservist);
      }
      var isAdded := false;
      var placed := before;
      match player.position {
        case F =>
          if AsU8(|before.forwards|) < settings.numberForwards {
            placed := before.(forwards := before.forwards + [player.id]);
            isAdded := true;
          }
        case D =>
          if AsU8(|before.defenders|) < settings.numberDefenders {
            placed := before.(defenders := before.defenders + [player.id]);
            isAdded := true;
          }
        case G =>
          if AsU8(|before.goalies|) < settings.numberGoalies {
            placed := before.(goalies := before.goalies + [player.id]);
            isAdded := true;
          }
      }
      if !isAdded {
        return Err(NoSpace);
      }
      placed := placed.(reservists := Without(placed.reservists, player.id));
      assert placed == MoveToSlot(before, player.id, player.position);
      context.poolerRoster := context.poolerRoster[filled := placed];
      return Ok(());
    }

    /** `add_player`. */
    method AddPlayer(userId: string, addedTo: string, player: Player) returns (r: Result<()>)
      modifies context
      ensures (r, Value()) == PoolModel.AddPlayer(old(Value()), userId, addedTo, player)
    {
      r := Value().HasPrivileges(userId);
      if r.Err? {
        return;
      }
      if context == null {
        return Err(NoContext);
      }
      if addedTo !in context.poolerRoster {
        return Err(UserNotInPool);
      }
      if participants.None? {
        return Err(NoContext);
      }
      var ps := participants.value;
      for i := 0 to |ps|
        invariant CheckNotPicked(context.poolerRoster, ps, player.id) == CheckNotPicked(context.poolerRoster, ps[i..], player.id)
      {
        assert ps[i..][1..] == ps[i + 1..];
        if ps[i] !in context.poolerRoster {
          return Err(Panic);
        }
        if context.poolerRoster[ps[i]].Possesses(player.id) {
          return Err(AlreadyPicked);
        }
      }
      r := context.AddPlayerToRoster(player.id, addedTo);
      if r.Err? {
        return;
      }
      assert r.value == ();
      context.players := context.players[player.id := player];
    }

    /** `remove_player`. */
    method RemovePlayer(userId: string, removedFrom: string, playerId: nat) returns (r: Result<()>)
      modifies context
      ensures (r, Value()) == PoolModel.RemovePlayer(old(Value()), userId, removedFrom, playerId)
    {
      r := Value().HasPrivileges(userId);
      if r.Err? {
        return;
      }
      if context == null {
        return Err(NoContext);
      }
      if removedFrom !in context.poolerRoster {
        return Err(UserNotInPool);
      }
      if !context.poolerRoster[removedFrom].Possesses(playerId) {
        return Err(NotOwnedByUser);
      }
      r := context.RemovePlayerFromRoster(playerId, removedFrom);
      if r.Ok? {
        assert r.value == ();
      }
    }

    /** The selection loop shared by `modify_roster` and `protect_players`: each id must name
        a player of the pool, not selected before, owned by the user. */
    method CheckSelection(ids: seq<nat>, user: string) returns (r: Result<()>)
      requires context != null
      ensures r == SelectionCheck(context.State(), ids, user, {})
    {
      var seen: set<nat> := {};
      for i := 0 to |ids|
        invariant SelectionCheck(context.State(), ids, user, {}) == SelectionCheck(context.State(), ids[i..], user, seen)
      {
        assert ids[i..][1..] == ids[i + 1..];
        if ids[i] !in context.players {
          return Err(PlayerNotInPool);
        }
        var player := context.players[ids[i]];
        if player.id in seen {
          return Err(Duplicated(player.id));
        }
        seen := seen + {player.id};
        if user !in context.poolerRoster {
          return Err(Panic);
        }
        if !context.poolerRoster[user].Possesses(player.id) {
          return Err(NotPossessed(player.id));
        }
      }
      return Ok(());
    }

    /** The date loop of `modify_roster`: whether the day is one of the configured roster
        modification days, parsing them in order. */
    method IsModificationDay(day: int) returns (r: Result<bool>)
      ensures r == DateAllowed(settings.rosterModificationDate, day)
    {
      var dates := settings.rosterModificationDate;
      for k := 0 to |dates|
        invariant DateAllowed(dates, day) == DateAllowed(dates[k..], day)
      {
        assert dates[k..][1..] == dates[k + 1..];
        if dates[k].None? {
          return Err(ParseError);
        }
        if dates[k].value == day {
          return Ok(true);
        }
      }
      return Ok(false);
    }

    /** `modify_roster`: `today` is the calendar day and `hour` the hour of the day. */
    method ModifyRoster(userId: string, modified: string,
                        forw: seq<nat>, def: seq<nat>, goal: seq<nat>, reserv: seq<nat>,
                        today: int, hour: nat) returns (r: Result<()>)
      modifies context
      ensures (r, Value()) == PoolModel.ModifyRoster(old(Value()), userId, modified, forw, def, goal, reserv, today, hour)
    {
      ghost var before := Value();
      r := Value().ValidateParticipant(modified);
      if r.Err? {
        return;
      }
      if userId != modified {
        r := Value().HasPrivileges(userId);
        if r.Err? {
          return;
        }
      }
      var day := today;
      if hour >= 12 {
        day := day + 1;
      }
      if START_SEASON_DAY < day <= END_SEASON_DAY {
        var isAllowed := IsModificationDay(day);
        if isAllowed.Err? {
          return Err(isAllowed.error);
        }
        if !isAllowed.value {
          return Err(NotAllowedToday);
        }
      }
      if context == null {
        return Err(NoContext);
      }
      if |forw| != settings.numberForwards {
        return Err(WrongForwardsCount);
      }
      if |def| != settings.numberDefenders {
        return Err(WrongDefendersCount);
      }
      if |goal| != settings.numberGoalies {
        return Err(WrongGoaliesCount);
      }
      if modified in context.poolerRoster {
        var before := context.poolerRoster[modified];
        if |before.forwards| + |before.defenders| + |before.goalies| + |before.reservists|
           != |forw| + |def| + |goal| + |reserv| {
          return Err(WrongPlayerTotal);
        }
      }
      r := CheckSelection(forw + def + goal + reserv, modified);
      if r.Err? {
        return;
      }
      assert r.value == ();
      if modified in context.poolerRoster {
        context.poolerRoster := context.poolerRoster[modified := PoolerRoster(forw, def, goal, reserv)];
        assert Value() == before.(ctx := Some(context.State()));
      }
    }

    /** `protect_players`. */
    method ProtectPlayers(userId: string, forw: seq<nat>, def: seq<nat>, goal: seq<nat>, reserv: seq<nat>)
      returns (r: Result<()>)
      modifies this, context
      ensures context == old(context)
      ensures (r, Value()) == PoolModel.ProtectPlayers(old(Value()), userId, forw, def, goal, reserv)
    {
      r := Value().ValidateParticipant(userId);
      if r.Err? {
        return;
      }
      if settings.dynastieSettings.None? {
        return Err(NoDynastieSettings);
      }
      var protected := settings.dynastieSettings.value.nextSeasonNumberPlayersProtected;
      if |forw| > settings.numberForwards {
        return Err(TooManyForwards);
      }
      if |def| > settings.numberDefenders {
        return Err(TooManyDefenders);
      }
      if |goal| > settings.numberGoalies {
        return Err(TooManyGoalies);
      }
      if |reserv| > settings.numberReservists {
        return Err(TooManyReservists);
      }
      if AsU8(|forw| + |def| + |goal| + |reserv|) != protected {
        return Err(WrongProtectedCount);
      }
      if context == null {
        return Err(NoContext);
      }
      r := CheckSelection(forw + def + goal + reserv, userId);
      if r.Err? {
        return;
      }
      assert r.value == ();
      if userId in context.poolerRoster {
        context.poolerRoster := context.poolerRoster[userId := PoolerRoster(forw, def, goal, reserv)];
      }
      var remaining := context.poolerRoster.Keys;
      while remaining != {}
        invariant remaining <= context.poolerRoster.Keys
        invariant forall u :: u in context.poolerRoster && u !in remaining ==> context.poolerRoster[u].Count() == protected
        decreases |remaining|
      {
        var u :| u in remaining;
        var roster := context.poolerRoster[u];
        if |roster.forwards| + |roster.defenders| + |roster.goalies| + |roster.reservists| != protected {
          return Ok(());
        }
        remaining := remaining - {u};
      }
      status := Draft;
    }

    /** `mark_as_final`: the final rank is any order of the participants by decreasing season
        points (ties between equal totals are left open). */
    method MarkAsFinal(userId: string) returns (r: Result<()>)
      modifies this
      ensures context == old(context)
      ensures old(Value()).HasPrivileges(userId).Err? ==> r == Err(PrivilegesRequired)
      ensures old(Value()).HasPrivileges(userId).Ok? && context == null ==> r == Err(NoContext)
      ensures old(Value()).HasPrivileges(userId).Ok? && context != null && context.scoreByDay.None?
              ==> r == Err(NoScoreRecorded)
      ensures old(Value()).HasPrivileges(userId).Ok? && context != null && context.scoreByDay.Some?
              ==> (r.Ok? <==> AllCumulated(context.scoreByDay.value))
      ensures r.Err? ==> Value() == old(Value())
      ensures r.Ok? ==>
        context != null && context.scoreByDay.Some? && finalRank.Some?
        && IsFinalRank(finalRank.value, SeasonTotals(context.scoreByDay.value, settings))
        && Value() == old(Value()).(finalRank := finalRank, status := Final)
    {
      r := Value().HasPrivileges(userId);
      if r.Err? {
        return;
      }
      if context == null {
        return Err(NoContext);
      }
      ghost var before := Value();
      var rank := context.GetFinalRank(settings);
      if rank.Err? {
        return Err(rank.error);
      }
      finalRank := Some(rank.value);
      status := Final;
      assert Value() == before.(finalRank := finalRank, status := Final);
      return Ok(());
    }

    /** `start_draft`: `shuffled` is the order the shuffle gave the participants. */
    method StartDraft(userId: string, newParticipants: seq<string>, shuffled: seq<string>) returns (r: Result<()>)
      requires multiset(shuffled) == multiset(newParticipants)
      modifies this
      ensures r.Ok? ==> fresh(context)
      ensures r.Err? ==> context == old(context)
      ensures (r, Value()) == PoolModel.StartDraft(old(Value()), userId, newParticipants, shuffled)
    {
      r := Value().HasOwnerPrivileges(userId);
      if r.Err? {
        return;
      }
      if numberPoolers != |newParticipants| {
        return Err(WrongParticipantCount);
      }
      participants := Some(shuffled);
      status := Draft;
      context := new PoolContext(shuffled);
      return Ok(());
    }

    /** `Pool::draft_player`. */
    method DraftPlayer(userId: string, player: Player) returns (r: Result<()>)
      requires CapsFit(settings)
      modifies this, context
      ensures context == old(context)
      ensures (r, Value()) == PoolModel.DraftPlayer(old(Value()), userId, player)
    {
      var hasPrivileges := Value().HasOwnerRights(userId);
      if context != null && finalRank.Some? {
        var done := context.DraftPlayerDynastie(userId, player, finalRank.value, settings, hasPrivileges);
        if done.Err? {
          return Err(done.error);
        }
        if done.value {
          status := InProgress;
        }
        return Ok(());
      } else if context != null && participants.Some? {
        var done := context.DraftPlayer(userId, player, participants.value, settings, hasPrivileges);
        if done.Err? {
          return Err(done.error);
        }
        if done.value {
          status := InProgress;
        }
        return Ok(());
      }
      return Err(NoContextOrParticipants);
    }

    /** `Pool::undo_draft_player`. */
    method UndoDraftPlayer(userId: string) returns (r: Result<()>)
      modifies context
      ensures (r, Value()) == PoolModel.UndoDraftPlayer(old(Value()), userId)
    {
      r := Value().HasOwnerPrivileges(userId);
      if r.Err? {
        return;
      }
      if context != null && finalRank.Some? {
        r := context.UndoDraftPlayer(finalRank.value, settings);
      } else if context != null && participants.Some? {
        r := context.UndoDraftPlayer(participants.value, settings);
      } else {
        r := Err(NoContextOrParticipants);
      }
    }
  }
}
