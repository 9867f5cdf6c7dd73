/** The `Pool` record as a value, and what each `Pool` operation does to that value. The
    `Pool` class (module `PoolEngine`) is proved to follow these functions; the lemmas that
    follow them are the properties of the trade lifecycle and the roster edits. */
module PoolModel {
  import opened PoolTypes
  import opened Roster
  import opened ContextModel

  datatype PoolValue = PoolValue(
    name: string,
    owner: string,
    numberPoolers: U8,
    participants: Option<seq<string>>,
    settings: PoolSettings,
    status: PoolState,
    finalRank: Option<seq<string>>,
    nbPlayerDrafted: U8,
    nbTrade: nat,
    trades: Option<seq<Trade>>,
    ctx: Option<ContextState>,
    dateUpdated: int,
    seasonStart: string,
    seasonEnd: string)
  {
    /** `has_assistants_rights`. */
    predicate HasAssistantsRights(user: string)
    {
      user in settings.assistants
    }

    /** `has_owner_rights`. */
    predicate HasOwnerRights(user: string)
    {
      owner == user
    }

    /** `has_privileges`: the owner and the assistants are privileged. */
    function HasPrivileges(user: string): (r: Result<()>)
      ensures r.Ok? <==> HasOwnerRights(user) || HasAssistantsRights(user)
      ensures r.Err? ==> r.error == PrivilegesRequired
    {
      if !HasAssistantsRights(user) && !HasOwnerRights(user) then Err(PrivilegesRequired) else Ok(())
    }

    /** `has_owner_privileges`: only the owner. */
    function HasOwnerPrivileges(user: string): (r: Result<()>)
      ensures r.Ok? <==> owner == user
      ensures r.Err? ==> r.error == OwnerRightsRequired
    {
      if !HasOwnerRights(user) then Err(OwnerRightsRequired) else Ok(())
    }

    /** `validate_participant`: the pool has participants and the user is one of them. */
    function ValidateParticipant(user: string): (r: Result<()>)
      ensures r.Ok? <==> participants.Some? && user in participants.value
      ensures participants.None? ==> r == Err(NoParticipants)
      ensures participants.Some? && user !in participants.value ==> r == Err(NotParticipant(user))
    {
      match participants
      case None => Err(NoParticipants)
      case Some(ps) => if user !in ps then Err(NotParticipant(user)) else Ok(())
    }

    /** `validate_pool_status`: the pattern in its `matches!` binds a fresh name instead of
        comparing with the expected status, so the check passes whatever the status. */
    function ValidatePoolStatus(expected: PoolState): (r: Result<()>)
      ensures r.Ok?
    {
      Ok(())
    }

    /** `can_update_in_progress_pool_settings`: a privileged user may change the settings,
        except the four roster caps and the dynastie settings. */
    function CanUpdateInProgressPoolSettings(user: string, newSettings: PoolSettings): (r: Result<()>)
      ensures r.Ok? <==>
        (HasOwnerRights(user) || HasAssistantsRights(user))
        && newSettings.numberForwards == settings.numberForwards
        && newSettings.numberDefenders == settings.numberDefenders
        && newSettings.numberGoalies == settings.numberGoalies
        && newSettings.numberReservists == settings.numberReservists
        && newSettings.dynastieSettings == settings.dynastieSettings
      ensures r.Err? ==> r.error in {PrivilegesRequired, SettingsLocked}
    {
      if HasPrivileges(user).Err? then HasPrivileges(user)
      else if ValidatePoolStatus(InProgress).Err? then ValidatePoolStatus(InProgress)
      else if newSettings.numberForwards != settings.numberForwards
           || newSettings.numberDefenders != settings.numberDefenders
           || newSettings.numberGoalies != settings.numberGoalies
           || newSettings.numberReservists != settings.numberReservists
           || newSettings.dynastieSettings != settings.dynastieSettings
      then Err(SettingsLocked)
      else Ok(())
    }

    /** `can_update_pool_settings`: privileges suffice; the status is not looked at. */
    function CanUpdatePoolSettings(user: string): (r: Result<()>)
      ensures r.Ok? <==> HasOwnerRights(user) || HasAssistantsRights(user)
      ensures r.Err? ==> r.error == PrivilegesRequired
    {
      if HasPrivileges(user).Err? then HasPrivileges(user)
      else ValidatePoolStatus(Created)
    }
  }

  /** `Pool::new`: a created pool with default settings and nothing else. */
  function NewPool(name: string, owner: string, numberPoolers: U8): (p: PoolValue)
    ensures p.status == Created && p.settings == DefaultSettings()
    ensures p.participants.None? && p.finalRank.None? && p.trades.None? && p.ctx.None?
    ensures p.nbTrade == 0 && p.nbPlayerDrafted == 0
  {
    PoolValue(name, owner, numberPoolers, None, DefaultSettings(), Created, None, 0, 0, None, None, 0,
              "2023-10-10", "2024-04-18")
  }

  // ---- Trades --------------------------------------------------------------------------

  /** Some trade of the list still waits for an answer. */
  predicate HasNewTrade(trades: seq<Trade>)
  {
    exists i :: 0 <= i < |trades| && trades[i].status == NEW
  }

  /** `iter().position(|trade| trade.id == id)`: the index of the first trade with that id. */
  function TradePosition(trades: seq<Trade>, id: nat): (r: Option<nat>)
    ensures r.None? <==> forall i :: 0 <= i < |trades| ==> trades[i].id != id
    ensures r.Some? ==> r.value < |trades| && trades[r.value].id == id
                        && forall j :: 0 <= j < r.value ==> trades[j].id != id
  {
    if |trades| == 0 then None
    else if trades[0].id == id then Some(0)
    else
      match TradePosition(trades[1..], id)
      case None =>
        assert forall i :: 1 <= i < |trades| ==> trades[i] == trades[1..][i - 1];
        None
      case Some(i) =>
        assert forall j :: 1 <= j <= i ==> trades[j] == trades[1..][j - 1];
        Some(i + 1)
  }

  /** The trade as `create_trade` records it: stamped with the creation time, NEW, and the
      pool's trade counter as id. */
  function Registered(trade: Trade, id: nat, now: int): Trade
  {
    trade.(dateCreated := now, status := NEW, id := id)
  }

  /** `create_trade`, with `today` the calendar day and `now` the time in milliseconds. */
  function CreateTrade(p: PoolValue, trade: Trade, user: string, today: int, now: int): (r: (Result<()>, PoolValue))
    ensures r.0.Ok? <==>
      today <= TRADE_DEADLINE_DAY
      && (user == trade.proposedBy || p.HasOwnerRights(user) || p.HasAssistantsRights(user))
      && p.ctx.Some? && ValidateTrade(p.ctx.value, trade).Ok?
      && trade.proposedBy in p.ctx.value.poolerRoster && trade.askTo in p.ctx.value.poolerRoster
      && p.trades.Some? && !HasNewTrade(p.trades.value)
    ensures r.0.Err? ==> r.1 == p
    ensures r.0.Ok? ==>
      r.1 == p.(trades := r.1.trades) && r.1.trades.Some?
      && |r.1.trades.value| == |p.trades.value| + 1 && r.1.trades.value[..|p.trades.value|] == p.trades.value
      && var t := r.1.trades.value[|p.trades.value|];
         t.status == NEW && t.id == p.nbTrade && t.dateCreated == now
         && t.proposedBy == trade.proposedBy && t.askTo == trade.askTo
         && t.fromItems == trade.fromItems && t.toItems == trade.toItems
  {
    if today > TRADE_DEADLINE_DAY then (Err(TradeDeadlinePassed), p)
    else if user != trade.proposedBy && p.HasPrivileges(user).Err? then (p.HasPrivileges(user), p)
    else if p.ctx.None? then (Err(NoContext), p)
    else if ValidateTrade(p.ctx.value, trade).Err? then (ValidateTrade(p.ctx.value, trade), p)
    else if trade.proposedBy !in p.ctx.value.poolerRoster || trade.askTo !in p.ctx.value.poolerRoster
    then (Err(UsersNotInPool), p)
    else if p.trades.None? then (Err(NoTrades), p)
    else if HasNewTrade(p.trades.value) then (Err(OneActiveTrade), p)
    else (Ok(()), p.(trades := Some(p.trades.value + [Registered(trade, p.nbTrade, now)])))
  }

  /** `delete_trade`. */
  function DeleteTrade(p: PoolValue, user: string, tradeId: nat): (r: (Result<()>, PoolValue))
    ensures p.nbTrade < tradeId ==> r.0 == Err(TradeDoesNotExist)
    ensures r.0.Err? ==> r.1 == p
    ensures r.0.Ok? ==>
      p.trades.Some? && TradePosition(p.trades.value, tradeId).Some?
      && var i := TradePosition(p.trades.value, tradeId).value;
         var t := p.trades.value[i];
         t.status == NEW && (p.HasOwnerRights(user) || p.HasAssistantsRights(user) || t.proposedBy == user)
         && r.1 == p.(trades := Some(p.trades.value[..i] + p.trades.value[i + 1..]))
         && |r.1.trades.value| == |p.trades.value| - 1
  {
    if p.nbTrade < tradeId then (Err(TradeDoesNotExist), p)
    else
      var privileged := p.HasOwnerRights(user) || p.HasAssistantsRights(user);
      match p.trades
      case None => (Err(NoTrades), p)
      case Some(trades) =>
        match TradePosition(trades, tradeId)
        case None => (Err(TradeNotFound), p)
        case Some(i) =>
          if trades[i].status != NEW then (Err(TradeNotDeletable), p)
          else if !privileged && trades[i].proposedBy != user then (Err(OnlyCreatorCanCancel), p)
          else (Ok(()), p.(trades := Some(trades[..i] + trades[i + 1..])))
  }

  /** `respond_trade`, with `now` the time in milliseconds. An accepted trade moves the
      items; when that fails part way, the context keeps what was already moved. */
  function RespondTrade(p: PoolValue, user: string, isAccepted: bool, tradeId: nat, now: int): (r: (Result<()>, PoolValue))
    ensures p.nbTrade < tradeId ==> r.0 == Err(TradeDoesNotExist)
    ensures r.1 == p.(ctx := r.1.ctx, trades := r.1.trades)
    ensures r.1.trades != p.trades ==> r.0.Ok?
    ensures r.1.ctx != p.ctx ==> isAccepted
  {
    if p.nbTrade < tradeId then (Err(TradeDoesNotExist), p)
    else
      var privileged := p.HasOwnerRights(user) || p.HasAssistantsRights(user);
      match p.trades
      case None => (Err(TradeNotFound), p)
      case Some(trades) =>
        match TradePosition(trades, tradeId)
        case None => (Err(TradeNotFound), p)
        case Some(i) =>
          if trades[i].status != NEW then (Err(TradeNotRespondable), p)
          else if !privileged && trades[i].askTo != user then (Err(OnlyAskedCanRespond), p)
          else if trades[i].dateCreated + TRADE_WAIT_MS > now then (Err(TradeTooRecent), p)
          else if isAccepted then
            match p.ctx
            case None => (Err(NoContext), p)
            case Some(c) =>
              var (moved, c1) := TradeRosterItems(c, trades[i]);
              if moved.Err? then (moved, p.(ctx := Some(c1)))
              else
                var accepted := trades[i].(status := ACCEPTED, dateAccepted := now);
                (Ok(()), p.(ctx := Some(c1), trades := Some(trades[i := accepted])))
          else (Ok(()), p.(trades := Some(trades[i := trades[i].(status := REFUSED)])))
  }

  // ---- Roster edits --------------------------------------------------------------------

  /** `fill_spot`: a reservist of `filled` moves into its position's list when that list is
      under its cap, and leaves the reservists. */
  function FillSpot(p: PoolValue, user: string, filled: string, playerId: nat): (r: (Result<()>, PoolValue))
    ensures r.0.Err? ==> r.1 == p
    ensures r.0.Ok? ==>
      p.participants.Some? && filled in p.participants.value
      && (user == filled || p.HasOwnerRights(user) || p.HasAssistantsRights(user))
      && p.ctx.Some? && playerId in p.ctx.value.players && filled in p.ctx.value.poolerRoster
      && var c := p.ctx.value;
         var player := c.players[playerId];
         var before := c.poolerRoster[filled];
         OnlyReservist(before, player.id)
         && AsU8(|before.Slot(player.position)|) < before.SlotCap(player.position, p.settings)
         && r.1 == p.(ctx := Some(c.(poolerRoster := c.poolerRoster[filled := MoveToSlot(before, player.id, player.position)])))
  {
    var v := p.ValidateParticipant(filled);
    if v.Err? then (v, p)
    else if user != filled && p.HasPrivileges(user).Err? then (p.HasPrivileges(user), p)
    else if p.ctx.None? then (Err(NoContext), p)
    else if playerId !in p.ctx.value.players then (Err(PlayerNotInPool), p)
    else if filled !in p.ctx.value.poolerRoster then (Err(Panic), p)
    else
      var c := p.ctx.value;
      var player := c.players[playerId];
      var before := c.poolerRoster[filled];
      if !OnlyReservist(before, player.id) then (Err(NotOnlyReservist), p)
      else if AsU8(|before.Slot(player.position)|) >= before.SlotCap(player.position, p.settings) then (Err(NoSpace), p)
      else (Ok(()), p.(ctx := Some(c.(poolerRoster := c.poolerRoster[filled := MoveToSlot(before, player.id, player.position)]))))
  }

  /** The player is among the reservists and in none of the three position lists. */
  predicate OnlyReservist(r: PoolerRoster, id: nat)
  {
    id !in r.forwards && id !in r.defenders && id !in r.goalies && id in r.reservists
  }

  /** The roster change of `fill_spot`: the reservist is appended to its position's list and
      every copy of it leaves the reservists, so the roster ends up holding it exactly once
      and every other player as often as before. */
  function MoveToSlot(r: PoolerRoster, id: nat, pos: Position): (m: PoolerRoster)
    requires OnlyReservist(r, id)
    ensures m.Slot(pos) == r.Slot(pos) + [id] && id !in m.reservists
    ensures m.Possesses(id) && m.Ids()[id] == 1
    ensures forall x :: x != id ==> m.Ids()[x] == r.Ids()[x]
  {
    var rest := Without(r.reservists, id);
    match pos
    case F => r.(forwards := r.forwards + [id], reservists := rest)
    case D => r.(defenders := r.defenders + [id], reservists := rest)
    case G => r.(goalies := r.goalies + [id], reservists := rest)
  }

  /** The possession loop of `add_player`: every participant must have a roster (a missing
      one is a panic) and none may own the player. */
  function CheckNotPicked(rosters: map<string, PoolerRoster>, participants: seq<string>, id: nat): (r: Result<()>)
    ensures r.Ok? <==> forall i :: 0 <= i < |participants| ==>
                         participants[i] in rosters && !rosters[participants[i]].Possesses(id)
    ensures r.Err? ==> r.error in {Panic, AlreadyPicked}
  {
    if |participants| == 0 then Ok(())
    else if participants[0] !in rosters then Err(Panic)
    else if rosters[participants[0]].Possesses(id) then Err(AlreadyPicked)
    else
      var rest := CheckNotPicked(rosters, participants[1..], id);
      assert forall i :: 1 <= i < |participants| ==> participants[i] == participants[1..][i - 1];
      rest
  }

  /** `add_player`: a privileged user gives a player nobody owns to a participant, as a
      reservist, and records the player in the pool. */
  function AddPlayer(p: PoolValue, user: string, addedTo: string, player: Player): (r: (Result<()>, PoolValue))
    ensures r.0.Err? ==> r.1 == p
    ensures r.0.Ok? <==>
      (p.HasOwnerRights(user) || p.HasAssistantsRights(user))
      && p.ctx.Some? && addedTo in p.ctx.value.poolerRoster && p.participants.Some?
      && forall i :: 0 <= i < |p.participants.value| ==>
           p.participants.value[i] in p.ctx.value.poolerRoster
           && !p.ctx.value.poolerRoster[p.participants.value[i]].Possesses(player.id)
    ensures r.0.Ok? ==>
      var c := p.ctx.value;
      r.1 == p.(ctx := Some(c.(poolerRoster := c.poolerRoster[addedTo := c.poolerRoster[addedTo].AddReservist(player.id)],
                               players := c.players[player.id := player])))
  {
    if p.HasPrivileges(user).Err? then (p.HasPrivileges(user), p)
    else if p.ctx.None? then (Err(NoContext), p)
    else if addedTo !in p.ctx.value.poolerRoster then (Err(UserNotInPool), p)
    else if p.participants.None? then (Err(NoContext), p)
    else
      var c := p.ctx.value;
      var free := CheckNotPicked(c.poolerRoster, p.participants.value, player.id);
      if free.Err? then (free, p)
      else
        match AddToRoster(c, player.id, addedTo)
        case Err(e) => (Err(e), p)
        case Ok(c1) => (Ok(()), p.(ctx := Some(c1.(players := c1.players[player.id := player]))))
  }

  /** `remove_player`: a privileged user takes a player away from the roster that owns it. */
  function RemovePlayer(p: PoolValue, user: string, removedFrom: string, playerId: nat): (r: (Result<()>, PoolValue))
    ensures r.0.Err? ==> r.1 == p
    ensures r.0.Ok? <==>
      (p.HasOwnerRights(user) || p.HasAssistantsRights(user))
      && p.ctx.Some? && removedFrom in p.ctx.value.poolerRoster
      && p.ctx.value.poolerRoster[removedFrom].Possesses(playerId)
    ensures r.0.Ok? ==>
      var c := p.ctx.value;
      var after := c.poolerRoster[removedFrom].RemovePlayer(playerId).value;
      r.1 == p.(ctx := Some(c.(poolerRoster := c.poolerRoster[removedFrom := after])))
      && after.Count() == c.poolerRoster[removedFrom].Count() - 1
      && after.Ids() == c.poolerRoster[removedFrom].Ids() - multiset{playerId}
  {
    if p.HasPrivileges(user).Err? then (p.HasPrivileges(user), p)
    else if p.ctx.None? then (Err(NoContext), p)
    else if removedFrom !in p.ctx.value.poolerRoster then (Err(UserNotInPool), p)
    else if !p.ctx.value.poolerRoster[removedFrom].Possesses(playerId) then (Err(NotOwnedByUser), p)
    else
      match RemoveFromRoster(p.ctx.value, playerId, removedFrom)
      case Err(e) => (Err(e), p)
      case Ok(c1) => (Ok(()), p.(ctx := Some(c1)))
  }

  /** The date loop of `modify_roster`: the configured dates are parsed in order, and the
      first one equal to the day allows the change; a date that does not parse before that
      is an error. */
  function DateAllowed(dates: seq<Option<int>>, day: int): (r: Result<bool>)
    ensures r == Ok(true) <==>
      exists i :: 0 <= i < |dates| && dates[i] == Some(day) && forall j :: 0 <= j < i ==> dates[j].Some?
    ensures r == Ok(false) <==> forall i :: 0 <= i < |dates| ==> dates[i].Some? && dates[i].value != day
    ensures r.Err? ==> r.error == ParseError
  {
    if |dates| == 0 then Ok(false)
    else if dates[0].None? then Err(ParseError)
    else if dates[0].value == day then Ok(true)
    else
      var rest := DateAllowed(dates[1..], day);
      assert forall i :: 1 <= i < |dates| ==> dates[i] == dates[1..][i - 1];
      rest
  }

  /** The day a roster change counts for: from noon on, the next day. */
  function ActionDay(today: int, hour: nat): int
  {
    if hour >= 12 then today + 1 else today
  }

  /** `modify_roster`: during the season only on a configured day, the four lists are
      replaced by a selection of the same size, with the settings' numbers of forwards,
      defenders and goalies, made of distinct players the user owns. */
  function ModifyRoster(p: PoolValue, user: string, modified: string,
                        forw: seq<nat>, def: seq<nat>, goal: seq<nat>, reserv: seq<nat>,
                        today: int, hour: nat): (r: (Result<()>, PoolValue))
    ensures r.0.Err? ==> r.1 == p
    ensures r.0.Ok? ==>
      p.participants.Some? && modified in p.participants.value
      && (user == modified || p.HasOwnerRights(user) || p.HasAssistantsRights(user))
      && (START_SEASON_DAY < ActionDay(today, hour) <= END_SEASON_DAY ==>
            Some(ActionDay(today, hour)) in p.settings.rosterModificationDate)
      && p.ctx.Some?
      && |forw| == p.settings.numberForwards && |def| == p.settings.numberDefenders
      && |goal| == p.settings.numberGoalies
      && SelectionValid(p.ctx.value, forw + def + goal + reserv, modified, {})
    ensures r.0.Ok? && modified in p.ctx.value.poolerRoster ==>
      var c := p.ctx.value;
      var after := PoolerRoster(forw, def, goal, reserv);
      after.Count() == c.poolerRoster[modified].Count()
      && r.1 == p.(ctx := Some(c.(poolerRoster := c.poolerRoster[modified := after])))
    ensures r.0.Ok? && modified !in p.ctx.value.poolerRoster ==> r.1 == p && forw + def + goal + reserv == []
  {
    var v := p.ValidateParticipant(modified);
    if v.Err? then (v, p)
    else if user != modified && p.HasPrivileges(user).Err? then (p.HasPrivileges(user), p)
    else
      var day := ActionDay(today, hour);
      var allowed := if START_SEASON_DAY < day <= END_SEASON_DAY
                     then DateAllowed(p.settings.rosterModificationDate, day) else Ok(true);
      if allowed.Err? then (Err(allowed.error), p)
      else if !allowed.value then (Err(NotAllowedToday), p)
      else if p.ctx.None? then (Err(NoContext), p)
      else if |forw| != p.settings.numberForwards then (Err(WrongForwardsCount), p)
      else if |def| != p.settings.numberDefenders then (Err(WrongDefendersCount), p)
      else if |goal| != p.settings.numberGoalies then (Err(WrongGoaliesCount), p)
      else
        var c := p.ctx.value;
        if modified in c.poolerRoster && c.poolerRoster[modified].Count() != |forw| + |def| + |goal| + |reserv|
        then (Err(WrongPlayerTotal), p)
        else
          var selected := SelectionCheck(c, forw + def + goal + reserv, modified, {});
          if selected.Err? then (selected, p)
          else if modified in c.poolerRoster then
            (Ok(()), p.(ctx := Some(c.(poolerRoster := c.poolerRoster[modified := PoolerRoster(forw, def, goal, reserv)]))))
          else (Ok(()), p)
  }

  /** Every roster holds exactly the number of protected players. */
  predicate AllProtected(rosters: map<string, PoolerRoster>, n: nat)
  {
    forall u :: u in rosters ==> rosters[u].Count() == n
  }

  /** `protect_players`: a participant keeps, for the next dynastie season, a selection within
      the caps whose size (as `u8`) is the protected number; once every roster holds exactly
      that many players the pool moves to the draft. */
  function ProtectPlayers(p: PoolValue, user: string,
                          forw: seq<nat>, def: seq<nat>, goal: seq<nat>, reserv: seq<nat>): (r: (Result<()>, PoolValue))
    ensures r.0.Err? ==> r.1 == p
    ensures r.0.Ok? ==>
      p.participants.Some? && user in p.participants.value
      && p.settings.dynastieSettings.Some? && p.ctx.Some?
      && |forw| <= p.settings.numberForwards && |def| <= p.settings.numberDefenders
      && |goal| <= p.settings.numberGoalies && |reserv| <= p.settings.numberReservists
      && AsU8(|forw| + |def| + |goal| + |reserv|) == p.settings.dynastieSettings.value.nextSeasonNumberPlayersProtected
      && SelectionValid(p.ctx.value, forw + def + goal + reserv, user, {})
      && r.1 == p.(ctx := r.1.ctx, status := r.1.status) && r.1.ctx.Some?
      && var c := p.ctx.value;
         r.1.ctx.value == c.(poolerRoster := r.1.ctx.value.poolerRoster)
         && (user in c.poolerRoster ==>
               r.1.ctx.value.poolerRoster == c.poolerRoster[user := PoolerRoster(forw, def, goal, reserv)])
         && (user !in c.poolerRoster ==> r.1.ctx.value.poolerRoster == c.poolerRoster)
         && (AllProtected(r.1.ctx.value.poolerRoster, p.settings.dynastieSettings.value.nextSeasonNumberPlayersProtected)
             ==> r.1.status == Draft)
         && (!AllProtected(r.1.ctx.value.poolerRoster, p.settings.dynastieSettings.value.nextSeasonNumberPlayersProtected)
             ==> r.1.status == p.status)
  {
    var v := p.ValidateParticipant(user);
    if v.Err? then (v, p)
    else if p.settings.dynastieSettings.None? then (Err(NoDynastieSettings), p)
    else
      var protected := p.settings.dynastieSettings.value.nextSeasonNumberPlayersProtected;
      if |forw| > p.settings.numberForwards then (Err(TooManyForwards), p)
      else if |def| > p.settings.numberDefenders then (Err(TooManyDefenders), p)
      else if |goal| > p.settings.numberGoalies then (Err(TooManyGoalies), p)
      else if |reserv| > p.settings.numberReservists then (Err(TooManyReservists), p)
      else if AsU8(|forw| + |def| + |goal| + |reserv|) != protected then (Err(WrongProtectedCount), p)
      else if p.ctx.None? then (Err(NoContext), p)
      else
        var c := p.ctx.value;
        var selected := SelectionCheck(c, forw + def + goal + reserv, user, {});
        if selected.Err? then (selected, p)
        else
          var rosters := if user in c.poolerRoster
                         then c.poolerRoster[user := PoolerRoster(forw, def, goal, reserv)]
                         else c.poolerRoster;
          var status := if AllProtected(rosters, protected) then Draft else p.status;
          (Ok(()), p.(ctx := Some(c.(poolerRoster := rosters)), status := status))
  }

  // ---- Draft ---------------------------------------------------------------------------

  /** `start_draft`, with `shuffled` the participants in the order the shuffle gave them. */
  function StartDraft(p: PoolValue, user: string, participants: seq<string>, shuffled: seq<string>): (r: (Result<()>, PoolValue))
    ensures r.0.Ok? <==> p.owner == user && p.numberPoolers == |participants|
    ensures r.0.Err? ==> r.1 == p
    ensures r.0.Ok? ==>
      r.1 == p.(participants := r.1.participants, status := r.1.status, ctx := r.1.ctx)
      && r.1.participants == Some(shuffled) && r.1.status == Draft && r.1.ctx.Some?
      && (forall u :: u in r.1.ctx.value.poolerRoster <==> u in shuffled)
      && (forall u :: u in r.1.ctx.value.poolerRoster ==> r.1.ctx.value.poolerRoster[u] == EmptyRoster)
      && r.1.ctx.value.playersNameDrafted == []
  {
    if p.HasOwnerPrivileges(user).Err? then (p.HasOwnerPrivileges(user), p)
    else if p.numberPoolers != |participants| then (Err(WrongParticipantCount), p)
    else (Ok(()), p.(participants := Some(shuffled), status := Draft, ctx := Some(NewContext(shuffled))))
  }

  /** `Pool::draft_player`: a pool with a final rank drafts in dynastie order, otherwise in
      snake order over the participants; the owner may draft for anyone. The pool is in
      progress once the draft is done. */
  function DraftPlayer(p: PoolValue, user: string, player: Player): (r: (Result<()>, PoolValue))
    ensures r.1 == p.(ctx := r.1.ctx, status := r.1.status)
    ensures p.ctx.None? || (p.participants.None? && p.finalRank.None?) ==> r == (Err(NoContextOrParticipants), p)
    ensures r.1.status != p.status ==> r.0.Ok? && r.1.status == InProgress
  {
    var hasPrivileges := p.HasOwnerRights(user);
    match (p.ctx, p.participants, p.finalRank)
    case (Some(c), _, Some(rank)) =>
      var (r, c1) := DraftDynastie(c, user, player, rank, p.settings, hasPrivileges);
      if r.Err? then (Err(r.error), p.(ctx := Some(c1)))
      else (Ok(()), p.(ctx := Some(c1), status := if r.value then InProgress else p.status))
    case (Some(c), Some(ps), None) =>
      var (r, c1) := DraftClassic(c, user, player, ps, p.settings, hasPrivileges);
      if r.Err? then (Err(r.error), p.(ctx := Some(c1)))
      else (Ok(()), p.(ctx := Some(c1), status := if r.value then InProgress else p.status))
    case _ => (Err(NoContextOrParticipants), p)
  }

  /** `Pool::undo_draft_player`: the owner takes back the last pick, in the order the draft
      follows. */
  function UndoDraftPlayer(p: PoolValue, user: string): (r: (Result<()>, PoolValue))
    ensures r.1 == p.(ctx := r.1.ctx)
    ensures p.owner != user ==> r == (Err(OwnerRightsRequired), p)
    ensures p.ctx.None? || (p.participants.None? && p.finalRank.None?) ==> r.0.Err? && r.1 == p
  {
    if p.HasOwnerPrivileges(user).Err? then (p.HasOwnerPrivileges(user), p)
    else
      match (p.ctx, p.participants, p.finalRank)
      case (Some(c), _, Some(rank)) =>
        var (r, c1) := Undo(c, rank, p.settings);
        (r, p.(ctx := Some(c1)))
      case (Some(c), Some(ps), None) =>
        var (r, c1) := Undo(c, ps, p.settings);
        (r, p.(ctx := Some(c1)))
      case _ => (Err(NoContextOrParticipants), p)
  }
}
