/** The older service's pool context and the helpers that update it in place: each
    method performs, on the object's fields, the function of `LegacyModel` with the same
    name. A Rust panic aborts the request and the context is then never saved, so after an
    `Err(Panic)` the methods promise nothing about the fields. */
module LegacyPool {
  import opened PoolTypes
  import opened LegacyModel

  /** `get_users_players_count`: each participant's number of players, cast to `u8`.
      Indexing the rosters by a participant without one panics, so every participant must
      have a roster. */
  method GetUsersPlayersCount(rosters: Rosters, participants: seq<string>) returns (counts: map<string, U8>)
    requires forall p :: p in participants ==> p in rosters
    ensures CountsOf(counts, rosters, participants)
  {
    counts := map[];
    for i := 0 to |participants|
      invariant counts.Keys == set p | p in participants[..i]
      invariant forall p :: p in counts ==> p in rosters && counts[p] == AsU8(rosters[p].Count())
    {
      var p := participants[i];
      var r := rosters[p];
      counts := counts[p := AsU8(|r.forwards| + |r.defenders| + |r.goalies| + |r.reservists|)];
      assert participants[..i + 1] == participants[..i] + [p];
    }
    assert participants[..|participants|] == participants;
  }

  /** The placement of `select_player`, with its `is_added` flag. */
  method PlaceDrafted(roster: LegacyRoster, player: Player, config: LegacyConfig) returns (placed: Option<LegacyRoster>)
    ensures placed == roster.Place(player, config)
  {
    var r := roster;
    var isAdded := false;
    match player.position {
      case F =>
        if AsU8(|r.forwards|) < config.numberForwards {
          r := r.(forwards := r.forwards + [player]);
          isAdded := true;
        }
      case D =>
        if AsU8(|r.defenders|) < config.numberDefenders {
          r := r.(defenders := r.defenders + [player]);
          isAdded := true;
        }
      case G =>
        if AsU8(|r.goalies|) < config.numberGoalies {
          r := r.(goalies := r.goalies + [player]);
          isAdded := true;
        }
    }
    if !isAdded {
      if AsU8(|r.reservists|) < config.numberReservists {
        r := r.(reservists := r.reservists + [player]);
      } else {
        return None;
      }
    }
    return Some(r);
  }

  /** The completion loop of `select_player`: every participant's count is the total. */
  method IsDraftDone(counts: map<string, U8>, participants: seq<string>, total: nat) returns (isDone: bool)
    requires forall p :: p in participants ==> p in counts
    ensures isDone <==> forall p :: p in participants ==> counts[p] == total
  {
    isDone := true;
    var i := 0;
    while i < |participants| && isDone
      invariant 0 <= i <= |participants|
      invariant isDone <==> forall j :: 0 <= j < i ==> counts[participants[j]] == total
    {
      if counts[participants[i]] != total {
        isDone := false;
      }
      i := i + 1;
    }
  }

  /** The tradable picks built at the end of `select_player`: `rounds` maps in which every
      participant owns its own pick. */
  method BuildTradablePicks(participants: seq<string>, rounds: nat) returns (picks: seq<map<string, string>>)
    ensures picks == FreshPicks(participants, rounds)
  {
    picks := [];
    for k := 0 to rounds
      invariant picks == seq(k, _ => map p | p in participants :: p)
    {
      var round: map<string, string> := map[];
      for j := 0 to |participants|
        invariant round == map p | p in participants[..j] :: p
      {
        round := round[participants[j] := participants[j]];
        assert participants[..j + 1] == participants[..j] + [participants[j]];
      }
      assert participants[..|participants|] == participants;
      picks := picks + [round];
    }
  }

  class LegacyContext {
    var poolerRoster: Rosters
    var playersNameDrafted: seq<nat>
    var tradablePicks: Option<seq<map<string, string>>>

    function State(): LegacyState
      reads this
    {
      LegacyState(poolerRoster, playersNameDrafted, tradablePicks)
    }

    /** `remove_roster_player`: the four `retain` calls on the user's lists. */
    method RemoveRosterPlayer(id: nat, user: string)
      modifies this
      ensures poolerRoster == LegacyModel.RemoveRosterPlayer(old(poolerRoster), id, user)
      ensures playersNameDrafted == old(playersNameDrafted) && tradablePicks == old(tradablePicks)
    {
      if user in poolerRoster {
        var x := poolerRoster[user];
        x := x.(forwards := WithoutId(x.forwards, id));
        x := x.(defenders := WithoutId(x.defenders, id));
        x := x.(goalies := WithoutId(x.goalies, id));
        x := x.(reservists := WithoutId(x.reservists, id));
        poolerRoster := poolerRoster[user := x];
      }
    }

    /** `trade_roster_player`. */
    method TradeRosterPlayer(id: nat, giver: string, receiver: string) returns (moved: bool)
      modifies this
      ensures (moved, poolerRoster) == LegacyModel.TradeRosterPlayer(old(poolerRoster), id, giver, receiver)
      ensures playersNameDrafted == old(playersNameDrafted) && tradablePicks == old(tradablePicks)
    {
      var player: Option<Player> := None;
      if giver in poolerRoster {
        var g := poolerRoster[giver];
        if HasId(g.forwards, id) {
          var index := PositionOf(g.forwards, id);
          player := Some(g.forwards[index]);
          g := g.(forwards := g.forwards[..index] + g.forwards[index + 1..]);
        } else if HasId(g.defenders, id) {
          var index := PositionOf(g.defenders, id);
          player := Some(g.defenders[index]);
          g := g.(defenders := g.defenders[..index] + g.defenders[index + 1..]);
        } else if HasId(g.goalies, id) {
          var index := PositionOf(g.goalies, id);
          player := Some(g.goalies[index]);
          g := g.(goalies := g.goalies[..index] + g.goalies[index + 1..]);
        } else if HasId(g.reservists, id) {
          var index := PositionOf(g.reservists, id);
          player := Some(g.reservists[index]);
          g := g.(reservists := g.reservists[..index] + g.reservists[index + 1..]);
        } else {
          return false;
        }
        poolerRoster := poolerRoster[giver := g];
      }
      if receiver in poolerRoster && player.Some? {
        poolerRoster := poolerRoster[receiver := poolerRoster[receiver].(reservists := poolerRoster[receiver].reservists + [player.value])];
        return true;
      }
      return false;
    }

    /** `validate_trade_possession`. */
    method ValidateTradePossession(items: TradeItems, participant: string) returns (r: Result<bool>)
      ensures r == LegacyModel.ValidateTradePossession(State(), items, participant)
    {
      var ids := items.players;
      for i := 0 to |ids|
        invariant PlayersHeld(poolerRoster, ids, participant) == PlayersHeld(poolerRoster, ids[i..], participant)
      {
        if participant !in poolerRoster {
          return Err(Panic);
        }
        if !poolerRoster[participant].HoldsId(ids[i]) {
          return Ok(false);
        }
        assert ids[i..][1..] == ids[i + 1..];
      }
      if tradablePicks.Some? {
        var table := tradablePicks.value;
        var picks := items.picks;
        for i := 0 to |picks|
          invariant PicksOwned(table, picks, participant) == PicksOwned(table, picks[i..], participant)
        {
          var pick := picks[i];
          if pick.round >= |table| || pick.from !in table[pick.round] {
            return Err(Panic);
          }
          if table[pick.round][pick.from] != participant {
            return Ok(false);
          }
          assert picks[i..][1..] == picks[i + 1..];
        }
      }
      return Ok(true);
    }

    /** A pick loop of `trade_roster_items`. */
    method ReassignPicks(picks: seq<Pick>, owner: string) returns (r: Result<()>)
      modifies this
      ensures poolerRoster == old(poolerRoster) && playersNameDrafted == old(playersNameDrafted)
      ensures old(tradablePicks).None? ==> r.Ok? && tradablePicks == old(tradablePicks)
      ensures old(tradablePicks).Some? ==>
        match LegacyModel.ReassignPicks(old(tradablePicks).value, picks, owner)
        case Err(e) => r == Err(e)
        case Ok(t) => r.Ok? && tradablePicks == Some(t)
    {
      for i := 0 to |picks|
        invariant poolerRoster == old(poolerRoster) && playersNameDrafted == old(playersNameDrafted)
        invariant tradablePicks.Some? <==> old(tradablePicks).Some?
        invariant old(tradablePicks).None? ==> tradablePicks == old(tradablePicks)
        invariant tradablePicks.Some? ==>
          LegacyModel.ReassignPicks(old(tradablePicks).value, picks, owner)
          == LegacyModel.ReassignPicks(tradablePicks.value, picks[i..], owner)
      {
        if tradablePicks.Some? {
          var table := tradablePicks.value;
          var pick := picks[i];
          if pick.round >= |table| {
            return Err(Panic);
          }
          if pick.from in table[pick.round] {
            tradablePicks := Some(table[pick.round := table[pick.round][pick.from := owner]]);
          }
          assert picks[i..][1..] == picks[i + 1..];
        }
      }
      return Ok(());
    }

    /** The player loops of `trade_roster_items`. */
    method MovePlayers(ids: seq<nat>, giver: string, receiver: string)
      modifies this
      ensures poolerRoster == LegacyModel.MovePlayers(old(poolerRoster), ids, giver, receiver)
      ensures playersNameDrafted == old(playersNameDrafted) && tradablePicks == old(tradablePicks)
    {
      for i := 0 to |ids|
        invariant LegacyModel.MovePlayers(old(poolerRoster), ids, giver, receiver)
                  == LegacyModel.MovePlayers(poolerRoster, ids[i..], giver, receiver)
        invariant playersNameDrafted == old(playersNameDrafted) && tradablePicks == old(tradablePicks)
      {
        var _ := TradeRosterPlayer(ids[i], giver, receiver);
        assert ids[i..][1..] == ids[i + 1..];
      }
    }

    /** `trade_roster_items`. */
    method TradeRosterItems(trade: Trade) returns (r: Result<bool>)
      modifies this
      ensures r == LegacyModel.TradeRosterItems(old(State()), trade).0
      ensures r.Ok? ==> State() == LegacyModel.TradeRosterItems(old(State()), trade).1
    {
      r := ValidateTradePossession(trade.fromItems, trade.proposedBy);
      if r.Err? || !r.value {
        return;
      }
      MovePlayers(trade.fromItems.players, trade.proposedBy, trade.askTo);
      MovePlayers(trade.toItems.players, trade.askTo, trade.proposedBy);
      var picked := ReassignPicks(trade.fromItems.picks, trade.askTo);
      if picked.Err? {
        return Err(picked.error);
      }
      picked := ReassignPicks(trade.toItems.picks, trade.proposedBy);
      if picked.Err? {
        return Err(picked.error);
      }
      return Ok(true);
    }

    /** The in-memory part of `select_player` for a pool without a final rank. */
    method SelectPlayer(user: string, player: Player, participants: Option<seq<string>>, config: LegacyConfig)
      returns (r: Result<bool>)
      modifies this
      ensures r == LegacyModel.SelectPlayer(old(State()), user, player, participants, config).0
      ensures r.Ok? ==> State() == LegacyModel.SelectPlayer(old(State()), user, player, participants, config).1
      ensures r.Err? && r.error != Panic ==> State() == old(State())
    {
      if user !in poolerRoster {
        return Err(UserNotInPool);
      }
      if participants.None? {
        return Err(NoParticipants);
      }
      var ps := participants.value;
      for i := 0 to |ps|
        invariant PickedByOther(poolerRoster, ps, user, player) == PickedByOther(poolerRoster, ps[i..], user, player)
      {
        assert ps[i..][1..] == ps[i + 1..];
        if ps[i] != user {
          if ps[i] !in poolerRoster {
            return Err(Panic);
          }
          if poolerRoster[ps[i]].HoldsAt(player) {
            return Err(AlreadyPicked);
          }
        }
      }
      forall p | p in ps
        ensures p in poolerRoster
      {
        var k :| 0 <= k < |ps| && ps[k] == p;
      }
      var counts := GetUsersPlayersCount(poolerRoster, ps);
      if config.RosterTotal() >= 256 {
        return Err(Panic);
      }
      var total := config.RosterTotal();
      if config.numberPoolers == 0 {
        return Err(Panic);
      }
      var index := |playersNameDrafted| % config.numberPoolers as nat;
      if index >= |ps| {
        return Err(Panic);
      }
      if ps[index] != user {
        return Err(NotYourTurn(ps[index]));
      }

      ghost var before := State();
      var placed := PlaceDrafted(poolerRoster[user], player, config);
      if placed.None? {
        return Err(NotEnoughSpace);
      }
      poolerRoster := poolerRoster[user := placed.value];
      playersNameDrafted := playersNameDrafted + [player.id];
      if counts[user] == 255 {
        return Err(Panic);
      }
      counts := counts[user := counts[user] + 1];
      var isDone := IsDraftDone(counts, ps, total);
      assert isDone <==> DraftComplete(before.poolerRoster, ps, user, total);
      if isDone {
        var picks := BuildTradablePicks(ps, config.tradablePicks as nat);
        tradablePicks := Some(picks);
      }
      return Ok(isDone);
    }

    /** The in-memory part of `undo_select_player` for a pool without a final rank. */
    method UndoSelectPlayer(participants: Option<seq<string>>, config: LegacyConfig) returns (r: Result<()>)
      modifies this
      ensures r == LegacyModel.UndoSelectPlayer(old(State()), participants, config).0
      ensures r.Ok? ==> State() == LegacyModel.UndoSelectPlayer(old(State()), participants, config).1
      ensures r.Err? && r.error != Panic ==> State() == old(State())
    {
      if playersNameDrafted == [] {
        return Err(NothingToUndo);
      }
      var latest := 0;
      while latest == 0
        invariant poolerRoster == old(poolerRoster) && tradablePicks == old(tradablePicks)
        invariant latest == 0 ==> PopPick(old(playersNameDrafted)) == PopPick(playersNameDrafted)
        invariant latest > 0 ==> PopPick(old(playersNameDrafted)) == Some((latest, playersNameDrafted))
        decreases |playersNameDrafted|, if latest == 0 then 1 else 0
      {
        if playersNameDrafted == [] {
          return Err(Panic);
        }
        latest := playersNameDrafted[|playersNameDrafted| - 1];
        playersNameDrafted := playersNameDrafted[..|playersNameDrafted| - 1];
      }
      if participants.None? {
        return Err(Panic);
      }
      var ps := participants.value;
      if config.numberPoolers == 0 {
        return Err(Panic);
      }
      var index := |playersNameDrafted| % config.numberPoolers as nat;
      if index >= |ps| {
        return Err(Panic);
      }
      RemoveRosterPlayer(latest, ps[index]);
      return Ok(());
    }
  }
}
