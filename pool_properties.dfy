/** Properties of the `Pool` operations that relate several calls: the trade lifecycle
    (one open trade at a time, answered trades are closed, accepted trades keep every player),
    the add/remove round trip, and the draft/undo round trip at the level of the pool. */
module PoolProperties {
  import opened PoolTypes
  import opened Roster
  import opened ContextModel
  import opened ContextProperties
  import opened PoolModel

  /** What a successful answer to a trade did: the first trade with that id was NEW, the
      caller was the one asked (or privileged), the waiting time was over; that trade, and
      only it, is now ACCEPTED (stamped with `now`, its items moved) or REFUSED. */
  lemma RespondTradeOutcome(p: PoolValue, user: string, isAccepted: bool, tradeId: nat, now: int)
    requires RespondTrade(p, user, isAccepted, tradeId, now).0.Ok?
    ensures var q := RespondTrade(p, user, isAccepted, tradeId, now).1;
      p.trades.Some? && TradePosition(p.trades.value, tradeId).Some? && q.trades.Some?
      && var i := TradePosition(p.trades.value, tradeId).value;
         var t := p.trades.value[i];
         t.status == NEW && (p.HasOwnerRights(user) || p.HasAssistantsRights(user) || t.askTo == user)
         && t.dateCreated + TRADE_WAIT_MS <= now
         && |q.trades.value| == |p.trades.value|
         && (forall j :: 0 <= j < |p.trades.value| && j != i ==> q.trades.value[j] == p.trades.value[j])
         && (isAccepted ==>
               q.trades.value[i] == t.(status := ACCEPTED, dateAccepted := now)
               && p.ctx.Some? && q.ctx.Some? && TradeRosterItems(p.ctx.value, t) == (Ok(()), q.ctx.value))
         && (!isAccepted ==> q.trades.value[i] == t.(status := REFUSED) && q.ctx == p.ctx)
  {
    RespondTradeShape(p, user, isAccepted, tradeId, now);
    if isAccepted {
      RespondTradeAccepted(p, user, tradeId, now);
    } else {
      RespondTradeRefused(p, user, tradeId, now);
    }
  }

  /** The guards a successful answer to a trade passed: the trade exists, is new, the user
      may answer it and it has waited long enough. */
  lemma RespondTradeShape(p: PoolValue, user: string, isAccepted: bool, tradeId: nat, now: int)
    requires RespondTrade(p, user, isAccepted, tradeId, now).0.Ok?
    ensures p.trades.Some? && TradePosition(p.trades.value, tradeId).Some?
    ensures var t := p.trades.value[TradePosition(p.trades.value, tradeId).value];
      t.status == NEW && (p.HasOwnerRights(user) || p.HasAssistantsRights(user) || t.askTo == user)
      && t.dateCreated + TRADE_WAIT_MS <= now
  {
  }

  /** An accepted trade that went through: the rosters are those the trade left and the one
      trade is marked accepted. */
  lemma RespondTradeAccepted(p: PoolValue, user: string, tradeId: nat, now: int)
    requires RespondTrade(p, user, true, tradeId, now).0.Ok?
    requires p.trades.Some? && TradePosition(p.trades.value, tradeId).Some?
    ensures var i := TradePosition(p.trades.value, tradeId).value;
      var t := p.trades.value[i];
      var q := RespondTrade(p, user, true, tradeId, now).1;
      p.ctx.Some? && TradeRosterItems(p.ctx.value, t).0 == Ok(())
      && q.ctx == Some(TradeRosterItems(p.ctx.value, t).1)
      && q.trades == Some(p.trades.value[i := t.(status := ACCEPTED, dateAccepted := now)])
  {
    var t := p.trades.value[TradePosition(p.trades.value, tradeId).value];
    assert p.ctx.Some?;
    var moved := TradeRosterItems(p.ctx.value, t).0;
    assert moved.Ok? && moved.value == ();
  }

  /** A refused trade: the rosters stay and the one trade is marked refused. */
  lemma RespondTradeRefused(p: PoolValue, user: string, tradeId: nat, now: int)
    requires RespondTrade(p, user, false, tradeId, now).0.Ok?
    requires p.trades.Some? && TradePosition(p.trades.value, tradeId).Some?
    ensures var i := TradePosition(p.trades.value, tradeId).value;
      var q := RespondTrade(p, user, false, tradeId, now).1;
      q.ctx == p.ctx && q.trades == Some(p.trades.value[i := p.trades.value[i].(status := REFUSED)])
  {
  }

  /** The one-active-trade check compares a trade's proposer with itself, so once a trade is
      created no other trade can be created, by anyone, until it is answered or deleted. */
  lemma CreateTradeBlocksNext(p: PoolValue, trade: Trade, user: string, today: int, now: int,
                              other: Trade, otherUser: string, otherToday: int, otherNow: int)
    requires CreateTrade(p, trade, user, today, now).0.Ok?
    ensures CreateTrade(CreateTrade(p, trade, user, today, now).1, other, otherUser, otherToday, otherNow).0.Err?
  {
    var q := CreateTrade(p, trade, user, today, now).1;
    assert q.trades.value[|p.trades.value|].status == NEW;
  }

  /** A trade created by its proposer can be deleted by them straight away, giving back the
      pool as it was, provided no earlier trade carries the same id. */
  lemma DeleteAfterCreate(p: PoolValue, trade: Trade, today: int, now: int)
    requires CreateTrade(p, trade, trade.proposedBy, today, now).0.Ok?
    requires p.trades.Some? && forall i :: 0 <= i < |p.trades.value| ==> p.trades.value[i].id != p.nbTrade
    ensures DeleteTrade(CreateTrade(p, trade, trade.proposedBy, today, now).1, trade.proposedBy, p.nbTrade) == (Ok(()), p)
  {
    var q := CreateTrade(p, trade, trade.proposedBy, today, now).1;
    var n := |p.trades.value|;
    var i := TradePosition(q.trades.value, p.nbTrade);
    assert q.trades.value[n].id == p.nbTrade;
    assert forall j :: 0 <= j < n ==> q.trades.value[j] == p.trades.value[j];
    assert i == Some(n);
    assert q.trades.value[..n] + q.trades.value[n + 1..] == p.trades.value;
  }

  /** Every trade gets the never incremented counter as its id, so once a trade with that id
      has been answered, it shadows every later one: a newly created trade can no longer be
      deleted by id. */
  lemma NewTradeShadowed(p: PoolValue, trade: Trade, user: string, today: int, now: int, deleter: string)
    requires CreateTrade(p, trade, user, today, now).0.Ok?
    requires p.trades.Some? && |p.trades.value| > 0 && p.trades.value[0].id == p.nbTrade
    ensures DeleteTrade(CreateTrade(p, trade, user, today, now).1, deleter, p.nbTrade).0 == Err(TradeNotDeletable)
  {
    var q := CreateTrade(p, trade, user, today, now).1;
    assert q.trades.value[0] == p.trades.value[0];
    assert TradePosition(q.trades.value, p.nbTrade) == Some(0);
  }

  /** Replacing one trade by one with the same id leaves the position of every id alone. */
  lemma TradePositionAfterUpdate(trades: seq<Trade>, i: nat, t: Trade, id: nat)
    requires i < |trades| && t.id == trades[i].id
    ensures TradePosition(trades[i := t], id) == TradePosition(trades, id)
  {
    var u := trades[i := t];
    assert forall j :: 0 <= j < |trades| ==> u[j].id == trades[j].id;
    match TradePosition(trades, id)
    case None =>
    case Some(k) =>
      var k' := TradePosition(u, id).value;
      assert k' <= k;
  }

  /** An answered trade is closed: answering it again or deleting it is refused. */
  lemma RespondedTradeIsClosed(p: PoolValue, user: string, isAccepted: bool, tradeId: nat, now: int,
                               again: string, againAccepted: bool, againNow: int, deleter: string)
    requires RespondTrade(p, user, isAccepted, tradeId, now).0.Ok?
    ensures var q := RespondTrade(p, user, isAccepted, tradeId, now).1;
            RespondTrade(q, again, againAccepted, tradeId, againNow).0 == Err(TradeNotRespondable)
            && DeleteTrade(q, deleter, tradeId).0 == Err(TradeNotDeletable)
  {
    RespondTradeOutcome(p, user, isAccepted, tradeId, now);
    var q := RespondTrade(p, user, isAccepted, tradeId, now).1;
    var i := TradePosition(p.trades.value, tradeId).value;
    assert q.trades.value == p.trades.value[i := q.trades.value[i]];
    TradePositionAfterUpdate(p.trades.value, i, q.trades.value[i], tradeId);
  }

  /** An accepted trade neither creates nor loses players. */
  lemma AcceptedTradeKeepsTotal(p: PoolValue, user: string, tradeId: nat, now: int)
    requires RespondTrade(p, user, true, tradeId, now).0.Ok?
    ensures var q := RespondTrade(p, user, true, tradeId, now).1;
            p.ctx.Some? && q.ctx.Some?
            && TotalPlayers(q.ctx.value.poolerRoster) == TotalPlayers(p.ctx.value.poolerRoster)
  {
    RespondTradeOutcome(p, user, true, tradeId, now);
    var i := TradePosition(p.trades.value, tradeId).value;
    TradeRosterItemsKeepsTotal(p.ctx.value, p.trades.value[i]);
  }

  /** Adding a free player to a participant and removing it again gives back every roster;
      the player stays recorded in the pool. */
  lemma AddThenRemovePlayer(p: PoolValue, user: string, addedTo: string, player: Player)
    requires AddPlayer(p, user, addedTo, player).0.Ok?
    requires p.participants.Some? && addedTo in p.participants.value
    ensures var q := AddPlayer(p, user, addedTo, player).1;
            var back := RemovePlayer(q, user, addedTo, player.id);
            back.0.Ok? && p.ctx.Some? && back.1.ctx.Some?
            && back.1.ctx.value.poolerRoster == p.ctx.value.poolerRoster
            && back.1.ctx.value.players == p.ctx.value.players[player.id := player]
  {
    var c := p.ctx.value;
    var before := c.poolerRoster[addedTo];
    AddedWasFree(p, user, addedTo, player);
    var q := AddPlayer(p, user, addedTo, player).1;
    var added := c.poolerRoster[addedTo := before.AddReservist(player.id)];
    assert added[addedTo := before] == c.poolerRoster;
    assert q.ctx.value.poolerRoster == added;
    RemoveAfterAddReservist(before, player.id);
    assert RemovePlayer(q, user, addedTo, player.id).1.ctx.value.poolerRoster == added[addedTo := before];
  }

  /** A participant a player was added to did not own that player. */
  lemma AddedWasFree(p: PoolValue, user: string, addedTo: string, player: Player)
    requires AddPlayer(p, user, addedTo, player).0.Ok?
    requires p.participants.Some? && addedTo in p.participants.value
    ensures p.ctx.Some? && addedTo in p.ctx.value.poolerRoster
            && !p.ctx.value.poolerRoster[addedTo].Possesses(player.id)
  {
    var k :| 0 <= k < |p.participants.value| && p.participants.value[k] == addedTo;
  }

  /** Drafting never takes a player someone already owns, and the pool moves on from the
      draft only when every roster is full. */
  lemma DraftPlayerOutcome(p: PoolValue, user: string, player: Player)
    ensures p.ctx.Some? && PickedByAnyone(p.ctx.value, player.id) && (p.participants.Some? || p.finalRank.Some?)
            ==> DraftPlayer(p, user, player) == (Err(AlreadyPicked), p)
    ensures var q := DraftPlayer(p, user, player).1;
            q.status != p.status ==> q.ctx.Some? && DraftDone(q.ctx.value, p.settings)
  {
    var q := DraftPlayer(p, user, player).1;
    if p.ctx.Some? && (p.participants.Some? || p.finalRank.Some?) {
      var c := p.ctx.value;
      var hasPrivileges := p.HasOwnerRights(user);
      if p.finalRank.Some? {
        var (r, c1) := DraftDynastie(c, user, player, p.finalRank.value, p.settings, hasPrivileges);
        if r.Ok? && r.value {
          var (next, s1) := FindNext(c, p.finalRank.value, p.settings);
          var drafter := next.value;
          var s2 := AddDrafted(s1, player, drafter, p.settings).value;
          assert c1 == CheckDraftDone(s2, p.settings).1;
        }
      } else {
        var (r, c1) := DraftClassic(c, user, player, p.participants.value, p.settings, hasPrivileges);
        if r.Ok? && r.value {
          var ps := p.participants.value;
          var drafter := ps[SnakeIndex(|c.playersNameDrafted|, |ps|)];
          var s1 := AddDrafted(c, player, drafter, p.settings).value;
          assert c1 == CheckDraftDone(s1, p.settings).1;
        }
      }
    }
  }

  /** The round trip of a snake draft, seen from the pool: a successful pick in a pool
      without a final rank or dynastie settings, undone by the owner, gives back the rosters
      and the draft history. */
  lemma DraftThenUndo(p: PoolValue, user: string, player: Player)
    requires p.finalRank.None? && p.participants.Some? && p.ctx.Some?
    requires p.settings.dynastieSettings.None? && player.id > 0
    requires forall u :: u in p.participants.value ==> u in p.ctx.value.poolerRoster
    requires DraftPlayer(p, user, player).0.Ok?
    ensures var q := DraftPlayer(p, user, player).1;
            var u := UndoDraftPlayer(q, p.owner);
            u.0.Ok? && u.1.ctx.Some?
            && u.1.ctx.value.poolerRoster == p.ctx.value.poolerRoster
            && u.1.ctx.value.playersNameDrafted == p.ctx.value.playersNameDrafted
  {
    UndoAfterDraftClassic(p.ctx.value, user, player, p.participants.value, p.settings, p.HasOwnerRights(user));
  }
}
