/** The in-memory helpers of the older pool service: rosters that hold whole players
    (compared by id only), the move of a player from one participant to another, the
    possession checks behind a trade, the per-participant counts, and the round-robin draft
    of a pool without a final rank, with its undo. Every operation is a function of the
    context's value; `LegacyPool.LegacyContext` performs them in place. */
module LegacyModel {
  import opened PoolTypes
  import opened Scoring

  // ---- Lists of players --------------------------------------------------------------------

  /** `contains` under the player equality of this service, which compares ids only. */
  predicate HasId(s: seq<Player>, id: nat)
  {
    exists i :: 0 <= i < |s| && s[i].id == id
  }

  /** `iter().position(|r| r.id == id)`: the index of the first player with that id. */
  function PositionOf(s: seq<Player>, id: nat): (i: nat)
    requires HasId(s, id)
    ensures i < |s| && s[i].id == id
    ensures forall j :: 0 <= j < i ==> s[j].id != id
  {
    if s[0].id == id then 0
    else
      assert HasId(s[1..], id) by {
        var k :| 0 <= k < |s| && s[k].id == id;
        assert s[1..][k - 1].id == id;
      }
      1 + PositionOf(s[1..], id)
  }

  /** `retain(|player| player.id != id)`: drops every player with that id, in order. */
  function WithoutId(s: seq<Player>, id: nat): (r: seq<Player>)
    ensures !HasId(r, id)
    ensures !HasId(s, id) ==> r == s
  {
    if |s| == 0 then []
    else
      var rest := WithoutId(s[1..], id);
      assert forall k :: 0 <= k < |s[1..]| ==> s[1..][k] == s[k + 1];
      assert s == [s[0]] + s[1..];
      if s[0].id == id then rest
      else
        assert forall k :: 0 < k < |[s[0]] + rest| ==> ([s[0]] + rest)[k] == rest[k - 1];
        [s[0]] + rest
  }

  /** `retain` keeps every player with another id, and only those. */
  lemma {:induction false} WithoutIdKeeps(s: seq<Player>, id: nat, x: Player)
    ensures x in WithoutId(s, id) <==> x in s && x.id != id
    decreases |s|
  {
    if s != [] {
      WithoutIdKeeps(s[1..], id, x);
      assert s == [s[0]] + s[1..];
    }
  }

  /** Dropping an id from a list that only gained it at the end gives the list back. */
  lemma {:induction false} WithoutAppended(s: seq<Player>, p: Player)
    requires !HasId(s, p.id)
    ensures WithoutId(s + [p], p.id) == s
    decreases |s|
  {
    if s == [] {
      assert [p][1..] == [];
    } else {
      assert (s + [p])[1..] == s[1..] + [p];
      assert forall k :: 0 <= k < |s[1..]| ==> s[1..][k] == s[k + 1];
      WithoutAppended(s[1..], p);
      assert s == [s[0]] + s[1..];
    }
  }

  /** `remove(position(..))`: takes out the first player with that id. */
  function TakeFrom(s: seq<Player>, id: nat): (r: (Player, seq<Player>))
    requires HasId(s, id)
    ensures r.0.id == id && r.0 in s
    ensures |r.1| == |s| - 1 && multiset(r.1) == multiset(s) - multiset{r.0}
    ensures multiset(r.1) + multiset{r.0} == multiset(s)
  {
    var i := PositionOf(s, id);
    assert s == s[..i] + [s[i]] + s[i + 1..];
    (s[i], s[..i] + s[i + 1..])
  }

  /** Roster sizes of the older service, with the number of next-season picks
      that can be traded and the number of participants. */
  datatype LegacyConfig = LegacyConfig(
    numberPoolers: U8,
    numberForwards: U8,
    numberDefenders: U8,
    numberGoalies: U8,
    numberReservists: U8,
    tradablePicks: U8)
  {
    /** `number_forwards + number_defenders + number_goalies + number_reservists`, before
        the `u8` overflow check. */
    function RosterTotal(): nat
    {
      numberForwards as nat + numberDefenders as nat + numberGoalies as nat + numberReservists as nat
    }
  }

  // ---- Rosters -----------------------------------------------------------------------------

  /** `PoolerRoster` of the older service: four lists of whole players. */
  datatype LegacyRoster = LegacyRoster(
    forwards: seq<Player>,
    defenders: seq<Player>,
    goalies: seq<Player>,
    reservists: seq<Player>)
  {
    function Count(): nat
    {
      |forwards| + |defenders| + |goalies| + |reservists|
    }

    /** All the players of the roster, with their multiplicities. */
    function Players(): multiset<Player>
    {
      multiset(forwards) + multiset(defenders) + multiset(goalies) + multiset(reservists)
    }

    /** `validate_player_possession_with_id`: some list holds a player with that id. */
    predicate HoldsId(id: nat)
    {
      HasId(forwards, id) || HasId(defenders, id) || HasId(goalies, id) || HasId(reservists, id)
    }

    /** `validate_player_possession`: the player is in the list of its own position or among
        the reservists. */
    predicate HoldsAt(player: Player)
    {
      match player.position
      case F => HasId(forwards, player.id) || HasId(reservists, player.id)
      case D => HasId(defenders, player.id) || HasId(reservists, player.id)
      case G => HasId(goalies, player.id) || HasId(reservists, player.id)
    }

    /** The giver's side of `trade_roster_player`: the first player with that id is taken
        out of forwards, else defenders, else goalies, else reservists. */
    function Take(id: nat): (r: Option<(Player, LegacyRoster)>)
      ensures r.None? <==> !HoldsId(id)
      ensures r.Some? ==> r.value.0.id == id && r.value.1.Count() == Count() - 1
    {
      if HasId(forwards, id) then
        var (p, rest) := TakeFrom(forwards, id);
        Some((p, this.(forwards := rest)))
      else if HasId(defenders, id) then
        var (p, rest) := TakeFrom(defenders, id);
        Some((p, this.(defenders := rest)))
      else if HasId(goalies, id) then
        var (p, rest) := TakeFrom(goalies, id);
        Some((p, this.(goalies := rest)))
      else if HasId(reservists, id) then
        var (p, rest) := TakeFrom(reservists, id);
        Some((p, this.(reservists := rest)))
      else None
    }

    /** The roster part of `remove_roster_player`: every player with that id leaves all
        four lists. */
    function Without(id: nat): (r: LegacyRoster)
      ensures !r.HoldsId(id)
      ensures !HoldsId(id) ==> r == this
    {
      LegacyRoster(WithoutId(forwards, id), WithoutId(defenders, id), WithoutId(goalies, id),
                   WithoutId(reservists, id))
    }

    /** The placement of `select_player`: the position's list while its length (as `u8`)
        is under the position's cap, else the reservists while under their cap, else none. */
    function Place(player: Player, config: LegacyConfig): (r: Option<LegacyRoster>)
      ensures r.Some? ==> r.value.Count() == Count() + 1 && r.value.HoldsAt(player)
      ensures r.None? <==>
        AsU8(|PositionList(player.position)|) >= PositionCap(player.position, config)
        && AsU8(|reservists|) >= config.numberReservists
    {
      assert [player][0].id == player.id;
      match player.position
      case F =>
        if AsU8(|forwards|) < config.numberForwards then
          assert (forwards + [player])[|forwards|] == player;
          Some(this.(forwards := forwards + [player]))
        else PlaceReservist(player, config)
      case D =>
        if AsU8(|defenders|) < config.numberDefenders then
          assert (defenders + [player])[|defenders|] == player;
          Some(this.(defenders := defenders + [player]))
        else PlaceReservist(player, config)
      case G =>
        if AsU8(|goalies|) < config.numberGoalies then
          assert (goalies + [player])[|goalies|] == player;
          Some(this.(goalies := goalies + [player]))
        else PlaceReservist(player, config)
    }

    function PlaceReservist(player: Player, config: LegacyConfig): (r: Option<LegacyRoster>)
      ensures r.Some? ==> r.value == this.(reservists := reservists + [player]) && r.value.HoldsAt(player)
      ensures r.None? <==> AsU8(|reservists|) >= config.numberReservists
    {
      if AsU8(|reservists|) < config.numberReservists then
        assert (reservists + [player])[|reservists|] == player;
        Some(this.(reservists := reservists + [player]))
      else None
    }

    function PositionList(pos: Position): seq<Player>
    {
      match pos
      case F => forwards
      case D => defenders
      case G => goalies
    }
  }

  /** The player taken from a roster is one of its players, and the roster keeps all the
      others: taking then giving back the player gives back the same players. */
  lemma TakeKeepsOthers(r: LegacyRoster, id: nat)
    requires r.HoldsId(id)
    ensures var (p, g) := r.Take(id).value;
            p.id == id && g.Players() + multiset{p} == r.Players()
  {
    var (p, g) := r.Take(id).value;
    var f, d, gl, rv := multiset(r.forwards), multiset(r.defenders), multiset(r.goalies), multiset(r.reservists);
    if HasId(r.forwards, id) {
      var rest := multiset(TakeFrom(r.forwards, id).1);
      PlusOne(f, rest, d, p);
      PlusOne(f + d, rest + d, gl, p);
      PlusOne(f + d + gl, rest + d + gl, rv, p);
    } else if HasId(r.defenders, id) {
      var rest := multiset(TakeFrom(r.defenders, id).1);
      OnePlus(d, rest, f, p);
      PlusOne(f + d, f + rest, gl, p);
      PlusOne(f + d + gl, f + rest + gl, rv, p);
    } else if HasId(r.goalies, id) {
      var rest := multiset(TakeFrom(r.goalies, id).1);
      OnePlus(gl, rest, f + d, p);
      PlusOne(f + d + gl, f + d + rest, rv, p);
    } else {
      var rest := multiset(TakeFrom(r.reservists, id).1);
      OnePlus(rv, rest, f + d + gl, p);
    }
  }

  /** One element added back on the left of a sum of multisets. */
  lemma PlusOne(a: multiset<Player>, rest: multiset<Player>, b: multiset<Player>, x: Player)
    requires rest + multiset{x} == a
    ensures rest + b + multiset{x} == a + b
  {
  }

  /** One element added back on the right of a sum of multisets. */
  lemma OnePlus(a: multiset<Player>, rest: multiset<Player>, b: multiset<Player>, x: Player)
    requires rest + multiset{x} == a
    ensures b + rest + multiset{x} == b + a
  {
  }

  /** Some player of the multiset has that id. */
  predicate IdIn(m: multiset<Player>, id: nat)
  {
    exists p :: p in m && p.id == id
  }

  /** A list holds a player with that id iff its multiset does. */
  lemma HasIdIn(s: seq<Player>, id: nat)
    ensures HasId(s, id) <==> IdIn(multiset(s), id)
  {
    if HasId(s, id) {
      var i :| 0 <= i < |s| && s[i].id == id;
      assert s[i] in multiset(s);
    }
    if IdIn(multiset(s), id) {
      var p :| p in multiset(s) && p.id == id;
      var i :| 0 <= i < |s| && s[i] == p;
    }
  }

  /** A roster holds a player with that id iff its players do. */
  lemma HoldsIdIn(r: LegacyRoster, id: nat)
    ensures r.HoldsId(id) <==> IdIn(r.Players(), id)
  {
    HasIdIn(r.forwards, id);
    HasIdIn(r.defenders, id);
    HasIdIn(r.goalies, id);
    HasIdIn(r.reservists, id);
    if IdIn(r.Players(), id) {
      var p :| p in r.Players() && p.id == id;
      assert p in multiset(r.forwards) || p in multiset(r.defenders) || p in multiset(r.goalies)
             || p in multiset(r.reservists);
    }
  }

  /** Taking a player off a roster leaves every other id where it was. */
  lemma TakeKeepsId(r: LegacyRoster, id: nat, x: nat)
    requires r.HoldsId(id) && x != id
    ensures r.Take(id).value.1.HoldsId(x) <==> r.HoldsId(x)
  {
    var (p, g) := r.Take(id).value;
    TakeKeepsOthers(r, id);
    HoldsIdIn(r, x);
    HoldsIdIn(g, x);
    if IdIn(r.Players(), x) {
      var q :| q in r.Players() && q.id == x;
      assert q in g.Players() + multiset{p};
    }
  }

  /** A player appended to the reservists is held, and so is everything held before. */
  lemma ReservistAdded(r: LegacyRoster, p: Player, x: nat)
    ensures r.(reservists := r.reservists + [p]).HoldsId(x) <==> r.HoldsId(x) || p.id == x
  {
    var s := r.reservists + [p];
    assert s[|r.reservists|] == p;
    if HasId(r.reservists, x) {
      var i :| 0 <= i < |r.reservists| && r.reservists[i].id == x;
      assert s[i] == r.reservists[i];
    }
    if HasId(s, x) && p.id != x {
      var i :| 0 <= i < |s| && s[i].id == x;
      assert i < |r.reservists| && s[i] == r.reservists[i];
    }
  }

  function PositionCap(pos: Position, config: LegacyConfig): U8
  {
    match pos
    case F => config.numberForwards
    case D => config.numberDefenders
    case G => config.numberGoalies
  }

  /** A player held by position is held by id; the converse does not hold, since a forward
      kept in the defenders' list is not possessed for `validate_player_possession`. */
  lemma PossessionByPosition(r: LegacyRoster, player: Player)
    ensures r.HoldsAt(player) ==> r.HoldsId(player.id)
    ensures player.position == F && HasId(r.defenders, player.id) && !HasId(r.forwards, player.id)
            && !HasId(r.reservists, player.id)
            ==> r.HoldsId(player.id) && !r.HoldsAt(player)
  {
  }

  /** Undoing a placement: a roster that held no player with that id gets back to what it
      was once the id is dropped. */
  lemma WithoutAfterPlace(r: LegacyRoster, player: Player, config: LegacyConfig)
    requires !r.HoldsId(player.id)
    requires r.Place(player, config).Some?
    ensures r.Place(player, config).value.Without(player.id) == r
  {
    var placed := r.Place(player, config).value;
    if placed.forwards != r.forwards {
      assert placed == r.(forwards := r.forwards + [player]);
      WithoutAppended(r.forwards, player);
    } else if placed.defenders != r.defenders {
      assert placed == r.(defenders := r.defenders + [player]);
      WithoutAppended(r.defenders, player);
    } else if placed.goalies != r.goalies {
      assert placed == r.(goalies := r.goalies + [player]);
      WithoutAppended(r.goalies, player);
    } else {
      assert placed == r.(reservists := r.reservists + [player]);
      WithoutAppended(r.reservists, player);
    }
  }

  // ---- The context -------------------------------------------------------------------------

  type Rosters = map<string, LegacyRoster>

  /** The part of the older `PoolContext` these helpers read and write. */
  datatype LegacyState = LegacyState(
    poolerRoster: Rosters,
    playersNameDrafted: seq<nat>,
    tradablePicks: Option<seq<map<string, string>>>)

  function CountOf(): LegacyRoster -> nat
  {
    (r: LegacyRoster) => r.Count()
  }

  /** The number of players held by all the rosters together. */
  ghost function LegacyTotal(rosters: Rosters): nat
  {
    SumOver(rosters, CountOf())
  }

  /** `remove_roster_player`: the user's roster loses every player with that id; an unknown
      user changes nothing. */
  function RemoveRosterPlayer(rosters: Rosters, id: nat, user: string): (r: Rosters)
    ensures r.Keys == rosters.Keys
    ensures user in rosters ==> !r[user].HoldsId(id)
    ensures forall u :: u in rosters && u != user ==> r[u] == rosters[u]
  {
    if user in rosters then rosters[user := rosters[user].Without(id)] else rosters
  }

  /** `remove_roster_player` touches no player with another id. */
  lemma RemoveRosterPlayerKeeps(rosters: Rosters, id: nat, user: string, x: Player)
    requires user in rosters && x.id != id
    ensures x in RemoveRosterPlayer(rosters, id, user)[user].Players() <==> x in rosters[user].Players()
  {
    var r := rosters[user];
    WithoutIdKeeps(r.forwards, id, x);
    WithoutIdKeeps(r.defenders, id, x);
    WithoutIdKeeps(r.goalies, id, x);
    WithoutIdKeeps(r.reservists, id, x);
  }

  /** `trade_roster_player`: when the giver holds a player with that id, the first one found
      is taken off the giver, and it joins the receiver's reservists when the receiver has a
      roster. The answer says whether the receiver got it; a giver without the player changes
      nothing. */
  function TradeRosterPlayer(rosters: Rosters, id: nat, giver: string, receiver: string): (r: (bool, Rosters))
    ensures r.0 <==> giver in rosters && rosters[giver].HoldsId(id) && receiver in rosters
    ensures r.1.Keys == rosters.Keys
    ensures !(giver in rosters && rosters[giver].HoldsId(id)) ==> r.1 == rosters
  {
    if giver !in rosters then (false, rosters)
    else
      match rosters[giver].Take(id)
      case None => (false, rosters)
      case Some((p, g)) =>
        var taken := rosters[giver := g];
        if receiver in taken then
          (true, taken[receiver := taken[receiver].(reservists := taken[receiver].reservists + [p])])
        else (false, taken)
  }

  /** A move that reaches the receiver keeps the number of players in the pool, and the
      receiver then holds a player with that id. */
  lemma TradeRosterPlayerKeepsTotal(rosters: Rosters, id: nat, giver: string, receiver: string)
    requires TradeRosterPlayer(rosters, id, giver, receiver).0
    ensures var t := TradeRosterPlayer(rosters, id, giver, receiver).1;
            LegacyTotal(t) == LegacyTotal(rosters) && t[receiver].HoldsId(id)
  {
    var (p, g) := rosters[giver].Take(id).value;
    var taken := rosters[giver := g];
    var received := taken[receiver].(reservists := taken[receiver].reservists + [p]);
    assert received.reservists[|taken[receiver].reservists|] == p;
    SumOverUpdate(rosters, CountOf(), giver, g);
    SumOverUpdate(taken, CountOf(), receiver, received);
  }

  /** A giver who holds the player but trades with someone who has no roster loses the
      player: it is taken off and never placed, and the answer is false. */
  lemma TradeToMissingReceiverLosesPlayer(rosters: Rosters, id: nat, giver: string, receiver: string)
    requires giver in rosters && rosters[giver].HoldsId(id) && receiver !in rosters
    ensures var (moved, t) := TradeRosterPlayer(rosters, id, giver, receiver);
            !moved && LegacyTotal(t) + 1 == LegacyTotal(rosters) && t[giver].Count() + 1 == rosters[giver].Count()
  {
    var (p, g) := rosters[giver].Take(id).value;
    SumOverUpdate(rosters, CountOf(), giver, g);
  }

  /** The player loops of `trade_roster_items`: each id in turn, whatever each move answers. */
  function MovePlayers(rosters: Rosters, ids: seq<nat>, giver: string, receiver: string): (r: Rosters)
    ensures r.Keys == rosters.Keys
    decreases |ids|
  {
    if ids == [] then rosters
    else MovePlayers(TradeRosterPlayer(rosters, ids[0], giver, receiver).1, ids[1..], giver, receiver)
  }

  /** Between two participants who both have a roster, the player loops keep the number of
      players in the pool: every move either does nothing or hands one player over. */
  lemma {:induction false} MovePlayersKeepsTotal(rosters: Rosters, ids: seq<nat>, giver: string, receiver: string)
    requires giver in rosters && receiver in rosters
    ensures LegacyTotal(MovePlayers(rosters, ids, giver, receiver)) == LegacyTotal(rosters)
    decreases |ids|
  {
    if ids != [] {
      var (moved, next) := TradeRosterPlayer(rosters, ids[0], giver, receiver);
      if moved {
        TradeRosterPlayerKeepsTotal(rosters, ids[0], giver, receiver);
      }
      MovePlayersKeepsTotal(next, ids[1..], giver, receiver);
    }
  }

  /** `tradable_picks[round][from] == participant`. */
  predicate OwnsPick(table: seq<map<string, string>>, pick: Pick, participant: string)
  {
    pick.round < |table| && pick.from in table[pick.round] && table[pick.round][pick.from] == participant
  }

  /** The participant has a roster holding a player with that id. */
  predicate HeldBy(rosters: Rosters, participant: string, id: nat)
  {
    participant in rosters && rosters[participant].HoldsId(id)
  }

  /** The player loop of `validate_trade_possession`: false at the first id the participant
      does not hold; indexing the rosters by an unknown participant panics. */
  function PlayersHeld(rosters: Rosters, ids: seq<nat>, participant: string): (r: Result<bool>)
    ensures r == Ok(true) <==> forall i :: 0 <= i < |ids| ==> HeldBy(rosters, participant, ids[i])
    ensures r.Err? <==> |ids| > 0 && participant !in rosters
    ensures r.Err? ==> r.error == Panic
    decreases |ids|
  {
    if ids == [] then Ok(true)
    else if participant !in rosters then
      assert !HeldBy(rosters, participant, ids[0]);
      Err(Panic)
    else if !rosters[participant].HoldsId(ids[0]) then Ok(false)
    else
      var rest := PlayersHeld(rosters, ids[1..], participant);
      assert forall i :: 1 <= i < |ids| ==> ids[i] == ids[1..][i - 1];
      rest
  }

  /** The pick loop of `validate_trade_possession`: false at the first pick whose current
      owner is someone else; a round out of range or an unknown original owner panics. */
  function PicksOwned(table: seq<map<string, string>>, picks: seq<Pick>, participant: string): (r: Result<bool>)
    ensures r == Ok(true) <==> forall i :: 0 <= i < |picks| ==> OwnsPick(table, picks[i], participant)
    ensures r.Err? ==> r.error == Panic
    decreases |picks|
  {
    if picks == [] then Ok(true)
    else if picks[0].round >= |table| || picks[0].from !in table[picks[0].round] then Err(Panic)
    else if table[picks[0].round][picks[0].from] != participant then Ok(false)
    else
      var rest := PicksOwned(table, picks[1..], participant);
      assert forall i :: 1 <= i < |picks| ==> picks[i] == picks[1..][i - 1];
      rest
  }

  /** `validate_trade_possession`: the participant holds every listed player and, when the
      pool has tradable picks, currently owns every listed pick. */
  function ValidateTradePossession(s: LegacyState, items: TradeItems, participant: string): (r: Result<bool>)
    ensures r == Ok(true) <==>
      (forall i :: 0 <= i < |items.players| ==> HeldBy(s.poolerRoster, participant, items.players[i]))
      && (s.tradablePicks.Some? ==>
            forall i :: 0 <= i < |items.picks| ==> OwnsPick(s.tradablePicks.value, items.picks[i], participant))
    ensures r.Err? ==> r.error == Panic
  {
    match PlayersHeld(s.poolerRoster, items.players, participant)
    case Err(e) =>
      assert !HeldBy(s.poolerRoster, participant, items.players[0]);
      Err(e)
    case Ok(held) =>
      if !held then Ok(false)
      else if s.tradablePicks.None? then Ok(true)
      else PicksOwned(s.tradablePicks.value, items.picks, participant)
  }

  /** One iteration of a pick loop of `trade_roster_items`: the pick's current owner becomes
      `owner` when the original owner is a key of that round; a round out of range panics. */
  function ReassignPick(table: seq<map<string, string>>, pick: Pick, owner: string): (r: Result<seq<map<string, string>>>)
    ensures r.Err? <==> pick.round >= |table|
    ensures r.Ok? ==> |r.value| == |table| && forall k :: 0 <= k < |table| ==> r.value[k].Keys == table[k].Keys
    ensures r.Ok? && pick.from in table[pick.round] ==> OwnsPick(r.value, pick, owner)
    ensures r.Ok? ==> forall other :: OwnsPick(table, other, owner) ==> OwnsPick(r.value, other, owner)
    ensures r.Ok? && pick.from !in table[pick.round] ==> r.value == table
    ensures r.Ok? ==> forall k, f :: 0 <= k < |table| && f in table[k] && (k != pick.round || f != pick.from)
                        ==> r.value[k][f] == table[k][f]
  {
    if pick.round >= |table| then Err(Panic)
    else if pick.from in table[pick.round] then
      Ok(table[pick.round := table[pick.round][pick.from := owner]])
    else Ok(table)
  }

  /** No pick of the list is the pick of round `round` originally held by `from`. */
  predicate Unlisted(picks: seq<Pick>, round: nat, from: string)
  {
    forall i :: 0 <= i < |picks| ==> picks[i].round != round || picks[i].from != from
  }

  /** A pick loop of `trade_roster_items`: every listed pick that exists goes to `owner`. */
  function ReassignPicks(table: seq<map<string, string>>, picks: seq<Pick>, owner: string): (r: Result<seq<map<string, string>>>)
    ensures r.Ok? ==> |r.value| == |table| && forall k :: 0 <= k < |table| ==> r.value[k].Keys == table[k].Keys
    ensures r.Ok? ==> forall i :: 0 <= i < |picks| && picks[i].round < |table| && picks[i].from in table[picks[i].round]
                        ==> OwnsPick(r.value, picks[i], owner)
    ensures r.Ok? ==> forall other :: OwnsPick(table, other, owner) ==> OwnsPick(r.value, other, owner)
    ensures r.Err? <==> exists i :: 0 <= i < |picks| && picks[i].round >= |table|
    ensures r.Ok? ==> forall k, f :: 0 <= k < |table| && f in table[k] && Unlisted(picks, k, f)
                        ==> r.value[k][f] == table[k][f]
    decreases |picks|
  {
    if picks == [] then Ok(table)
    else
      match ReassignPick(table, picks[0], owner)
      case Err(e) => Err(e)
      case Ok(next) =>
        var rest := ReassignPicks(next, picks[1..], owner);
        assert forall i :: 1 <= i < |picks| ==> picks[i] == picks[1..][i - 1];
        rest
  }

  /** `trade_roster_items`: only the proposer's side is validated (the source runs the same
      check twice, which can only agree with itself, so it is taken once here);
      then the proposer's players go to the one asked and the asked one's players to the
      proposer, whatever each move answers, and the listed picks change owners. */
  function TradeRosterItems(s: LegacyState, trade: Trade): (r: (Result<bool>, LegacyState))
    ensures r.0.Ok? && !r.0.value ==> r.1 == s
    ensures r.0 == Ok(true) ==> ValidateTradePossession(s, trade.fromItems, trade.proposedBy) == Ok(true)
    ensures ValidateTradePossession(s, trade.fromItems, trade.proposedBy) == Ok(false) ==> r == (Ok(false), s)
    ensures r.1.playersNameDrafted == s.playersNameDrafted
  {
    var checked := ValidateTradePossession(s, trade.fromItems, trade.proposedBy);
    if checked.Err? then (Err(checked.error), s)
    else if !checked.value then (Ok(false), s)
    else
        var given := MovePlayers(s.poolerRoster, trade.fromItems.players, trade.proposedBy, trade.askTo);
        var rosters := MovePlayers(given, trade.toItems.players, trade.askTo, trade.proposedBy);
        match s.tradablePicks
        case None => (Ok(true), s.(poolerRoster := rosters))
        case Some(table) =>
          match ReassignPicks(table, trade.fromItems.picks, trade.askTo)
          case Err(e) => (Err(e), s)
          case Ok(t1) =>
            match ReassignPicks(t1, trade.toItems.picks, trade.proposedBy)
            case Err(e) => (Err(e), s)
            case Ok(t2) => (Ok(true), s.(poolerRoster := rosters, tradablePicks := Some(t2)))
  }

  /** The items asked of the other side are never checked: whether a trade is refused does
      not depend on them. */
  lemma TradeIgnoresAskedItems(s: LegacyState, trade: Trade, asked: TradeItems)
    ensures TradeRosterItems(s, trade).0 == Ok(false)
            <==> TradeRosterItems(s, trade.(toItems := asked)).0 == Ok(false)
  {
    var v := ValidateTradePossession(s, trade.fromItems, trade.proposedBy);
    if v == Ok(true) && s.tradablePicks.Some? {
      var t := trade.(toItems := asked);
      assert TradeRosterItems(s, trade).0 != Ok(false);
      assert TradeRosterItems(s, t).0 != Ok(false);
    }
  }

  /** An accepted trade between two participants who both have a roster neither creates
      nor loses players. */
  lemma TradeRosterItemsKeepsTotal(s: LegacyState, trade: Trade)
    requires TradeRosterItems(s, trade).0 == Ok(true)
    requires trade.proposedBy in s.poolerRoster && trade.askTo in s.poolerRoster
    ensures LegacyTotal(TradeRosterItems(s, trade).1.poolerRoster) == LegacyTotal(s.poolerRoster)
  {
    var given := MovePlayers(s.poolerRoster, trade.fromItems.players, trade.proposedBy, trade.askTo);
    MovePlayersKeepsTotal(s.poolerRoster, trade.fromItems.players, trade.proposedBy, trade.askTo);
    MovePlayersKeepsTotal(given, trade.toItems.players, trade.askTo, trade.proposedBy);
  }

  /** One move of `trade_roster_player` in full: the giver's roster loses exactly the first
      player found with that id, the receiver's reservists gain that player at the end, and
      every other roster stays as it was. */
  lemma TradeRosterPlayerMoves(rosters: Rosters, id: nat, giver: string, receiver: string)
    requires giver in rosters && rosters[giver].HoldsId(id)
    ensures var (p, g) := rosters[giver].Take(id).value;
            p.id == id && g.Players() + multiset{p} == rosters[giver].Players()
    ensures var (p, g) := rosters[giver].Take(id).value;
            var t := TradeRosterPlayer(rosters, id, giver, receiver).1;
            (giver != receiver ==> t[giver] == g)
            && (receiver in rosters && receiver != giver
                ==> t[receiver] == rosters[receiver].(reservists := rosters[receiver].reservists + [p]))
            && (receiver == giver ==> t[giver] == g.(reservists := g.reservists + [p]))
    ensures var t := TradeRosterPlayer(rosters, id, giver, receiver).1;
            forall u :: u in rosters && u != giver && u != receiver ==> t[u] == rosters[u]
  {
    TakeKeepsOthers(rosters[giver], id);
  }

  /** The player loops never take anything from the receiver: a player with id `x` the
      receiver holds is still held at the end. */
  lemma {:induction false} MovePlayersReceiverKeeps(rosters: Rosters, ids: seq<nat>, giver: string, receiver: string, x: nat)
    requires giver != receiver && receiver in rosters && rosters[receiver].HoldsId(x)
    ensures MovePlayers(rosters, ids, giver, receiver)[receiver].HoldsId(x)
    decreases |ids|
  {
    if ids != [] {
      var next := TradeRosterPlayer(rosters, ids[0], giver, receiver).1;
      if giver in rosters && rosters[giver].HoldsId(ids[0]) {
        var p := rosters[giver].Take(ids[0]).value.0;
        ReservistAdded(rosters[receiver], p, x);
      }
      MovePlayersReceiverKeeps(next, ids[1..], giver, receiver, x);
    }
  }

  /** An id the loops are not asked to move stays with the giver exactly when it was there. */
  lemma {:induction false} MovePlayersGiverKeeps(rosters: Rosters, ids: seq<nat>, giver: string, receiver: string, x: nat)
    requires giver != receiver && giver in rosters && x !in ids
    ensures MovePlayers(rosters, ids, giver, receiver)[giver].HoldsId(x) <==> rosters[giver].HoldsId(x)
    decreases |ids|
  {
    if ids != [] {
      var next := TradeRosterPlayer(rosters, ids[0], giver, receiver).1;
      if rosters[giver].HoldsId(ids[0]) {
        TakeKeepsId(rosters[giver], ids[0], x);
      }
      assert x !in ids[1..];
      MovePlayersGiverKeeps(next, ids[1..], giver, receiver, x);
    }
  }

  /** Between two participants with rosters, every listed id the giver holds ends up held by
      the receiver. */
  lemma {:induction false} MovePlayersDelivers(rosters: Rosters, ids: seq<nat>, giver: string, receiver: string, x: nat)
    requires giver != receiver && giver in rosters && receiver in rosters
    requires x in ids && rosters[giver].HoldsId(x)
    ensures MovePlayers(rosters, ids, giver, receiver)[receiver].HoldsId(x)
    decreases |ids|
  {
    var next := TradeRosterPlayer(rosters, ids[0], giver, receiver).1;
    if ids[0] == x {
      var p := rosters[giver].Take(x).value.0;
      ReservistAdded(rosters[receiver], p, x);
      MovePlayersReceiverKeeps(next, ids[1..], giver, receiver, x);
    } else {
      if rosters[giver].HoldsId(ids[0]) {
        TakeKeepsId(rosters[giver], ids[0], x);
      }
      assert x in ids[1..];
      MovePlayersDelivers(next, ids[1..], giver, receiver, x);
    }
  }

  /** `moved` is what the loops handed from `giver` to `receiver`: it left the giver's roster,
      it was appended in order to the receiver's reservists, every one of its players has a
      listed id, and nobody else's roster changed. */
  predicate Handed(before: Rosters, after: Rosters, giver: string, receiver: string, ids: seq<nat>, moved: seq<Player>)
  {
    giver in before && receiver in before && giver in after && receiver in after
    && after[receiver] == before[receiver].(reservists := before[receiver].reservists + moved)
    && after[giver].Players() + multiset(moved) == before[giver].Players()
    && IdsListed(moved, ids) && OthersKept(before, after, giver, receiver)
  }

  /** Every player of `moved` has one of the listed ids. */
  predicate IdsListed(moved: seq<Player>, ids: seq<nat>)
  {
    forall i :: 0 <= i < |moved| ==> moved[i].id in ids
  }

  /** Nobody's roster but the giver's and the receiver's changed. */
  predicate OthersKept(before: Rosters, after: Rosters, giver: string, receiver: string)
  {
    forall u :: u in before && u != giver && u != receiver ==> u in after && after[u] == before[u]
  }

  /** Between two participants with rosters, the player loops hand some sequence of players
      over: what the giver loses is exactly what the receiver's reservists gain. */
  lemma {:induction false} MovePlayersGivesAway(rosters: Rosters, ids: seq<nat>, giver: string, receiver: string)
    requires giver != receiver && giver in rosters && receiver in rosters
    ensures exists moved :: Handed(rosters, MovePlayers(rosters, ids, giver, receiver), giver, receiver, ids, moved)
    decreases |ids|
  {
    if ids == [] {
      assert MovePlayers(rosters, ids, giver, receiver) == rosters;
      assert rosters[receiver].reservists + [] == rosters[receiver].reservists;
      assert rosters[giver].Players() + multiset([]) == rosters[giver].Players();
      assert Handed(rosters, rosters, giver, receiver, ids, []);
    } else {
      var next := TradeRosterPlayer(rosters, ids[0], giver, receiver).1;
      var after := MovePlayers(next, ids[1..], giver, receiver);
      assert MovePlayers(rosters, ids, giver, receiver) == after;
      MovePlayersGivesAway(next, ids[1..], giver, receiver);
      var rest :| Handed(next, after, giver, receiver, ids[1..], rest);
      GivesAwayStep(rosters, next, after, giver, receiver, ids, rest);
    }
  }

  /** The induction step of `MovePlayersGivesAway`: what the first move hands over, if
      anything, is put in front of what the rest of the loop hands over. */
  lemma GivesAwayStep(rosters: Rosters, next: Rosters, after: Rosters, giver: string, receiver: string,
                      ids: seq<nat>, rest: seq<Player>)
    requires giver != receiver && giver in rosters && receiver in rosters && |ids| > 0
    requires next == TradeRosterPlayer(rosters, ids[0], giver, receiver).1
    requires Handed(next, after, giver, receiver, ids[1..], rest)
    ensures exists moved :: Handed(rosters, after, giver, receiver, ids, moved)
  {
    if rosters[giver].HoldsId(ids[0]) {
      HandedMoved(rosters, next, after, giver, receiver, ids, rest);
    } else {
      HandedSkip(rosters, after, giver, receiver, ids, rest);
    }
  }

  /** The induction step of `MovePlayersGivesAway` when the first id was moved: the player
      taken goes in front of the rest. */
  lemma HandedMoved(rosters: Rosters, next: Rosters, after: Rosters, giver: string, receiver: string,
                    ids: seq<nat>, rest: seq<Player>)
    requires giver != receiver && giver in rosters && receiver in rosters && |ids| > 0
    requires rosters[giver].HoldsId(ids[0])
    requires next == TradeRosterPlayer(rosters, ids[0], giver, receiver).1
    requires Handed(next, after, giver, receiver, ids[1..], rest)
    ensures Handed(rosters, after, giver, receiver, ids, [rosters[giver].Take(ids[0]).value.0] + rest)
  {
    TradeRosterPlayerMoves(rosters, ids[0], giver, receiver);
    HandedStep(rosters, next, after, giver, receiver, ids, rosters[giver].Take(ids[0]).value.0, rest);
  }

  /** The induction step of `MovePlayersGivesAway` when the first id was not moved. */
  lemma HandedSkip(rosters: Rosters, after: Rosters, giver: string, receiver: string, ids: seq<nat>, rest: seq<Player>)
    requires |ids| > 0 && Handed(rosters, after, giver, receiver, ids[1..], rest)
    ensures Handed(rosters, after, giver, receiver, ids, rest)
  {
    forall i | 0 <= i < |rest|
      ensures rest[i].id in ids
    {
      assert rest[i].id in ids[1..];
    }
  }

  /** The induction step of `MovePlayersGivesAway` when the first id was moved. */
  lemma HandedStep(rosters: Rosters, next: Rosters, after: Rosters, giver: string, receiver: string,
                   ids: seq<nat>, p: Player, rest: seq<Player>)
    requires |ids| > 0 && p.id == ids[0] && giver != receiver && giver in rosters && receiver in rosters
    requires next.Keys == rosters.Keys
    requires next[receiver] == rosters[receiver].(reservists := rosters[receiver].reservists + [p])
    requires next[giver].Players() + multiset{p} == rosters[giver].Players()
    requires forall u :: u in rosters && u != giver && u != receiver ==> next[u] == rosters[u]
    requires Handed(next, after, giver, receiver, ids[1..], rest)
    ensures Handed(rosters, after, giver, receiver, ids, [p] + rest)
  {
    var res := rosters[receiver].reservists;
    assert res + [p] + rest == res + ([p] + rest);
    assert multiset([p] + rest) == multiset{p} + multiset(rest);
    forall i | 0 <= i < |[p] + rest|
      ensures ([p] + rest)[i].id in ids
    {
      if i > 0 {
        assert ([p] + rest)[i] == rest[i - 1];
        assert rest[i - 1].id in ids[1..];
      }
    }
  }

  /** An accepted trade between two participants with rosters: every offered id the proposer
      held ends with the one asked (unless it was also asked back), and every asked id the
      other side held ends with the proposer. Asked players are never checked, so one the
      other side does not hold is simply not moved. */
  lemma TradeRosterItemsMovesPlayers(s: LegacyState, trade: Trade)
    requires TradeRosterItems(s, trade).0 == Ok(true)
    requires trade.proposedBy != trade.askTo
    requires trade.proposedBy in s.poolerRoster && trade.askTo in s.poolerRoster
    ensures var t := TradeRosterItems(s, trade).1.poolerRoster;
            forall x :: x in trade.fromItems.players && x !in trade.toItems.players ==> t[trade.askTo].HoldsId(x)
    ensures var t := TradeRosterItems(s, trade).1.poolerRoster;
            forall x :: x in trade.toItems.players && s.poolerRoster[trade.askTo].HoldsId(x)
                       ==> t[trade.proposedBy].HoldsId(x)
  {
    var (p, a) := (trade.proposedBy, trade.askTo);
    var given := MovePlayers(s.poolerRoster, trade.fromItems.players, p, a);
    var rosters := MovePlayers(given, trade.toItems.players, a, p);
    assert TradeRosterItems(s, trade).1.poolerRoster == rosters;
    forall x | x in trade.fromItems.players && x !in trade.toItems.players
      ensures rosters[a].HoldsId(x)
    {
      var i :| 0 <= i < |trade.fromItems.players| && trade.fromItems.players[i] == x;
      assert HeldBy(s.poolerRoster, p, trade.fromItems.players[i]);
      MovePlayersDelivers(s.poolerRoster, trade.fromItems.players, p, a, x);
      MovePlayersGiverKeeps(given, trade.toItems.players, a, p, x);
    }
    forall x | x in trade.toItems.players && s.poolerRoster[a].HoldsId(x)
      ensures rosters[p].HoldsId(x)
    {
      MovePlayersReceiverKeeps(s.poolerRoster, trade.fromItems.players, p, a, x);
      MovePlayersDelivers(given, trade.toItems.players, a, p, x);
    }
  }

  /** An accepted trade in a pool with tradable picks: every asked pick that exists ends with
      the proposer, every offered pick not also asked ends with the one asked, and every pick
      listed on neither side keeps its owner. */
  lemma TradeRosterItemsMovesPicks(s: LegacyState, trade: Trade)
    requires TradeRosterItems(s, trade).0 == Ok(true) && s.tradablePicks.Some?
    ensures var t := TradeRosterItems(s, trade).1.tradablePicks;
            t.Some? && |t.value| == |s.tradablePicks.value|
    ensures var (table, t) := (s.tradablePicks.value, TradeRosterItems(s, trade).1.tradablePicks.value);
            forall i :: 0 <= i < |trade.toItems.picks| && trade.toItems.picks[i].round < |table|
                        && trade.toItems.picks[i].from in table[trade.toItems.picks[i].round]
                        ==> OwnsPick(t, trade.toItems.picks[i], trade.proposedBy)
    ensures var t := TradeRosterItems(s, trade).1.tradablePicks.value;
            forall i :: 0 <= i < |trade.fromItems.picks|
                        && Unlisted(trade.toItems.picks, trade.fromItems.picks[i].round, trade.fromItems.picks[i].from)
                        ==> OwnsPick(t, trade.fromItems.picks[i], trade.askTo)
    ensures var (table, t) := (s.tradablePicks.value, TradeRosterItems(s, trade).1.tradablePicks.value);
            forall k, f :: 0 <= k < |table| && f in table[k]
                           && Unlisted(trade.fromItems.picks, k, f) && Unlisted(trade.toItems.picks, k, f)
                           ==> t[k][f] == table[k][f]
  {
    var table := s.tradablePicks.value;
    var t1 := ReassignPicks(table, trade.fromItems.picks, trade.askTo).value;
    var t2 := ReassignPicks(t1, trade.toItems.picks, trade.proposedBy).value;
    assert TradeRosterItems(s, trade).1.tradablePicks == Some(t2);
    forall i | 0 <= i < |trade.fromItems.picks|
               && Unlisted(trade.toItems.picks, trade.fromItems.picks[i].round, trade.fromItems.picks[i].from)
      ensures OwnsPick(t2, trade.fromItems.picks[i], trade.askTo)
    {
      assert OwnsPick(table, trade.fromItems.picks[i], trade.proposedBy);
      assert OwnsPick(t1, trade.fromItems.picks[i], trade.askTo);
    }
  }

  // ---- The round-robin draft ---------------------------------------------------------------

  /** The drafter of pick number `n` in a pool without a final rank:
      `participants[n % number_poolers]`; a zero divisor or an index past the list panics. */
  function Turn(n: nat, participants: seq<string>, numberPoolers: U8): (r: Result<string>)
    ensures r.Ok? <==> numberPoolers > 0 && n % numberPoolers < |participants|
    ensures r.Ok? ==> r.value in participants
    ensures r.Err? ==> r.error == Panic
  {
    if numberPoolers == 0 || n % numberPoolers as nat >= |participants| then Err(Panic)
    else Ok(participants[n % numberPoolers as nat])
  }

  /** The players one participant holds for each participant of the list:
      `get_users_players_count` with its `as u8` cast. */
  predicate CountsOf(counts: map<string, U8>, rosters: Rosters, participants: seq<string>)
    requires forall p :: p in participants ==> p in rosters
  {
    counts.Keys == (set p | p in participants)
    && forall p :: p in participants ==> counts[p] == AsU8(rosters[p].Count())
  }

  /** The possession loop of `select_player`: true when a participant other than the
      drafter holds the player by its position; an unknown participant panics. */
  function PickedByOther(rosters: Rosters, participants: seq<string>, user: string, player: Player): (r: Result<bool>)
    ensures r == Ok(false) <==>
      forall i :: 0 <= i < |participants| && participants[i] != user ==>
        participants[i] in rosters && !rosters[participants[i]].HoldsAt(player)
    ensures r.Err? ==> r.error == Panic
    decreases |participants|
  {
    if participants == [] then Ok(false)
    else
      assert forall i :: 1 <= i < |participants| ==> participants[i] == participants[1..][i - 1];
      if participants[0] == user then PickedByOther(rosters, participants[1..], user, player)
      else if participants[0] !in rosters then Err(Panic)
      else if rosters[participants[0]].HoldsAt(player) then Ok(true)
      else PickedByOther(rosters, participants[1..], user, player)
  }

  /** `tradable_picks` rebuilt at the end of the draft: `rounds` rounds in which every
      participant owns its own pick. */
  function FreshPicks(participants: seq<string>, rounds: nat): (r: seq<map<string, string>>)
    ensures |r| == rounds
    ensures forall k, p :: 0 <= k < rounds && p in participants ==> OwnsPick(r, Pick(k, p), p)
  {
    seq(rounds, _ => map p | p in participants :: p)
  }

  /** The completion test of `select_player`: every participant's count, the drafter's
      raised by one, is the roster total. */
  predicate DraftComplete(rosters: Rosters, participants: seq<string>, user: string, total: nat)
    requires forall p :: p in participants ==> p in rosters
  {
    forall p :: p in participants ==>
      (if p == user then AsU8(rosters[p].Count()) + 1 else AsU8(rosters[p].Count())) == total
  }

  /** The in-memory part of `select_player` for a pool without a final rank: the drafter
      must have a roster, the pool participants, nobody else may hold the player by
      position, the roster total must fit a `u8`, it must be the drafter's round-robin turn,
      and there must be room; the player is then placed, its id recorded, and when every
      roster is full the tradable picks are rebuilt. The answer says whether the draft is
      over. */
  function SelectPlayer(s: LegacyState, user: string, player: Player, participants: Option<seq<string>>,
                        config: LegacyConfig): (r: (Result<bool>, LegacyState))
    ensures r.0.Err? ==> r.1 == s
    ensures user !in s.poolerRoster ==> r.0 == Err(UserNotInPool)
    ensures user in s.poolerRoster && participants.None? ==> r.0 == Err(NoParticipants)
    ensures r.0.Ok? ==> r.1.playersNameDrafted == s.playersNameDrafted + [player.id]
                        && r.1.poolerRoster.Keys == s.poolerRoster.Keys
    ensures r.0 == Ok(false) ==> r.1.tradablePicks == s.tradablePicks
    ensures r.0 == Ok(true) ==> r.1.tradablePicks.Some?
  {
    if user !in s.poolerRoster then (Err(UserNotInPool), s)
    else if participants.None? then (Err(NoParticipants), s)
    else
      var ps := participants.value;
      match PickedByOther(s.poolerRoster, ps, user, player)
      case Err(e) => (Err(e), s)
      case Ok(picked) =>
        if picked then (Err(AlreadyPicked), s)
        else if config.RosterTotal() >= 256 then (Err(Panic), s)
        else
          match Turn(|s.playersNameDrafted|, ps, config.numberPoolers)
          case Err(e) => (Err(e), s)
          case Ok(drafter) =>
            if drafter != user then (Err(NotYourTurn(drafter)), s)
            else
              match s.poolerRoster[user].Place(player, config)
              case None => (Err(NotEnoughSpace), s)
              case Some(placed) =>
                if AsU8(s.poolerRoster[user].Count()) == 255 then (Err(Panic), s)
                else
                  var s1 := s.(poolerRoster := s.poolerRoster[user := placed],
                               playersNameDrafted := s.playersNameDrafted + [player.id]);
                  if DraftComplete(s.poolerRoster, ps, user, config.RosterTotal())
                  then (Ok(true), s1.(tradablePicks := Some(FreshPicks(ps, config.tradablePicks as nat))))
                  else (Ok(false), s1)
  }

  /** A successful pick was the drafter's round-robin turn, was not held by position by
      anyone else, joined the drafter's roster and was recorded; the draft is reported
      over exactly when every count reaches the roster total. */
  lemma SelectPlayerOutcome(s: LegacyState, user: string, player: Player, participants: Option<seq<string>>,
                            config: LegacyConfig)
    requires SelectPlayer(s, user, player, participants, config).0.Ok?
    ensures var (r, t) := SelectPlayer(s, user, player, participants, config);
      participants.Some? && user in s.poolerRoster
      && Turn(|s.playersNameDrafted|, participants.value, config.numberPoolers) == Ok(user)
      && (forall p :: p in participants.value ==> p in s.poolerRoster)
      && (forall p :: p in participants.value && p != user ==> !s.poolerRoster[p].HoldsAt(player))
      && t.playersNameDrafted == s.playersNameDrafted + [player.id]
      && t.poolerRoster == s.poolerRoster[user := s.poolerRoster[user].Place(player, config).value]
      && t.poolerRoster[user].HoldsAt(player)
      && (r.value <==> DraftComplete(s.poolerRoster, participants.value, user, config.RosterTotal()))
  {
    var ps := participants.value;
    forall p | p in ps
      ensures p in s.poolerRoster
    {
      var i :| 0 <= i < |ps| && ps[i] == p;
    }
  }

  /** `pop().unwrap()` until a non-zero id: the undone pick and the remaining history;
      nothing when only skipped turns (zeros) remain, where the unwrap panics. */
  function PopPick(drafted: seq<nat>): (r: Option<(nat, seq<nat>)>)
    ensures r.Some? ==> r.value.0 > 0 && |r.value.1| < |drafted|
    ensures |drafted| > 0 && drafted[|drafted| - 1] > 0 ==> r == Some((drafted[|drafted| - 1], drafted[..|drafted| - 1]))
    decreases |drafted|
  {
    if drafted == [] then None
    else if drafted[|drafted| - 1] > 0 then Some((drafted[|drafted| - 1], drafted[..|drafted| - 1]))
    else PopPick(drafted[..|drafted| - 1])
  }

  /** The in-memory part of `undo_select_player` for a pool without a final rank: the last
      real pick is popped (skipped turns with it) and removed from the roster of the
      participant whose round-robin turn it was. */
  function UndoSelectPlayer(s: LegacyState, participants: Option<seq<string>>, config: LegacyConfig): (r: (Result<()>, LegacyState))
    ensures r.0.Ok? ==> r.1.tradablePicks == s.tradablePicks && |r.1.playersNameDrafted| < |s.playersNameDrafted|
    ensures r.0.Err? ==> r.1 == s
    ensures s.playersNameDrafted == [] ==> r.0 == Err(NothingToUndo)
  {
    if s.playersNameDrafted == [] then (Err(NothingToUndo), s)
    else
      match PopPick(s.playersNameDrafted)
      case None => (Err(Panic), s)
      case Some((pick, rest)) =>
        if participants.None? then (Err(Panic), s)
        else
          match Turn(|rest|, participants.value, config.numberPoolers)
          case Err(e) => (Err(e), s)
          case Ok(drafter) =>
            (Ok(()), s.(poolerRoster := RemoveRosterPlayer(s.poolerRoster, pick, drafter), playersNameDrafted := rest))
  }

  /** Drafting a player the drafter did not hold and undoing it gives back the rosters and
      the draft history (the tradable picks rebuilt by a completed draft stay). */
  lemma SelectThenUndo(s: LegacyState, user: string, player: Player, participants: Option<seq<string>>,
                       config: LegacyConfig)
    requires SelectPlayer(s, user, player, participants, config).0.Ok?
    requires player.id > 0 && user in s.poolerRoster && !s.poolerRoster[user].HoldsId(player.id)
    ensures var t := SelectPlayer(s, user, player, participants, config).1;
            var u := UndoSelectPlayer(t, participants, config);
            u.0.Ok? && u.1.poolerRoster == s.poolerRoster && u.1.playersNameDrafted == s.playersNameDrafted
  {
    SelectPlayerOutcome(s, user, player, participants, config);
    var t := SelectPlayer(s, user, player, participants, config).1;
    UndoRestores(s, t, user, player, participants.value, config);
  }

  /** Undo on the state a pick leaves behind: the popped id is the pick, the round-robin
      index of the remaining history designates the drafter again, and dropping the id from
      the placed roster gives back the old one. */
  lemma UndoRestores(s: LegacyState, t: LegacyState, user: string, player: Player, ps: seq<string>,
                     config: LegacyConfig)
    requires player.id > 0 && user in s.poolerRoster && !s.poolerRoster[user].HoldsId(player.id)
    requires s.poolerRoster[user].Place(player, config).Some?
    requires Turn(|s.playersNameDrafted|, ps, config.numberPoolers) == Ok(user)
    requires t.playersNameDrafted == s.playersNameDrafted + [player.id]
    requires t.poolerRoster == s.poolerRoster[user := s.poolerRoster[user].Place(player, config).value]
    ensures UndoSelectPlayer(t, Some(ps), config)
            == (Ok(()), t.(poolerRoster := s.poolerRoster, playersNameDrafted := s.playersNameDrafted))
  {
    PopAfterPick(s.playersNameDrafted, player.id);
    RemoveAfterPlace(s.poolerRoster, user, player, config);
  }

  lemma PopAfterPick(drafted: seq<nat>, id: nat)
    requires id > 0
    ensures PopPick(drafted + [id]) == Some((id, drafted))
  {
    assert (drafted + [id])[..|drafted|] == drafted;
  }

  lemma RemoveAfterPlace(rosters: Rosters, user: string, player: Player, config: LegacyConfig)
    requires user in rosters && !rosters[user].HoldsId(player.id)
    requires rosters[user].Place(player, config).Some?
    ensures RemoveRosterPlayer(rosters[user := rosters[user].Place(player, config).value], player.id, user) == rosters
  {
    var placed := rosters[user].Place(player, config).value;
    WithoutAfterPlace(rosters[user], player, config);
    var back := placed.Without(player.id);
    assert back == rosters[user];
    var m := rosters[user := placed];
    assert RemoveRosterPlayer(m, player.id, user) == m[user := back];
    assert m[user := back] == rosters;
  }
}
