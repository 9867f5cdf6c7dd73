# Hockey pool engine, modelled in Dafny

This project models the in-memory core of a fantasy-hockey ("pool") back end.

- A **pool** has an owner, optional assistants, participants and settings. It goes through the states
  created, draft, in progress, dynastie and final.
- The pool's **context** holds one roster per participant: forwards, defenders, goalies and reservists.
  It also holds the draft history, the players known to the pool, the daily scores, and the tradable
  picks of the current and past seasons.
- Participants **draft** players in snake order, or in the order of the previous season's final
  rank in a dynastie pool. They **trade** players and picks, **fill** spots from their reservists,
  **modify** and **protect** rosters. The owner can **undo** the last pick and **mark** the season
  final, which ranks everyone by their season points.

The project also models three smaller pieces:

- the helpers of the older service, which update a pool context in place;
- the draft server's registry of rooms and authenticated sockets;
- the parsing of the comma-separated `positions` query parameter.

Modules and their roles:

- **PoolTypes**: records, errors and constants.
- **Roster**: the roster value and its updates.
- **Scoring**: daily points and the season ranking.
- **ContextModel**: the context state and its operations, as functions.
- **Context**: the context as a class whose methods perform those functions in place.
- **ContextProperties**: lemmas about the draft and trade engine.
- **PoolModel** and **PoolEngine**: the pool, as a value and as a class.
- **PoolProperties**: lemmas that relate several pool operations.
- **LegacyModel** and **LegacyPool**: the older service's helpers, as functions and as a class.
- **DraftRoom**: the draft server's rooms and sockets.
- **PlayersQuery**: the `positions` query parameter.

Conventions:

- Every class method is specified by the function of the same name: it returns what that function
  returns, and leaves the fields as that function leaves the state.
- The properties are proved about those functions.

How the source's behaviour is represented:

- A Rust panic (an out-of-range index, a missing map key, `unwrap` on `None`, division by zero,
  and a `u8` addition that overflows, as a debug build checks it) is the error `Panic`.
- Dates are day numbers since 1970-01-01.
- The clock (`today`, `hour`, `now`) and the shuffle of `start_draft` are parameters.
- A `u8` cast is `AsU8`, which keeps the low eight bits.

The model reproduces the code as written, including these behaviours:

- **`validate_pool_status` always succeeds.** Its `matches!` pattern binds a fresh name.
- **`create_trade` blocks all new trades while any trade is NEW.** Its one-active-trade check
  compares a trade's proposer with itself.
- **`nb_trade` is never incremented.** Every trade therefore gets the same id.
- **The "24 h" trade wait is 8 640 000 ms**, not 86 400 000.
- **`find_dynastie_next_drafter` keeps its placeholder zeros when it fails.**
- **`validate_trade_items` accepts anything from a user who has no roster.**
- **`remove_socket` never removes a socket.** Its guard is inverted.
- **The older `trade_roster_items` checks only the proposer's side**, and it checks it twice.

## Model

| member | source | states |
|---|---|---|
| PoolTypes.AsU8 | crates/poolnhl_interface/src/pool/model.rs:1104-1152 | `as u8` keeps values under 256; for every value the result is the one below 256 that differs from it by a multiple of 256 |
| PoolTypes.DefaultSettings | crates/poolnhl_interface/src/pool/model.rs:76-103 | a new pool has no dynastie settings, trading off, no assistants, and 9 forwards, 4 defenders, 2 goalies and 2 reservists |
| Roster.IndexOf | crates/poolnhl_interface/src/pool/model.rs:1609-1616 | `position` finds the first occurrence of the id |
| Roster.RemoveFirst | crates/poolnhl_interface/src/pool/model.rs:1609-1643 | removal succeeds iff the id is in the list; on success the result is the list with its first occurrence of the id cut out (same order otherwise), one shorter, its multiset one id less; on failure the list is unchanged |
| Roster.RemoveFirstOfAppended | crates/poolnhl_interface/src/pool/model.rs:1609-1643 | removing an id just appended to a list without it gives the list back |
| Roster.Without | crates/poolnhl_interface/src/pool/model.rs:436-438 | `retain` drops every occurrence of the id and keeps the multiplicity of every other id; a list without the id is unchanged |
| Roster.WithoutConcat | crates/poolnhl_interface/src/pool/model.rs:436-438 | `retain` is a filter that keeps order: on a concatenation it is the concatenation of the parts' results |
| Roster.WithoutSingle | crates/poolnhl_interface/src/pool/model.rs:436-438 | a one-element list survives `retain` exactly when its element differs from the id |
| Roster.PossessesIds | crates/poolnhl_interface/src/pool/model.rs:1645-1650 | a roster holds an id exactly when the id occurs in the multiset of its four lists |
| Roster.PoolerRoster.RemoveForward | crates/poolnhl_interface/src/pool/model.rs:1609-1616 | succeeds iff the id is a forward; one player fewer, exactly that id gone |
| Roster.PoolerRoster.RemoveDefender | crates/poolnhl_interface/src/pool/model.rs:1618-1625 | the same for defenders |
| Roster.PoolerRoster.RemoveGoalie | crates/poolnhl_interface/src/pool/model.rs:1627-1634 | the same for goalies |
| Roster.PoolerRoster.RemoveReservist | crates/poolnhl_interface/src/pool/model.rs:1636-1643 | the same for reservists |
| Roster.PoolerRoster.RemovePlayer | crates/poolnhl_interface/src/pool/model.rs:1403-1427 | fails iff the roster does not possess the id (`validate_player_possession`); otherwise it removes from the first list holding the id, in the order forwards, defenders, goalies, reservists |
| Roster.PoolerRoster.AddReservist | crates/poolnhl_interface/src/pool/model.rs:1429-1439 | the id joins the reservists; the roster then possesses it and holds one player more |
| Roster.PoolerRoster.Place | crates/poolnhl_interface/src/pool/model.rs:1104-1152 | a placed player is possessed, and the roster grows by exactly that id |
| Roster.PoolerRoster.PlaceReservist | crates/poolnhl_interface/src/pool/model.rs:1137-1146 | the reservist fallback fails iff the reservists' count (as `u8`) has reached its cap |
| Roster.PlacementPriority | crates/poolnhl_interface/src/pool/model.rs:1104-1152 | a player goes to its position's list while that list (as `u8`) is under its cap, then to the reservists; placement fails iff both are full |
| Roster.RemoveAfterAddReservist | crates/poolnhl_interface/src/pool/model.rs:1403-1439 | removing a reservist just added to a roster that did not hold it restores the roster |
| Roster.RemoveAfterPlace | crates/poolnhl_interface/src/pool/model.rs:1104-1152 | removing a just-drafted player restores the roster |
| Scoring.SumPoints | crates/poolnhl_interface/src/pool/model.rs:1665-1716 | the loop over one position's map adds up every player's points |
| Scoring.GetTotalPoints | crates/poolnhl_interface/src/pool/model.rs:1661-1719 | a roster's daily points are the sum over its forwards, defenders and goalies who played |
| Scoring.SkaterScoreMonotone | crates/poolnhl_interface/src/pool/model.rs:1665-1697 | more goals, assists and shootout goals never earn fewer points |
| Scoring.HatTrickBonus | crates/poolnhl_interface/src/pool/model.rs:1675-1677 | the third goal earns the goal points plus the hat-trick bonus |
| Scoring.SumOverRemove | crates/poolnhl_interface/src/pool/model.rs:1063-1081 | the season sum does not depend on the order in which the map is visited |
| Scoring.SeasonTotalsAddDay | crates/poolnhl_interface/src/pool/model.rs:1063-1081 | adding one date's entries to the running totals gives the totals of the longer season |
| Scoring.AddDayPoints | crates/poolnhl_interface/src/pool/model.rs:1064-1080 | the inner loop succeeds iff every entry of the date is cumulated; it then adds the date's points, starting newcomers at zero; an error names a non-cumulated entry |
| Scoring.SeasonPoints | crates/poolnhl_interface/src/pool/model.rs:1063-1081 | the outer loop succeeds iff every entry of every date is cumulated, and then gives every participant's season total |
| Scoring.MapPointsToUsers | crates/poolnhl_interface/src/pool/model.rs:1083-1089 | each total maps to a user who has that total; the users are listed once each |
| Scoring.InsertDesc | crates/poolnhl_interface/src/pool/model.rs:1094-1095 | inserting into a non-increasing list keeps it non-increasing and adds exactly the value |
| Scoring.SortDesc | crates/poolnhl_interface/src/pool/model.rs:1094-1095 | `sort` then `reverse` gives a non-increasing permutation of the totals |
| Scoring.UsersOfPoints | crates/poolnhl_interface/src/pool/model.rs:1097-1099 | every place of the rank goes to a participant with exactly that total |
| Scoring.RankByPoints | crates/poolnhl_interface/src/pool/model.rs:1083-1099 | the rank lists one entry per participant, totals from highest down, each total as often as participants have it |
| Scoring.NoTiesRankEveryone | crates/poolnhl_interface/src/pool/model.rs:1083-1099 | without ties, the final rank names every participant |
| Scoring.ScoresCount | crates/poolnhl_interface/src/pool/model.rs:1089 | over a list naming each user once, a total occurs as many times as users have it |
| Scoring.EnumerationScores | crates/poolnhl_interface/src/pool/model.rs:1089 | the totals collected from the map have one entry per participant |
| ContextModel.ContextState.GetForwardsCount | crates/poolnhl_interface/src/pool/model.rs:1543-1551 | fails with "user does not exist" iff the user has no roster |
| ContextModel.ContextState.GetDefendersCount | crates/poolnhl_interface/src/pool/model.rs:1553-1561 | the same for defenders |
| ContextModel.ContextState.GetGoaliesCount | crates/poolnhl_interface/src/pool/model.rs:1563-1571 | the same for goalies |
| ContextModel.ContextState.GetReservistsCount | crates/poolnhl_interface/src/pool/model.rs:1573-1581 | the same for reservists |
| ContextModel.ContextState.GetRosterCount | crates/poolnhl_interface/src/pool/model.rs:1583-1589 | fails iff the user has no roster; otherwise it is the four counts added |
| ContextModel.NewContext | crates/poolnhl_interface/src/pool/model.rs:1035-1051 | exactly the participants get an empty roster; nothing is drafted; the score, pick and past-pick tables start empty |
| ContextModel.AddDrafted | crates/poolnhl_interface/src/pool/model.rs:1104-1152 | a drafter without a roster is skipped; otherwise a placed player is on the drafter's roster, recorded in the pool's players and appended to the history; with no room, "not enough space" |
| ContextModel.IdentityRound | crates/poolnhl_interface/src/pool/model.rs:1180-1186 | in a fresh round every participant holds their own pick |
| ContextModel.NewTradablePicks | crates/poolnhl_interface/src/pool/model.rs:1172-1190 | dynastie settings give `tradable_picks` identity rounds; otherwise there are none |
| ContextModel.CheckDraftDone | crates/poolnhl_interface/src/pool/model.rs:1154-1193 | done iff every roster has reached the cap total; only then are the next season's picks rebuilt |
| ContextModel.SnakeIndex | crates/poolnhl_interface/src/pool/model.rs:1309-1318 | the snake index is a valid participant position |
| ContextModel.DraftClassic | crates/poolnhl_interface/src/pool/model.rs:1286-1330 | refuses an owned player, panics with no participants, refuses off-turn users without privileges; a failure changes nothing |
| ContextModel.Zeros | crates/poolnhl_interface/src/pool/model.rs:1227-1284 | the placeholder list has `k` zeros |
| ContextModel.DynastieTurn | crates/poolnhl_interface/src/pool/model.rs:1250-1262 | the drafter of pick `n` is the final rank read backwards; while past picks cover `n`, it is the current owner of that pick in round `n / len`, and a missing owner is a panic (`None`) |
| ContextModel.NextDynastie | crates/poolnhl_interface/src/pool/model.rs:1249-1279 | the drafter found is the `DynastieTurn` owner of the first pick whose roster is not full, every pick skipped before it belonged to a full roster, and one zero was added per skipped pick; a missing owner panics and an owner without a roster is "user does not exist"; "all poolers full" leaves one zero per participant |
| ContextModel.FindNext | crates/poolnhl_interface/src/pool/model.rs:1227-1284 | no past picks is an error and an empty final rank panics; the drafter found is the `DynastieTurn` owner of the pick right after the zeros appended, every pick skipped had a full roster, and the drafter has room |
| ContextModel.DraftDynastie | crates/poolnhl_interface/src/pool/model.rs:1195-1225 | an owned player is refused with nothing changed; a search error is returned with its zeros kept; a user drafting out of turn without privileges gets "it is X's turn"; success means the turn was the user's (or privileged) and the player is placed on the drafter's roster, recorded after the zeros, and added to the pool's players |
| ContextModel.PopToLastPick | crates/poolnhl_interface/src/pool/model.rs:1341-1355 | the pop loop fails iff the history holds only zeros; otherwise it returns the last non-zero pick and the history before it |
| ContextModel.UndoDrafter | crates/poolnhl_interface/src/pool/model.rs:1357-1394 | with no participants it panics; without dynastie settings or past picks the drafter of pick `n` is the snake drafter |
| ContextModel.UndoDrafterDynastie | crates/poolnhl_interface/src/pool/model.rs:1360-1379 | with as many tradable rounds as past picks, the undo finds the drafter of pick `n` exactly as `DynastieTurn` does, a missing owner being a panic |
| ContextModel.UndoDrafterMissingRound | crates/poolnhl_interface/src/pool/model.rs:1370-1374 | a pick in a tradable round beyond the past picks is a panic |
| ContextModel.RemoveFromRoster | crates/poolnhl_interface/src/pool/model.rs:1403-1427 | fails iff the user has no roster or does not possess the id; otherwise exactly that roster loses the player |
| ContextModel.AddToRoster | crates/poolnhl_interface/src/pool/model.rs:1429-1439 | fails iff the user has no roster; otherwise the id joins that user's reservists |
| ContextModel.Undo | crates/poolnhl_interface/src/pool/model.rs:1332-1401 | a history of only zeros is "nothing to undo", and the zeros stay popped; otherwise the undo succeeds iff the drafter of the last real pick is found and holds that player, and then that player leaves the drafter's roster and the pool's players while the history loses the pick and the zeros after it; a failure keeps only the pops |
| ContextModel.SelectionCheck | crates/poolnhl_interface/src/pool/model.rs:635-664 | the selection loop succeeds iff every id is a known player, is not repeated, and is possessed by the user |
| ContextModel.TradeRosterPlayer | crates/poolnhl_interface/src/pool/model.rs:1441-1450 | success means the giver possessed the player and the receiver has a roster; a failure that changed nothing means the giver did not hold it |
| ContextModel.MovePlayers | crates/poolnhl_interface/src/pool/model.rs:1457-1465 | the player loops touch only the rosters and keep every roster key (that moving a player needs both users to hold rosters is stated by `ContextProperties.MovePlayersNeedsRosters`; what the giver loses and the receiver gains is stated by `ContextProperties.MovePlayersGivesAway` and `ContextProperties.MovePlayersDelivers`) |
| ContextModel.MovePlayersStops | crates/poolnhl_interface/src/pool/model.rs:1457-1465 | the loop stops at its first failure |
| ContextModel.ReassignPicks | crates/poolnhl_interface/src/pool/model.rs:1467-1483 | with no pick table nothing happens; the table keeps its rounds and each round its original holders; on success every round exists, every listed pick that exists is owned by the new owner, and every pick not listed keeps its owner |
| ContextModel.ReassignPicksStops | crates/poolnhl_interface/src/pool/model.rs:1467-1483 | the pick loop stops at its first panic |
| ContextModel.CheckPicks | crates/poolnhl_interface/src/pool/model.rs:1502-1511 | succeeds iff the user currently owns every listed pick |
| ContextModel.ValidateTradeItems | crates/poolnhl_interface/src/pool/model.rs:1487-1514 | succeeds iff the user owns every player and pick offered; it always succeeds for a user without a roster |
| ContextModel.ValidateTrade | crates/poolnhl_interface/src/pool/model.rs:1516-1541 | succeeds iff each side has one to five items; an empty side is its own error |
| ContextModel.TradeRosterItems | crates/poolnhl_interface/src/pool/model.rs:1452-1485 | an invalid trade is refused with its validation error and nothing changed; the keys and history are kept (that an executed trade hands the players and the picks over is stated by `ContextProperties.TradeRosterItemsMovesPlayers` and `ContextProperties.TradeRosterItemsMovesPicks`) |
| ContextProperties.SnakeIndexOfRound | crates/poolnhl_interface/src/pool/model.rs:1309-1318 | pick `j` of round `k` goes to participant `j` in even rounds and `p-1-j` in odd ones |
| ContextProperties.SnakeRoundTurn | crates/poolnhl_interface/src/pool/model.rs:1309-1318 | the same participant drafts last in one round and first in the next |
| ContextProperties.SnakeRoundCoversAll | crates/poolnhl_interface/src/pool/model.rs:1309-1318 | every participant drafts in every round |
| ContextProperties.SnakeRoundOnce | crates/poolnhl_interface/src/pool/model.rs:1309-1318 | no participant drafts twice in a round |
| ContextProperties.UndoSnakePick | crates/poolnhl_interface/src/pool/model.rs:1332-1401 | the undo takes the last real pick off its snake drafter's roster |
| ContextProperties.DraftClassicSuccess | crates/poolnhl_interface/src/pool/model.rs:1286-1330 | a successful snake pick was of a free player, by the drafter of the turn or a privileged user |
| ContextProperties.DraftClassicPlaces | crates/poolnhl_interface/src/pool/model.rs:1286-1330 | a successful snake pick placed the player on the turn's drafter's roster and recorded it |
| ContextProperties.UndoAfterDraftClassic | crates/poolnhl_interface/src/pool/model.rs:1286-1401 | draft then undo restores the rosters and the history |
| ContextProperties.FullRostersLeavePlaceholders | crates/poolnhl_interface/src/pool/model.rs:1227-1284 | with every roster full, the failed search leaves one zero per participant in the history |
| ContextProperties.DraftDynastieRecordsPick | crates/poolnhl_interface/src/pool/model.rs:1195-1284 | a successful dynastie pick is recorded after the zeros the search added; it was made by the `DynastieTurn` owner of that pick, who may draft for the user and now holds the player, and every pick skipped before it had a full roster |
| ContextProperties.DynastieTurnIdentity | crates/poolnhl_interface/src/pool/model.rs:1250-1262 | when nobody traded a pick, the dynastie order is the final rank read backwards, round after round |
| ContextProperties.IdentityPicksReverseRank | crates/poolnhl_interface/src/pool/model.rs:1249-1279 | with untraded picks and room on every roster, the next drafter is the final rank read backwards and nothing is skipped |
| ContextProperties.UndoAfterDraftDynastie | crates/poolnhl_interface/src/pool/model.rs:1195-1401 | a dynastie pick undone over the same rank, with as many tradable rounds as past picks, restores the rosters and drops the player; the zeros the search added stay |
| ContextProperties.TradeRosterPlayerMoves | crates/poolnhl_interface/src/pool/model.rs:1441-1450 | a successful move takes the player off the giver and appends it to the receiver's reservists |
| ContextProperties.TradeRosterPlayerKeepsTotal | crates/poolnhl_interface/src/pool/model.rs:1441-1450 | a successful move keeps the number of players in the pool |
| ContextProperties.MovePlayersKeepsTotal | crates/poolnhl_interface/src/pool/model.rs:1457-1465 | a completed player loop keeps the number of players |
| ContextProperties.TradeRosterItemsKeepsTotal | crates/poolnhl_interface/src/pool/model.rs:1452-1485 | an executed trade neither creates nor loses players |
| ContextProperties.TradeRosterPlayerHandsOver | crates/poolnhl_interface/src/pool/model.rs:1441-1450 | a giver who held the player once no longer possesses it, and the receiver does |
| ContextProperties.MovePlayersNeedsRosters | crates/poolnhl_interface/src/pool/model.rs:1457-1465 | a player loop that moved at least one player ran between two users who both hold rosters, since the first failed removal or addition stops it |
| ContextProperties.MovePlayersGivesAway | crates/poolnhl_interface/src/pool/model.rs:1457-1465 | a completed player loop between two users takes exactly the listed players off the giver, counted with multiplicity, so the giver held them all |
| ContextProperties.MovePlayersDelivers | crates/poolnhl_interface/src/pool/model.rs:1457-1465 | a completed player loop between two users appends the listed players, in order, to the receiver's reservists |
| ContextProperties.TradeRosterItemsSteps | crates/poolnhl_interface/src/pool/model.rs:1452-1485 | an executed trade passed validation and both player loops, and its rosters are those the second loop left |
| ContextProperties.TradeRosterItemsMovesPlayers | crates/poolnhl_interface/src/pool/model.rs:1452-1465 | an executed trade between two rostered users swaps the players: the proposer gives the offered ones and gets the asked ones, the other side the reverse, counted with multiplicity; each asked player ends with the proposer and each offered player not also asked ends with the other side |
| ContextProperties.TradeRosterItemsMovesPicks | crates/poolnhl_interface/src/pool/model.rs:1467-1483 | after an executed trade every asked pick that exists belongs to the proposer, and every offered pick that exists and is not also asked belongs to the other side |
| Context.PoolContext.constructor | crates/poolnhl_interface/src/pool/model.rs:1035-1051 | the new context's fields are those of `NewContext` |
| Context.PoolContext.PickedByAnyone | crates/poolnhl_interface/src/pool/model.rs:1297-1302 | the loop over the rosters answers whether any roster possesses the player |
| Context.PoolContext.AddDraftedPlayer | crates/poolnhl_interface/src/pool/model.rs:1104-1152 | performs `AddDrafted` on the fields; an error changes nothing |
| Context.PoolContext.IsDraftDone | crates/poolnhl_interface/src/pool/model.rs:1154-1193 | performs `CheckDraftDone` on the fields |
| Context.PoolContext.DraftPlayer | crates/poolnhl_interface/src/pool/model.rs:1286-1330 | performs `DraftClassic` on the fields |
| Context.PoolContext.FindDynastieNextDrafter | crates/poolnhl_interface/src/pool/model.rs:1227-1284 | performs `FindNext` on the fields |
| Context.PoolContext.DraftPlayerDynastie | crates/poolnhl_interface/src/pool/model.rs:1195-1225 | performs `DraftDynastie` on the fields |
| Context.PoolContext.RemovePlayerFromRoster | crates/poolnhl_interface/src/pool/model.rs:1403-1427 | performs `RemoveFromRoster`; an error changes nothing |
| Context.PoolContext.AddPlayerToRoster | crates/poolnhl_interface/src/pool/model.rs:1429-1439 | performs `AddToRoster`; an error changes nothing |
| Context.PoolContext.LatestDrafter | crates/poolnhl_interface/src/pool/model.rs:1357-1394 | finds the drafter of a pick exactly as `UndoDrafter` states: snake order, or the past season's pick owner in a dynastie pool, a panic when that owner is missing |
| Context.PoolContext.UndoDraftPlayer | crates/poolnhl_interface/src/pool/model.rs:1332-1401 | performs `Undo` on the fields |
| Context.PoolContext.TradeRosterPlayer | crates/poolnhl_interface/src/pool/model.rs:1441-1450 | performs `TradeRosterPlayer` on the fields |
| Context.PoolContext.ValidateTradeItems | crates/poolnhl_interface/src/pool/model.rs:1487-1514 | answers `ValidateTradeItems` of the current state |
| Context.PoolContext.ValidateTrade | crates/poolnhl_interface/src/pool/model.rs:1516-1541 | answers `ValidateTrade` of the current state |
| Context.PoolContext.MovePlayers | crates/poolnhl_interface/src/pool/model.rs:1457-1465 | performs the player loop on the fields |
| Context.PoolContext.ReassignPicks | crates/poolnhl_interface/src/pool/model.rs:1467-1483 | performs the pick loop on the pick table, and nothing else changes |
| Context.PoolContext.TradeRosterItems | crates/poolnhl_interface/src/pool/model.rs:1452-1485 | performs `TradeRosterItems` on the fields |
| Context.PoolContext.GetFinalRank | crates/poolnhl_interface/src/pool/model.rs:1053-1102 | no scores is an error; success iff every entry is cumulated; the rank is then a final rank of the season totals |
| PoolModel.PoolValue.HasPrivileges | crates/poolnhl_interface/src/pool/model.rs:973-989 | succeeds iff the user is the owner or an assistant |
| PoolModel.PoolValue.HasOwnerPrivileges | crates/poolnhl_interface/src/pool/model.rs:977-999 | succeeds iff the user is the owner |
| PoolModel.PoolValue.ValidateParticipant | crates/poolnhl_interface/src/pool/model.rs:938-954 | succeeds iff the pool has participants and the user is one; either failure has its own error |
| PoolModel.PoolValue.ValidatePoolStatus | crates/poolnhl_interface/src/pool/model.rs:956-971 | always succeeds, whatever the status |
| PoolModel.PoolValue.CanUpdateInProgressPoolSettings | crates/poolnhl_interface/src/pool/model.rs:821-841 | succeeds iff the user is privileged and no locked setting changes |
| PoolModel.PoolValue.CanUpdatePoolSettings | crates/poolnhl_interface/src/pool/model.rs:843-848 | succeeds iff the user is privileged |
| PoolModel.NewPool | crates/poolnhl_interface/src/pool/model.rs:133-150 | a new pool is created with default settings, no participants, rank, trades or context, and zero counters |
| PoolModel.TradePosition | crates/poolnhl_interface/src/pool/model.rs:236 | finds the first trade with that id; `None` iff there is none |
| PoolModel.CreateTrade | crates/poolnhl_interface/src/pool/model.rs:152-217 | succeeds iff all of these hold: before the deadline, the user is the proposer or privileged, the trade is valid, both sides have rosters, and no trade is NEW. On success one NEW trade is appended, with id `nb_trade` and stamped `now`; a failure changes nothing |
| PoolModel.DeleteTrade | crates/poolnhl_interface/src/pool/model.rs:219-265 | an id past the counter does not exist; success removes the first trade with that id, which was NEW, for its proposer or a privileged user |
| PoolModel.RespondTrade | crates/poolnhl_interface/src/pool/model.rs:267-341 | only trades and context change; trades change only on success, and the context only on acceptance |
| PoolModel.FillSpot | crates/poolnhl_interface/src/pool/model.rs:343-444 | success means a participant's reservist (and nothing else) moves into its position's list, which had room |
| PoolModel.MoveToSlot | crates/poolnhl_interface/src/pool/model.rs:394-438 | the reservist is appended to its position's list and leaves the reservists; other ids are untouched |
| PoolModel.CheckNotPicked | crates/poolnhl_interface/src/pool/model.rs:473-481 | succeeds iff every participant has a roster and none possesses the player |
| PoolModel.AddPlayer | crates/poolnhl_interface/src/pool/model.rs:446-494 | succeeds iff a privileged user adds a player nobody owns to a participant; it then joins the reservists and the pool's players |
| PoolModel.RemovePlayer | crates/poolnhl_interface/src/pool/model.rs:496-527 | succeeds iff a privileged user removes a player the roster possesses; exactly that player leaves |
| PoolModel.DateAllowed | crates/poolnhl_interface/src/pool/model.rs:566-577 | the day is allowed iff it appears before any unparsable date; an unparsable date first is a parse error |
| PoolModel.ModifyRoster | crates/poolnhl_interface/src/pool/model.rs:529-676 | on success: a participant or privileged user acted; in season it was a modification day; the list sizes fit the caps; the selection was valid; the roster, same size, is replaced |
| PoolModel.ProtectPlayers | crates/poolnhl_interface/src/pool/model.rs:678-802 | on success the selection fits the caps and the protected count and becomes the user's roster; the pool enters the draft iff every roster holds the protected count |
| PoolModel.StartDraft | crates/poolnhl_interface/src/pool/model.rs:850-872 | succeeds iff the owner starts with the configured number of participants; the shuffled order and empty rosters are set, and the status becomes draft |
| PoolModel.DraftPlayer | crates/poolnhl_interface/src/pool/model.rs:874-913 | no context or draft order is an error; only the context and status change, and the status changes only to in progress |
| PoolModel.UndoDraftPlayer | crates/poolnhl_interface/src/pool/model.rs:915-936 | only the owner may undo; only the context changes |
| PoolProperties.RespondTradeOutcome | crates/poolnhl_interface/src/pool/model.rs:267-341 | a successful answer was to a NEW trade, by the asked user or a privileged one, after the wait; that trade alone becomes accepted (items moved, stamped) or refused |
| PoolProperties.RespondTradeShape | crates/poolnhl_interface/src/pool/model.rs:267-320 | a successful answer found a NEW trade that the user may answer and that waited long enough |
| PoolProperties.RespondTradeAccepted | crates/poolnhl_interface/src/pool/model.rs:321-332 | an accepted answer that went through moved the items with `TradeRosterItems`, keeps the context it left, and marks that trade accepted with the answer time |
| PoolProperties.RespondTradeRefused | crates/poolnhl_interface/src/pool/model.rs:333-336 | a refused answer keeps the context and marks that trade refused |
| PoolProperties.CreateTradeBlocksNext | crates/poolnhl_interface/src/pool/model.rs:193-203 | after one trade is created, every further creation fails |
| PoolProperties.DeleteAfterCreate | crates/poolnhl_interface/src/pool/model.rs:152-265 | a proposer who creates and then deletes a trade gets the pool back |
| PoolProperties.NewTradeShadowed | crates/poolnhl_interface/src/pool/model.rs:219-265 | since the counter never moves, an old trade with that id hides a new one from deletion |
| PoolProperties.RespondedTradeIsClosed | crates/poolnhl_interface/src/pool/model.rs:219-341 | an answered trade can be neither answered again nor deleted |
| PoolProperties.AcceptedTradeKeepsTotal | crates/poolnhl_interface/src/pool/model.rs:267-341 | an accepted trade keeps the number of players in the pool |
| PoolProperties.AddThenRemovePlayer | crates/poolnhl_interface/src/pool/model.rs:446-527 | add then remove restores the rosters; the player stays in the pool's players |
| PoolProperties.AddedWasFree | crates/poolnhl_interface/src/pool/model.rs:473-481 | a player that was added was not owned by its new owner |
| PoolProperties.DraftPlayerOutcome | crates/poolnhl_interface/src/pool/model.rs:874-913 | an owned player is refused with nothing changed; the pool leaves the draft only when every roster is full |
| PoolProperties.DraftThenUndo | crates/poolnhl_interface/src/pool/model.rs:874-936 | a snake pick undone by the owner restores rosters and history |
| PoolEngine.Pool.constructor | crates/poolnhl_interface/src/pool/model.rs:133-150 | the new pool's fields are those of `NewPool` |
| PoolEngine.Pool.CreateTrade | crates/poolnhl_interface/src/pool/model.rs:152-217 | performs `CreateTrade` on the fields |
| PoolEngine.Pool.DeleteTrade | crates/poolnhl_interface/src/pool/model.rs:219-265 | performs `DeleteTrade` on the fields |
| PoolEngine.Pool.RespondTrade | crates/poolnhl_interface/src/pool/model.rs:267-341 | performs `RespondTrade` on the fields and on the context object |
| PoolEngine.Pool.FillSpot | crates/poolnhl_interface/src/pool/model.rs:343-444 | performs `FillSpot` on the context object |
| PoolEngine.Pool.AddPlayer | crates/poolnhl_interface/src/pool/model.rs:446-494 | performs `AddPlayer` on the context object |
| PoolEngine.Pool.RemovePlayer | crates/poolnhl_interface/src/pool/model.rs:496-527 | performs `RemovePlayer` on the context object |
| PoolEngine.Pool.CheckSelection | crates/poolnhl_interface/src/pool/model.rs:635-664 | the selection loop answers `SelectionCheck` |
| PoolEngine.Pool.IsModificationDay | crates/poolnhl_interface/src/pool/model.rs:566-577 | the date loop answers `DateAllowed` |
| PoolEngine.Pool.ModifyRoster | crates/poolnhl_interface/src/pool/model.rs:529-676 | performs `ModifyRoster` on the context object |
| PoolEngine.Pool.ProtectPlayers | crates/poolnhl_interface/src/pool/model.rs:678-802 | performs `ProtectPlayers` on the fields and the context object |
| PoolEngine.Pool.MarkAsFinal | crates/poolnhl_interface/src/pool/model.rs:804-819 | privileges, a context and scores are required; success iff every entry is cumulated; the rank is then a final rank of the season totals and the status is final; a failure changes nothing |
| PoolEngine.Pool.StartDraft | crates/poolnhl_interface/src/pool/model.rs:850-872 | performs `StartDraft`; a success installs a fresh context |
| PoolEngine.Pool.DraftPlayer | crates/poolnhl_interface/src/pool/model.rs:874-913 | performs `DraftPlayer` on the fields and the context object |
| PoolEngine.Pool.UndoDraftPlayer | crates/poolnhl_interface/src/pool/model.rs:915-936 | performs `UndoDraftPlayer` on the context object |
| LegacyModel.PositionOf | src/db/pool.rs:1468-1535 | `position` finds the first player with the id |
| LegacyModel.WithoutId | src/db/pool.rs:1453-1466 | `retain` leaves no player with the id, and changes nothing when there was none |
| LegacyModel.WithoutIdKeeps | src/db/pool.rs:1453-1466 | `retain` keeps exactly the players with another id |
| LegacyModel.WithoutAppended | src/db/pool.rs:1453-1466 | dropping an id that was only appended gives the list back |
| LegacyModel.TakeFrom | src/db/pool.rs:1468-1535 | `remove(position)` takes out one player with the id, and only it |
| LegacyModel.LegacyRoster.Take | src/db/pool.rs:1476-1523 | the giver's side fails iff no list holds the id; it yields that player and one player fewer |
| LegacyModel.TakeKeepsOthers | src/db/pool.rs:1476-1523 | the player taken has the id, and the roster left plus that player is the roster before, as a multiset |
| LegacyModel.TakeKeepsId | src/db/pool.rs:1476-1523 | taking one id leaves the holding of every other id as it was |
| LegacyModel.ReservistAdded | src/db/pool.rs:1525-1531 | appending a reservist adds exactly its id to the ids held |
| LegacyModel.LegacyRoster.Without | src/db/pool.rs:1453-1466 | no player with the id remains; nothing changes when there was none |
| LegacyModel.LegacyRoster.Place | src/db/pool.rs:438-477 | a placement adds one player, held by position; it fails iff the position's list and the reservists (as `u8`) are full |
| LegacyModel.LegacyRoster.PlaceReservist | src/db/pool.rs:462-470 | the reservist fallback fails iff the reservists (as `u8`) are full |
| LegacyModel.PossessionByPosition | src/db/pool.rs:1584-1628 | holding by position implies holding by id, but a forward listed as a defender is held by id only |
| LegacyModel.WithoutAfterPlace | src/db/pool.rs:438-477 | removing a just-placed player restores the roster |
| LegacyModel.RemoveRosterPlayer | src/db/pool.rs:1453-1466 | only the user's roster changes, and it no longer holds the id |
| LegacyModel.RemoveRosterPlayerKeeps | src/db/pool.rs:1453-1466 | other ids are untouched |
| LegacyModel.TradeRosterPlayer | src/db/pool.rs:1468-1535 | answers true iff the giver holds the id and the receiver has a roster; rosters stay put when the giver does not hold it |
| LegacyModel.TradeRosterPlayerKeepsTotal | src/db/pool.rs:1468-1535 | a completed move keeps the number of players, and the receiver holds the player |
| LegacyModel.TradeRosterPlayerMoves | src/db/pool.rs:1468-1535 | the giver's roster loses exactly the first player with the id, the receiver's reservists gain it at the end, every other roster is unchanged |
| LegacyModel.TradeToMissingReceiverLosesPlayer | src/db/pool.rs:1468-1535 | giving to a user without a roster answers false, yet the giver has already lost the player |
| LegacyModel.MovePlayers | src/db/pool.rs:1412-1430 | the player loops keep every roster key; what they hand over is stated by the lemmas below |
| LegacyModel.MovePlayersGivesAway | src/db/pool.rs:1412-1430 | between two rostered users some sequence of players, each with a listed id, leaves the giver (as a multiset) and is appended in order to the receiver's reservists; no other roster changes |
| LegacyModel.MovePlayersDelivers | src/db/pool.rs:1412-1430 | every listed id the giver held ends up held by the receiver |
| LegacyModel.MovePlayersGiverKeeps | src/db/pool.rs:1412-1430 | an id not listed stays with the giver exactly when it was there |
| LegacyModel.MovePlayersReceiverKeeps | src/db/pool.rs:1412-1430 | the loops never take a player away from the receiver |
| LegacyModel.MovePlayersKeepsTotal | src/db/pool.rs:1412-1430 | between two rostered users the loops keep the number of players |
| LegacyModel.PlayersHeld | src/db/pool.rs:1537-1562 | true iff the user holds every listed player; it panics iff there are players and the user has no roster |
| LegacyModel.PicksOwned | src/db/pool.rs:1537-1562 | true iff the user currently owns every listed pick |
| LegacyModel.ValidateTradePossession | src/db/pool.rs:1537-1562 | true iff every listed player and, when a table exists, every listed pick belongs to the user |
| LegacyModel.ReassignPick | src/db/pool.rs:1432-1448 | a missing round panics; an existing pick goes to the new owner; every other entry of the table is unchanged |
| LegacyModel.ReassignPicks | src/db/pool.rs:1432-1448 | every listed existing pick goes to the owner; every entry not listed is unchanged; the loop panics iff some round is missing |
| LegacyModel.TradeRosterItems | src/db/pool.rs:1405-1451 | refused iff the proposer's side fails validation (nothing changes); success implies that side was valid; what moves is stated by the two lemmas below |
| LegacyModel.TradeRosterItemsMovesPlayers | src/db/pool.rs:1405-1430 | after an accepted trade between two rostered users, every offered id ends with the one asked unless it was asked back, and every asked id the other side held ends with the proposer |
| LegacyModel.TradeRosterItemsMovesPicks | src/db/pool.rs:1405-1451 | after an accepted trade with tradable picks, every asked pick that exists ends with the proposer, every offered pick not asked back ends with the one asked, and every pick listed on neither side keeps its owner |
| LegacyModel.TradeIgnoresAskedItems | src/db/pool.rs:1405-1410 | whether a trade is refused does not depend on the items asked in return |
| LegacyModel.TradeRosterItemsKeepsTotal | src/db/pool.rs:1405-1451 | an executed trade between two rostered users keeps the number of players |
| LegacyModel.Turn | src/db/pool.rs:423-433 | the round-robin drafter exists iff the index is in range, and is a participant |
| LegacyModel.PickedByOther | src/db/pool.rs:352-359 | false iff every other participant has a roster not holding the player by position |
| LegacyModel.FreshPicks | src/db/pool.rs:495-511 | the rebuilt table has the given rounds, each pick owned by its original holder |
| LegacyModel.SelectPlayer | src/db/pool.rs:315-511 | a drafter without a roster is "user not in pool" and a pool without participants "no participants"; every refusal leaves the state as it was; a pick appends the player id to the history and keeps the set of rosters; a completed draft rebuilds the tradable picks, an unfinished one keeps them |
| LegacyModel.SelectPlayerOutcome | src/db/pool.rs:315-511 | a successful pick was the user's turn, of a player nobody else holds; it is placed and recorded; the answer says whether the draft is complete |
| LegacyModel.PopPick | src/db/pool.rs:958-969 | the pop loop yields a non-zero pick and a shorter history; a real last pick is popped directly |
| LegacyModel.UndoSelectPlayer | src/db/pool.rs:924-1036 | an empty history is "nothing to undo" with nothing changed; success shortens the history and keeps the picks |
| LegacyModel.SelectThenUndo | src/db/pool.rs:315-1036 | select then undo restores the rosters and the history |
| LegacyModel.UndoRestores | src/db/pool.rs:958-1007 | undoing on the state a pick left restores the earlier rosters and history |
| LegacyModel.PopAfterPick | src/db/pool.rs:958-969 | the pop loop yields the pick just recorded |
| LegacyModel.RemoveAfterPlace | src/db/pool.rs:999-1007 | removing the placed player restores every roster |
| LegacyPool.GetUsersPlayersCount | src/db/pool.rs:1566-1582 | each participant's count is their number of players, as `u8` |
| LegacyPool.PlaceDrafted | src/db/pool.rs:438-477 | the placement loop gives `Place` |
| LegacyPool.IsDraftDone | src/db/pool.rs:482-489 | done iff every participant's count equals the roster total |
| LegacyPool.BuildTradablePicks | src/db/pool.rs:495-511 | builds the fresh pick table |
| LegacyPool.LegacyContext.RemoveRosterPlayer | src/db/pool.rs:1453-1466 | performs `RemoveRosterPlayer` on the fields |
| LegacyPool.LegacyContext.TradeRosterPlayer | src/db/pool.rs:1468-1535 | performs `TradeRosterPlayer` on the fields |
| LegacyPool.LegacyContext.ValidateTradePossession | src/db/pool.rs:1537-1562 | answers `ValidateTradePossession` of the fields |
| LegacyPool.LegacyContext.ReassignPicks | src/db/pool.rs:1432-1448 | performs a pick loop on the table; without a table it succeeds |
| LegacyPool.LegacyContext.MovePlayers | src/db/pool.rs:1412-1430 | performs the player loops on the fields |
| LegacyPool.LegacyContext.TradeRosterItems | src/db/pool.rs:1405-1451 | answers `TradeRosterItems` and, unless it panics, leaves its state |
| LegacyPool.LegacyContext.SelectPlayer | src/db/pool.rs:315-511 | answers `SelectPlayer`; success leaves its state; a non-panic error changes nothing |
| LegacyPool.LegacyContext.UndoSelectPlayer | src/db/pool.rs:954-1007 | answers `UndoSelectPlayer`; success leaves its state; a non-panic error changes nothing |
| DraftRoom.ToggleReady | crates/poolnhl_interface/src/draft/model.rs:42-58 | a user not in the room is an error; otherwise only that user's flag flips |
| DraftRoom.ToggleTwice | crates/poolnhl_interface/src/draft/model.rs:42-58 | toggling twice restores the room |
| DraftRoom.Join | crates/poolnhl_interface/src/draft/model.rs:105-139 | the room exists afterwards; other rooms are kept; an authenticated user is in it, not ready, and is the only user added; every other present user keeps its entry, ready flag included |
| DraftRoom.Leave | crates/poolnhl_interface/src/draft/model.rs:142-162 | an unknown socket or room changes nothing; the user leaves, and an emptied room is deleted |
| DraftRoom.Ready | crates/poolnhl_interface/src/draft/model.rs:166-172 | only the named room changes, by `ToggleReady`, and only for a user in it |
| DraftRoom.ReadyTwice | crates/poolnhl_interface/src/draft/model.rs:166-172 | two ready commands cancel out |
| DraftRoom.JoinThenLeave | crates/poolnhl_interface/src/draft/model.rs:105-162 | a new user who joins and leaves restores every room |
| DraftRoom.RoomState.constructor | crates/poolnhl_interface/src/draft/model.rs:21-28 | a new room is named and empty |
| DraftRoom.RoomState.OnReady | crates/poolnhl_interface/src/draft/model.rs:42-58 | performs `ToggleReady` on the users; a missing user is an error with nothing changed |
| DraftRoom.DraftServerInfo.constructor | crates/poolnhl_interface/src/draft/model.rs:71-76 | no rooms and no sockets |
| DraftRoom.DraftServerInfo.ListRooms | crates/poolnhl_interface/src/draft/model.rs:79-87 | lists each room name exactly once |
| DraftRoom.DraftServerInfo.AddSocket | crates/poolnhl_interface/src/draft/model.rs:90-95 | a new socket is registered; a known one keeps its user |
| DraftRoom.DraftServerInfo.RemoveSocket | crates/poolnhl_interface/src/draft/model.rs:98-102 | the inverted guard leaves the sockets and rooms unchanged |
| DraftRoom.DraftServerInfo.JoinRoom | crates/poolnhl_interface/src/draft/model.rs:105-139 | performs `Join` on the rooms and returns the room's users |
| DraftRoom.DraftServerInfo.LeaveRoom | crates/poolnhl_interface/src/draft/model.rs:142-162 | performs `Leave` on the rooms |
| DraftRoom.DraftServerInfo.OnReady | crates/poolnhl_interface/src/draft/model.rs:166-172 | performs `Ready` on the rooms |
| PlayersQuery.Split | crates/poolnhl_interface/src/players/model.rs:21 | at least one piece, none containing a comma |
| PlayersQuery.SplitCount | crates/poolnhl_interface/src/players/model.rs:21 | there is one piece more than there are commas |
| PlayersQuery.JoinSplit | crates/poolnhl_interface/src/players/model.rs:21 | joining the pieces with commas gives back the string |
| PlayersQuery.SplitJoin | crates/poolnhl_interface/src/players/model.rs:21 | splitting comma-free pieces joined by commas gives back the pieces |
| PlayersQuery.SplitPiece | crates/poolnhl_interface/src/players/model.rs:21 | a comma-free prefix extends the first piece |
| PlayersQuery.CommaSeparated | crates/poolnhl_interface/src/players/model.rs:15-22 | always `Some`: one or more comma-free pieces that join back to the string |

## Left out

- Storage and transport are not modelled: the MongoDB reads and writes, the HTTP and WebSocket handlers, the broadcast channels and the JSON serialization. `send_pool_info` is not modelled.
- The clock, date parsing and the random shuffle are inputs. A configured date is a day number, or `None` when it does not parse.
- HashMap iteration order is not modelled. Loops over maps are specified by what they compute in any order, and `list_rooms` by its contents.
- Tied totals are modelled as the source behaves: the final rank may repeat one tied user and leave out another. `NoTiesRankEveryone` states when everyone is named.
- The other fields of `GetPlayerQuery` and the `PlayerInfo` record are not modelled.
- Scoring.GetTotalPoints: sums are exact; the source's `u16` overflow is not modelled.
- Context.PoolContext.IsDraftDone: requires the `u8` sum of the four position caps not to overflow. A debug build would panic there instead.
- Context.PoolContext.DraftPlayer: requires the same `u8` cap sum not to overflow.
- Context.PoolContext.FindDynastieNextDrafter: requires the same `u8` cap sum not to overflow.
- Context.PoolContext.DraftPlayerDynastie: requires the same `u8` cap sum not to overflow.
- PoolEngine.Pool.DraftPlayer: requires the same `u8` cap sum not to overflow.
- PoolEngine.Pool.StartDraft: the shuffle is a parameter, required to be a permutation of the participants.
- PoolEngine.Pool.CreateTrade: the source also writes the id, date and status into the caller's trade. Only the copy stored in the pool is modelled.
- PoolEngine.Pool.FillSpot: the source appends the player and then removes it from the reservists in two writes. The model does one write of the final roster.
- LegacyPool.LegacyContext.SelectPlayer: nothing is stated about the fields after a panic, because the request is then aborted and the context is never saved.
- LegacyPool.LegacyContext.UndoSelectPlayer: nothing is stated about the fields after a panic, for the same reason.
- LegacyPool.LegacyContext.TradeRosterItems: nothing is stated about the fields after a panic, for the same reason.
- Scoring.SeasonPoints: the season totals are exact naturals. The source sums them into a `HashMap<String, u16>` (crates/poolnhl_interface/src/pool/model.rs:1060, 1077), which overflows past 65535 points (a panic in a debug build, wrap-around in a release build); that overflow is not modelled.
- LegacyModel.SelectPlayer: the two `u8` additions, the roster total `tot_players_in_roster` (src/db/pool.rs:363-366) and the count update `*nCount += 1` (src/db/pool.rs:474-476), are modelled as the panic of a debug build (a total of 256 or more, a count already at 255); a release build would wrap instead.
- LegacyPool.LegacyContext.SelectPlayer: the same two `u8` additions are a panic here too, as in `LegacyModel.SelectPlayer`; a release build would wrap.
- LegacyModel.SelectPlayer: only pools without a final rank are modelled. The dynastie branch reads ranks and picks that the newer engine's `FindNext` and `DraftDynastie` model.
- LegacyModel.UndoSelectPlayer: only pools without a final rank are modelled.
- Two database-level guards of the older service are not modelled: the pool's owner check and its status check.
- LegacyModel.TradeRosterItems: the source validates the proposer's side twice in a row. The two checks are identical, so the model checks it once.
- DraftRoom.DraftServerInfo.JoinRoom: returns the users map rather than its JSON text, and the broadcast receiver is not modelled.
- DraftRoom.DraftServerInfo.OnReady: the registry owns each room by value, as the Rust map does. It applies `ToggleReady` to the stored users rather than calling the `RoomState` class, and it drops the error as the source does.
- DraftRoom.RoomState.OnReady: the serialization of the users is taken to succeed.
