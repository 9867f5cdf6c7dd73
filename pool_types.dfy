/** Records shared by the pool engine: players, picks, trades, settings, pool states,
    and the error values every operation of the engine can return. */
module PoolTypes {

  datatype Option<T> = None | Some(value: T)

  /** The engine's error results. One constructor per distinct failure of the engine;
      `Panic` stands for a Rust panic (index out of range, missing HashMap key,
      division by zero, `unwrap` of `None`), which aborts the request. */
  datatype AppError =
    | Panic
    | ParseError
    // privileges and participants
    | PrivilegesRequired
    | OwnerRightsRequired
    | NoParticipants
    | NotParticipant(user: string)
    | UsersNotInPool
    | UserNotInPool
    | UserDoesNotExist
    | WrongParticipantCount
    // context
    | NoContext
    | NoContextOrParticipants
    | SettingsLocked
    // trades
    | TradeDeadlinePassed
    | NoTrades
    | OneActiveTrade
    | TradeDoesNotExist
    | TradeNotFound
    | TradeNotDeletable
    | TradeNotRespondable
    | OnlyCreatorCanCancel
    | OnlyAskedCanRespond
    | TradeTooRecent
    | NoItemsOnOneSide
    | TooManyItems
    | PlayerNotPossessed
    | PickNotPossessed
    // rosters
    | PlayerNotInPool
    | NotOnlyReservist
    | NoSpace
    | NotEnoughSpace
    | AlreadyPicked
    | NotOwnedByUser
    | CouldNotRemove
    | CouldNotAdd
    | NotAllowedToday
    | WrongForwardsCount
    | WrongDefendersCount
    | WrongGoaliesCount
    | WrongPlayerTotal
    | Duplicated(player: nat)
    | NotPossessed(player: nat)
    | NoDynastieSettings
    | TooManyForwards
    | TooManyDefenders
    | TooManyGoalies
    | TooManyReservists
    | WrongProtectedCount
    // draft
    | NotYourTurn(drafter: string)
    | NoTradablePicks
    | AllPoolersFull
    | NothingToUndo
    // final rank
    | NoScoreRecorded
    | NotCumulated(date: string, participant: string)
    // draft room
    | UserNotInRoom

  datatype Result<T> = Ok(value: T) | Err(error: AppError)

  /** Unsigned 8-bit values (`u8`). */
  type U8 = x: nat | x < 256

  /** `n as u8`: Rust truncates to the low eight bits. */
  function AsU8(n: nat): (b: U8)
    ensures n < 256 ==> b == n
    ensures (n - b) % 256 == 0
  {
    n % 256
  }

  // Calendar days are counted from 1970-01-01; the season constants of the engine.
  const START_SEASON_DAY: int := 19640    // 2023-10-10
  const END_SEASON_DAY: int := 19831      // 2024-04-18
  const TRADE_DEADLINE_DAY: int := 19790  // 2024-03-08

  /** Milliseconds a trade must wait before it can be answered (the source's "24h"). */
  const TRADE_WAIT_MS: int := 8640000

  datatype Position = F | D | G

  datatype Player = Player(id: nat, name: string, team: nat, position: Position, caps: Option<seq<nat>>)

  datatype Pick = Pick(round: nat, from: string)

  datatype TradeItems = TradeItems(players: seq<nat>, picks: seq<Pick>)
  {
    function Size(): nat { |picks| + |players| }
  }

  datatype TradeStatus = NEW | ACCEPTED | CANCELLED | REFUSED

  datatype Trade = Trade(
    proposedBy: string,
    askTo: string,
    fromItems: TradeItems,
    toItems: TradeItems,
    status: TradeStatus,
    id: nat,
    dateCreated: int,
    dateAccepted: int)

  datatype PoolState = Final | InProgress | Dynastie | Draft | Created

  datatype DynastieSettings = DynastieSettings(nextSeasonNumberPlayersProtected: U8, tradablePicks: U8)

  datatype PoolSettings = PoolSettings(
    assistants: seq<string>,
    numberForwards: U8,
    numberDefenders: U8,
    numberGoalies: U8,
    numberReservists: U8,
    numberWorstForwardsToIgnore: U8,
    numberWorstDefendersToIgnore: U8,
    numberWorstGoaliesToIgnore: U8,
    /** Days on which rosters may be modified; `None` is a date string that does not parse. */
    rosterModificationDate: seq<Option<int>>,
    forwardPtsGoals: U8,
    forwardPtsAssists: U8,
    forwardPtsHattricks: U8,
    forwardPtsShootoutGoals: U8,
    defenderPtsGoals: U8,
    defenderPtsAssists: U8,
    defenderPtsHattricks: U8,
    defenderPtsShootoutGoals: U8,
    goaliesPtsWins: U8,
    goaliesPtsShutouts: U8,
    goaliesPtsOvertimes: U8,
    goaliesPtsGoals: U8,
    goaliesPtsAssists: U8,
    canTrade: bool,
    dynastieSettings: Option<DynastieSettings>)

  /** `PoolSettings::new()`: the defaults of a freshly created pool. */
  function DefaultSettings(): (s: PoolSettings)
    ensures s.dynastieSettings.None? && !s.canTrade && s.assistants == []
    ensures s.numberForwards == 9 && s.numberDefenders == 4 && s.numberGoalies == 2 && s.numberReservists == 2
  {
    PoolSettings([], 9, 4, 2, 2, 0, 0, 0, [], 2, 1, 3, 1, 3, 2, 2, 1, 2, 3, 1, 3, 2, false, None)
  }

  /** The roster size the engine computes as a `u8` sum of the four caps. */
  function CapTotal(s: PoolSettings): nat
  {
    s.numberForwards + s.numberDefenders + s.numberGoalies + s.numberReservists
  }

  /** The `u8` sum of the four caps does not overflow (the engine is built in debug mode,
      where an overflow is a panic; the model keeps to settings where it is not). */
  predicate CapsFit(s: PoolSettings)
  {
    CapTotal(s) < 256
  }
}
