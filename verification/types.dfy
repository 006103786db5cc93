/** The records the core works on (types.ts): a match with its odds, a
    prediction, and a saved pick with its per-market outcomes. Optional
    TypeScript fields (`?:`) are `Option`s. */
module Types {
  import opened Wrappers

  /** One betting line read from a screenshot. The TypeScript field `type`
      is called `kind` here, because `type` is a Dafny keyword. */
  datatype BettingOdds = BettingOdds(
    kind: string,
    handicap: Option<string>,
    homeOdds: Option<string>,
    awayOdds: Option<string>,
    overUnder: Option<string>,
    overOdds: Option<string>,
    underOdds: Option<string>,
    europeanHome: Option<string>,
    europeanDraw: Option<string>,
    europeanAway: Option<string>,
    rawText: string)

  datatype Match = Match(
    id: string,
    homeTeam: string,
    awayTeam: string,
    league: string,
    time: string,
    date: string,
    scannedOdds: Option<BettingOdds>,
    allOdds: Option<seq<BettingOdds>>)

  /** The part of a prediction the pick store looks at: the match it is for
      and the normalised score guess. */
  datatype PredictionResult = PredictionResult(matchId: string, scorePrediction: string)

  datatype PickStatus = Pending | Won | Lost

  /** The four keys of `PickOutcomes`. */
  datatype Market = MainMarket | ScoreMarket | CornerMarket | CardMarket

  datatype PickOutcomes = PickOutcomes(main: PickStatus, score: PickStatus, corner: PickStatus, card: PickStatus)
  {
    /** `outcomes[market]`. */
    function Get(market: Market): PickStatus
    {
      match market
      case MainMarket => main
      case ScoreMarket => score
      case CornerMarket => corner
      case CardMarket => card
    }

    /** `{ ...outcomes, [market]: status }`: only the named market changes. */
    function With(market: Market, status: PickStatus): (r: PickOutcomes)
      ensures r.Get(market) == status
      ensures forall m | m != market :: r.Get(m) == Get(m)
    {
      match market
      case MainMarket => this.(main := status)
      case ScoreMarket => this.(score := status)
      case CornerMarket => this.(corner := status)
      case CardMarket => this.(card := status)
    }
  }

  /** What the verification service reports about a finished match. */
  datatype MatchVerificationResult = MatchVerificationResult(
    actualScore: string,
    actualCorners: string,
    actualCards: string,
    outcomes: PickOutcomes,
    note: string)

  /** The actual statistics stored on a pick once it has been verified. */
  datatype Verification = Verification(
    checkedAt: int,
    actualScore: string,
    actualCorners: Option<string>,
    actualCards: Option<string>)

  /** A saved prediction. The TypeScript field `match` is called `matchInfo`
      here, because `match` is a Dafny keyword. */
  datatype SavedPick = SavedPick(
    id: string,
    matchInfo: Match,
    result: PredictionResult,
    timestamp: int,
    status: PickStatus,
    outcomes: Option<PickOutcomes>,
    note: Option<string>,
    verification: Option<Verification>)
}
