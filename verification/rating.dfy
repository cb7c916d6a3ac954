/**
  The rating system of rated games: three divisions with independent rating
  counters, a win/loss delta table, and promotion/demotion thresholds.
 */
module Rating {

  datatype Division = Silver | Gold | Platinum

  /** How a finished game ended, from the human player's side. */
  datatype Outcome = HumanWon | BotWon | Draw

  /** One rating counter per division, keyed by the closed set of divisions. */
  datatype Ratings = Ratings(silver: int, gold: int, platinum: int) {

    function Get(d: Division): int {
      match d
      case Silver => silver
      case Gold => gold
      case Platinum => platinum
    }

    /** Replaces the counter of one division. */
    function Set(d: Division, v: int): (r: Ratings)
      ensures r.Get(d) == v
      ensures forall e :: e != d ==> r.Get(e) == Get(e)
    {
      match d
      case Silver => this.(silver := v)
      case Gold => this.(gold := v)
      case Platinum => this.(platinum := v)
    }
  }

  /** The counters every game reset starts from. */
  function InitialRatings(): Ratings {
    Ratings(1000, 1300, 1600)
  }

  /** Position of a division in the ladder Silver < Gold < Platinum. */
  function Rank(d: Division): nat {
    match d
    case Silver => 0
    case Gold => 1
    case Platinum => 2
  }

  /** The rating change a finished game brings to the division it was played in. */
  function Delta(d: Division, o: Outcome): (delta: int)
    ensures o == HumanWon <==> delta > 0
    ensures o == BotWon <==> delta < 0
    ensures o == Draw <==> delta == 0
    ensures -15 <= delta <= 20
  {
    match o
    case HumanWon => (match d case Silver => 10 case Gold => 15 case Platinum => 20)
    case BotWon => (match d case Silver => -8 case Gold => -12 case Platinum => -15)
    case Draw => 0
  }

  /** A higher division both rewards a win and punishes a loss more. */
  lemma DeltaGrowsWithDivision(d1: Division, d2: Division)
    requires Rank(d1) < Rank(d2)
    ensures Delta(d1, HumanWon) < Delta(d2, HumanWon)
    ensures Delta(d2, BotWon) < Delta(d1, BotWon)
  {
  }

  /** Adds the game's delta to the counter of the division played; no other counter moves. */
  function ApplyOutcome(m: Ratings, d: Division, o: Outcome): (m': Ratings)
    ensures m'.Get(d) == m.Get(d) + Delta(d, o)
    ensures forall e :: e != d ==> m'.Get(e) == m.Get(e)
    ensures o == Draw ==> m' == m
  {
    if o == Draw then m else m.Set(d, m.Get(d) + Delta(d, o))
  }

  /** The four division transitions, each with the threshold on the counter of the
      division the player is in. */
  predicate Transition(d: Division, rating: int, e: Division) {
    || (d == Silver && rating >= 1200 && e == Gold)
    || (d == Gold && rating >= 1500 && e == Platinum)
    || (d == Gold && rating < 1100 && e == Silver)
    || (d == Platinum && rating < 1400 && e == Gold)
  }

  /** The division after a rated game: the first applicable transition in the order
      Silver->Gold, Gold->Platinum, Gold->Silver, Platinum->Gold, or no change. */
  function NextDivision(d: Division, rating: int): (e: Division)
    ensures e != d ==> Transition(d, rating, e)
    ensures e == d ==> forall t :: !Transition(d, rating, t)
    ensures -1 <= Rank(e) - Rank(d) <= 1
  {
    if d == Silver && rating >= 1200 then Gold
    else if d == Gold && rating >= 1500 then Platinum
    else if d == Gold && rating < 1100 then Silver
    else if d == Platinum && rating < 1400 then Gold
    else d
  }

  /** At most one transition applies to any (division, rating), so the fixed priority
      order never decides between two of them, and a transition never keeps the division. */
  lemma TransitionIsUnique(d: Division, rating: int, e1: Division, e2: Division)
    requires Transition(d, rating, e1) && Transition(d, rating, e2)
    ensures e1 == e2 && e1 != d
  {
  }

  /** What finishing a rated game does to the rating state. */
  datatype RatedResult = RatedResult(ratings: Ratings, change: int, division: Division)

  /** Applies the delta of the division played, records it, and then at most one
      division transition judged on that division's updated counter. */
  function FinishRated(m: Ratings, d: Division, o: Outcome): (r: RatedResult)
    ensures r.change == Delta(d, o) && r.ratings.Get(d) == m.Get(d) + r.change
    ensures forall e :: e != d ==> r.ratings.Get(e) == m.Get(e)
    ensures o == Draw ==> r.ratings == m && r.change == 0
    ensures -1 <= Rank(r.division) - Rank(d) <= 1
    ensures r.division != d <==> Transition(d, m.Get(d) + r.change, r.division)
    ensures r.division == d ==> forall t :: !Transition(d, r.ratings.Get(d), t)
  {
    var m' := ApplyOutcome(m, d, o);
    RatedResult(m', Delta(d, o), NextDivision(d, m'.Get(d)))
  }

  /** When a transition applies to the updated counter of the division played, the
      game ends in that transition's division. */
  lemma ApplicableTransitionIsTaken(m: Ratings, d: Division, o: Outcome, t: Division)
    requires Transition(d, FinishRated(m, d, o).ratings.Get(d), t)
    ensures FinishRated(m, d, o).division == t
  {
    var r := FinishRated(m, d, o);
    if r.division != d {
      TransitionIsUnique(d, r.ratings.Get(d), r.division, t);
    }
  }

  /** A win from 1195 in Silver lifts the Silver counter to 1205 and promotes to Gold. */
  lemma SilverPromotionExample()
    ensures FinishRated(Ratings(1195, 1300, 1600), Silver, HumanWon)
      == RatedResult(Ratings(1205, 1300, 1600), 10, Gold)
  {
  }
}
