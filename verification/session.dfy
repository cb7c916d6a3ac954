/**
  One game's life cycle: reset, the human's move, the two bots' moves, scoring
  and the end of a plain or a rated game, and the driver that dispatches a bot
  turn to the bot matching the session.
 */
module Session {
  import opened Grid
  import opened Results
  import opened Rating
  import opened Ranking
  import opened Heuristics

  /** Plies in one game. */
  const TotalMoves: int := 14

  datatype Player = Human | Bot

  /** A rated game ended without a division set: the game indexes its rating table
      with a missing key and stops with an error. */
  datatype RatingError = NoDivision

  /** The whole state of the game object. */
  datatype Game = Game(
    board: Board,
    moveCount: int,
    active: bool,
    current: Player,
    winner: Option<Outcome>,
    playerScore: int,
    botScore: int,
    division: Option<Division>,
    ratingChange: int,
    ratings: Ratings)

  /** The owner code a player's reactor writes. */
  function Code(p: Player): int {
    match p
    case Human => HumanCell
    case Bot => BotCell
  }

  function Other(p: Player): Player {
    match p
    case Human => Bot
    case Bot => Human
  }

  /** A fresh game: empty board, no moves, active, human to move, no winner, and the
      rating state cleared back to no division and the initial counters. */
  function Reset(): (g: Game)
    ensures ValidBoard(g.board)
    ensures Count(g.board.cells, Empty) == Size * Size && Count(g.board.reactors, true) == 0
    ensures g.moveCount == 0 && g.active && g.current == Human && g.winner == None
    ensures g.division == None && g.ratings == InitialRatings()
  {
    NewBoardCounts();
    Game(NewBoard(), 0, true, Human, None, 0, 0, None, 0, InitialRatings())
  }

  /** The invariant every reachable game keeps. */
  ghost predicate Inv(g: Game) {
    && ValidBoard(g.board)
    && 0 <= g.moveCount <= TotalMoves
    && (g.active <==> g.moveCount < TotalMoves)
    && (g.active <==> g.winner == None)
    && Count(g.board.reactors, true) == g.moveCount
    && Count(g.board.cells, Empty) + g.moveCount <= Size * Size
    && (!g.active ==> g.winner == Some(Decide(Count(g.board.cells, HumanCell), Count(g.board.cells, BotCell))))
  }

  lemma ResetEstablishesInv()
    ensures Inv(Reset())
  {
  }

  /** The cell counts of each side, stored into the game. */
  function CalculateScores(g: Game): (g': Game)
    requires ValidBoard(g.board)
    ensures g'.playerScore == Count(g.board.cells, HumanCell)
    ensures g'.botScore == Count(g.board.cells, BotCell)
    ensures g'.playerScore + g'.botScore + Count(g.board.cells, Empty) == Size * Size
    ensures g'.board == g.board && g'.moveCount == g.moveCount && g'.active == g.active
    ensures g'.winner == g.winner && g'.division == g.division && g'.ratings == g.ratings
    ensures g'.ratingChange == g.ratingChange
  {
    BoardPartition(g.board);
    g.(playerScore := Count(g.board.cells, HumanCell), botScore := Count(g.board.cells, BotCell))
  }

  /** Who won, from the two scores. */
  function Decide(playerScore: int, botScore: int): (o: Outcome)
    ensures o == HumanWon <==> playerScore > botScore
    ensures o == BotWon <==> botScore > playerScore
    ensures o == Draw <==> playerScore == botScore
  {
    if playerScore > botScore then HumanWon
    else if botScore > playerScore then BotWon
    else Draw
  }

  /** Ends a plain game: inactive, scores counted, winner decided by the scores. */
  function EndGame(g: Game): (g': Game)
    requires ValidBoard(g.board)
    ensures !g'.active
    ensures g'.playerScore == Count(g.board.cells, HumanCell) && g'.botScore == Count(g.board.cells, BotCell)
    ensures g'.winner == Some(HumanWon) <==> g'.playerScore > g'.botScore
    ensures g'.winner == Some(BotWon) <==> g'.botScore > g'.playerScore
    ensures g'.winner == Some(Draw) <==> g'.playerScore == g'.botScore
    ensures g'.board == g.board && g'.moveCount == g.moveCount && g'.current == g.current
    ensures g'.division == g.division && g'.ratings == g.ratings && g'.ratingChange == g.ratingChange
  {
    var s := CalculateScores(g).(active := false);
    s.(winner := Some(Decide(s.playerScore, s.botScore)))
  }

  /** Ends a rated game: like EndGame, then the division's counter moves by the
      game's delta, the delta is recorded, and at most one division transition is
      applied. Without a division the rating table lookup fails. */
  function EndRatingGame(g: Game): (r: Result<Game, RatingError>)
    requires ValidBoard(g.board)
    ensures g.division == None <==> r == Failure(NoDivision)
    ensures r.Success? ==>
      var g', d := r.value, g.division.value;
      var o := Decide(Count(g.board.cells, HumanCell), Count(g.board.cells, BotCell));
      && !g'.active && g'.winner == Some(o)
      && g'.playerScore == Count(g.board.cells, HumanCell) && g'.botScore == Count(g.board.cells, BotCell)
      && g'.ratingChange == Delta(d, o)
      && g'.ratings.Get(d) == g.ratings.Get(d) + Delta(d, o)
      && (forall e :: e != d ==> g'.ratings.Get(e) == g.ratings.Get(e))
      && g'.division.Some?
      && (g'.division.value != d <==> Transition(d, g'.ratings.Get(d), g'.division.value))
      && (g'.division.value == d ==> forall t :: !Transition(d, g'.ratings.Get(d), t))
      && g'.board == g.board && g'.moveCount == g.moveCount && g'.current == g.current
  {
    match g.division
    case None => Failure(NoDivision)
    case Some(d) =>
      var s := CalculateScores(g).(active := false);
      var o := Decide(s.playerScore, s.botScore);
      var rated := FinishRated(g.ratings, d, o);
      Success(s.(winner := Some(o), ratings := rated.ratings, ratingChange := rated.change,
                 division := Some(rated.division)))
  }

  /** The shared front of every accepted move: activate the reactor, count the ply. */
  function Place(g: Game, row: int, col: int, who: Player): (g': Game)
    requires ValidBoard(g.board) && InBounds(row, col)
    ensures g'.board == Activate(g.board, row, col, Code(who))
    ensures g'.moveCount == g.moveCount + 1
    ensures g'.active == g.active && g'.current == g.current && g'.winner == g.winner
    ensures g'.division == g.division && g'.ratings == g.ratings && g'.ratingChange == g.ratingChange
    ensures g'.playerScore == g.playerScore && g'.botScore == g.botScore
  {
    g.(board := Activate(g.board, row, col, Code(who)), moveCount := g.moveCount + 1)
  }

  /** The tail of a plain accepted move: the game ends once the count reaches the
      total (compared with >=), otherwise the turn passes. */
  function FinishPly(g: Game): (g': Game)
    requires ValidBoard(g.board)
    ensures g.moveCount >= TotalMoves ==> g' == EndGame(g)
    ensures g.moveCount < TotalMoves ==> g' == g.(current := Other(g.current))
  {
    if g.moveCount >= TotalMoves then EndGame(g) else g.(current := Other(g.current))
  }

  /** One accepted ply by `who` on an empty cell, from an active game: the reactor is
      activated and the ply counted; the last ply ends the game with the scores of
      the final board and the winner they decide, any other ply passes the turn and
      leaves scores, winner and rating state as they were. */
  ghost predicate AcceptedPly(g: Game, g': Game, who: Player, row: int, col: int)
    requires ValidBoard(g.board)
  {
    && EmptyAt(g.board.cells, row, col)
    && g'.board == Activate(g.board, row, col, Code(who))
    && g'.moveCount == g.moveCount + 1
    && (g'.moveCount >= TotalMoves ==>
          && !g'.active
          && g'.playerScore == Count(g'.board.cells, HumanCell)
          && g'.botScore == Count(g'.board.cells, BotCell)
          && g'.winner == Some(Decide(g'.playerScore, g'.botScore)))
    && (g'.moveCount < TotalMoves ==>
          && g'.active && g'.current == Other(who) && g'.winner == g.winner
          && g'.playerScore == g.playerScore && g'.botScore == g.botScore
          && g'.division == g.division && g'.ratings == g.ratings && g'.ratingChange == g.ratingChange)
  }

  /** Activating an empty cell and finishing the ply is one accepted ply. */
  lemma FinishedPlyIsAccepted(g: Game, who: Player, row: int, col: int)
    requires ValidBoard(g.board) && EmptyAt(g.board.cells, row, col)
    requires g.active && g.current == who
    ensures ValidBoard(Place(g, row, col, who).board)
    ensures AcceptedPly(g, FinishPly(Place(g, row, col, who)), who, row, col)
  {
    ActivatePreservesValid(g.board, row, col, Code(who));
  }

  /** The human's move at an in-bounds cell. It is refused, changing nothing, when the
      game is over, when it is not the human's turn, or when the cell is not empty. */
  function PlayerMove(g: Game, row: int, col: int): (r: (bool, Game))
    requires ValidBoard(g.board) && InBounds(row, col)
    ensures !r.0 <==> !g.active || g.current != Human || g.board.cells[row][col] != Empty
    ensures !r.0 ==> r.1 == g
    ensures r.0 ==> AcceptedPly(g, r.1, Human, row, col)
    ensures r.0 && g.moveCount + 1 >= TotalMoves ==> r.1 == EndGame(Place(g, row, col, Human))
    ensures r.1.division == g.division && r.1.ratings == g.ratings
  {
    if !g.active || g.current != Human || g.board.cells[row][col] != Empty then (false, g)
    else
      FinishedPlyIsAccepted(g, Human, row, col);
      (true, FinishPly(Place(g, row, col, Human)))
  }

  /** (row, col) is one of the `k` best candidates under `value`: fewer than k
      candidates are ranked ahead of it. */
  ghost predicate AmongBest(b: Matrix<int>, value: (int, int) -> int, k: nat, row: int, col: int)
    requires IsSquare(b)
  {
    |Outranking(Candidates(b, value), Candidate(row, col, value(row, col)))| < k
  }

  /** The bot's choice under a cell-scoring function: none when no cell is empty,
      otherwise an empty cell among the best `k`. */
  function BotChoice(b: Matrix<int>, value: (int, int) -> int, k: nat, pick: nat): (m: Option<Candidate>)
    requires IsSquare(b) && k > 0
    ensures m == None <==> !HasEmptyCell(b)
    ensures m.Some? ==> EmptyAt(b, m.value.r, m.value.c) && AmongBest(b, value, k, m.value.r, m.value.c)
  {
    EmptyCellsExist(b);
    if |EmptyCells(b)| == 0 then None
    else
      var m := ChooseMove(b, value, k, pick);
      assert m == Candidate(m.r, m.c, value(m.r, m.c));
      Some(m)
  }

  /** The standard bot's ply at (row, col): an accepted ply on one of the three best
      cells under its scoring, ending the game as a plain game when it is the last. */
  ghost predicate StandardBotPly(g: Game, g': Game, noise: (int, int) -> int, row: int, col: int)
    requires ValidBoard(g.board)
  {
    && EmptyAt(g.board.cells, row, col)
    && (ActivatePreservesValid(g.board, row, col, BotCell);
        && AcceptedPly(g, g', Bot, row, col)
        && AmongBest(g.board.cells, ScoreOf(Standard(g.moveCount), g.board.cells, noise), 3, row, col)
        && (g.moveCount + 1 >= TotalMoves ==> g' == EndGame(Place(g, row, col, Bot))))
  }

  /** The standard bot's move. Nothing happens unless the game is active, it is the
      bot's turn and some cell is empty; otherwise the bot claims one of the three
      best-scored empty cells. */
  function BotMove(g: Game, noise: (int, int) -> int, pick: nat): (g': Game)
    requires ValidBoard(g.board)
    ensures !g.active || g.current != Bot || !HasEmptyCell(g.board.cells) ==> g' == g
    ensures g.active && g.current == Bot && HasEmptyCell(g.board.cells) ==>
      exists row, col :: StandardBotPly(g, g', noise, row, col)
    ensures g'.division == g.division && g'.ratings == g.ratings
  {
    if !g.active || g.current != Bot then g
    else
      var policy := Standard(g.moveCount);
      match BotChoice(g.board.cells, ScoreOf(policy, g.board.cells, noise), TopCount(policy), pick)
      case None => g
      case Some(m) =>
        FinishedPlyIsAccepted(g, Bot, m.r, m.c);
        var g' := FinishPly(Place(g, m.r, m.c, Bot));
        assert StandardBotPly(g, g', noise, m.r, m.c);
        g'
  }

  /** The rated bot's ply at (row, col): an empty cell among the division's best
      few; the last ply ends the game as a rated game, and a successful ply is an
      accepted one. */
  ghost predicate RatedBotPly(g: Game, r: Result<Game, RatingError>, noise: (int, int) -> int, row: int, col: int)
    requires ValidBoard(g.board)
  {
    && EmptyAt(g.board.cells, row, col)
    && (ActivatePreservesValid(g.board, row, col, BotCell);
        var placed := Place(g, row, col, Bot);
        assert ValidBoard(placed.board);
        && AmongBest(g.board.cells, ScoreOf(Rated(g.division), g.board.cells, noise), TopCount(Rated(g.division)), row, col)
        && (r.Success? ==> AcceptedPly(g, r.value, Bot, row, col))
        && (placed.moveCount >= TotalMoves ==> r == EndRatingGame(placed)))
  }

  /** The rated bot's move: as BotMove but scored by the division's difficulty and
      picked among the best 1 (Platinum), 2 (Gold) or 3 (Silver, or no division);
      the last ply ends the game as a rated game. */
  function RatingBotMove(g: Game, noise: (int, int) -> int, pick: nat): (r: Result<Game, RatingError>)
    requires ValidBoard(g.board)
    ensures !g.active || g.current != Bot || !HasEmptyCell(g.board.cells) ==> r == Success(g)
    ensures r.Failure? <==>
      g.active && g.current == Bot && HasEmptyCell(g.board.cells)
      && g.division == None && g.moveCount + 1 >= TotalMoves
    ensures g.active && g.current == Bot && HasEmptyCell(g.board.cells) ==>
      exists row, col :: RatedBotPly(g, r, noise, row, col)
    ensures r.Success? && g.division.Some? ==> r.value.division.Some?
  {
    if !g.active || g.current != Bot then Success(g)
    else
      var policy := Rated(g.division);
      match BotChoice(g.board.cells, ScoreOf(policy, g.board.cells, noise), TopCount(policy), pick)
      case None => Success(g)
      case Some(m) =>
        RatedPlyIsAccepted(g, m.r, m.c);
        var placed := Place(g, m.r, m.c, Bot);
        var r := if placed.moveCount >= TotalMoves then EndRatingGame(placed)
                 else Success(placed.(current := Human));
        assert RatedBotPly(g, r, noise, m.r, m.c);
        r
  }

  /** The rated bot's ply on an empty cell is an accepted ply, ended as a rated game
      when it is the last one; only that ending can fail, and only without a division. */
  lemma RatedPlyIsAccepted(g: Game, row: int, col: int)
    requires ValidBoard(g.board) && EmptyAt(g.board.cells, row, col)
    requires g.active && g.current == Bot
    ensures ValidBoard(Place(g, row, col, Bot).board)
    ensures var placed := Place(g, row, col, Bot);
      var r := if placed.moveCount >= TotalMoves then EndRatingGame(placed)
               else Success(placed.(current := Human));
      && (r.Failure? <==> g.division == None && placed.moveCount >= TotalMoves)
      && (r.Success? ==> AcceptedPly(g, r.value, Bot, row, col))
      && (r.Success? && g.division.Some? ==> r.value.division.Some?)
  {
    ActivatePreservesValid(g.board, row, col, BotCell);
  }

  // ---------------------------------------------------------------------------
  // The invariant along a game

  /** Every accepted ply keeps the invariant: one more reactor, at least one fewer
      empty cell, and the game ends exactly at the last ply. */
  lemma AcceptedPlyKeepsInv(g: Game, g': Game, who: Player, row: int, col: int)
    requires Inv(g) && g.active
    requires AcceptedPly(g, g', who, row, col)
    ensures Inv(g')
  {
    ActivatePreservesValid(g.board, row, col, Code(who));
    ActivateCounts(g.board, row, col, Code(who));
  }

  lemma PlayerMoveKeepsInv(g: Game, row: int, col: int)
    requires Inv(g) && InBounds(row, col)
    ensures Inv(PlayerMove(g, row, col).1)
  {
    var r := PlayerMove(g, row, col);
    if r.0 {
      AcceptedPlyKeepsInv(g, r.1, Human, row, col);
    }
  }

  lemma BotMoveKeepsInv(g: Game, noise: (int, int) -> int, pick: nat)
    requires Inv(g)
    ensures Inv(BotMove(g, noise, pick))
  {
    var g' := BotMove(g, noise, pick);
    if g.active && g.current == Bot && HasEmptyCell(g.board.cells) {
      var row, col :| StandardBotPly(g, g', noise, row, col);
      AcceptedPlyKeepsInv(g, g', Bot, row, col);
    }
  }

  lemma RatingBotMoveKeepsInv(g: Game, noise: (int, int) -> int, pick: nat)
    requires Inv(g)
    ensures RatingBotMove(g, noise, pick).Success? ==> Inv(RatingBotMove(g, noise, pick).value)
  {
    var r := RatingBotMove(g, noise, pick);
    if r.Success? && g.active && g.current == Bot && HasEmptyCell(g.board.cells) {
      var row, col :| RatedBotPly(g, r, noise, row, col);
      AcceptedPlyKeepsInv(g, r.value, Bot, row, col);
    }
  }

  /** The pieces on the board: at most the whole board, and at least one cell per
      ply, so both scores are zero only before the first move. */
  lemma ScoresBound(g: Game)
    requires Inv(g)
    ensures g.moveCount <= Count(g.board.cells, HumanCell) + Count(g.board.cells, BotCell) <= Size * Size
  {
    BoardPartition(g.board);
  }

  // ---------------------------------------------------------------------------
  // The driver

  /** What the event loop can do to the game: a click on a board cell (clicks off the
      board are dropped before they reach the game), or the bot's turn, with the
      bot's random draws. */
  datatype Action = Click(row: int, col: int) | BotTurn(noise: (int, int) -> int, pick: nat)

  /** A bot turn runs the rated bot when a division is set and the standard bot
      otherwise; the loop only calls either while the game is active and it is the
      bot's turn. */
  function Step(g: Game, a: Action): (r: Result<Game, RatingError>)
    requires ValidBoard(g.board)
    ensures a.Click? && InBounds(a.row, a.col) ==> r == Success(PlayerMove(g, a.row, a.col).1)
    ensures a.Click? && !InBounds(a.row, a.col) ==> r == Success(g)
    ensures a.BotTurn? && g.division == None && g.active && g.current == Bot ==> r == Success(BotMove(g, a.noise, a.pick))
    ensures a.BotTurn? && g.division.Some? && g.active && g.current == Bot ==> r == RatingBotMove(g, a.noise, a.pick)
    ensures a.BotTurn? && !(g.active && g.current == Bot) ==> r == Success(g)
  {
    match a
    case Click(row, col) =>
      if InBounds(row, col) then Success(PlayerMove(g, row, col).1) else Success(g)
    case BotTurn(noise, pick) =>
      if !(g.active && g.current == Bot) then Success(g)
      else if g.division.Some? then RatingBotMove(g, noise, pick)
      else Success(BotMove(g, noise, pick))
  }

  /** Runs the actions in order, stopping at the first error. */
  function Play(g: Game, actions: seq<Action>): Result<Game, RatingError>
    requires Inv(g)
    decreases |actions|
  {
    if |actions| == 0 then Success(g)
    else
      match Step(g, actions[0])
      case Failure(e) => Failure(e)
      case Success(g') =>
        StepKeepsInv(g, actions[0]);
        Play(g', actions[1..])
  }

  lemma StepKeepsInv(g: Game, a: Action)
    requires Inv(g)
    ensures Step(g, a).Success? ==> Inv(Step(g, a).value)
  {
    match a
    case Click(row, col) =>
      if InBounds(row, col) {
        PlayerMoveKeepsInv(g, row, col);
      }
    case BotTurn(noise, pick) =>
      if g.active && g.current == Bot {
        if g.division.Some? {
          RatingBotMoveKeepsInv(g, noise, pick);
        } else {
          BotMoveKeepsInv(g, noise, pick);
        }
      }
  }

  /** A step never lowers the move count, and a step that changes the game counts
      exactly one ply or ends it from an active state. */
  lemma StepCountsOnePly(g: Game, a: Action)
    requires Inv(g)
    ensures Step(g, a).Success? ==> g.moveCount <= Step(g, a).value.moveCount <= g.moveCount + 1
    ensures !g.active ==> Step(g, a) == Success(g)
  {
    match a
    case Click(row, col) =>
    case BotTurn(noise, pick) =>
      if g.active && g.current == Bot && HasEmptyCell(g.board.cells) {
        if g.division.Some? {
          var r := RatingBotMove(g, noise, pick);
          var row, col :| RatedBotPly(g, r, noise, row, col);
        } else {
          var row, col :| StandardBotPly(g, BotMove(g, noise, pick), noise, row, col);
        }
      }
  }


  /** Over any sequence of actions from a game keeping the invariant: the invariant
      still holds, so the game is active exactly while fewer than the total plies
      have been played; a game without a division never fails; and a finished game
      never changes again. */
  lemma {:induction false} PlayKeepsInv(g: Game, actions: seq<Action>)
    requires Inv(g)
    ensures Play(g, actions).Success? ==> Inv(Play(g, actions).value)
    ensures Play(g, actions).Success? ==> g.moveCount <= Play(g, actions).value.moveCount
    ensures g.division == None ==> Play(g, actions).Success? && Play(g, actions).value.division == None
    ensures !g.active ==> Play(g, actions) == Success(g)
    decreases |actions|
  {
    if |actions| > 0 {
      StepKeepsInv(g, actions[0]);
      StepCountsOnePly(g, actions[0]);
      var r := Step(g, actions[0]);
      if r.Success? {
        if g.division == None {
          StepKeepsDivision(g, actions[0]);
        }
        PlayKeepsInv(r.value, actions[1..]);
      }
    }
  }

  /** Without a division a step never fails and never sets one. */
  lemma StepKeepsDivision(g: Game, a: Action)
    requires Inv(g) && g.division == None
    ensures Step(g, a).Success? && Step(g, a).value.division == None
  {
  }

  /** Every game reachable from a reset keeps the invariant and never fails: the
      rated bot is never reached, because a reset clears the division. */
  lemma GamesFromReset(actions: seq<Action>)
    ensures Play(Reset(), actions).Success?
    ensures var g := Play(Reset(), actions).value;
      && Inv(g) && g.division == None
      && (g.active <==> g.moveCount < TotalMoves)
      && (!g.active ==> g.winner == Some(Decide(Count(g.board.cells, HumanCell), Count(g.board.cells, BotCell))))
  {
    ResetEstablishesInv();
    PlayKeepsInv(Reset(), actions);
  }

  // ---------------------------------------------------------------------------
  // Choosing a division

  /** Choosing a division from the rating menu, as the game does it: the division is
      stored and the game is then reset, which clears it again together with the
      rating counters; so neither `d` nor anything of `g` survives into the result,
      and storing it first is left implicit. */
  function SelectDivision(g: Game, d: Division): (g': Game)
    ensures g'.moveCount == 0 && g'.active && g'.current == Human
  {
    Reset().(current := Human)
  }

  /** The chosen division does not survive: the new game has no division, the
      counters are back to their initial values whatever they were, and no action
      can ever reach the rated bot or the rating update. */
  lemma SelectedDivisionIsLost(g: Game, d: Division, actions: seq<Action>)
    ensures SelectDivision(g, d).division == None
    ensures SelectDivision(g, d).ratings == InitialRatings()
    ensures Play(SelectDivision(g, d), actions).Success?
    ensures Play(SelectDivision(g, d), actions).value.division == None
  {
    ResetEstablishesInv();
    PlayKeepsInv(SelectDivision(g, d), actions);
  }

  /** Choosing a division so that it sticks: a fresh board and move state, with the
      chosen division and the rating counters carried over. */
  function SelectDivisionKept(g: Game, d: Division): (g': Game)
    ensures g'.division == Some(d) && g'.ratings == g.ratings
    ensures Inv(g') && g'.moveCount == 0 && g'.active && g'.current == Human
    ensures Count(g'.board.cells, Empty) == Size * Size
  {
    ResetEstablishesInv();
    Reset().(division := Some(d), ratings := g.ratings)
  }

  /** With the division kept, a rated session never fails: every game it plays keeps
      the invariant and some division, and a bot turn runs the rated bot. */
  lemma {:induction false} RatedPlayNeverFails(g: Game, actions: seq<Action>)
    requires Inv(g) && g.division.Some?
    ensures Play(g, actions).Success?
    ensures Play(g, actions).value.division.Some?
    decreases |actions|
  {
    if |actions| > 0 {
      StepKeepsInv(g, actions[0]);
      var r := Step(g, actions[0]);
      assert r.Success?;
      PlayKeepsInv(g, actions);
      RatedPlayNeverFails(r.value, actions[1..]);
    }
  }

  /** After a kept selection, the counters a rated game updates are the ones the next
      selection starts from. */
  lemma KeptRatingsCarryOver(g: Game, d: Division, e: Division, actions: seq<Action>)
    ensures var s := SelectDivisionKept(g, d);
      Play(s, actions).Success? &&
      SelectDivisionKept(Play(s, actions).value, e).ratings == Play(s, actions).value.ratings
  {
    RatedPlayNeverFails(SelectDivisionKept(g, d), actions);
  }

  // ---------------------------------------------------------------------------
  // A full board before the last ply

  /** When no cell is empty, every click is refused and every bot turn passes, so a
      game that is still active stays exactly as it is, whatever happens next. */
  lemma {:induction false} FullBoardStalls(g: Game, actions: seq<Action>)
    requires Inv(g) && !HasEmptyCell(g.board.cells)
    ensures Play(g, actions) == Success(g)
    decreases |actions|
  {
    if |actions| > 0 {
      var a := actions[0];
      if a.Click? && InBounds(a.row, a.col) {
        assert !EmptyAt(g.board.cells, a.row, a.col);
      }
      assert Step(g, a) == Success(g);
      FullBoardStalls(g, actions[1..]);
    }
  }

  /** A board with twelve reactors, at (1,0), (0,2), (0,4), (1,6), (2,3), (3,1),
      (3,5), (5,0), (4,3), (5,6), (6,2), (6,4), each cell owned by the last cross
      covering it when the human and the bot alternate in that order; together the
      crosses cover all 49 cells. The bots' ranking rule is not claimed to lead here. */
  function TwelveCrosses(): Game {
    var cells := [
      [1, 2, 2, 1, 1, 1, 2],
      [1, 1, 2, 1, 1, 2, 2],
      [1, 2, 1, 1, 1, 1, 2],
      [2, 2, 2, 1, 1, 1, 1],
      [2, 2, 1, 1, 1, 1, 2],
      [2, 2, 1, 1, 2, 2, 2],
      [2, 1, 1, 2, 2, 2, 2]];
    var reactors := [
      [false, false, true, false, true, false, false],
      [true, false, false, false, false, false, true],
      [false, false, false, true, false, false, false],
      [false, true, false, false, false, true, false],
      [false, false, false, true, false, false, false],
      [true, false, false, false, false, false, true],
      [false, false, true, false, true, false, false]];
    Game(Board(cells, reactors), 12, true, Human, None, 0, 0, None, 0, InitialRatings())
  }

  /** Every cell of that position is owned. */
  lemma TwelveCrossesOwned()
    ensures var b := TwelveCrosses().board;
      && IsSquare(b.cells) && IsSquare(b.reactors)
      && (forall r, c :: InBounds(r, c) ==> 1 <= b.cells[r][c] <= 2)
  {
    var b := TwelveCrosses().board;
    forall r, c | InBounds(r, c)
      ensures 1 <= b.cells[r][c] <= 2
    {
      assert r == 0 || r == 1 || r == 2 || r == 3 || r == 4 || r == 5 || r == 6;
    }
  }

  /** That position holds 12 reactor marks. */
  lemma TwelveCrossesReactors()
    ensures Count(TwelveCrosses().board.reactors, true) == 12
  {
    var m := TwelveCrosses().board.reactors;
    assert CountRow(m[0], true) == 2 && CountRow(m[1], true) == 2 && CountRow(m[2], true) == 1;
    assert CountRow(m[3], true) == 2 && CountRow(m[4], true) == 1;
    assert CountRow(m[5], true) == 2 && CountRow(m[6], true) == 2;
    assert m[6..][1..] == [];
    assert Count(m[6..], true) == 2;
    assert m[5..][1..] == m[6..];
    assert Count(m[5..], true) == 4;
    assert m[4..][1..] == m[5..];
    assert Count(m[4..], true) == 5;
    assert m[3..][1..] == m[4..];
    assert Count(m[3..], true) == 7;
    assert m[2..][1..] == m[3..];
    assert Count(m[2..], true) == 8;
    assert m[1..][1..] == m[2..];
    assert Count(m[1..], true) == 10;
  }

  /** That position satisfies the session invariant with only 12 of the 14 plies
      played and no empty cell, so from it the game never reaches its end. */
  lemma TwelveCrossesStall(actions: seq<Action>)
    ensures Inv(TwelveCrosses()) && TwelveCrosses().active && TwelveCrosses().moveCount < TotalMoves
    ensures !HasEmptyCell(TwelveCrosses().board.cells)
    ensures Play(TwelveCrosses(), actions) == Success(TwelveCrosses())
  {
    var g := TwelveCrosses();
    TwelveCrossesOwned();
    TwelveCrossesReactors();
    NoneCountedGrid(g.board.cells, Empty);
    assert ValidBoard(g.board);
    assert !HasEmptyCell(g.board.cells) by {
      forall r, c ensures !EmptyAt(g.board.cells, r, c) {
      }
    }
    assert Inv(g);
    FullBoardStalls(g, actions);
  }
}
