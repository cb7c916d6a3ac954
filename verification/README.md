# Reactor game: a Dafny model of the game engine

This project models the engine of the desktop "Reactor" game
(`reactor_game_desktop/main.py`). It is a two-player territory game on a 7x7 board
played by a human and a bot over 14 plies. A move activates a reactor on an empty
cell, which claims that cell and its four orthogonal neighbours for the mover,
overwriting whatever they held. When the 14th ply is played, the side owning more
cells wins.

The model covers:

- the board and the reactor activation (`Grid`);
- the bots' move evaluation (`Heuristics`): the 10/4/1 neighbour score, the
  early-game centre bonus, the threat term and the rated bot's difficulty weighting;
- the ranking and the random pick among the best few candidates (`Ranking`);
- the rating ladder of rated games (`Rating`): the win/loss delta table and
  promotion/demotion;
- the game's life cycle (`Session`): reset, the human's move, the standard and
  rated bot moves, scoring, the end of a plain or rated game, and the loop's
  dispatch of a bot turn.

Randomness is a parameter.

- Each bot move receives a `noise` function giving the random term of every cell,
  as an integer.
- It also receives a `pick: nat` that stands for `random.choice` among the kept
  candidates. The kept list is indexed at `pick` modulo its length.
- The game's float scores become exact integers: `Heuristics` says how, and the
  scaling keeps their order.
- The game sorts its candidates with Python's stable sort, descending. That is
  modelled as a sort by one strict total order: higher value first, then row-major
  position.

Properties proved include:

- the board invariant: 7x7 shape, owner codes 0/1/2, reactors only on owned cells;
- each ply adds exactly one reactor and removes at least one empty cell;
- a game is active exactly while fewer than 14 plies have been played;
- a finished game never changes again;
- the winner matches the score comparison;
- the bot always claims an empty cell ranked among its best `k`, and the
  Platinum bot claims a clear best cell;
- the rating deltas have the right sign for each outcome;
- at most one division transition applies.

Some behaviours of the code as written are made explicit:

- A rated game that ends with no division set fails. The source indexes its rating
  table with `None`: `Session.EndRatingGame` returns `Failure(NoDivision)`.
- Choosing a division is undone by the reset that follows it, so the rated bot is
  unreachable from the menus (see Findings).
- The end of a game is decided only by the ply count, never by a full board. Once
  no cell is empty, no move is legal, and a game that has not reached 14 plies stays
  active forever (`Session.FullBoardStalls`). `Session.TwelveCrossesStall` exhibits
  a position satisfying the session invariant with 12 reactors, all 49 cells owned
  and 2 plies left. It is a position the invariant allows; the model does not show
  that the bots' ranking rule can reach it.

## Model

| member | source | states |
|---|---|---|
| Grid.Activate | reactor_game_desktop/main.py:154-163 | the activated cell and its in-bounds orthogonal neighbours take the player's code; every other cell is unchanged; the only new reactor mark is at the activated cell |
| Grid.ActivateChangesAtMostFive | reactor_game_desktop/main.py:154-163 | an activation changes only cells of the five-cell cross, so at most five; when the target was empty and the player is an owner, the target itself changes |
| Grid.ActivatePreservesValid | reactor_game_desktop/main.py:154-163 | activating with an owner code keeps the board 7x7, its codes in {0,1,2}, and reactors only on owned cells |
| Grid.ActivateCounts | reactor_game_desktop/main.py:154-163 | activating an empty cell strictly lowers the number of empty cells and adds exactly one reactor mark |
| Grid.NewBoard | reactor_game_desktop/main.py:80-81 | a fresh board is valid, with every cell empty and no reactor |
| Grid.NewBoardCounts | reactor_game_desktop/main.py:80-81 | a fresh board counts 49 empty cells and 0 reactors |
| Grid.BoardPartition | reactor_game_desktop/main.py:357-359 | on a valid board the empty, human and bot cell counts add up to 49 |
| Heuristics.BaseValue | reactor_game_desktop/main.py:194-203 | the neighbour score is 10 per human neighbour, 4 per empty one and 1 per bot one, between the number of on-board neighbours and ten times it, at most 40 |
| Heuristics.CenterBonus | reactor_game_desktop/main.py:185-207 | the bonus is 4 exactly when fewer than 5 plies were played and the cell is in the central 3x3 block, else 0 |
| Heuristics.Threat | reactor_game_desktop/main.py:209-220 | the threat term is at least five times the bot-neighbour count of every human neighbour, is attained by one of them when positive, and is between 0 and 20 |
| Heuristics.Heuristic | reactor_game_desktop/main.py:222-274 | the standard bot's heuristic lies in 0..64, the rated bot's in 0..40 |
| Heuristics.MarginDecides | reactor_game_desktop/main.py:222-275 | with noise in range, a heuristic lead of 2 (4 for Silver) beats any noise: the leading cell scores strictly higher |
| Heuristics.Candidates | reactor_game_desktop/main.py:189-225 | the candidate list holds exactly the empty cells, each with its own score |
| Heuristics.CandidatesExist | reactor_game_desktop/main.py:227 | there are candidates exactly when some cell is empty |
| Ranking.Insert | reactor_game_desktop/main.py:229 | inserting into a ranked list keeps it ranked and adds exactly that element |
| Ranking.Sort | reactor_game_desktop/main.py:229 | the result is ranked best-first and is a permutation of the input |
| Ranking.Choose | reactor_game_desktop/main.py:229-231 | the pick is one of the candidates with fewer than min(k, n) candidates ranked ahead of it; with k = 1 none is ahead of it |
| Heuristics.ChooseMove | reactor_game_desktop/main.py:227-231 | the chosen move is an empty cell carrying its own score with fewer than k candidates ahead; with k = 1 no empty cell scores higher |
| Heuristics.ClearBestIsChosen | reactor_game_desktop/main.py:283-285 | when a cell leads every other empty cell by the margin, the Platinum bot chooses it, whatever the pick |
| Session.BotChoice | reactor_game_desktop/main.py:227-231 | no choice exactly when no cell is empty; otherwise an empty cell among the best k |
| Rating.Delta | reactor_game_desktop/main.py:318-340 | a win gives a positive delta, a loss a negative one, a draw zero; all lie in -15..20 |
| Rating.DeltaGrowsWithDivision | reactor_game_desktop/main.py:321-336 | a higher division rewards a win and punishes a loss more |
| Rating.ApplyOutcome | reactor_game_desktop/main.py:327-340 | the delta is added to the counter of the division played, no other counter moves, and a draw changes nothing |
| Rating.NextDivision | reactor_game_desktop/main.py:345-355 | the division changes only by an applicable transition, stays only when no transition applies, and moves at most one step |
| Rating.TransitionIsUnique | reactor_game_desktop/main.py:348-355 | at most one transition applies to a division and rating, and it always changes the division |
| Rating.FinishRated | reactor_game_desktop/main.py:318-355 | the recorded change is the delta; only the played division's counter moves; the division changes exactly by a transition that applies to the updated counter, and stays only when none applies |
| Rating.ApplicableTransitionIsTaken | reactor_game_desktop/main.py:343-355 | whenever a transition applies to the updated counter, the game ends in that transition's division |
| Rating.SilverPromotionExample | reactor_game_desktop/main.py:322-349 | a win at Silver 1195 gives Silver 1205, change 10, promotion to Gold |
| Session.Reset | reactor_game_desktop/main.py:79-92 | a reset game is valid, empty, active, at ply 0 with the human to move; it has no division and the initial counters |
| Session.ResetEstablishesInv | reactor_game_desktop/main.py:79-92 | a reset game satisfies the session invariant |
| Session.CalculateScores | reactor_game_desktop/main.py:357-359 | the scores are the human and bot cell counts and, with the empty cells, make up the 49 cells |
| Session.Decide | reactor_game_desktop/main.py:307-312 | human wins exactly when its score is higher, the bot exactly when its score is higher, a draw exactly on equal scores |
| Session.EndGame | reactor_game_desktop/main.py:303-312 | the game becomes inactive with counted scores and the winner matching the score comparison |
| Session.EndRatingGame | reactor_game_desktop/main.py:314-355 | fails exactly without a division; otherwise it ends the game with the score-decided winner, the delta as the recorded change, the updated counter, and a division that changes exactly when a transition applies |
| Session.Place | reactor_game_desktop/main.py:169-170 | a ply activates the reactor for the mover and counts one more move |
| Session.FinishPly | reactor_game_desktop/main.py:172-175 | from 14 plies on the game ends as a plain game, otherwise the turn passes |
| Session.FinishedPlyIsAccepted | reactor_game_desktop/main.py:165-178 | a ply on an empty cell from an active game is an accepted ply |
| Session.PlayerMove | reactor_game_desktop/main.py:165-178 | refused (changing nothing) exactly when the game is over, it is not the human's turn or the cell is not empty; otherwise one accepted human ply, which at the 14th ply ends the game with the scores of the final board and the winner they decide, and otherwise passes the turn leaving scores and rating state alone |
| Session.BotMove | reactor_game_desktop/main.py:180-239 | nothing happens unless the game is active, it is the bot's turn and a cell is empty; otherwise one accepted bot ply on an empty cell among the best three, ending the game as end_game does at the 14th ply |
| Session.RatingBotMove | reactor_game_desktop/main.py:241-301 | as the standard bot but among the division's best 1, 2 or 3; the 14th ply's result is the rated ending of the placed board, which fails exactly without a division |
| Session.RatedPlyIsAccepted | reactor_game_desktop/main.py:295-301 | the rated bot's ply is accepted, ended as a rated game at the last ply, and keeps a division if it had one |
| Session.AcceptedPlyKeepsInv | reactor_game_desktop/main.py:165-239 | every accepted ply keeps the session invariant |
| Session.PlayerMoveKeepsInv | reactor_game_desktop/main.py:165-178 | the human's move keeps the session invariant |
| Session.BotMoveKeepsInv | reactor_game_desktop/main.py:180-239 | the standard bot's move keeps the session invariant |
| Session.RatingBotMoveKeepsInv | reactor_game_desktop/main.py:241-301 | the rated bot's move keeps the session invariant when it succeeds |
| Session.ScoresBound | reactor_game_desktop/main.py:357-359 | the two scores add up to at most 49 and at least the number of plies |
| Session.Step | reactor_game_desktop/main.py:702-725 | a click in bounds is a human move and is otherwise dropped; a bot turn runs the rated bot with a division, the standard bot without |
| Session.StepKeepsInv | reactor_game_desktop/main.py:702-725 | every step keeps the session invariant |
| Session.StepCountsOnePly | reactor_game_desktop/main.py:702-725 | a step adds at most one ply and leaves a finished game unchanged |
| Session.PlayKeepsInv | reactor_game_desktop/main.py:702-725 | any action sequence keeps the invariant and never lowers the count; without a division it never fails; a finished game never changes |
| Session.StepKeepsDivision | reactor_game_desktop/main.py:720-725 | without a division a step never fails and never sets one |
| Session.GamesFromReset | reactor_game_desktop/main.py:79-92 | every game reached from a reset keeps the invariant, has no division, is active exactly below 14 plies, and once over has the winner decided by the cell counts of its board |
| Session.SelectDivision | reactor_game_desktop/main.py:679-693 | the rating menu's choice as written: a fresh game at ply 0 with the human to move |
| Session.SelectedDivisionIsLost | reactor_game_desktop/main.py:679-693 | after choosing a division the game has none and the initial counters, and no action sequence reaches the rating update |
| Session.SelectDivisionKept | reactor_game_desktop/main.py:679-693 | a fresh game keeping the chosen division and the counters, satisfying the invariant |
| Session.RatedPlayNeverFails | reactor_game_desktop/main.py:241-355 | with a division set, any action sequence succeeds and keeps some division |
| Session.KeptRatingsCarryOver | reactor_game_desktop/main.py:314-355 | the counters a rated session updates are the ones the next kept selection starts from |
| Session.FullBoardStalls | reactor_game_desktop/main.py:166-239 | with no empty cell, every click is refused and every bot turn passes, so the game never changes |
| Session.TwelveCrossesStall | reactor_game_desktop/main.py:165-239 | a position satisfying the session invariant, at 12 plies with no empty cell, exists; the game stays active in it forever |

## Left out

- Drawing, fonts, sounds, window handling and the menu screens: the loop only
  matters here through the division selection and the bot-turn dispatch.
- The 800 ms pause before a bot move, and the pixel-to-cell arithmetic of a click.
  Both are event-loop glue. A click is modelled by its cell, and off-board clicks
  are dropped.
- The toss (`start_toss`, `complete_toss`). Its completion function is defined but
  never called, so the first player is always the human set by the reset; the
  toss animation is drawing.
- Floating point: the bots' float scores are replaced by exact integer scores
  with an integer noise term. This keeps every comparison of the sort.
  `random.random` and `random.choice` are the `noise` and `pick` parameters.
- Session.BotMove: states that the chosen cell is among the three best candidates
  and is empty, not the uniform distribution of `random.choice` over them.
- Session.RatingBotMove: same as Session.BotMove for the rated bot's 1, 2 or 3 best
  candidates.
- Session.TwelveCrossesStall: shows only that the stalled position satisfies the
  session invariant, which admits more positions than play reaches. It does not
  replay a game from a reset. A replay would have to evaluate the bots' scores and
  ranking on every intermediate board, so that each bot ply can be shown to be
  among the best three. Whether play can reach a full board before the 14th ply is
  therefore not proved here.

## Findings

| source | as written | input that shows it | evidently intended | confidence | as-written member | corrected member |
|---|---|---|---|---|---|---|
| reactor_game_desktop/main.py:679-693 | the chosen division is stored, then `reset_game()` sets it back to `None` and the counters to 1000/1300/1600 | choose Gold from the rating menu: the new game has no division, so the loop runs the standard bot and the rating update never happens | the new game keeps the chosen division and the counters, so the rated bot plays and ratings persist between games | high; not executed | Session.SelectDivision (Session.SelectedDivisionIsLost) | Session.SelectDivisionKept (Session.RatedPlayNeverFails, Session.KeptRatingsCarryOver) |
