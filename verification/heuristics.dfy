/**
  The bot's move evaluation: the 10/4/1 neighbour score shared by both bots, the
  early-game centre bonus and the threat term of the standard bot, the difficulty
  weighting of the rated bot, and the candidate list they rank.

  Scores are integers. The game adds a floating-point random term to each
  candidate; here that term is an explicit `noise` oracle, one integer per cell
  (every candidate is a distinct cell), measured in units of 1/Unit of a heuristic
  point:
  - standard bot: value = base + bonus + threat + (random() - 0.5) * 2, so the
    score is Unit * (base + bonus + threat) + noise with noise in [-Unit, Unit);
  - rated bot: value = base * f + (random() - 0.5) * 2 / f with f = F / 10; scaled
    by 10 * F (which keeps the order) this is F * F * base + a term in [-100, 100),
    so the score is Unit * F * F * base + noise with noise in [-100 * Unit, 100 * Unit).
 */
module Heuristics {
  import opened Grid
  import opened Results
  import opened Rating
  import opened Ranking

  /** What one neighbour (nr, nc) adds to a candidate's base value: 10 for a human
      cell, 4 for an empty cell, 1 for any other owner, nothing off the board. */
  function NeighbourWeight(b: Matrix<int>, nr: int, nc: int): int
    requires IsSquare(b)
  {
    if !InBounds(nr, nc) then 0
    else if b[nr][nc] == HumanCell then 10
    else if b[nr][nc] == Empty then 4
    else 1
  }

  /** 1 when (nr, nc) is on the board and holds v, else 0. */
  function Holds(b: Matrix<int>, nr: int, nc: int, v: int): nat
    requires IsSquare(b)
  {
    if InBounds(nr, nc) && b[nr][nc] == v then 1 else 0
  }

  /** How many orthogonal neighbours of (r, c) hold v. */
  function NeighbourCount(b: Matrix<int>, r: int, c: int, v: int): nat
    requires IsSquare(b)
  {
    Holds(b, r - 1, c, v) + Holds(b, r + 1, c, v) + Holds(b, r, c - 1, v) + Holds(b, r, c + 1, v)
  }

  /** How many orthogonal neighbours of (r, c) are on the board. */
  function Degree(r: int, c: int): nat {
    (if InBounds(r - 1, c) then 1 else 0) + (if InBounds(r + 1, c) then 1 else 0)
    + (if InBounds(r, c - 1) then 1 else 0) + (if InBounds(r, c + 1) then 1 else 0)
  }

  /** The neighbour score both bots give a candidate cell. */
  function BaseValue(b: Matrix<int>, r: int, c: int): (v: int)
    requires IsSquare(b)
    ensures 0 <= v <= 40
    ensures Degree(r, c) <= v <= 10 * Degree(r, c)
    ensures ValidCells(b) ==>
      v == 10 * NeighbourCount(b, r, c, HumanCell) + 4 * NeighbourCount(b, r, c, Empty)
           + NeighbourCount(b, r, c, BotCell)
  {
    NeighbourWeight(b, r - 1, c) + NeighbourWeight(b, r + 1, c)
    + NeighbourWeight(b, r, c - 1) + NeighbourWeight(b, r, c + 1)
  }

  /** The standard bot's early-game preference for the central 3x3 block. */
  function CenterBonus(moveCount: int, r: int, c: int): (bonus: int)
    ensures bonus == 0 || bonus == 4
    ensures bonus == 4 <==> moveCount < 5 && 2 <= r <= 4 && 2 <= c <= 4
  {
    if moveCount < 5 && 2 <= r <= 4 && 2 <= c <= 4 then 4 else 0
  }

  /** The source's "future damage" of a human cell: how many bot cells touch it. */
  function FutureDamage(b: Matrix<int>, nr: int, nc: int): nat
    requires IsSquare(b)
  {
    NeighbourCount(b, nr, nc, BotCell)
  }

  function Max(a: int, b: int): int {
    if a >= b then a else b
  }

  /** One step of the threat scan: a human neighbour raises the running maximum. */
  function ThreatStep(b: Matrix<int>, nr: int, nc: int, t: int): int
    requires IsSquare(b)
  {
    if InBounds(nr, nc) && b[nr][nc] == HumanCell then Max(t, 5 * FutureDamage(b, nr, nc)) else t
  }

  /** A human neighbour of (r, c), the kind of cell the threat term looks at. */
  predicate HumanNeighbour(b: Matrix<int>, r: int, c: int, nr: int, nc: int)
    requires IsSquare(b)
  {
    Adjacent(r, c, nr, nc) && InBounds(nr, nc) && b[nr][nc] == HumanCell
  }

  /** The standard bot's threat term: five times the largest future damage among the
      human neighbours of (r, c), the maximum and not the sum; 0 without any. */
  function Threat(b: Matrix<int>, r: int, c: int): (t: int)
    requires IsSquare(b)
    ensures 0 <= t <= 20
    ensures forall nr, nc :: HumanNeighbour(b, r, c, nr, nc) ==> 5 * FutureDamage(b, nr, nc) <= t
    ensures t > 0 ==> exists nr, nc :: HumanNeighbour(b, r, c, nr, nc) && t == 5 * FutureDamage(b, nr, nc)
  {
    var t := ThreatStep(b, r - 1, c, 0);
    var t := ThreatStep(b, r + 1, c, t);
    var t := ThreatStep(b, r, c - 1, t);
    ThreatStep(b, r, c + 1, t)
  }

  /** Which bot is choosing: the standard bot (which knows the move count for its
      early-game bonus) or the rated bot (which knows the division, if any). */
  datatype Policy = Standard(moveCount: int) | Rated(division: Option<Division>)

  /** The rated bot's difficulty factor in tenths; 1.0 when no division is set. */
  function Tenths(d: Option<Division>): int {
    match d
    case Some(Silver) => 8
    case Some(Gold) => 10
    case Some(Platinum) => 13
    case None => 10
  }

  /** Resolution of the noise oracle: integer steps per heuristic point. */
  const Unit: int := 1000

  /** The integer heuristic a policy ranks by, before noise. */
  function Heuristic(p: Policy, b: Matrix<int>, r: int, c: int): (h: int)
    requires IsSquare(b)
    ensures p.Standard? ==> 0 <= h <= 64
    ensures p.Rated? ==> 0 <= h <= 40
  {
    match p
    case Standard(moveCount) => BaseValue(b, r, c) + CenterBonus(moveCount, r, c) + Threat(b, r, c)
    case Rated(_) => BaseValue(b, r, c)
  }

  /** Noise steps per heuristic point. */
  function Weight(p: Policy): int {
    match p
    case Standard(_) => Unit
    case Rated(d) => Unit * Tenths(d) * Tenths(d)
  }

  /** The noise oracle ranges over [-NoiseRadius, NoiseRadius). */
  function NoiseRadius(p: Policy): int {
    match p
    case Standard(_) => Unit
    case Rated(_) => 100 * Unit
  }

  predicate NoiseFits(p: Policy, noise: (int, int) -> int, r: int, c: int) {
    -NoiseRadius(p) <= noise(r, c) < NoiseRadius(p)
  }

  /** The score of candidate cell (r, c). */
  function Score(p: Policy, b: Matrix<int>, r: int, c: int, noise: (int, int) -> int): int
    requires IsSquare(b)
  {
    Weight(p) * Heuristic(p, b, r, c) + noise(r, c)
  }

  /** The heuristic gap beyond which noise can no longer reorder two candidates: with
      difficulty factor f the gap must exceed 2 / f^2 heuristic points, and with the
      standard bot 1 point. */
  function Margin(p: Policy): int {
    if p == Rated(Some(Silver)) then 4 else 2
  }

  /** Noise only breaks near-ties: a heuristic lead of Margin(p) always wins. */
  lemma MarginDecides(p: Policy, b: Matrix<int>, r1: int, c1: int, r2: int, c2: int, noise: (int, int) -> int)
    requires IsSquare(b)
    requires NoiseFits(p, noise, r1, c1) && NoiseFits(p, noise, r2, c2)
    requires Heuristic(p, b, r1, c1) >= Heuristic(p, b, r2, c2) + Margin(p)
    ensures Score(p, b, r1, c1, noise) > Score(p, b, r2, c2, noise)
  {
    var h1, h2 := Heuristic(p, b, r1, c1), Heuristic(p, b, r2, c2);
    var w, m, rad := Weight(p), Margin(p), NoiseRadius(p);
    assert w * m >= 2 * rad by {
      match p
      case Standard(_) =>
      case Rated(d) => assert w == Unit * Tenths(d) * Tenths(d);
    }
    ScaledLead(w, h1, h2, m);
    assert Score(p, b, r1, c1, noise) == w * h1 + noise(r1, c1);
    assert Score(p, b, r2, c2, noise) == w * h2 + noise(r2, c2);
  }

  /** Multiplying a lead of at least m by a positive weight w gives a lead of at least w * m. */
  lemma ScaledLead(w: int, h1: int, h2: int, m: int)
    requires w > 0 && h1 >= h2 + m
    ensures w * h1 >= w * h2 + w * m
  {
    assert w * h1 - w * h2 == w * (h1 - h2);
    assert w * (h1 - h2) >= w * m;
  }

  /** The number of candidate cells the bot picks among: 3 for the standard bot;
      1 for Platinum, 2 for Gold and 3 otherwise for the rated bot. */
  function TopCount(p: Policy): nat {
    match p
    case Standard(_) => 3
    case Rated(Some(Platinum)) => 1
    case Rated(Some(Gold)) => 2
    case Rated(_) => 3
  }

  // ---------------------------------------------------------------------------
  // Candidates

  predicate RowMajorBefore(a: (int, int), b: (int, int)) {
    a.0 < b.0 || (a.0 == b.0 && a.1 < b.1)
  }

  /** The empty cells of row r from column c on, left to right. */
  function RowEmpties(b: Matrix<int>, r: int, c: int): (cells: seq<(int, int)>)
    requires IsSquare(b) && 0 <= r < Size && 0 <= c <= Size
    decreases Size - c
    ensures forall i :: 0 <= i < |cells| ==>
      cells[i].0 == r && c <= cells[i].1 < Size && b[r][cells[i].1] == Empty
    ensures forall j :: c <= j && EmptyAt(b, r, j) ==> (r, j) in cells
    ensures forall i, j :: 0 <= i < j < |cells| ==> cells[i].1 < cells[j].1
  {
    if c == Size then []
    else (if b[r][c] == Empty then [(r, c)] else []) + RowEmpties(b, r, c + 1)
  }

  /** The empty cells of rows r.. in row-major order. */
  function EmptiesFrom(b: Matrix<int>, r: int): (cells: seq<(int, int)>)
    requires IsSquare(b) && 0 <= r <= Size
    decreases Size - r
    ensures forall i :: 0 <= i < |cells| ==>
      r <= cells[i].0 && InBounds(cells[i].0, cells[i].1) && b[cells[i].0][cells[i].1] == Empty
    ensures forall i, j :: r <= i && EmptyAt(b, i, j) ==> (i, j) in cells
    ensures forall i, j :: 0 <= i < j < |cells| ==> RowMajorBefore(cells[i], cells[j])
  {
    if r == Size then []
    else
      var row, rest := RowEmpties(b, r, 0), EmptiesFrom(b, r + 1);
      RowThenRest(b, r, row, rest);
      row + rest
  }

  /** The empty cells of row r followed by those of the rows below keep the three
      properties of EmptiesFrom. */
  lemma RowThenRest(b: Matrix<int>, r: int, row: seq<(int, int)>, rest: seq<(int, int)>)
    requires IsSquare(b) && 0 <= r < Size
    requires forall i :: 0 <= i < |row| ==>
      row[i].0 == r && 0 <= row[i].1 < Size && b[r][row[i].1] == Empty
    requires forall j :: 0 <= j && EmptyAt(b, r, j) ==> (r, j) in row
    requires forall i, j :: 0 <= i < j < |row| ==> row[i].1 < row[j].1
    requires forall i :: 0 <= i < |rest| ==>
      r + 1 <= rest[i].0 && InBounds(rest[i].0, rest[i].1) && b[rest[i].0][rest[i].1] == Empty
    requires forall i, j :: r + 1 <= i && EmptyAt(b, i, j) ==> (i, j) in rest
    requires forall i, j :: 0 <= i < j < |rest| ==> RowMajorBefore(rest[i], rest[j])
    ensures var cells := row + rest;
      && (forall i :: 0 <= i < |cells| ==>
            r <= cells[i].0 && InBounds(cells[i].0, cells[i].1) && b[cells[i].0][cells[i].1] == Empty)
      && (forall i, j :: r <= i && EmptyAt(b, i, j) ==> (i, j) in cells)
      && (forall i, j :: 0 <= i < j < |cells| ==> RowMajorBefore(cells[i], cells[j]))
  {
    var cells := row + rest;
    forall i | 0 <= i < |cells|
      ensures r <= cells[i].0 && InBounds(cells[i].0, cells[i].1) && b[cells[i].0][cells[i].1] == Empty
    {
      if i >= |row| {
        assert cells[i] == rest[i - |row|];
      }
    }
    forall i, j | r <= i && EmptyAt(b, i, j)
      ensures (i, j) in cells
    {
      if i == r {
        assert (i, j) in row;
      } else {
        assert (i, j) in rest;
      }
    }
    forall i, j | 0 <= i < j < |cells|
      ensures RowMajorBefore(cells[i], cells[j])
    {
      if j < |row| {
        assert cells[i] == row[i] && cells[j] == row[j];
      } else if i >= |row| {
        assert cells[i] == rest[i - |row|] && cells[j] == rest[j - |row|];
      } else {
        assert cells[i] == row[i] && cells[j] == rest[j - |row|];
      }
    }
  }

  /** The empty cells of the board in row-major order. */
  function EmptyCells(b: Matrix<int>): (cells: seq<(int, int)>)
    requires IsSquare(b)
    ensures forall i :: 0 <= i < |cells| ==> EmptyAt(b, cells[i].0, cells[i].1)
    ensures forall i, j :: EmptyAt(b, i, j) ==> (i, j) in cells
    ensures forall i, j :: 0 <= i < j < |cells| ==> RowMajorBefore(cells[i], cells[j])
  {
    EmptiesFrom(b, 0)
  }

  /** Some cell of the board is empty. */
  ghost predicate HasEmptyCell(b: Matrix<int>)
    requires IsSquare(b)
  {
    exists r, c :: EmptyAt(b, r, c)
  }

  lemma EmptyCellsExist(b: Matrix<int>)
    requires IsSquare(b)
    ensures |EmptyCells(b)| > 0 <==> HasEmptyCell(b)
  {
    ListedEmptiesExist(b, EmptyCells(b));
  }

  /** A sound and complete list of the empty cells is non-empty exactly when some
      cell is empty. */
  lemma ListedEmptiesExist(b: Matrix<int>, cells: seq<(int, int)>)
    requires IsSquare(b)
    requires forall i :: 0 <= i < |cells| ==> EmptyAt(b, cells[i].0, cells[i].1)
    requires forall i, j :: EmptyAt(b, i, j) ==> (i, j) in cells
    ensures |cells| > 0 <==> HasEmptyCell(b)
  {
    if HasEmptyCell(b) {
      var r, c :| EmptyAt(b, r, c);
      assert (r, c) in cells;
    }
    if |cells| > 0 {
      assert EmptyAt(b, cells[0].0, cells[0].1);
    }
  }

  /** Pairs each cell with its value. */
  function ScoreCells(cells: seq<(int, int)>, value: (int, int) -> int): (cands: seq<Candidate>)
    ensures |cands| == |cells|
    ensures forall i :: 0 <= i < |cells| ==>
      cands[i] == Candidate(cells[i].0, cells[i].1, value(cells[i].0, cells[i].1))
  {
    if |cells| == 0 then []
    else
      var (r, c) := cells[0];
      [Candidate(r, c, value(r, c))] + ScoreCells(cells[1..], value)
  }

  lemma ScoredCellListed(cells: seq<(int, int)>, value: (int, int) -> int, r: int, c: int)
    requires (r, c) in cells
    ensures Candidate(r, c, value(r, c)) in ScoreCells(cells, value)
  {
    var i :| 0 <= i < |cells| && cells[i] == (r, c);
    assert ScoreCells(cells, value)[i] == Candidate(r, c, value(r, c));
  }

  /** Every scored empty cell is an empty cell with its value. */
  lemma ScoredEmptiesSound(b: Matrix<int>, value: (int, int) -> int)
    requires IsSquare(b)
    ensures var cands := ScoreCells(EmptyCells(b), value);
      forall i :: 0 <= i < |cands| ==>
        InBounds(cands[i].r, cands[i].c) && b[cands[i].r][cands[i].c] == Empty && cands[i].value == value(cands[i].r, cands[i].c)
  {
    var cells := EmptyCells(b);
    var cands := ScoreCells(cells, value);
    forall i | 0 <= i < |cands|
      ensures InBounds(cands[i].r, cands[i].c) && b[cands[i].r][cands[i].c] == Empty && cands[i].value == value(cands[i].r, cands[i].c)
    {
      assert cands[i] == Candidate(cells[i].0, cells[i].1, value(cells[i].0, cells[i].1));
    }
  }

  /** Every empty cell is scored. */
  lemma ScoredEmptiesComplete(b: Matrix<int>, value: (int, int) -> int)
    requires IsSquare(b)
    ensures forall r, c :: EmptyAt(b, r, c) ==> Candidate(r, c, value(r, c)) in ScoreCells(EmptyCells(b), value)
  {
    forall r, c | EmptyAt(b, r, c)
      ensures Candidate(r, c, value(r, c)) in ScoreCells(EmptyCells(b), value)
    {
      ScoredCellListed(EmptyCells(b), value, r, c);
    }
  }

  /** The bot's candidate list: one entry per empty cell, in row-major order, with
      that cell's value. */
  function Candidates(b: Matrix<int>, value: (int, int) -> int): (cands: seq<Candidate>)
    requires IsSquare(b)
    ensures forall i :: 0 <= i < |cands| ==>
      InBounds(cands[i].r, cands[i].c) && b[cands[i].r][cands[i].c] == Empty && cands[i].value == value(cands[i].r, cands[i].c)
    ensures forall r, c :: EmptyAt(b, r, c) ==> Candidate(r, c, value(r, c)) in cands
  {
    ScoredEmptiesSound(b, value);
    ScoredEmptiesComplete(b, value);
    ScoreCells(EmptyCells(b), value)
  }

  /** The bot has a candidate exactly when some cell is empty. */
  lemma CandidatesExist(b: Matrix<int>, value: (int, int) -> int)
    requires IsSquare(b)
    ensures |Candidates(b, value)| > 0 <==> HasEmptyCell(b)
  {
    EmptyCellsExist(b);
  }

  /** The policy's score of every cell, as one function. */
  function ScoreOf(p: Policy, b: Matrix<int>, noise: (int, int) -> int): (value: (int, int) -> int)
    requires IsSquare(b)
    ensures forall r, c :: value(r, c) == Score(p, b, r, c, noise)
  {
    (r, c) => Score(p, b, r, c, noise)
  }

  /** The cell the bot plays: the candidates are ranked best first, cut to the first
      k, and the entry at `pick` (the random choice) is taken. With k = 1 this is
      always the best candidate. */
  function ChooseMove(b: Matrix<int>, value: (int, int) -> int, k: nat, pick: nat): (m: Candidate)
    requires IsSquare(b) && k > 0 && HasEmptyCell(b)
    ensures EmptyAt(b, m.r, m.c)
    ensures m.value == value(m.r, m.c)
    ensures |Outranking(Candidates(b, value), m)| < k
    ensures k == 1 ==> forall r, c :: EmptyAt(b, r, c) ==> value(r, c) <= m.value
  {
    var cands := Candidates(b, value);
    CandidatesExist(b, value);
    var m := Choose(cands, k, pick);
    assert k == 1 ==> forall r, c :: EmptyAt(b, r, c) ==> value(r, c) <= m.value by {
      if k == 1 {
        forall r, c | EmptyAt(b, r, c)
          ensures value(r, c) <= m.value
        {
          assert Candidate(r, c, value(r, c)) in cands;
        }
      }
    }
    m
  }

  /** When one empty cell leads every other by the policy's margin, a bot that takes
      only the best candidate (Platinum) plays that cell whatever the noise. */
  lemma ClearBestIsChosen(p: Policy, b: Matrix<int>, noise: (int, int) -> int, pick: nat, r: int, c: int)
    requires IsSquare(b) && TopCount(p) == 1
    requires EmptyAt(b, r, c)
    requires forall i, j :: InBounds(i, j) ==> NoiseFits(p, noise, i, j)
    requires forall i, j :: EmptyAt(b, i, j) && (i, j) != (r, c) ==>
      Heuristic(p, b, r, c) >= Heuristic(p, b, i, j) + Margin(p)
    ensures HasEmptyCell(b)
    ensures var m := ChooseMove(b, ScoreOf(p, b, noise), TopCount(p), pick); m.r == r && m.c == c
  {
    var m := ChooseMove(b, ScoreOf(p, b, noise), TopCount(p), pick);
    if (m.r, m.c) != (r, c) {
      MarginDecides(p, b, r, c, m.r, m.c, noise);
      assert false;
    }
  }
}
