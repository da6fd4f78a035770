/**
 * The rules engine of the tic-tac-toe player: the board, whose turn it is,
 * the legal moves, applying a move, the winner, the end of the game and its
 * score.
 *
 * Cells are addressed row by row: cell (row, col) has row-major index
 * 3 * row + col, and counts are defined over the first n cells in that order,
 * which is the order in which the source's nested loops visit the board.
 */
module Rules {

  datatype Cell = Empty | X | O

  /** A row or column number. */
  type Coord = i: int | 0 <= i < 3

  /** Three rows of three cells; the shape never changes. */
  type Board = b: seq<seq<Cell>> | |b| == 3 && |b[0]| == 3 && |b[1]| == 3 && |b[2]| == 3
    witness [[Empty, Empty, Empty], [Empty, Empty, Empty], [Empty, Empty, Empty]]

  /** A move: the cell (row, col) to be filled. */
  datatype Action = Action(row: Coord, col: Coord)

  // ---------------------------------------------------------------------------
  // Row-major addressing and counting

  function Index(a: Action): (r: nat) {
    3 * a.row + a.col
  }

  function ActionAt(k: nat): (r: Action)
    requires k < 9
  {
    Action(k / 3, k % 3)
  }

  function At(b: Board, k: nat): (r: Cell)
    requires k < 9
  {
    b[k / 3][k % 3]
  }

  /** Cell (i, j) is the cell at index 3 * i + j. */
  lemma AtRowCol(b: Board, i: int, j: int)
    requires 0 <= i < 3 && 0 <= j < 3
    ensures 3 * i + j < 9 && At(b, 3 * i + j) == b[i][j] && ActionAt(3 * i + j) == Action(i, j)
  {
  }

  /** The number of cells holding c among the first n in row-major order. */
  function CountUpTo(b: Board, c: Cell, n: nat): (r: nat)
    requires n <= 9
  {
    if n == 0 then 0 else CountUpTo(b, c, n - 1) + (if At(b, n - 1) == c then 1 else 0)
  }

  function Count(b: Board, c: Cell): (r: nat) {
    CountUpTo(b, c, 9)
  }

  /** No cell holds Empty. */
  predicate Full(b: Board) {
    Count(b, Empty) == 0
  }

  lemma {:induction false} CountZero(b: Board, c: Cell, n: nat)
    requires n <= 9
    ensures CountUpTo(b, c, n) == 0 <==> forall k :: 0 <= k < n ==> At(b, k) != c
  {
    if n > 0 {
      CountZero(b, c, n - 1);
    }
  }

  /** Full means that no (row, col) cell is Empty. */
  lemma FullIffNoEmptyCell(b: Board)
    ensures Full(b) <==> forall a: Action :: b[a.row][a.col] != Empty
  {
    CountZero(b, Empty, 9);
    forall a: Action
      ensures b[a.row][a.col] == At(b, Index(a))
    {
      AtRowCol(b, a.row, a.col);
    }
    if !Full(b) {
      var k :| 0 <= k < 9 && At(b, k) == Empty;
      assert b[ActionAt(k).row][ActionAt(k).col] == Empty;
    }
  }

  /** Every cell holds exactly one of the three values. */
  lemma {:induction false} CountsPartition(b: Board, n: nat)
    requires n <= 9
    ensures CountUpTo(b, X, n) + CountUpTo(b, O, n) + CountUpTo(b, Empty, n) == n
  {
    if n > 0 {
      CountsPartition(b, n - 1);
    }
  }

  /** The board b with cell a set to v. */
  function Place(b: Board, a: Action, v: Cell): (r: Board) {
    b[a.row := b[a.row][a.col := v]]
  }

  /** Setting one cell moves that cell's contribution from its old to its new value. */
  lemma {:induction false} CountAfterPlace(b: Board, a: Action, v: Cell, c: Cell, n: nat)
    requires n <= 9
    ensures CountUpTo(Place(b, a, v), c, n) ==
            CountUpTo(b, c, n) +
            (if Index(a) < n then (if v == c then 1 else 0) - (if b[a.row][a.col] == c then 1 else 0) else 0)
  {
    if n > 0 {
      CountAfterPlace(b, a, v, c, n - 1);
      var k := n - 1;
      if k == Index(a) {
        assert ActionAt(k) == a;
      } else {
        assert ActionAt(k) != a;
        assert At(Place(b, a, v), k) == At(b, k);
      }
    }
  }

  // ---------------------------------------------------------------------------
  // initial_state

  /** The empty board. */
  function InitialState(): (b: Board)
    ensures forall i: Coord, j: Coord :: b[i][j] == Empty
    ensures Count(b, Empty) == 9 && Count(b, X) == 0 && Count(b, O) == 0
  {
    var b: Board := [[Empty, Empty, Empty], [Empty, Empty, Empty], [Empty, Empty, Empty]];
    CountZero(b, X, 9);
    CountZero(b, O, 9);
    CountsPartition(b, 9);
    b
  }

  // ---------------------------------------------------------------------------
  // player

  /** The player to move: O when X has more marks than O, X otherwise. */
  function Turn(b: Board): (r: Cell) {
    if Count(b, X) > Count(b, O) then O else X
  }

  /** Counts the marks of each player, row by row, and infers whose turn it is. */
  method Player(b: Board) returns (p: Cell)
    ensures p == Turn(b)
    ensures p != Empty
  {
    var numberOfX, numberOfO := 0, 0;
    for i := 0 to 3
      invariant numberOfX == CountUpTo(b, X, 3 * i) && numberOfO == CountUpTo(b, O, 3 * i)
    {
      for j := 0 to 3
        invariant numberOfX == CountUpTo(b, X, 3 * i + j) && numberOfO == CountUpTo(b, O, 3 * i + j)
      {
        AtRowCol(b, i, j);
        if b[i][j] == X {
          numberOfX := numberOfX + 1;
        } else if b[i][j] == O {
          numberOfO := numberOfO + 1;
        }
      }
    }
    if numberOfX > numberOfO {
      p := O;
    } else {
      p := X;
    }
  }

  /** X moves first. */
  lemma InitialTurn()
    ensures Turn(InitialState()) == X
  {
  }

  // ---------------------------------------------------------------------------
  // actions

  /** The Empty cells among the first n, in row-major order. */
  function EmptyCellsUpTo(b: Board, n: nat): (r: seq<Action>)
    requires n <= 9
    ensures |r| <= n
  {
    if n == 0 then []
    else EmptyCellsUpTo(b, n - 1) + (if At(b, n - 1) == Empty then [ActionAt(n - 1)] else [])
  }

  /** EmptyCellsUpTo(b, n) lists each Empty cell among the first n once, by increasing index. */
  lemma {:induction false} EmptyCellsUpToSpec(b: Board, n: nat)
    requires n <= 9
    ensures var r := EmptyCellsUpTo(b, n);
      && |r| == CountUpTo(b, Empty, n)
      && (forall i :: 0 <= i < |r| ==> Index(r[i]) < n && b[r[i].row][r[i].col] == Empty)
      && (forall i, j :: 0 <= i < j < |r| ==> Index(r[i]) < Index(r[j]))
      && (forall a: Action :: Index(a) < n && b[a.row][a.col] == Empty ==> a in r)
  {
    if n > 0 {
      var k := n - 1;
      EmptyCellsUpToSpec(b, k);
      assert Index(ActionAt(k)) == k;
      assert forall a: Action :: Index(a) == k ==> a == ActionAt(k);
    }
  }

  /** Every Empty cell exactly once, in row-major order. */
  function EmptyCells(b: Board): (r: seq<Action>)
    ensures forall a: Action :: a in r <==> b[a.row][a.col] == Empty
    ensures forall i, j :: 0 <= i < j < |r| ==> Index(r[i]) < Index(r[j])
    ensures |r| == Count(b, Empty) == 9 - Count(b, X) - Count(b, O)
    ensures r == [] <==> Full(b)
  {
    CountsPartition(b, 9);
    EmptyCellsUpToSpec(b, 9);
    EmptyCellsUpTo(b, 9)
  }

  /** Two positions of EmptyCells(b) hold the same action only if they are one position. */
  lemma EmptyCellsDistinct(b: Board, i: int, j: int)
    requires 0 <= i < |EmptyCells(b)| && 0 <= j < |EmptyCells(b)|
    requires EmptyCells(b)[i] == EmptyCells(b)[j]
    ensures i == j
  {
  }

  /** Cell (i, j) is the next one EmptyCellsUpTo looks at after the first 3 * i + j. */
  lemma EmptyCellsStep(b: Board, i: Coord, j: Coord)
    ensures EmptyCellsUpTo(b, 3 * i + j + 1) ==
      EmptyCellsUpTo(b, 3 * i + j) + (if b[i][j] == Empty then [Action(i, j)] else [])
  {
    AtRowCol(b, i, j);
  }

  /** Collects the Empty cells row by row. */
  method Actions(b: Board) returns (possibleActions: seq<Action>)
    ensures possibleActions == EmptyCells(b)
  {
    possibleActions := [];
    for i := 0 to 3
      invariant possibleActions == EmptyCellsUpTo(b, 3 * i)
    {
      for j := 0 to 3
        invariant possibleActions == EmptyCellsUpTo(b, 3 * i + j)
      {
        EmptyCellsStep(b, i, j);
        if b[i][j] == Empty {
          possibleActions := possibleActions + [Action(i, j)];
        }
      }
    }
  }

  // ---------------------------------------------------------------------------
  // result

  /**
   * The board after the player to move fills cell a. Boards are values, so the
   * input is never changed; the source gets the same effect with a deep copy.
   */
  function Result(b: Board, a: Action): (r: Board)
    ensures forall i: Coord, j: Coord ::
      r[i][j] == if i == a.row && j == a.col then Turn(b) else b[i][j]
    ensures b[a.row][a.col] == Empty ==> Count(r, Empty) == Count(b, Empty) - 1
  {
    CountAfterPlace(b, a, Turn(b), Empty, 9);
    Place(b, a, Turn(b))
  }

  /**
   * On a board where X has made as many moves as O or one more, a move on an
   * Empty cell keeps that so and hands the turn to the other player.
   */
  lemma TurnAlternates(b: Board, a: Action)
    requires b[a.row][a.col] == Empty
    requires 0 <= Count(b, X) - Count(b, O) <= 1
    ensures 0 <= Count(Result(b, a), X) - Count(Result(b, a), O) <= 1
    ensures Turn(Result(b, a)) != Turn(b)
  {
    CountAfterPlace(b, a, Turn(b), X, 9);
    CountAfterPlace(b, a, Turn(b), O, 9);
  }

  // ---------------------------------------------------------------------------
  // winner

  /** Three cells in a row, column or diagonal. */
  datatype Line = Line(first: Action, second: Action, third: Action)

  /** The eight lines in the order the source tests them: rows, columns, main diagonal, anti-diagonal. */
  const Lines: seq<Line> := [
    Line(Action(0, 0), Action(0, 1), Action(0, 2)),
    Line(Action(1, 0), Action(1, 1), Action(1, 2)),
    Line(Action(2, 0), Action(2, 1), Action(2, 2)),
    Line(Action(0, 0), Action(1, 0), Action(2, 0)),
    Line(Action(0, 1), Action(1, 1), Action(2, 1)),
    Line(Action(0, 2), Action(1, 2), Action(2, 2)),
    Line(Action(0, 0), Action(1, 1), Action(2, 2)),
    Line(Action(0, 2), Action(1, 1), Action(2, 0))
  ]

  /** All three cells of l hold v. */
  predicate Completes(b: Board, l: Line, v: Cell) {
    b[l.first.row][l.first.col] == v && b[l.second.row][l.second.col] == v && b[l.third.row][l.third.col] == v
  }

  /** The three cells of l are equal, possibly all Empty. */
  predicate Uniform(b: Board, l: Line) {
    Completes(b, l, b[l.first.row][l.first.col])
  }

  /** Some line is entirely v. */
  predicate HasLine(b: Board, v: Cell) {
    exists k :: 0 <= k < |Lines| && Completes(b, Lines[k], v)
  }

  /**
   * The value of the first line, in source order, whose three cells are equal;
   * Empty when there is none. A line of three Empty cells also counts, so a
   * complete line later in the order is then not reported.
   */
  function Winner(b: Board): (r: Cell) {
    if b[0][0] == b[0][1] == b[0][2] then b[0][0]
    else if b[1][0] == b[1][1] == b[1][2] then b[1][0]
    else if b[2][0] == b[2][1] == b[2][2] then b[2][0]
    else if b[0][0] == b[1][0] == b[2][0] then b[0][0]
    else if b[0][1] == b[1][1] == b[2][1] then b[0][1]
    else if b[0][2] == b[1][2] == b[2][2] then b[0][2]
    else if b[0][0] == b[1][1] == b[2][2] then b[0][0]
    else if b[0][2] == b[1][1] == b[2][0] then b[0][2]
    else Empty
  }

  /** Winner reports the shared value of the first uniform line in source order. */
  lemma WinnerIsFirstUniformLine(b: Board, k: nat)
    requires k < |Lines| && Uniform(b, Lines[k])
    requires forall j :: 0 <= j < k ==> !Uniform(b, Lines[j])
    ensures Winner(b) == b[Lines[k].first.row][Lines[k].first.col]
  {
    if k > 0 { assert !Uniform(b, Lines[0]); }
    if k > 1 { assert !Uniform(b, Lines[1]); }
    if k > 2 { assert !Uniform(b, Lines[2]); }
    if k > 3 { assert !Uniform(b, Lines[3]); }
    if k > 4 { assert !Uniform(b, Lines[4]); }
    if k > 5 { assert !Uniform(b, Lines[5]); }
    if k > 6 { assert !Uniform(b, Lines[6]); }
  }

  /** Without a uniform line there is no winner. */
  lemma WinnerWithoutUniformLine(b: Board)
    requires forall k :: 0 <= k < |Lines| ==> !Uniform(b, Lines[k])
    ensures Winner(b) == Empty
  {
    assert !Uniform(b, Lines[0]) && !Uniform(b, Lines[1]) && !Uniform(b, Lines[2]) && !Uniform(b, Lines[3]);
    assert !Uniform(b, Lines[4]) && !Uniform(b, Lines[5]) && !Uniform(b, Lines[6]) && !Uniform(b, Lines[7]);
  }

  /** A reported winner owns a complete line. */
  lemma WinnerHasLine(b: Board)
    ensures Winner(b) != Empty ==> HasLine(b, Winner(b))
  {
    var w := Winner(b);
    if w != Empty {
      if Completes(b, Lines[0], w) {
      } else if Completes(b, Lines[1], w) {
      } else if Completes(b, Lines[2], w) {
      } else if Completes(b, Lines[3], w) {
      } else if Completes(b, Lines[4], w) {
      } else if Completes(b, Lines[5], w) {
      } else if Completes(b, Lines[6], w) {
      } else {
        assert Completes(b, Lines[7], w);
      }
    }
  }

  /**
   * When no row and no column is entirely Empty, Winner finds a player
   * exactly when some line is complete for X or for O.
   */
  lemma WinnerWithoutEmptyRowOrColumn(b: Board)
    requires forall k :: 0 <= k < 6 ==> !Completes(b, Lines[k], Empty)
    ensures Winner(b) != Empty <==> HasLine(b, X) || HasLine(b, O)
  {
    WinnerHasLine(b);
    assert !Completes(b, Lines[0], Empty) && !Completes(b, Lines[1], Empty) && !Completes(b, Lines[2], Empty);
    assert !Completes(b, Lines[3], Empty) && !Completes(b, Lines[4], Empty) && !Completes(b, Lines[5], Empty);
    if HasLine(b, X) || HasLine(b, O) {
      var p := if HasLine(b, X) then X else O;
      var k :| 0 <= k < |Lines| && Completes(b, Lines[k], p);
    }
  }

  // ---------------------------------------------------------------------------
  // terminal and utility

  /** The game is over once a player is reported as winner or no cell is Empty. */
  predicate IsTerminal(b: Board) {
    Winner(b) != Empty || Full(b)
  }

  /** Asks for a winner, then scans the cells row by row for an Empty one. */
  method Terminal(b: Board) returns (over: bool)
    ensures over == IsTerminal(b)
    ensures over <==> Winner(b) != Empty || forall a: Action :: b[a.row][a.col] != Empty
  {
    FullIffNoEmptyCell(b);
    if Winner(b) != Empty {
      return true;
    }
    for i := 0 to 3
      invariant forall a: Action :: Index(a) < 3 * i ==> b[a.row][a.col] != Empty
    {
      for j := 0 to 3
        invariant forall a: Action :: Index(a) < 3 * i + j ==> b[a.row][a.col] != Empty
      {
        if b[i][j] == Empty {
          assert b[Action(i, j).row][Action(i, j).col] == Empty;
          return false;
        }
      }
    }
    return true;
  }

  /** 1 when X is the winner, -1 when O is, 0 otherwise. */
  function Utility(b: Board): (u: int)
    ensures -1 <= u <= 1
    ensures u == 1 <==> Winner(b) == X
    ensures u == -1 <==> Winner(b) == O
    ensures u == 0 <==> Winner(b) == Empty
  {
    var p := Winner(b);
    if p == X then 1 else if p == O then -1 else 0
  }

  /** A full board on which no line is complete is a finished draw. */
  lemma FullBoardWithoutLineIsDraw(b: Board)
    requires Full(b) && !HasLine(b, X) && !HasLine(b, O)
    ensures IsTerminal(b) && Winner(b) == Empty && Utility(b) == 0
  {
    WinnerHasLine(b);
  }

  // ---------------------------------------------------------------------------
  // games

  /** The board reached by playing moves in order from b. */
  function Play(b: Board, moves: seq<Action>): (r: Board)
    decreases |moves|
  {
    if moves == [] then b else Play(Result(b, moves[0]), moves[1..])
  }

  /** Each move fills an Empty cell of a board on which the game is not over. */
  predicate LegalGame(b: Board, moves: seq<Action>)
    decreases |moves|
  {
    moves == [] ||
    (!IsTerminal(b) && b[moves[0].row][moves[0].col] == Empty && LegalGame(Result(b, moves[0]), moves[1..]))
  }

  /** Legal play from a balanced board keeps the mark counts balanced and uses one Empty cell per move. */
  lemma {:induction false} LegalGameKeepsBalance(b: Board, moves: seq<Action>)
    requires 0 <= Count(b, X) - Count(b, O) <= 1
    requires LegalGame(b, moves)
    ensures 0 <= Count(Play(b, moves), X) - Count(Play(b, moves), O) <= 1
    ensures Count(Play(b, moves), Empty) == Count(b, Empty) - |moves|
    decreases |moves|
  {
    if moves != [] {
      TurnAlternates(b, moves[0]);
      LegalGameKeepsBalance(Result(b, moves[0]), moves[1..]);
    }
  }

  /** Result(b, a) is the board r that agrees with b except for Turn(b) at a. */
  lemma ResultIs(b: Board, a: Action, r: Board)
    requires forall i: Coord, j: Coord :: r[i][j] == if i == a.row && j == a.col then Turn(b) else b[i][j]
    ensures Result(b, a) == r
  {
    var s := Result(b, a);
    forall i | 0 <= i < 3
      ensures s[i] == r[i]
    {
      assert forall j | 0 <= j < 3 :: s[i][j] == r[i][j];
    }
  }

  /** One legal move followed by a legal game is a legal game. */
  lemma LegalStep(b: Board, a: Action, rest: seq<Action>)
    requires !IsTerminal(b) && b[a.row][a.col] == Empty && LegalGame(Result(b, a), rest)
    ensures LegalGame(b, [a] + rest) && Play(b, [a] + rest) == Play(Result(b, a), rest)
  {
    assert ([a] + rest)[1..] == rest;
  }

  // The boards of the game in MissedRowWin, one move at a time.

  lemma MissedRowWinMove1()
    ensures !IsTerminal(InitialState())
    ensures Result(InitialState(), Action(1, 0)) == [[Empty, Empty, Empty], [X, Empty, Empty], [Empty, Empty, Empty]]
  {
    ResultIs(InitialState(), Action(1, 0), [[Empty, Empty, Empty], [X, Empty, Empty], [Empty, Empty, Empty]]);
  }

  lemma MissedRowWinMove2()
    ensures var b: Board := [[Empty, Empty, Empty], [X, Empty, Empty], [Empty, Empty, Empty]];
            !IsTerminal(b) && Result(b, Action(2, 0)) == [[Empty, Empty, Empty], [X, Empty, Empty], [O, Empty, Empty]]
  {
    var b: Board := [[Empty, Empty, Empty], [X, Empty, Empty], [Empty, Empty, Empty]];
    assert Count(b, X) == 1 && Count(b, O) == 0 && Count(b, Empty) == 8;
    ResultIs(b, Action(2, 0), [[Empty, Empty, Empty], [X, Empty, Empty], [O, Empty, Empty]]);
  }

  lemma MissedRowWinMove3()
    ensures var b: Board := [[Empty, Empty, Empty], [X, Empty, Empty], [O, Empty, Empty]];
            !IsTerminal(b) && Result(b, Action(1, 1)) == [[Empty, Empty, Empty], [X, X, Empty], [O, Empty, Empty]]
  {
    var b: Board := [[Empty, Empty, Empty], [X, Empty, Empty], [O, Empty, Empty]];
    assert Count(b, X) == 1 && Count(b, O) == 1 && Count(b, Empty) == 7;
    ResultIs(b, Action(1, 1), [[Empty, Empty, Empty], [X, X, Empty], [O, Empty, Empty]]);
  }

  lemma MissedRowWinMove4()
    ensures var b: Board := [[Empty, Empty, Empty], [X, X, Empty], [O, Empty, Empty]];
            !IsTerminal(b) && Result(b, Action(2, 1)) == [[Empty, Empty, Empty], [X, X, Empty], [O, O, Empty]]
  {
    var b: Board := [[Empty, Empty, Empty], [X, X, Empty], [O, Empty, Empty]];
    assert Count(b, X) == 2 && Count(b, O) == 1 && Count(b, Empty) == 6;
    ResultIs(b, Action(2, 1), [[Empty, Empty, Empty], [X, X, Empty], [O, O, Empty]]);
  }

  lemma MissedRowWinMove5()
    ensures var b: Board := [[Empty, Empty, Empty], [X, X, Empty], [O, O, Empty]];
            !IsTerminal(b) && Result(b, Action(1, 2)) == [[Empty, Empty, Empty], [X, X, X], [O, O, Empty]]
  {
    var b: Board := [[Empty, Empty, Empty], [X, X, Empty], [O, O, Empty]];
    assert Count(b, X) == 2 && Count(b, O) == 2 && Count(b, Empty) == 5;
    ResultIs(b, Action(1, 2), [[Empty, Empty, Empty], [X, X, X], [O, O, Empty]]);
  }

  /**
   * An all-Empty top row hides X's complete middle row: after this legal game
   * X holds a whole line, yet Winner reports nobody and the game goes on.
   */
  lemma MissedRowWin()
    ensures var moves := [Action(1, 0), Action(2, 0), Action(1, 1), Action(2, 1), Action(1, 2)];
            var b := Play(InitialState(), moves);
            LegalGame(InitialState(), moves) &&
            b == [[Empty, Empty, Empty], [X, X, X], [O, O, Empty]] &&
            Completes(b, Lines[1], X) && Winner(b) == Empty && !IsTerminal(b) && Utility(b) == 0
  {
    var b5: Board := [[Empty, Empty, Empty], [X, X, X], [O, O, Empty]];
    assert Count(b5, Empty) == 4;
    MissedRowWinMove1();
    MissedRowWinMove2();
    MissedRowWinMove3();
    MissedRowWinMove4();
    MissedRowWinMove5();
    LegalStep([[Empty, Empty, Empty], [X, X, Empty], [O, O, Empty]], Action(1, 2), []);
    LegalStep([[Empty, Empty, Empty], [X, X, Empty], [O, Empty, Empty]], Action(2, 1), [Action(1, 2)]);
    LegalStep([[Empty, Empty, Empty], [X, Empty, Empty], [O, Empty, Empty]], Action(1, 1), [Action(2, 1), Action(1, 2)]);
    LegalStep([[Empty, Empty, Empty], [X, Empty, Empty], [Empty, Empty, Empty]], Action(2, 0), [Action(1, 1), Action(2, 1), Action(1, 2)]);
    LegalStep(InitialState(), Action(1, 0), [Action(2, 0), Action(1, 1), Action(2, 1), Action(1, 2)]);
  }
}
