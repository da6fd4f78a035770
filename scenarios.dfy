// Concrete positions that show how minimax chooses a move.

module Scenarios {
  import opened Rules
  import opened Search

  // ---------------------------------------------------------------------------
  // Values of boards with one or two Empty cells

  /** With a single Empty cell, MaxScore is the utility of the board that filling it leaves. */
  lemma MaxScoreOneMove(g: Board, a: Action, f: Board)
    requires !IsTerminal(g) && g[a.row][a.col] == Empty
    requires forall c: Action :: g[c.row][c.col] == Empty ==> c == a
    requires Result(g, a) == f && IsTerminal(f)
    ensures MaxScore(g) == Utility(f)
  {
    MaxScoreIsBestReply(g);
    MinScoreIsBestReply(f);
  }

  /** With exactly two Empty cells, MinScore is the smaller of the two move values. */
  lemma MinScoreTwoMoves(g: Board, a1: Action, a2: Action)
    requires !IsTerminal(g) && g[a1.row][a1.col] == Empty && g[a2.row][a2.col] == Empty
    requires forall c: Action :: g[c.row][c.col] == Empty ==> c == a1 || c == a2
    ensures MinScore(g) == if MaxScore(Result(g, a1)) <= MaxScore(Result(g, a2)) then MaxScore(Result(g, a1)) else MaxScore(Result(g, a2))
  {
    MinScoreIsBestReply(g);
    assert a1 in EmptyCells(g) && a2 in EmptyCells(g);
    var m :| m in EmptyCells(g) && MaxScore(Result(g, m)) == MinScore(g);
    assert m == a1 || m == a2;
  }

  /** A board with marks counted; the Empty cells are the rest. */
  lemma Counted(b: Board, x: nat, o: nat)
    requires Count(b, X) == x && Count(b, O) == o
    ensures Count(b, Empty) == 9 - x - o
  {
    CountsPartition(b, 9);
  }

  // ---------------------------------------------------------------------------
  // The position [[_, _, X], [X, _, O], [O, X, O]], X to move, and the boards below it

  /** X to move; the Empty cells are (0,0), (0,1) and (1,1). */
  const Start: Board := [[Empty, Empty, X], [X, Empty, O], [O, X, O]]

  /** Start after X takes (0,0), (0,1) or (1,1); O to move. */
  const Corner: Board := [[X, Empty, X], [X, Empty, O], [O, X, O]]
  const Top: Board := [[Empty, X, X], [X, Empty, O], [O, X, O]]
  const Centre: Board := [[Empty, Empty, X], [X, X, O], [O, X, O]]

  /** Those boards after O's reply; X to move into the last Empty cell. */
  const CornerTop: Board := [[X, O, X], [X, Empty, O], [O, X, O]]
  const CornerCentre: Board := [[X, Empty, X], [X, O, O], [O, X, O]]
  const TopCorner: Board := [[O, X, X], [X, Empty, O], [O, X, O]]
  const TopCentre: Board := [[Empty, X, X], [X, O, O], [O, X, O]]
  const CentreCorner: Board := [[O, Empty, X], [X, X, O], [O, X, O]]
  const CentreTop: Board := [[Empty, O, X], [X, X, O], [O, X, O]]

  /** The three ways the game can end: a full board with no line, X's top row, X's middle column. */
  const Drawn: Board := [[X, O, X], [X, X, O], [O, X, O]]
  const TopRow: Board := [[X, X, X], [X, O, O], [O, X, O]]
  const MiddleColumn: Board := [[O, X, X], [X, X, O], [O, X, O]]

  lemma DrawnIsDraw()
    ensures IsTerminal(Drawn) && Utility(Drawn) == 0
  {
    assert Count(Drawn, Empty) == 0;
  }

  lemma TopRowIsWin()
    ensures IsTerminal(TopRow) && Utility(TopRow) == 1
  {
  }

  lemma MiddleColumnIsWin()
    ensures IsTerminal(MiddleColumn) && Utility(MiddleColumn) == 1
  {
  }

  lemma StartCounts()
    ensures Count(Start, X) == 3 && Count(Start, O) == 3 && Count(Start, Empty) == 3
  {
    assert Count(Start, X) == 3;
    assert Count(Start, O) == 3;
    Counted(Start, 3, 3);
  }

  lemma CornerCounts()
    ensures Count(Corner, X) == 4 && Count(Corner, O) == 3 && Count(Corner, Empty) == 2
  {
    assert Count(Corner, X) == 4;
    assert Count(Corner, O) == 3;
    Counted(Corner, 4, 3);
  }

  lemma TopCounts()
    ensures Count(Top, X) == 4 && Count(Top, O) == 3 && Count(Top, Empty) == 2
  {
    assert Count(Top, X) == 4;
    assert Count(Top, O) == 3;
    Counted(Top, 4, 3);
  }

  lemma CentreCounts()
    ensures Count(Centre, X) == 4 && Count(Centre, O) == 3 && Count(Centre, Empty) == 2
  {
    assert Count(Centre, X) == 4;
    assert Count(Centre, O) == 3;
    Counted(Centre, 4, 3);
  }

  lemma CornerTopCounts()
    ensures Count(CornerTop, X) == 4 && Count(CornerTop, O) == 4 && Count(CornerTop, Empty) == 1
  {
    assert Count(CornerTop, X) == 4;
    assert Count(CornerTop, O) == 4;
    Counted(CornerTop, 4, 4);
  }

  lemma CornerCentreCounts()
    ensures Count(CornerCentre, X) == 4 && Count(CornerCentre, O) == 4 && Count(CornerCentre, Empty) == 1
  {
    assert Count(CornerCentre, X) == 4;
    assert Count(CornerCentre, O) == 4;
    Counted(CornerCentre, 4, 4);
  }

  lemma TopCornerCounts()
    ensures Count(TopCorner, X) == 4 && Count(TopCorner, O) == 4 && Count(TopCorner, Empty) == 1
  {
    assert Count(TopCorner, X) == 4;
    assert Count(TopCorner, O) == 4;
    Counted(TopCorner, 4, 4);
  }

  lemma TopCentreCounts()
    ensures Count(TopCentre, X) == 4 && Count(TopCentre, O) == 4 && Count(TopCentre, Empty) == 1
  {
    assert Count(TopCentre, X) == 4;
    assert Count(TopCentre, O) == 4;
    Counted(TopCentre, 4, 4);
  }

  lemma CentreCornerCounts()
    ensures Count(CentreCorner, X) == 4 && Count(CentreCorner, O) == 4 && Count(CentreCorner, Empty) == 1
  {
    assert Count(CentreCorner, X) == 4;
    assert Count(CentreCorner, O) == 4;
    Counted(CentreCorner, 4, 4);
  }

  lemma CentreTopCounts()
    ensures Count(CentreTop, X) == 4 && Count(CentreTop, O) == 4 && Count(CentreTop, Empty) == 1
  {
    assert Count(CentreTop, X) == 4;
    assert Count(CentreTop, O) == 4;
    Counted(CentreTop, 4, 4);
  }

  /** The moves from Start. */
  lemma StartMoves()
    ensures !IsTerminal(Start) && Turn(Start) == X
    ensures Result(Start, Action(0, 0)) == Corner
    ensures Result(Start, Action(0, 1)) == Top
    ensures Result(Start, Action(1, 1)) == Centre
  {
    StartCounts();
    ResultIs(Start, Action(0, 0), Corner);
    ResultIs(Start, Action(0, 1), Top);
    ResultIs(Start, Action(1, 1), Centre);
  }

  /** X moves into the last Empty cell a of a board with four marks each, ending the game with utility u. */
  lemma LastMoveValue(g: Board, a: Action, f: Board, u: int)
    requires Count(g, X) == 4 && Count(g, O) == 4 && Count(g, Empty) == 1 && Winner(g) == Empty
    requires g[a.row][a.col] == Empty
    requires forall c: Action :: g[c.row][c.col] == Empty ==> c == a
    requires forall i: Coord, j: Coord :: f[i][j] == if i == a.row && j == a.col then X else g[i][j]
    requires IsTerminal(f) && Utility(f) == u
    ensures !IsTerminal(g) && MaxScore(g) == u
  {
    ResultIs(g, a, f);
    MaxScoreOneMove(g, a, f);
  }

  /** O answers Corner at (0, 1); X's last move, at (1, 1), leaves Drawn. */
  lemma CornerTopValue()
    ensures Result(Corner, Action(0, 1)) == CornerTop && MaxScore(CornerTop) == 0
  {
    CornerCounts();
    CornerTopCounts();
    ResultIs(Corner, Action(0, 1), CornerTop);
    DrawnIsDraw();
    LastMoveValue(CornerTop, Action(1, 1), Drawn, 0);
  }

  /** O answers Corner at (1, 1); X's last move, at (0, 1), leaves TopRow. */
  lemma CornerCentreValue()
    ensures Result(Corner, Action(1, 1)) == CornerCentre && MaxScore(CornerCentre) == 1
  {
    CornerCounts();
    CornerCentreCounts();
    ResultIs(Corner, Action(1, 1), CornerCentre);
    TopRowIsWin();
    LastMoveValue(CornerCentre, Action(0, 1), TopRow, 1);
  }

  /** O answers Top at (0, 0); X's last move, at (1, 1), leaves MiddleColumn. */
  lemma TopCornerValue()
    ensures Result(Top, Action(0, 0)) == TopCorner && MaxScore(TopCorner) == 1
  {
    TopCounts();
    TopCornerCounts();
    ResultIs(Top, Action(0, 0), TopCorner);
    MiddleColumnIsWin();
    LastMoveValue(TopCorner, Action(1, 1), MiddleColumn, 1);
  }

  /** O answers Top at (1, 1); X's last move, at (0, 0), leaves TopRow. */
  lemma TopCentreValue()
    ensures Result(Top, Action(1, 1)) == TopCentre && MaxScore(TopCentre) == 1
  {
    TopCounts();
    TopCentreCounts();
    ResultIs(Top, Action(1, 1), TopCentre);
    TopRowIsWin();
    LastMoveValue(TopCentre, Action(0, 0), TopRow, 1);
  }

  /** O answers Centre at (0, 0); X's last move, at (0, 1), leaves MiddleColumn. */
  lemma CentreCornerValue()
    ensures Result(Centre, Action(0, 0)) == CentreCorner && MaxScore(CentreCorner) == 1
  {
    CentreCounts();
    CentreCornerCounts();
    ResultIs(Centre, Action(0, 0), CentreCorner);
    MiddleColumnIsWin();
    LastMoveValue(CentreCorner, Action(0, 1), MiddleColumn, 1);
  }

  /** O answers Centre at (0, 1); X's last move, at (0, 0), leaves Drawn. */
  lemma CentreTopValue()
    ensures Result(Centre, Action(0, 1)) == CentreTop && MaxScore(CentreTop) == 0
  {
    CentreCounts();
    CentreTopCounts();
    ResultIs(Centre, Action(0, 1), CentreTop);
    DrawnIsDraw();
    LastMoveValue(CentreTop, Action(0, 0), Drawn, 0);
  }

  /** Corner, Top and Centre are not over, and each has two Empty cells. */
  lemma CornerShape()
    ensures !IsTerminal(Corner)
    ensures forall c: Action :: Corner[c.row][c.col] == Empty ==> c == Action(0, 1) || c == Action(1, 1)
  {
    CornerCounts();
  }

  lemma TopShape()
    ensures !IsTerminal(Top)
    ensures forall c: Action :: Top[c.row][c.col] == Empty ==> c == Action(0, 0) || c == Action(1, 1)
  {
    TopCounts();
  }

  lemma CentreShape()
    ensures !IsTerminal(Centre)
    ensures forall c: Action :: Centre[c.row][c.col] == Empty ==> c == Action(0, 0) || c == Action(0, 1)
  {
    CentreCounts();
  }

  /** After Corner, O blocks the top row and the game is drawn, or takes the centre and X completes the top row. */
  lemma CornerIsDraw()
    ensures !IsTerminal(Corner) && MinScore(Corner) == 0
  {
    CornerShape();
    CornerTopValue();
    CornerCentreValue();
    MinScoreTwoMoves(Corner, Action(0, 1), Action(1, 1));
  }

  /** After Top, O's either move leaves X a line: the middle column or the top row. */
  lemma TopIsWin()
    ensures !IsTerminal(Top) && MinScore(Top) == 1
  {
    TopShape();
    TopCornerValue();
    TopCentreValue();
    MinScoreTwoMoves(Top, Action(0, 0), Action(1, 1));
  }

  /** After Centre, O takes the corner and X completes the middle column, or O blocks it and the game is drawn. */
  lemma CentreIsDraw()
    ensures !IsTerminal(Centre) && MinScore(Centre) == 0
  {
    CentreShape();
    CentreCornerValue();
    CentreTopValue();
    MinScoreTwoMoves(Centre, Action(0, 0), Action(0, 1));
  }

  /** X's move into the corner only draws. */
  lemma CornerMove()
    ensures ChildValue(Start, Action(0, 0)) == 0 && !IsTerminal(Result(Start, Action(0, 0)))
  {
    StartMoves();
    CornerIsDraw();
  }

  /** X's move into the top cell wins. */
  lemma TopMove()
    ensures ChildValue(Start, Action(0, 1)) == 1 && !IsTerminal(Result(Start, Action(0, 1)))
  {
    StartMoves();
    TopIsWin();
  }

  /** X's move into the centre only draws. */
  lemma CentreMove()
    ensures ChildValue(Start, Action(1, 1)) == 0 && !IsTerminal(Result(Start, Action(1, 1)))
  {
    StartMoves();
    CentreIsDraw();
  }

  /** X can force a win from Start. */
  lemma StartIsWin()
    ensures RootValue(Start) == 1
  {
    StartMoves();
    TopIsWin();
    ChildValueBounded(Start, Action(0, 1));
  }

  /** The Empty cells of Start. */
  lemma StartShape()
    ensures forall c: Action :: Start[c.row][c.col] == Empty ==> c == Action(0, 0) || c == Action(0, 1) || c == Action(1, 1)
  {
  }

  /** No legal move on Start ends the game. */
  lemma StartNoFinish(ms: seq<Action>)
    requires AllEmpty(Start, ms)
    ensures forall m :: m in ms ==> !IsTerminal(Result(Start, m))
  {
    forall m | m in ms
      ensures !IsTerminal(Result(Start, m))
    {
      StartShape();
      if m == Action(0, 0) {
        CornerMove();
      } else if m == Action(0, 1) {
        TopMove();
      } else {
        CentreMove();
      }
    }
  }

  /** X is to move on Start. */
  lemma StartTurn()
    ensures Turn(Start) == X
  {
    StartCounts();
  }

  /** Every legal move on Start other than (0,1) only draws. */
  lemma OtherMovesDraw(m: Action)
    requires Start[m.row][m.col] == Empty && m != Action(0, 1)
    ensures ChildValue(Start, m) == 0
  {
    StartShape();
    if m == Action(0, 0) {
      CornerMove();
    } else {
      CentreMove();
    }
  }

  /**
   * On Start X can force a win, by (0,1). Yet no move ends the game at once,
   * and minimax takes the first move that is at least a draw: whatever order
   * of legal moves it walks, unless (0,1) comes first, it returns a move that
   * only draws.
   */
  lemma MinimaxSettlesForDraw(ms: seq<Action>)
    requires AllEmpty(Start, ms)
    requires ms != [] && ms[0] != Action(0, 1)
    ensures RootValue(Start) == 1 && ChildValue(Start, Action(0, 1)) == 1
    ensures MinimaxRule(Start, ms) == Some(ms[0])
    ensures ChildValue(Start, ms[0]) == 0
  {
    StartIsWin();
    TopMove();
    assert ms[0] in ms;
    OtherMovesDraw(ms[0]);
    StartNoFinish(ms);
    StartTurn();
    NoTerminalChild(Start, ms);
    FirstNotLosingIndexIs(Start, ms, 0);
  }

  // ---------------------------------------------------------------------------
  // The position [[X, X, _], [O, O, _], [_, _, _]], X to move

  /** X to move; (0,2) completes X's top row. */
  const Threat: Board := [[X, X, Empty], [O, O, Empty], [Empty, Empty, Empty]]

  lemma ThreatCounts()
    ensures Count(Threat, X) == 2 && Count(Threat, O) == 2 && Count(Threat, Empty) == 5
  {
    assert Count(Threat, X) == 2;
    assert Count(Threat, O) == 2;
    Counted(Threat, 2, 2);
  }

  /** X's winning move ends the game. */
  lemma ThreatWin()
    ensures IsTerminal(Result(Threat, Action(0, 2)))
  {
    ThreatCounts();
    ResultIs(Threat, Action(0, 2), [[X, X, X], [O, O, Empty], [Empty, Empty, Empty]]);
  }

  /** X's other moves complete no line and leave empty cells, so the game goes on. */
  lemma ThreatOthers()
    ensures !IsTerminal(Result(Threat, Action(1, 2)))
    ensures !IsTerminal(Result(Threat, Action(2, 0)))
    ensures !IsTerminal(Result(Threat, Action(2, 1)))
    ensures !IsTerminal(Result(Threat, Action(2, 2)))
  {
    ThreatCounts();
    var r12: Board := [[X, X, Empty], [O, O, X], [Empty, Empty, Empty]];
    var r20: Board := [[X, X, Empty], [O, O, Empty], [X, Empty, Empty]];
    var r21: Board := [[X, X, Empty], [O, O, Empty], [Empty, X, Empty]];
    var r22: Board := [[X, X, Empty], [O, O, Empty], [Empty, Empty, X]];
    ResultIs(Threat, Action(1, 2), r12);
    ResultIs(Threat, Action(2, 0), r20);
    ResultIs(Threat, Action(2, 1), r21);
    ResultIs(Threat, Action(2, 2), r22);
    assert Count(r12, Empty) != 0 && Count(r20, Empty) != 0 && Count(r21, Empty) != 0 && Count(r22, Empty) != 0;
  }

  /** Among the legal moves on Threat, exactly (0,2) ends the game. */
  lemma ThreatFinishes(m: Action)
    requires Threat[m.row][m.col] == Empty
    ensures IsTerminal(Result(Threat, m)) <==> m == Action(0, 2)
  {
    ThreatWin();
    ThreatOthers();
  }

  /** Whatever order of legal moves minimax walks, it takes X's immediate win as soon as the order holds it. */
  lemma MinimaxTakesImmediateWin(ms: seq<Action>)
    requires AllEmpty(Threat, ms) && Action(0, 2) in ms
    ensures MinimaxRule(Threat, ms) == Some(Action(0, 2))
  {
    var k :| 0 <= k < |ms| && ms[k] == Action(0, 2);
    ThreatFinishes(Action(0, 2));
    FirstWhereFinds(ms, m => IsTerminal(Result(Threat, m)));
    var t := FirstTerminalIndex(Threat, ms);
    assert ms[t] in ms;
    ThreatFinishes(ms[t]);
  }

  // ---------------------------------------------------------------------------
  // The position [[_, _, _], [O, O, O], [X, X, X]], X to move

  /** Both players hold a row, but the all-Empty top row hides them, so X is to move. */
  const Hidden: Board := [[Empty, Empty, Empty], [O, O, O], [X, X, X]]

  /** One move on a board with no reported winner and the given mark counts. */
  lemma OpenMove(b: Board, x: nat, o: nat, a: Action, r: Board)
    requires Count(b, X) == x && Count(b, O) == o && Winner(b) == Empty && b[a.row][a.col] == Empty
    requires forall i: Coord, j: Coord :: r[i][j] == if i == a.row && j == a.col then (if x > o then O else X) else b[i][j]
    ensures !IsTerminal(b) && Result(b, a) == r
  {
    FullIffNoEmptyCell(b);
    ResultIs(b, a, r);
  }

  /** The boards on the way to Hidden: X fills the bottom row while O fills the middle one. */
  const Hidden1: Board := [[Empty, Empty, Empty], [Empty, Empty, Empty], [X, Empty, Empty]]
  const Hidden2: Board := [[Empty, Empty, Empty], [O, Empty, Empty], [X, Empty, Empty]]
  const Hidden3: Board := [[Empty, Empty, Empty], [O, Empty, Empty], [X, X, Empty]]
  const Hidden4: Board := [[Empty, Empty, Empty], [O, O, Empty], [X, X, Empty]]
  const Hidden5: Board := [[Empty, Empty, Empty], [O, O, Empty], [X, X, X]]

  lemma HiddenMove1()
    ensures !IsTerminal(InitialState()) && Result(InitialState(), Action(2, 0)) == Hidden1
  {
    OpenMove(InitialState(), 0, 0, Action(2, 0), Hidden1);
  }

  lemma HiddenMove2()
    ensures !IsTerminal(Hidden1) && Result(Hidden1, Action(1, 0)) == Hidden2
  {
    assert Count(Hidden1, X) == 1;
    assert Count(Hidden1, O) == 0;
    OpenMove(Hidden1, 1, 0, Action(1, 0), Hidden2);
  }

  lemma HiddenMove3()
    ensures !IsTerminal(Hidden2) && Result(Hidden2, Action(2, 1)) == Hidden3
  {
    assert Count(Hidden2, X) == 1;
    assert Count(Hidden2, O) == 1;
    OpenMove(Hidden2, 1, 1, Action(2, 1), Hidden3);
  }

  lemma HiddenMove4()
    ensures !IsTerminal(Hidden3) && Result(Hidden3, Action(1, 1)) == Hidden4
  {
    assert Count(Hidden3, X) == 2;
    assert Count(Hidden3, O) == 1;
    OpenMove(Hidden3, 2, 1, Action(1, 1), Hidden4);
  }

  lemma HiddenMove5()
    ensures !IsTerminal(Hidden4) && Result(Hidden4, Action(2, 2)) == Hidden5
  {
    assert Count(Hidden4, X) == 2;
    assert Count(Hidden4, O) == 2;
    OpenMove(Hidden4, 2, 2, Action(2, 2), Hidden5);
  }

  lemma HiddenMove6()
    ensures !IsTerminal(Hidden5) && Result(Hidden5, Action(1, 2)) == Hidden
  {
    assert Count(Hidden5, X) == 3;
    assert Count(Hidden5, O) == 2;
    OpenMove(Hidden5, 3, 2, Action(1, 2), Hidden);
  }

  /** Legal play from the start reaches Hidden. */
  lemma HiddenReached()
    ensures var moves := [Action(2, 0), Action(1, 0), Action(2, 1), Action(1, 1), Action(2, 2), Action(1, 2)];
            LegalGame(InitialState(), moves) && Play(InitialState(), moves) == Hidden
  {
    HiddenMove1();
    HiddenMove2();
    HiddenMove3();
    HiddenMove4();
    HiddenMove5();
    HiddenMove6();
    LegalStep(Hidden5, Action(1, 2), []);
    LegalStep(Hidden4, Action(2, 2), [Action(1, 2)]);
    LegalStep(Hidden3, Action(1, 1), [Action(2, 2), Action(1, 2)]);
    LegalStep(Hidden2, Action(2, 1), [Action(1, 1), Action(2, 2), Action(1, 2)]);
    LegalStep(Hidden1, Action(1, 0), [Action(2, 1), Action(1, 1), Action(2, 2), Action(1, 2)]);
    LegalStep(InitialState(), Action(2, 0), [Action(1, 0), Action(2, 1), Action(1, 1), Action(2, 2), Action(1, 2)]);
  }

  /** Hidden is not over, X is to move, both rows are complete, and the Empty cells are the top row. */
  lemma HiddenCounts()
    ensures Count(Hidden, X) == 3 && Count(Hidden, O) == 3
  {
    assert Count(Hidden, X) == 3;
    assert Count(Hidden, O) == 3;
  }

  lemma HiddenShape()
    ensures !IsTerminal(Hidden) && Turn(Hidden) == X
    ensures Completes(Hidden, Lines[1], O) && Completes(Hidden, Lines[2], X)
    ensures forall c: Action :: Hidden[c.row][c.col] == Empty ==> c.row == 0
  {
    HiddenCounts();
    FullIffNoEmptyCell(Hidden);
  }

  /** Each of X's moves breaks the top row, so Winner then reports O's middle row and X has lost. */
  lemma HiddenMoveLoses(c: Action)
    requires Hidden[c.row][c.col] == Empty
    ensures IsTerminal(Result(Hidden, c)) && Utility(Result(Hidden, c)) == -1
    ensures ChildValue(Hidden, c) == -1
  {
    HiddenShape();
    var r := Result(Hidden, c);
    assert r[1][0] == O && r[1][1] == O && r[1][2] == O;
    assert r[0][c.col] == X && r[0][(c.col + 1) % 3] == Empty;
    MinScoreIsBestReply(r);
  }

  /** X is lost on Hidden. */
  lemma HiddenIsLost()
    ensures RootValue(Hidden) == -1 && !NotLosing(Hidden, RootValue(Hidden))
  {
    HiddenShape();
    var a := BestReply(Hidden);
    HiddenMoveLoses(a);
  }

  /**
   * On Hidden every move ends the game, so minimax returns the first move it
   * visits, although that move loses.
   */
  lemma MinimaxPlaysLosingMove(ms: seq<Action>)
    requires AllEmpty(Hidden, ms) && ms != []
    ensures RootValue(Hidden) == -1
    ensures MinimaxRule(Hidden, ms) == Some(ms[0]) && ChildValue(Hidden, ms[0]) == -1
  {
    HiddenIsLost();
    assert ms[0] in ms;
    HiddenMoveLoses(ms[0]);
    MinimaxRuleTakesFirstFinish(Hidden, ms, 0);
  }
}
