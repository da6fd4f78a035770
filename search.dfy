/**
 * The exhaustive minimax search of the tic-tac-toe player: the game value of
 * a board for the maximizing player (X) and the minimizing player (O), and
 * the rule by which the top level turns those values into a move.
 *
 * The source shuffles every list of moves before it walks it. Here the search
 * methods take the shuffle as a parameter: any function that returns a
 * permutation of the list it is given. The game value is proved not to depend
 * on it.
 */
module Search {
  import opened Rules

  datatype Option<T> = None | Some(value: T)

  /** Every move in ms targets an Empty cell of b. */
  predicate AllEmpty(b: Board, ms: seq<Action>) {
    forall m :: m in ms ==> b[m.row][m.col] == Empty
  }

  /** shuffle returns every list of moves in some order. */
  ghost predicate IsShuffle(shuffle: seq<Action> -> seq<Action>) {
    forall ms :: multiset(shuffle(ms)) == multiset(ms)
  }

  // ---------------------------------------------------------------------------
  // Game values

  /** The value of b when X, the maximizing player, is to move. */
  function MaxScore(b: Board): (v: int)
    ensures -1 <= v <= 1
    decreases Count(b, Empty), 1
  {
    if IsTerminal(b) then Utility(b) else MaxOverMoves(b, EmptyCells(b))
  }

  /** The value of b when O, the minimizing player, is to move. */
  function MinScore(b: Board): (v: int)
    ensures -1 <= v <= 1
    decreases Count(b, Empty), 1
  {
    if IsTerminal(b) then Utility(b) else MinOverMoves(b, EmptyCells(b))
  }

  /** The running maximum of MinScore over the boards left by ms, starting from the sentinel -2. */
  function MaxOverMoves(b: Board, ms: seq<Action>): (v: int)
    requires AllEmpty(b, ms)
    ensures ms == [] ==> v == -2
    ensures ms != [] ==> -1 <= v <= 1
    decreases Count(b, Empty), 0, |ms|
  {
    if ms == [] then -2
    else
      var value := MaxOverMoves(b, ms[..|ms| - 1]);
      var resultingValue := MinScore(Result(b, ms[|ms| - 1]));
      if resultingValue > value then resultingValue else value
  }

  /** The running minimum of MaxScore over the boards left by ms, starting from the sentinel 2. */
  function MinOverMoves(b: Board, ms: seq<Action>): (v: int)
    requires AllEmpty(b, ms)
    ensures ms == [] ==> v == 2
    ensures ms != [] ==> -1 <= v <= 1
    decreases Count(b, Empty), 0, |ms|
  {
    if ms == [] then 2
    else
      var value := MinOverMoves(b, ms[..|ms| - 1]);
      var resultingValue := MaxScore(Result(b, ms[|ms| - 1]));
      if resultingValue < value then resultingValue else value
  }

  /** MaxOverMoves is the largest MinScore of a board left by a move in ms. */
  lemma {:induction false} MaxOverMovesIsMaximum(b: Board, ms: seq<Action>)
    requires AllEmpty(b, ms)
    ensures forall m :: m in ms ==> MinScore(Result(b, m)) <= MaxOverMoves(b, ms)
    ensures ms != [] ==> exists m :: m in ms && MinScore(Result(b, m)) == MaxOverMoves(b, ms)
    decreases |ms|
  {
    if ms != [] {
      var init, last := ms[..|ms| - 1], ms[|ms| - 1];
      assert ms == init + [last];
      MaxOverMovesIsMaximum(b, init);
      var v := MaxOverMoves(b, init);
      var w := MinScore(Result(b, last));
      assert MaxOverMoves(b, ms) == if w > v then w else v;
      forall m | m in ms
        ensures MinScore(Result(b, m)) <= MaxOverMoves(b, ms)
      {
        if m != last {
          assert m in init;
        }
      }
      if init == [] || w > v {
        assert last in ms;
      } else {
        var m :| m in init && MinScore(Result(b, m)) == v;
        assert m in ms;
      }
    }
  }

  /** MinOverMoves is the smallest MaxScore of a board left by a move in ms. */
  lemma {:induction false} MinOverMovesIsMinimum(b: Board, ms: seq<Action>)
    requires AllEmpty(b, ms)
    ensures forall m :: m in ms ==> MinOverMoves(b, ms) <= MaxScore(Result(b, m))
    ensures ms != [] ==> exists m :: m in ms && MaxScore(Result(b, m)) == MinOverMoves(b, ms)
    decreases |ms|
  {
    if ms != [] {
      var init, last := ms[..|ms| - 1], ms[|ms| - 1];
      assert ms == init + [last];
      MinOverMovesIsMinimum(b, init);
      var v := MinOverMoves(b, init);
      var w := MaxScore(Result(b, last));
      assert MinOverMoves(b, ms) == if w < v then w else v;
      forall m | m in ms
        ensures MinOverMoves(b, ms) <= MaxScore(Result(b, m))
      {
        if m != last {
          assert m in init;
        }
      }
      if init == [] || w < v {
        assert last in ms;
      } else {
        var m :| m in init && MaxScore(Result(b, m)) == v;
        assert m in ms;
      }
    }
  }

  /** The running maximum depends only on which moves are walked, not on their order. */
  lemma MaxOverMovesOrderFree(b: Board, ms: seq<Action>, ns: seq<Action>)
    requires AllEmpty(b, ms) && AllEmpty(b, ns)
    requires forall m :: m in ms <==> m in ns
    ensures MaxOverMoves(b, ms) == MaxOverMoves(b, ns)
  {
    MaxOverMovesIsMaximum(b, ms);
    MaxOverMovesIsMaximum(b, ns);
    if ms != [] {
      assert ms[0] in ns;
    }
  }

  /** The running minimum depends only on which moves are walked, not on their order. */
  lemma MinOverMovesOrderFree(b: Board, ms: seq<Action>, ns: seq<Action>)
    requires AllEmpty(b, ms) && AllEmpty(b, ns)
    requires forall m :: m in ms <==> m in ns
    ensures MinOverMoves(b, ms) == MinOverMoves(b, ns)
  {
    MinOverMovesIsMinimum(b, ms);
    MinOverMovesIsMinimum(b, ns);
    if ms != [] {
      assert ms[0] in ns;
    }
  }

  /**
   * Backward induction for the maximizing player: a finished board scores its
   * utility; otherwise some move exists, and the value is the largest
   * MinScore over the boards the moves leave.
   */
  lemma MaxScoreIsBestReply(b: Board)
    ensures IsTerminal(b) ==> MaxScore(b) == Utility(b)
    ensures !IsTerminal(b) ==> EmptyCells(b) != []
    ensures !IsTerminal(b) ==> forall a :: a in EmptyCells(b) ==> MinScore(Result(b, a)) <= MaxScore(b)
    ensures !IsTerminal(b) ==> exists a :: a in EmptyCells(b) && MinScore(Result(b, a)) == MaxScore(b)
  {
    if !IsTerminal(b) {
      MaxOverMovesIsMaximum(b, EmptyCells(b));
    }
  }

  /**
   * Backward induction for the minimizing player: a finished board scores its
   * utility; otherwise some move exists, and the value is the smallest
   * MaxScore over the boards the moves leave.
   */
  lemma MinScoreIsBestReply(b: Board)
    ensures IsTerminal(b) ==> MinScore(b) == Utility(b)
    ensures !IsTerminal(b) ==> EmptyCells(b) != []
    ensures !IsTerminal(b) ==> forall a :: a in EmptyCells(b) ==> MinScore(b) <= MaxScore(Result(b, a))
    ensures !IsTerminal(b) ==> exists a :: a in EmptyCells(b) && MaxScore(Result(b, a)) == MinScore(b)
  {
    if !IsTerminal(b) {
      MinOverMovesIsMinimum(b, EmptyCells(b));
    }
  }

  /** A permutation of the Empty cells holds exactly the Empty cells. */
  lemma ShuffledMoves(b: Board, ms: seq<Action>)
    requires multiset(ms) == multiset(EmptyCells(b))
    ensures forall m :: m in ms <==> m in EmptyCells(b)
    ensures AllEmpty(b, ms)
  {
    forall m
      ensures m in ms <==> m in EmptyCells(b)
    {
      assert m in ms <==> m in multiset(ms);
      assert m in EmptyCells(b) <==> m in multiset(EmptyCells(b));
    }
  }

  /** One more move extends the running maximum by that move's value. */
  lemma MaxOverMovesStep(b: Board, ms: seq<Action>, i: nat)
    requires AllEmpty(b, ms) && i < |ms|
    ensures AllEmpty(b, ms[..i]) && AllEmpty(b, ms[..i + 1])
    ensures MaxOverMoves(b, ms[..i + 1]) ==
      if MinScore(Result(b, ms[i])) > MaxOverMoves(b, ms[..i]) then MinScore(Result(b, ms[i])) else MaxOverMoves(b, ms[..i])
  {
    assert ms[..i + 1][..i] == ms[..i];
    assert forall m :: m in ms[..i + 1] ==> m in ms;
  }

  /** One more move extends the running minimum by that move's value. */
  lemma MinOverMovesStep(b: Board, ms: seq<Action>, i: nat)
    requires AllEmpty(b, ms) && i < |ms|
    ensures AllEmpty(b, ms[..i]) && AllEmpty(b, ms[..i + 1])
    ensures MinOverMoves(b, ms[..i + 1]) ==
      if MaxScore(Result(b, ms[i])) < MinOverMoves(b, ms[..i]) then MaxScore(Result(b, ms[i])) else MinOverMoves(b, ms[..i])
  {
    assert ms[..i + 1][..i] == ms[..i];
    assert forall m :: m in ms[..i + 1] ==> m in ms;
  }

  // ---------------------------------------------------------------------------
  // maxvalue and minvalue

  /**
   * On a finished board, its utility; otherwise walks the shuffled moves and
   * keeps the largest value the minimizing player can reach from the board
   * each leaves.
   */
  method MaxValue(b: Board, shuffle: seq<Action> -> seq<Action>) returns (value: int)
    requires IsShuffle(shuffle)
    ensures value == MaxScore(b)
    decreases Count(b, Empty)
  {
    value := -2;
    var over := Terminal(b);
    if over {
      return Utility(b);
    }
    var possibleMoves := Actions(b);
    possibleMoves := shuffle(possibleMoves);
    ShuffledMoves(b, possibleMoves);
    for i := 0 to |possibleMoves|
      invariant value == MaxOverMoves(b, possibleMoves[..i])
    {
      MaxOverMovesStep(b, possibleMoves, i);
      assert possibleMoves[i] in possibleMoves;
      var resultingBoard := Result(b, possibleMoves[i]);
      var resultingValue := MinValue(resultingBoard, shuffle);
      if resultingValue > value {
        value := resultingValue;
      }
    }
    assert possibleMoves[..|possibleMoves|] == possibleMoves;
    MaxOverMovesOrderFree(b, possibleMoves, EmptyCells(b));
  }

  /**
   * On a finished board, its utility; otherwise walks the shuffled moves and
   * keeps the smallest value the maximizing player can reach from the board
   * each leaves.
   */
  method MinValue(b: Board, shuffle: seq<Action> -> seq<Action>) returns (value: int)
    requires IsShuffle(shuffle)
    ensures value == MinScore(b)
    decreases Count(b, Empty)
  {
    value := 2;
    var over := Terminal(b);
    if over {
      return Utility(b);
    }
    var possibleMoves := Actions(b);
    possibleMoves := shuffle(possibleMoves);
    ShuffledMoves(b, possibleMoves);
    for i := 0 to |possibleMoves|
      invariant value == MinOverMoves(b, possibleMoves[..i])
    {
      MinOverMovesStep(b, possibleMoves, i);
      assert possibleMoves[i] in possibleMoves;
      var resultingBoard := Result(b, possibleMoves[i]);
      var resultingValue := MaxValue(resultingBoard, shuffle);
      if resultingValue < value {
        value := resultingValue;
      }
    }
    assert possibleMoves[..|possibleMoves|] == possibleMoves;
    MinOverMovesOrderFree(b, possibleMoves, EmptyCells(b));
  }

  // ---------------------------------------------------------------------------
  // minimax

  /** The position of the first move in ms that satisfies p; |ms| when none does. */
  function FirstWhere(ms: seq<Action>, p: Action -> bool): (k: nat)
    ensures k <= |ms|
    ensures k < |ms| ==> p(ms[k])
  {
    if ms == [] then 0 else if p(ms[0]) then 0 else 1 + FirstWhere(ms[1..], p)
  }

  /** No move before the position FirstWhere reports satisfies p. */
  lemma {:induction false} FirstWhereSkips(ms: seq<Action>, p: Action -> bool)
    ensures forall j :: 0 <= j < FirstWhere(ms, p) ==> !p(ms[j])
  {
    if ms != [] && !p(ms[0]) {
      FirstWhereSkips(ms[1..], p);
      forall j | 0 < j < FirstWhere(ms, p)
        ensures !p(ms[j])
      {
        assert ms[j] == ms[1..][j - 1];
      }
    }
  }

  /** k is the position FirstWhere reports exactly when no move before k satisfies p and the move at k, if any, does. */
  lemma {:induction false} FirstWhereIs(ms: seq<Action>, p: Action -> bool, k: nat)
    requires k <= |ms|
    requires forall j :: 0 <= j < k ==> !p(ms[j])
    requires k < |ms| ==> p(ms[k])
    ensures FirstWhere(ms, p) == k
  {
    FirstWhereSkips(ms, p);
  }

  /** The move in ms at position k, if there is one. */
  function MoveAt(ms: seq<Action>, k: nat): (r: Option<Action>) {
    if k < |ms| then Some(ms[k]) else None
  }

  /** The value the source computes for the board move m leaves: MinScore after X moves, MaxScore after O moves. */
  function ChildValue(b: Board, m: Action): (r: int) {
    if Turn(b) == X then MinScore(Result(b, m)) else MaxScore(Result(b, m))
  }

  /** The game value of b for the player to move. */
  function RootValue(b: Board): (r: int) {
    if Turn(b) == X then MaxScore(b) else MinScore(b)
  }

  /** v is at least a draw for the player to move on b. */
  predicate NotLosing(b: Board, v: int) {
    if Turn(b) == X then v >= 0 else v <= 0
  }

  function FirstTerminalIndex(b: Board, ms: seq<Action>): (r: nat) {
    FirstWhere(ms, m => IsTerminal(Result(b, m)))
  }

  function FirstNotLosingIndex(b: Board, ms: seq<Action>): (r: nat) {
    FirstWhere(ms, m => NotLosing(b, ChildValue(b, m)))
  }

  /**
   * The move the source's minimax returns when it walks the moves in the
   * order ms: the first that ends the game; failing that, the first whose
   * value is at least a draw for the player to move; failing that, none.
   */
  function MinimaxRule(b: Board, ms: seq<Action>): (r: Option<Action>)
    ensures r.Some? ==> r.value in ms
  {
    var t := FirstTerminalIndex(b, ms);
    if t < |ms| then Some(ms[t]) else MoveAt(ms, FirstNotLosingIndex(b, ms))
  }

  /** The moves of ms paired with their values, as the source's minimax stores them. */
  function Frontier(b: Board, ms: seq<Action>): (f: seq<(Action, int)>)
    ensures |f| == |ms|
  {
    if ms == [] then []
    else Frontier(b, ms[..|ms| - 1]) + [(ms[|ms| - 1], ChildValue(b, ms[|ms| - 1]))]
  }

  /** Entry k of the frontier is move k of ms with its value. */
  lemma {:induction false} FrontierAt(b: Board, ms: seq<Action>, k: nat)
    requires k < |ms|
    ensures Frontier(b, ms)[k] == (ms[k], ChildValue(b, ms[k]))
  {
    if k < |ms| - 1 {
      FrontierAt(b, ms[..|ms| - 1], k);
    }
  }

  /** No move among the first i of ms ends the game. */
  predicate NoFinishBefore(b: Board, ms: seq<Action>, i: nat)
    requires i <= |ms|
  {
    i == 0 || (NoFinishBefore(b, ms, i - 1) && !IsTerminal(Result(b, ms[i - 1])))
  }

  lemma {:induction false} NoFinishBeforeAll(b: Board, ms: seq<Action>, i: nat)
    requires i <= |ms| && NoFinishBefore(b, ms, i)
    ensures forall k :: 0 <= k < i ==> !IsTerminal(Result(b, ms[k]))
  {
    if i > 0 {
      NoFinishBeforeAll(b, ms, i - 1);
    }
  }

  /** One more move that does not end the game extends NoFinishBefore. */
  lemma NoFinishStep(b: Board, ms: seq<Action>, i: nat)
    requires i < |ms| && NoFinishBefore(b, ms, i) && !IsTerminal(Result(b, ms[i]))
    ensures NoFinishBefore(b, ms, i + 1)
  {
  }

  /** Storing move i with the value the source computes for it extends the frontier by one entry. */
  lemma FrontierStep(b: Board, ms: seq<Action>, i: nat, v: int)
    requires i < |ms|
    requires v == (if Turn(b) == X then MinScore(Result(b, ms[i])) else MaxScore(Result(b, ms[i])))
    ensures Frontier(b, ms[..i + 1]) == Frontier(b, ms[..i]) + [(ms[i], v)]
  {
    assert ms[..i + 1][..i] == ms[..i];
  }

  /**
   * Shuffles the moves, and walks them: a move that ends the game is returned
   * at once; the others are stored with their values in the frontier, from
   * which PickFromFrontier then chooses.
   */
  method Minimax(b: Board, shuffle: seq<Action> -> seq<Action>) returns (bestMove: Option<Action>)
    requires IsShuffle(shuffle)
    ensures bestMove == MinimaxRule(b, shuffle(EmptyCells(b)))
  {
    var possibleMoves := Actions(b);
    possibleMoves := shuffle(possibleMoves);
    bestMove := None;
    var frontier: seq<(Action, int)> := [];
    for i := 0 to |possibleMoves|
      invariant NoFinishBefore(b, possibleMoves, i)
      invariant frontier == Frontier(b, possibleMoves[..i])
    {
      var move := possibleMoves[i];
      bestMove := Some(move);
      var resultingBoard := Result(b, move);
      var over := Terminal(resultingBoard);
      if over && Utility(b) >= -1 {
        FinishRule(b, possibleMoves, i);
        return;
      }
      var p := Player(b);
      var v;
      if p == X {
        v := MinValue(resultingBoard, shuffle);
      } else {
        v := MaxValue(resultingBoard, shuffle);
      }
      NoFinishStep(b, possibleMoves, i);
      FrontierStep(b, possibleMoves, i, v);
      frontier := frontier + [(move, v)];
    }
    NoFinishRule(b, possibleMoves);
    assert possibleMoves[..|possibleMoves|] == possibleMoves;
    bestMove := PickFromFrontier(b, possibleMoves, frontier);
  }

  /**
   * The second phase of minimax: the first stored move whose value is at
   * least a draw for the player to move, and none if there is no such move.
   */
  method PickFromFrontier(b: Board, ghost ms: seq<Action>, frontier: seq<(Action, int)>) returns (bestMove: Option<Action>)
    requires frontier == Frontier(b, ms)
    ensures bestMove == MoveAt(ms, FirstNotLosingIndex(b, ms))
  {
    var bestValue := 0;
    for j := 0 to |frontier|
      invariant forall k :: 0 <= k < j ==> !NotLosing(b, frontier[k].1)
    {
      var p := Player(b);
      if p == X {
        if frontier[j].1 >= bestValue {
          FirstNotLosingInFrontier(b, ms, j);
          return Some(frontier[j].0);
        }
      } else {
        if frontier[j].1 <= bestValue {
          FirstNotLosingInFrontier(b, ms, j);
          return Some(frontier[j].0);
        }
      }
    }
    FirstNotLosingInFrontier(b, ms, |ms|);
    return None;
  }

  /** When the move at i is the first in ms that ends the game, the rule returns it. */
  lemma FinishRule(b: Board, ms: seq<Action>, i: nat)
    requires i < |ms| && NoFinishBefore(b, ms, i) && IsTerminal(Result(b, ms[i]))
    ensures MinimaxRule(b, ms) == Some(ms[i])
  {
    NoFinishBeforeAll(b, ms, i);
    FirstTerminalIndexIs(b, ms, i);
  }

  /** When no move of ms ends the game, the rule is decided by the values alone. */
  lemma NoFinishRule(b: Board, ms: seq<Action>)
    requires NoFinishBefore(b, ms, |ms|)
    ensures MinimaxRule(b, ms) == MoveAt(ms, FirstNotLosingIndex(b, ms))
  {
    NoFinishBeforeAll(b, ms, |ms|);
    FirstTerminalIndexIs(b, ms, |ms|);
  }

  /** The first frontier entry that is not losing stands at the first not-losing position of ms. */
  lemma FirstNotLosingInFrontier(b: Board, ms: seq<Action>, j: nat)
    requires j <= |ms|
    requires forall k :: 0 <= k < j ==> !NotLosing(b, Frontier(b, ms)[k].1)
    requires j < |ms| ==> NotLosing(b, Frontier(b, ms)[j].1)
    ensures FirstNotLosingIndex(b, ms) == j
    ensures j < |ms| ==> Frontier(b, ms)[j].0 == ms[j]
  {
    forall k | 0 <= k < j
      ensures !NotLosing(b, ChildValue(b, ms[k]))
    {
      FrontierAt(b, ms, k);
    }
    if j < |ms| {
      FrontierAt(b, ms, j);
    }
    FirstNotLosingIndexIs(b, ms, j);
  }

  /** k is the first position in ms whose move ends the game (|ms| when there is none). */
  lemma FirstTerminalIndexIs(b: Board, ms: seq<Action>, k: nat)
    requires k <= |ms|
    requires forall j :: 0 <= j < k ==> !IsTerminal(Result(b, ms[j]))
    requires k < |ms| ==> IsTerminal(Result(b, ms[k]))
    ensures FirstTerminalIndex(b, ms) == k
  {
    FirstWhereIs(ms, m => IsTerminal(Result(b, m)), k);
  }

  /** k is the first position in ms whose move is at least a draw for the player to move (|ms| when there is none). */
  lemma FirstNotLosingIndexIs(b: Board, ms: seq<Action>, k: nat)
    requires k <= |ms|
    requires forall j :: 0 <= j < k ==> !NotLosing(b, ChildValue(b, ms[j]))
    requires k < |ms| ==> NotLosing(b, ChildValue(b, ms[k]))
    ensures FirstNotLosingIndex(b, ms) == k
  {
    FirstWhereIs(ms, m => NotLosing(b, ChildValue(b, m)), k);
  }

  /** Every move the rule chooses is one of the Empty cells. */
  lemma MinimaxRuleIsLegal(b: Board, ms: seq<Action>)
    requires multiset(ms) == multiset(EmptyCells(b))
    ensures MinimaxRule(b, ms).Some? ==> b[MinimaxRule(b, ms).value.row][MinimaxRule(b, ms).value.col] == Empty
  {
    ShuffledMoves(b, ms);
  }

  /** When some move ends the game, the rule returns the first such move in the order given. */
  lemma MinimaxRuleTakesFirstFinish(b: Board, ms: seq<Action>, k: nat)
    requires k < |ms| && IsTerminal(Result(b, ms[k]))
    requires forall j :: 0 <= j < k ==> !IsTerminal(Result(b, ms[j]))
    ensures MinimaxRule(b, ms) == Some(ms[k])
  {
    FirstTerminalIndexIs(b, ms, k);
  }

  /**
   * When no move ends the game, the rule returns a move exactly when the
   * game value is at least a draw for the player to move.
   */
  lemma MinimaxRuleMovesIffNotLosing(b: Board, ms: seq<Action>)
    requires !IsTerminal(b)
    requires multiset(ms) == multiset(EmptyCells(b))
    requires forall m :: m in ms ==> !IsTerminal(Result(b, m))
    ensures MinimaxRule(b, ms).Some? <==> NotLosing(b, RootValue(b))
  {
    ShuffledMoves(b, ms);
    NoTerminalChild(b, ms);
    FirstWhereFinds(ms, m => NotLosing(b, ChildValue(b, m)));
    NotLosingIffSomeReply(b);
  }

  /** FirstWhere stops inside ms exactly when some move of ms satisfies p. */
  lemma {:induction false} FirstWhereFinds(ms: seq<Action>, p: Action -> bool)
    ensures FirstWhere(ms, p) < |ms| <==> exists m :: m in ms && p(m)
  {
    var k := FirstWhere(ms, p);
    FirstWhereSkips(ms, p);
    if k < |ms| {
      assert ms[k] in ms;
    } else {
      forall m | m in ms
        ensures !p(m)
      {
        var i :| 0 <= i < |ms| && ms[i] == m;
      }
    }
  }

  /** The player to move is not losing exactly when some move leaves a board that is not losing for them. */
  lemma NotLosingIffSomeReply(b: Board)
    requires !IsTerminal(b)
    ensures NotLosing(b, RootValue(b)) <==> exists a :: a in EmptyCells(b) && NotLosing(b, ChildValue(b, a))
  {
    var best := BestReply(b);
    forall a | a in EmptyCells(b)
      ensures if Turn(b) == X then ChildValue(b, a) <= RootValue(b) else RootValue(b) <= ChildValue(b, a)
    {
      ChildValueBounded(b, a);
    }
  }

  /** When no move in ms ends the game, the rule skips its first phase. */
  lemma NoTerminalChild(b: Board, ms: seq<Action>)
    requires forall m :: m in ms ==> !IsTerminal(Result(b, m))
    ensures FirstTerminalIndex(b, ms) == |ms|
  {
    FirstWhereFinds(ms, m => IsTerminal(Result(b, m)));
  }

  /** A move on a board that is not over whose value is the game value. */
  lemma BestReply(b: Board) returns (a: Action)
    requires !IsTerminal(b)
    ensures a in EmptyCells(b) && ChildValue(b, a) == RootValue(b)
  {
    if Turn(b) == X {
      MaxScoreIsBestReply(b);
      a :| a in EmptyCells(b) && MinScore(Result(b, a)) == MaxScore(b);
    } else {
      MinScoreIsBestReply(b);
      a :| a in EmptyCells(b) && MaxScore(Result(b, a)) == MinScore(b);
    }
  }

  /** No move does better for the player to move than the game value. */
  lemma ChildValueBounded(b: Board, a: Action)
    requires !IsTerminal(b) && a in EmptyCells(b)
    ensures if Turn(b) == X then ChildValue(b, a) <= RootValue(b) else RootValue(b) <= ChildValue(b, a)
  {
    if Turn(b) == X {
      MaxScoreIsBestReply(b);
    } else {
      MinScoreIsBestReply(b);
    }
  }

  /** On a board that is not over, the rule returns a move whenever the player to move is not losing. */
  lemma MinimaxRuleMovesUnlessLosing(b: Board, ms: seq<Action>)
    requires !IsTerminal(b)
    requires multiset(ms) == multiset(EmptyCells(b))
    requires NotLosing(b, RootValue(b))
    ensures MinimaxRule(b, ms).Some?
  {
    if FirstTerminalIndex(b, ms) == |ms| {
      FirstWhereSkips(ms, m => IsTerminal(Result(b, m)));
      forall m | m in ms
        ensures !IsTerminal(Result(b, m))
      {
        var i :| 0 <= i < |ms| && ms[i] == m;
      }
      MinimaxRuleMovesIffNotLosing(b, ms);
    }
  }

  // ---------------------------------------------------------------------------
  // A value-optimal choice, for contrast with the source's rule

  function FirstOptimalIndex(b: Board, ms: seq<Action>): (r: nat) {
    FirstWhere(ms, m => ChildValue(b, m) == RootValue(b))
  }

  /** The first move in the order ms that attains the game value for the player to move. */
  function OptimalMove(b: Board, ms: seq<Action>): (r: Option<Action>) {
    MoveAt(ms, FirstOptimalIndex(b, ms))
  }

  /**
   * On a board that is not over, OptimalMove returns a legal move that is as
   * good as any other move for the player to move.
   */
  lemma OptimalMoveAttainsValue(b: Board, ms: seq<Action>)
    requires !IsTerminal(b)
    requires multiset(ms) == multiset(EmptyCells(b))
    ensures OptimalMove(b, ms).Some?
    ensures OptimalMove(b, ms).value in EmptyCells(b)
    ensures ChildValue(b, OptimalMove(b, ms).value) == RootValue(b)
    ensures forall a :: a in EmptyCells(b) ==>
      if Turn(b) == X then ChildValue(b, a) <= ChildValue(b, OptimalMove(b, ms).value)
      else ChildValue(b, OptimalMove(b, ms).value) <= ChildValue(b, a)
  {
    ShuffledMoves(b, ms);
    var a := BestReply(b);
    var i :| 0 <= i < |ms| && ms[i] == a;
    FirstWhereSkips(ms, m => ChildValue(b, m) == RootValue(b));
    assert FirstOptimalIndex(b, ms) <= i;
    forall a' | a' in EmptyCells(b)
      ensures if Turn(b) == X then ChildValue(b, a') <= RootValue(b) else RootValue(b) <= ChildValue(b, a')
    {
      ChildValueBounded(b, a');
    }
  }
}
