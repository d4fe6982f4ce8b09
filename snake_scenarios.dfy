/** The engine's documented example games, stated for every draw of the
    random source the engine does not use and proved from the general lemmas. */
module SnakeScenarios {
  import opened Options
  import opened SnakeLogic

  /** A head that stays on the board and off the body it must avoid is the
      new head, whether or not it eats. */
  lemma StepsTo(s: GameState, u: real, head: Pos)
    requires 0.0 <= u < 1.0 && Valid(s) && !s.gameOver && !s.paused
    requires head == NextHeadPosition(s.snake[0], ResolvedDirection(s))
    requires !OutOfBounds(head, s.gridSize) && head !in s.snake
    ensures |NextState(s, u).snake| > 0 && NextState(s, u).snake[0] == head
  {
    assert head !in s.snake[..|s.snake| - 1];
    if Eats(s, head) {
      AdvanceEats(s, u);
    } else {
      AdvanceMoves(s, u);
    }
  }

  /** On an 8 x 8 board the first tick moves the head one cell to the right. */
  lemma FirstTickMovesRight(u: real, v: real)
    requires 0.0 <= u < 1.0 && 0.0 <= v < 1.0
    ensures var s := InitialState(Some(8), u);
      var r := NextState(s, v);
      |r.snake| > 0 && r.snake[0] == Pos(s.snake[0].x + 1, s.snake[0].y)
  {
    var s := InitialState(Some(8), u);
    InitialStateValidIff(Some(8), u);
    assert s.snake == [Pos(4, 4), Pos(3, 4), Pos(2, 4)];
    StepsTo(s, v, Pos(5, 4));
  }

  /** Turning up on a fresh 8 x 8 board moves the head to row 3. */
  lemma TurnUpMovesToRowThree(u: real, v: real)
    requires 0.0 <= u < 1.0 && 0.0 <= v < 1.0
    ensures var r := NextState(WithDirection(InitialState(Some(8), u), "up"), v);
      |r.snake| > 0 && r.snake[0] == Pos(4, 3)
  {
    var s := InitialState(Some(8), u);
    InitialStateValidIff(Some(8), u);
    assert s.snake == [Pos(4, 4), Pos(3, 4), Pos(2, 4)];
    assert DirectionNamed("up") == Some(Up);
    assert !IsOppositeDirection(Name(Right), "up");
    var t := WithDirection(s, "up");
    assert t == s.(nextDirection := Up);
    assert ResolvedDirection(t) == Up;
    StepsTo(t, v, Pos(4, 3));
  }

  /** A snake at the right edge of a 4 x 4 board heading right hits the wall. */
  lemma WallEndsGame(u: real)
    requires 0.0 <= u < 1.0
    ensures NextState(GameState(4, [Pos(3, 1), Pos(2, 1), Pos(1, 1)], Right, Right,
                                Some(Pos(0, 0)), 0, false, false), u).gameOver
  {
  }

  /** A coiled snake told to turn left runs into its own body. */
  lemma CoilEndsGame(u: real)
    requires 0.0 <= u < 1.0
    ensures NextState(GameState(6, [Pos(2, 2), Pos(2, 3), Pos(1, 3), Pos(1, 2), Pos(1, 1), Pos(2, 1)],
                                Up, Left, Some(Pos(5, 5)), 0, false, false), u).gameOver
  {
    var s := GameState(6, [Pos(2, 2), Pos(2, 3), Pos(1, 3), Pos(1, 2), Pos(1, 1), Pos(2, 1)],
                       Up, Left, Some(Pos(5, 5)), 0, false, false);
    assert NextHeadPosition(s.snake[0], ResolvedDirection(s)) == s.snake[3];
  }

  /** Eating the food in front scores a point, grows the snake to four cells
      and, with the draw 0, puts the new food in the top-left corner. */
  lemma EatingGrowsAndScores()
    ensures var r := NextState(GameState(6, [Pos(2, 2), Pos(1, 2), Pos(0, 2)], Right, Right,
                                         Some(Pos(3, 2)), 0, false, false), 0.0);
      r.score == 1 && |r.snake| == 4 && r.food == Some(Pos(0, 0)) && !r.gameOver
  {
    var s := GameState(6, [Pos(2, 2), Pos(1, 2), Pos(0, 2)], Right, Right,
                       Some(Pos(3, 2)), 0, false, false);
    AdvanceEats(s, 0.0);
    var grown := [Pos(3, 2)] + s.snake;
    FoodChoiceFirstFree(6, grown);
    assert Pos(0, 0) !in grown;
  }

  /** On a 3 x 3 board with the top row taken, food is still placed, and off the snake. */
  lemma FoodAvoidsTopRow(u: real)
    requires 0.0 <= u < 1.0
    ensures var food := FoodChoice(3, [Pos(0, 0), Pos(1, 0), Pos(2, 0)], u);
      food.Some? && food.value.y > 0
  {
    assert Pos(0, 1) !in [Pos(0, 0), Pos(1, 0), Pos(2, 0)];
  }
}
