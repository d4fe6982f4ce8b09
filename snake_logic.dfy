/** The tick engine of the Snake game: a board of `gridSize` x `gridSize`
    cells (origin top-left, x to the right, y downwards), a snake stored head
    first, one food cell, and the pure transitions the browser applies to it. */
module SnakeLogic {
  import opened Options

  datatype Pos = Pos(x: int, y: int)

  /** The four direction names of `DIRECTIONS`. A state only ever holds one of
      these; `WithDirection` is where an arbitrary name comes in. */
  datatype Direction = Up | Down | Left | Right

  /** `DIRECTIONS[name]`: the direction a name stands for, if any. */
  function DirectionNamed(name: string): (r: Option<Direction>)
    ensures r.Some? ==> name == "up" || name == "down" || name == "left" || name == "right"
  {
    if name == "up" then Some(Up)
    else if name == "down" then Some(Down)
    else if name == "left" then Some(Left)
    else if name == "right" then Some(Right)
    else None
  }

  function Name(d: Direction): (name: string)
    ensures DirectionNamed(name) == Some(d)
  {
    match d
    case Up => "up"
    case Down => "down"
    case Left => "left"
    case Right => "right"
  }

  /** The unit step of each direction. */
  function Vector(d: Direction): (v: Pos)
    ensures -1 <= v.x <= 1 && -1 <= v.y <= 1 && (v.x == 0 <==> v.y != 0)
  {
    match d
    case Up => Pos(0, -1)
    case Down => Pos(0, 1)
    case Left => Pos(-1, 0)
    case Right => Pos(1, 0)
  }

  /** Both names are known and their vectors cancel out. */
  predicate IsOppositeDirection(current: string, next: string)
    ensures IsOppositeDirection(current, next) ==>
      DirectionNamed(current).Some? && DirectionNamed(next).Some? && current != next
  {
    match (DirectionNamed(current), DirectionNamed(next))
    case (Some(c), Some(n)) => Vector(c).x + Vector(n).x == 0 && Vector(c).y + Vector(n).y == 0
    case _ => false
  }

  lemma OppositeSymmetric(a: string, b: string)
    ensures IsOppositeDirection(a, b) == IsOppositeDirection(b, a)
  {
  }

  /** Exactly the pairs up/down and left/right are opposite; an unknown name is
      opposite to nothing. */
  lemma OppositeExactlyReversals(a: string, b: string)
    ensures IsOppositeDirection(a, b) <==>
      (a == "up" && b == "down") || (a == "down" && b == "up") ||
      (a == "left" && b == "right") || (a == "right" && b == "left")
    ensures DirectionNamed(a).None? || DirectionNamed(b).None? ==> !IsOppositeDirection(a, b)
  {
  }

  /** The whole game state; every transition returns a new value of it. */
  datatype GameState = GameState(
    gridSize: int,
    snake: seq<Pos>,
    direction: Direction,
    nextDirection: Direction,
    food: Option<Pos>,
    score: int,
    gameOver: bool,
    paused: bool)

  predicate OutOfBounds(pos: Pos, gridSize: int)
    ensures gridSize <= 0 ==> OutOfBounds(pos, gridSize)
  {
    pos.x < 0 || pos.y < 0 || pos.x >= gridSize || pos.y >= gridSize
  }

  predicate Distinct(s: seq<Pos>) {
    forall i, j :: 0 <= i < j < |s| ==> s[i] != s[j]
  }

  /** The engine invariant: the snake is a non-empty run of distinct cells on
      the board, the food is on the board and off the snake, and a game still
      running always has food. */
  predicate Valid(s: GameState) {
    && s.gridSize > 0
    && |s.snake| > 0
    && s.score >= 0
    && (forall i :: 0 <= i < |s.snake| ==> !OutOfBounds(s.snake[i], s.gridSize))
    && Distinct(s.snake)
    && (s.food.Some? ==> !OutOfBounds(s.food.value, s.gridSize) && s.food.value !in s.snake)
    && (!s.gameOver ==> s.food.Some?)
  }

  // ---------------------------------------------------------------- placeFood

  /** Scaling by a draw in [0, 1) lands in [0, m). */
  lemma ScaledDraw(u: real, m: real)
    requires 0.0 <= u < 1.0 && 0.0 < m
    ensures 0.0 <= u * m < m
  {
    assert 0.0 <= u * m;
    assert 0.0 < (1.0 - u) * m;
    assert m - u * m == (1.0 - u) * m;
  }

  /** `Math.floor(random() * n)` for a draw `u` in [0, 1). */
  function RandomIndex(n: nat, u: real): (k: nat)
    requires 0 < n && 0.0 <= u < 1.0
    ensures k < n
  {
    var m := n as real;
    ScaledDraw(u, m);
    var k := (u * m).Floor;
    assert k as real <= u * m;
    k
  }

  /** Row-major order of cells: earlier row first, then smaller column. */
  predicate RowMajorBefore(p: Pos, q: Pos) {
    p.y < q.y || (p.y == q.y && p.x < q.x)
  }

  predicate Increasing(s: seq<Pos>) {
    forall i, j :: 0 <= i < j < |s| ==> RowMajorBefore(s[i], s[j])
  }

  /** What the inner loop pushes for cell `c`: the cell itself when it is free. */
  function FreeCell(occupied: set<Pos>, c: Pos): seq<Pos> {
    if c in occupied then [] else [c]
  }

  /** The free cells `(0, y) .. (x - 1, y)` of row `y`, in the order the inner loop visits them. */
  function RowFree(occupied: set<Pos>, y: int, x: nat): seq<Pos> {
    if x == 0 then [] else RowFree(occupied, y, x - 1) + FreeCell(occupied, Pos(x - 1, y))
  }

  lemma {:induction false} RowFreeHas(occupied: set<Pos>, y: int, x: nat, p: Pos)
    ensures p in RowFree(occupied, y, x) <==> p.y == y && 0 <= p.x < x && p !in occupied
  {
    if x > 0 {
      RowFreeHas(occupied, y, x - 1, p);
      var cell := FreeCell(occupied, Pos(x - 1, y));
      assert RowFree(occupied, y, x) == RowFree(occupied, y, x - 1) + cell;
      assert p in RowFree(occupied, y, x) <==> p in RowFree(occupied, y, x - 1) || p in cell;
    }
  }

  lemma RowFreeMembers(occupied: set<Pos>, y: int, x: nat)
    ensures forall p :: p in RowFree(occupied, y, x) <==> p.y == y && 0 <= p.x < x && p !in occupied
  {
    forall p ensures p in RowFree(occupied, y, x) <==> p.y == y && 0 <= p.x < x && p !in occupied {
      RowFreeHas(occupied, y, x, p);
    }
  }

  /** Row `y` lists its free cells left to right: each one before the next. */
  lemma {:induction false} RowFreeStep(occupied: set<Pos>, y: int, x: nat, i: nat)
    requires i + 1 < |RowFree(occupied, y, x)|
    ensures RowMajorBefore(RowFree(occupied, y, x)[i], RowFree(occupied, y, x)[i + 1])
  {
    var c := Pos(x - 1, y);
    var before := RowFree(occupied, y, x - 1);
    var r := RowFree(occupied, y, x);
    assert x > 0 && r == before + FreeCell(occupied, c);
    if i + 1 < |before| {
      assert r[i] == before[i] && r[i + 1] == before[i + 1];
      RowFreeStep(occupied, y, x - 1, i);
    } else {
      var p := before[i];
      assert r[i] == p && r[i + 1] == c;
      assert p.y == y && p.x < x - 1 by {
        assert p in before;
        RowFreeHas(occupied, y, x - 1, p);
      }
    }
  }

  /** The free cells of rows `0 .. y - 1` of a board `n` wide, in the order the
      outer loop visits them. */
  function RowsFree(n: nat, occupied: set<Pos>, y: nat): seq<Pos> {
    if y == 0 then [] else RowsFree(n, occupied, y - 1) + RowFree(occupied, y - 1, n)
  }

  lemma {:induction false} RowsFreeHas(n: nat, occupied: set<Pos>, y: nat, p: Pos)
    ensures p in RowsFree(n, occupied, y) <==> 0 <= p.y < y && 0 <= p.x < n && p !in occupied
  {
    if y > 0 {
      var above := RowsFree(n, occupied, y - 1);
      var row := RowFree(occupied, y - 1, n);
      assert p in above <==> 0 <= p.y < y - 1 && 0 <= p.x < n && p !in occupied by {
        RowsFreeHas(n, occupied, y - 1, p);
      }
      assert p in row <==> p.y == y - 1 && 0 <= p.x < n && p !in occupied by {
        RowFreeHas(occupied, y - 1, n, p);
      }
      assert RowsFree(n, occupied, y) == above + row;
    }
  }

  lemma RowsFreeMembers(n: nat, occupied: set<Pos>, y: nat)
    ensures forall p :: p in RowsFree(n, occupied, y) <==> 0 <= p.y < y && 0 <= p.x < n && p !in occupied
  {
    forall p ensures p in RowsFree(n, occupied, y) <==> 0 <= p.y < y && 0 <= p.x < n && p !in occupied {
      RowsFreeHas(n, occupied, y, p);
    }
  }

  /** A free cell of an earlier row comes before a free cell of row `y`. */
  lemma RowsFreeBeforeRow(n: nat, occupied: set<Pos>, y: nat, p: Pos, q: Pos)
    requires p in RowsFree(n, occupied, y) && q in RowFree(occupied, y, n)
    ensures RowMajorBefore(p, q)
  {
    RowsFreeHas(n, occupied, y, p);
    RowFreeHas(occupied, y, n, q);
  }

  /** The rows come in order and each lists its free cells left to right:
      every free cell comes before the next one. */
  lemma {:induction false} RowsFreeStep(n: nat, occupied: set<Pos>, y: nat, i: nat)
    requires i + 1 < |RowsFree(n, occupied, y)|
    ensures RowMajorBefore(RowsFree(n, occupied, y)[i], RowsFree(n, occupied, y)[i + 1])
  {
    var above := RowsFree(n, occupied, y - 1);
    var row := RowFree(occupied, y - 1, n);
    var r := RowsFree(n, occupied, y);
    assert y > 0 && r == above + row;
    if i + 1 < |above| {
      assert r[i] == above[i] && r[i + 1] == above[i + 1];
      RowsFreeStep(n, occupied, y - 1, i);
    } else if i >= |above| {
      assert r[i] == row[i - |above|] && r[i + 1] == row[i + 1 - |above|];
      RowFreeStep(occupied, y - 1, n, i - |above|);
    } else {
      assert r[i] == above[i] && r[i + 1] == row[0];
      RowsFreeBeforeRow(n, occupied, y - 1, above[i], row[0]);
    }
  }

  /** A sequence whose every cell comes before the next is increasing. */
  lemma {:induction false} StepsIncreasing(s: seq<Pos>, i: nat, j: nat)
    requires forall k :: 0 <= k < |s| - 1 ==> RowMajorBefore(s[k], s[k + 1])
    requires i < j < |s|
    ensures RowMajorBefore(s[i], s[j])
    decreases j - i
  {
    if i + 1 < j {
      StepsIncreasing(s, i, j - 1);
      assert RowMajorBefore(s[j - 1], s[j]);
    }
  }

  lemma RowsFreeIncreasing(n: nat, occupied: set<Pos>, y: nat)
    ensures Increasing(RowsFree(n, occupied, y))
  {
    var r := RowsFree(n, occupied, y);
    forall k | 0 <= k < |r| - 1 ensures RowMajorBefore(r[k], r[k + 1]) {
      RowsFreeStep(n, occupied, y, k);
    }
    forall i, j | 0 <= i < j < |r| ensures RowMajorBefore(r[i], r[j]) {
      StepsIncreasing(r, i, j);
    }
  }

  /** `freeCells`: every free cell of the board, in row-major order. */
  function FreeCells(gridSize: int, snake: seq<Pos>): (r: seq<Pos>)
    ensures forall p :: p in r <==> !OutOfBounds(p, gridSize) && p !in snake
  {
    if gridSize <= 0 then []
    else
      var occupied := set p | p in snake;
      RowsFreeMembers(gridSize, occupied, gridSize);
      RowsFree(gridSize, occupied, gridSize)
  }

  /** The free cells come in strictly increasing row-major order. */
  lemma FreeCellsIncreasing(gridSize: int, snake: seq<Pos>)
    ensures Increasing(FreeCells(gridSize, snake))
  {
    if gridSize > 0 {
      var occupied := set p | p in snake;
      RowsFreeIncreasing(gridSize, occupied, gridSize);
    }
  }

  /** What `placeFood(gridSize, snake, random)` returns when `random()` draws `u`:
      nothing exactly when the snake covers the board, otherwise a free cell. */
  function FoodChoice(gridSize: int, snake: seq<Pos>, u: real): (food: Option<Pos>)
    requires 0.0 <= u < 1.0
    ensures food.None? <==> forall p :: !OutOfBounds(p, gridSize) ==> p in snake
    ensures food.Some? ==> !OutOfBounds(food.value, gridSize) && food.value !in snake
  {
    var free := FreeCells(gridSize, snake);
    if |free| == 0 then None
    else
      assert free[0] in free;
      Some(free[RandomIndex(|free|, u)])
  }

  /** With the draw 0 the food goes to the first free cell in row-major order. */
  lemma FoodChoiceFirstFree(gridSize: int, snake: seq<Pos>)
    ensures FoodChoice(gridSize, snake, 0.0).Some? ==>
      forall q :: !OutOfBounds(q, gridSize) && RowMajorBefore(q, FoodChoice(gridSize, snake, 0.0).value) ==> q in snake
  {
    var free := FreeCells(gridSize, snake);
    FreeCellsIncreasing(gridSize, snake);
    if |free| > 0 {
      var c := free[0];
      assert FoodChoice(gridSize, snake, 0.0) == Some(c);
      forall q | !OutOfBounds(q, gridSize) && RowMajorBefore(q, c) ensures q in snake {
      }
    }
  }

  /** The draw `k / m` picks index `k` of `m`. */
  lemma RandomIndexHits(m: nat, k: nat)
    requires k < m
    ensures 0.0 <= k as real / m as real < 1.0
    ensures RandomIndex(m, k as real / m as real) == k
  {
    var u := k as real / m as real;
    assert u * m as real == k as real;
  }

  /** Every free cell is the food's cell for some draw: placement can reach the whole free board. */
  lemma FoodChoiceReachesEveryFreeCell(gridSize: int, snake: seq<Pos>, c: Pos)
    requires !OutOfBounds(c, gridSize) && c !in snake
    ensures exists u :: 0.0 <= u < 1.0 && FoodChoice(gridSize, snake, u) == Some(c)
  {
    var free := FreeCells(gridSize, snake);
    var k :| 0 <= k < |free| && free[k] == c;
    RandomIndexHits(|free|, k);
    var u := k as real / |free| as real;
    assert FoodChoice(gridSize, snake, u) == Some(c);
  }

  /** `placeFood`: scans the board row by row, collects the cells the snake
      does not occupy, and picks one by the draw `u`. */
  method PlaceFood(gridSize: int, snake: seq<Pos>, u: real) returns (food: Option<Pos>)
    requires 0.0 <= u < 1.0
    ensures food == FoodChoice(gridSize, snake, u)
  {
    var occupied := set p | p in snake;
    var freeCells: seq<Pos> := [];
    var y := 0;
    while y < gridSize
      invariant 0 <= y && (gridSize > 0 ==> y <= gridSize)
      invariant freeCells == if gridSize > 0 then RowsFree(gridSize, occupied, y) else []
    {
      var x := 0;
      while x < gridSize
        invariant 0 <= x <= gridSize
        invariant freeCells == RowsFree(gridSize, occupied, y) + RowFree(occupied, y, x)
      {
        var candidate := Pos(x, y);
        if candidate !in occupied {
          freeCells := freeCells + [candidate];
        }
        x := x + 1;
      }
      assert RowsFree(gridSize, occupied, y + 1) == RowsFree(gridSize, occupied, y) + RowFree(occupied, y, gridSize);
      y := y + 1;
    }
    if |freeCells| == 0 {
      return None;
    }
    food := Some(freeCells[RandomIndex(|freeCells|, u)]);
  }

  // ------------------------------------------------------- createInitialState

  /** `opts.gridSize || 16`: a missing or zero size means 16. */
  function EffectiveGridSize(gridSize: Option<int>): (n: int)
    ensures n != 0
    ensures gridSize.Some? && gridSize.value != 0 ==> n == gridSize.value
    ensures gridSize.None? || gridSize.value == 0 ==> n == 16
  {
    match gridSize
    case None => 16
    case Some(n) => if n == 0 then 16 else n
  }

  /** The snake `createInitialState` lays out, head first, on a board of size `n`. */
  function StartSnake(n: int): (snake: seq<Pos>)
    ensures |snake| == 3
    ensures forall i :: 0 < i < |snake| ==> NextHeadPosition(snake[i], Right) == snake[i - 1]
  {
    [Pos(n / 2, n / 2), Pos(n / 2 - 1, n / 2), Pos(n / 2 - 2, n / 2)]
  }

  /** The state `createInitialState` builds: a three-cell snake heading right
      from the middle of the board, score 0, food placed by the draw `u`. */
  function InitialState(gridSize: Option<int>, u: real): (s: GameState)
    requires 0.0 <= u < 1.0
    ensures |s.snake| == 3 && s.direction == s.nextDirection == Right
    ensures s.score == 0 && !s.gameOver && !s.paused
  {
    var n := EffectiveGridSize(gridSize);
    var snake := StartSnake(n);
    GameState(n, snake, Right, Right, FoodChoice(n, snake, u), 0, false, false)
  }

  method CreateInitialState(gridSize: Option<int>, u: real) returns (s: GameState)
    requires 0.0 <= u < 1.0
    ensures s == InitialState(gridSize, u)
  {
    var n := EffectiveGridSize(gridSize);
    var startX := n / 2;
    var startY := n / 2;
    var snake := [Pos(startX, startY), Pos(startX - 1, startY), Pos(startX - 2, startY)];
    assert snake == StartSnake(n);
    var food := PlaceFood(n, snake, u);
    s := GameState(n, snake, Right, Right, food, 0, false, false);
  }

  /** The head starts in the middle cell, `Math.floor(gridSize / 2)` both ways. */
  lemma StartSnakeHead(n: int)
    ensures StartSnake(n)[0] == Pos(n / 2, n / 2)
  {
  }

  lemma StartSnakeOnBoard(n: int)
    requires n >= 4
    ensures forall i :: 0 <= i < 3 ==> !OutOfBounds(StartSnake(n)[i], n)
    ensures Distinct(StartSnake(n))
    ensures !OutOfBounds(Pos(0, 0), n) && Pos(0, 0) !in StartSnake(n)
  {
  }

  /** The initial state satisfies the engine invariant exactly when the board
      is at least 4 wide: on a smaller board the tail starts off the board. */
  lemma InitialStateValidIff(gridSize: Option<int>, u: real)
    requires 0.0 <= u < 1.0
    ensures Valid(InitialState(gridSize, u)) <==> EffectiveGridSize(gridSize) >= 4
  {
    var n := EffectiveGridSize(gridSize);
    var s := InitialState(gridSize, u);
    assert s.snake == StartSnake(n);
    if n >= 4 {
      StartSnakeOnBoard(n);
      assert s.food.Some?;
    } else if n > 0 {
      assert OutOfBounds(s.snake[2], n);
    }
  }

  // ------------------------------------------------------ direction changes

  /** `withDirection`: buffers a turn; unknown names and the exact reverse of
      the current direction leave the state as it is. */
  function WithDirection(s: GameState, name: string): (r: GameState)
    ensures DirectionNamed(name).None? ==> r == s
    ensures IsOppositeDirection(Name(s.direction), name) ==> r == s
    ensures DirectionNamed(name).Some? && !IsOppositeDirection(Name(s.direction), name) ==>
      r == s.(nextDirection := DirectionNamed(name).value)
  {
    match DirectionNamed(name)
    case None => s
    case Some(d) => if IsOppositeDirection(Name(s.direction), name) then s else s.(nextDirection := d)
  }

  /** The direction a tick moves in: `nextDirection`, unless it is the reverse of `direction`. */
  function ResolvedDirection(s: GameState): (d: Direction)
    ensures !IsOppositeDirection(Name(s.direction), Name(d))
    ensures d == s.direction || d == s.nextDirection
    ensures !IsOppositeDirection(Name(s.direction), Name(s.nextDirection)) ==> d == s.nextDirection
  {
    if IsOppositeDirection(Name(s.direction), Name(s.nextDirection)) then s.direction else s.nextDirection
  }

  /** An accepted turn is the direction the next tick moves in. */
  lemma WithDirectionSteers(s: GameState, name: string)
    requires DirectionNamed(name).Some? && !IsOppositeDirection(Name(s.direction), name)
    ensures ResolvedDirection(WithDirection(s, name)) == DirectionNamed(name).value
  {
  }

  function NextHeadPosition(head: Pos, d: Direction): (next: Pos)
    ensures next != head
  {
    Pos(head.x + Vector(d).x, head.y + Vector(d).y)
  }

  // ----------------------------------------------------------------- advance

  /** The next head lands on the food. */
  predicate Eats(s: GameState, head: Pos)
    ensures Valid(s) && Eats(s, head) ==> head !in s.snake
  {
    s.food.Some? && head == s.food.value
  }

  /** The segments the next head must avoid: the whole snake when it eats (the
      tail stays), otherwise all but the tail (the tail moves away). */
  function BodyToCheck(s: GameState, eating: bool): (body: seq<Pos>)
    requires |s.snake| > 0
    ensures body <= s.snake && |s.snake| - 1 <= |body|
    ensures eating <==> |body| == |s.snake|
  {
    if eating then s.snake else s.snake[..|s.snake| - 1]
  }

  /** The state one tick of `advance` produces from `s` when `random()` draws `u`. */
  function NextState(s: GameState, u: real): (r: GameState)
    requires 0.0 <= u < 1.0
    requires s.gameOver || s.paused || |s.snake| > 0
    ensures s.gameOver || s.paused ==> r == s
    ensures r.gridSize == s.gridSize && r.paused == s.paused
    ensures |s.snake| <= |r.snake| <= |s.snake| + 1
    ensures r.score - s.score == |r.snake| - |s.snake|
  {
    if s.gameOver || s.paused then s
    else
      var d := ResolvedDirection(s);
      var head := NextHeadPosition(s.snake[0], d);
      var eating := Eats(s, head);
      if OutOfBounds(head, s.gridSize) || head in BodyToCheck(s, eating) then
        s.(direction := d, gameOver := true)
      else if eating then
        var grown := [head] + s.snake;
        var food := FoodChoice(s.gridSize, grown, u);
        s.(snake := grown, direction := d, nextDirection := d, food := food,
           score := s.score + 1, gameOver := food.None?)
      else
        s.(snake := [head] + s.snake[..|s.snake| - 1], direction := d, nextDirection := d,
           gameOver := s.food.None?)
  }

  /** `advance`: works on a copy of the snake, puts the new head in front, and
      either re-places the food (eating) or drops the tail (moving). */
  method Advance(s: GameState, u: real) returns (r: GameState)
    requires 0.0 <= u < 1.0
    requires s.gameOver || s.paused || |s.snake| > 0
    ensures r == NextState(s, u)
  {
    if s.gameOver || s.paused {
      return s;
    }
    var direction := s.nextDirection;
    if IsOppositeDirection(Name(s.direction), Name(direction)) {
      direction := s.direction;
    }
    var snake := s.snake;
    var head := snake[0];
    var nextHead := NextHeadPosition(head, direction);
    if OutOfBounds(nextHead, s.gridSize) {
      return s.(direction := direction, gameOver := true);
    }
    var eatingFood := s.food.Some? && nextHead == s.food.value;
    var bodyToCheck := if eatingFood then snake else snake[..|snake| - 1];
    var bodySet := set p | p in bodyToCheck;
    if nextHead in bodySet {
      return s.(direction := direction, gameOver := true);
    }
    snake := [nextHead] + snake;
    var score := s.score;
    var food := s.food;
    if eatingFood {
      score := score + 1;
      food := PlaceFood(s.gridSize, snake, u);
    } else {
      snake := snake[..|snake| - 1];
    }
    r := s.(snake := snake, direction := direction, nextDirection := direction, food := food,
            score := score, gameOver := food.None?);
  }

  /** A finished or paused game does not move. */
  lemma AdvanceFrozen(s: GameState, u: real)
    requires 0.0 <= u < 1.0
    requires s.gameOver || s.paused
    ensures NextState(s, u) == s
  {
  }

  /** Leaving the board ends the game; only the direction and the flag change. */
  lemma AdvanceOffBoard(s: GameState, u: real)
    requires 0.0 <= u < 1.0
    requires !s.gameOver && !s.paused && |s.snake| > 0
    requires OutOfBounds(NextHeadPosition(s.snake[0], ResolvedDirection(s)), s.gridSize)
    ensures NextState(s, u) == s.(direction := ResolvedDirection(s), gameOver := true)
  {
  }

  /** Running into the body ends the game; only the direction and the flag change. */
  lemma AdvanceSelfCollision(s: GameState, u: real)
    requires 0.0 <= u < 1.0
    requires !s.gameOver && !s.paused && |s.snake| > 0
    requires var head := NextHeadPosition(s.snake[0], ResolvedDirection(s));
      head in BodyToCheck(s, Eats(s, head))
    ensures NextState(s, u) == s.(direction := ResolvedDirection(s), gameOver := true)
  {
  }

  /** A plain move keeps the length, the score and the food: the new head goes
      in front and the tail is dropped. */
  lemma AdvanceMoves(s: GameState, u: real)
    requires 0.0 <= u < 1.0
    requires !s.gameOver && !s.paused && |s.snake| > 0
    requires var head := NextHeadPosition(s.snake[0], ResolvedDirection(s));
      !OutOfBounds(head, s.gridSize) && !Eats(s, head) && head !in s.snake[..|s.snake| - 1]
    ensures var r := NextState(s, u);
      && r.snake == [NextHeadPosition(s.snake[0], ResolvedDirection(s))] + s.snake[..|s.snake| - 1]
      && |r.snake| == |s.snake|
      && r.score == s.score && r.food == s.food && (r.gameOver <==> s.food.None?)
      && r.direction == r.nextDirection == ResolvedDirection(s)
  {
  }

  /** Eating grows the snake by its new head, scores one point, and re-places
      the food over the grown snake; the game ends exactly when no cell is left. */
  lemma AdvanceEats(s: GameState, u: real)
    requires 0.0 <= u < 1.0
    requires !s.gameOver && !s.paused && |s.snake| > 0
    requires var head := NextHeadPosition(s.snake[0], ResolvedDirection(s));
      !OutOfBounds(head, s.gridSize) && Eats(s, head) && head !in s.snake
    ensures var r := NextState(s, u);
      && r.snake == [s.food.value] + s.snake
      && r.score == s.score + 1
      && r.food == FoodChoice(s.gridSize, r.snake, u)
      && (r.gameOver <==> forall p :: !OutOfBounds(p, s.gridSize) ==> p in r.snake)
      && r.direction == r.nextDirection == ResolvedDirection(s)
  {
  }

  /** The cell the tail is about to leave may be entered: in a valid state,
      heading into the tail cell (with no food there) is a legal move. */
  lemma {:induction false} TailCellIsFree(s: GameState, u: real)
    requires 0.0 <= u < 1.0
    requires Valid(s) && !s.gameOver && !s.paused && |s.snake| >= 2
    requires NextHeadPosition(s.snake[0], ResolvedDirection(s)) == s.snake[|s.snake| - 1]
    ensures !NextState(s, u).gameOver
    ensures NextState(s, u).snake[0] == s.snake[|s.snake| - 1]
  {
    var n := |s.snake|;
    var tail := s.snake[n - 1];
    assert !Eats(s, tail);
    assert tail !in s.snake[..n - 1];
  }

  /** Each tick scores at most one point and never shortens the snake. */
  lemma AdvanceScoreAndLength(s: GameState, u: real)
    requires 0.0 <= u < 1.0
    requires s.gameOver || s.paused || |s.snake| > 0
    ensures var r := NextState(s, u);
      (r.score == s.score || r.score == s.score + 1) && |r.snake| >= |s.snake|
  {
  }

  lemma DistinctCons(head: Pos, t: seq<Pos>)
    requires Distinct(t) && head !in t
    ensures Distinct([head] + t)
  {
    forall i, j | 0 <= i < j < |[head] + t| ensures ([head] + t)[i] != ([head] + t)[j] {
      if i == 0 {
        assert ([head] + t)[j] == t[j - 1];
      }
    }
  }

  /** `advance` keeps the engine invariant. */
  lemma {:induction false} AdvancePreservesValid(s: GameState, u: real)
    requires 0.0 <= u < 1.0
    requires Valid(s)
    ensures Valid(NextState(s, u))
  {
    if !s.gameOver && !s.paused {
      var d := ResolvedDirection(s);
      var head := NextHeadPosition(s.snake[0], d);
      var eating := Eats(s, head);
      if OutOfBounds(head, s.gridSize) || head in BodyToCheck(s, eating) {
      } else if eating {
        DistinctCons(head, s.snake);
      } else {
        var body := s.snake[..|s.snake| - 1];
        assert forall i :: 0 <= i < |body| ==> body[i] == s.snake[i];
        DistinctCons(head, body);
        assert s.food.value !in body;
      }
    }
  }

  // ------------------------------------------------------------- togglePause

  /** `togglePause`: flips `paused` unless the game is over. */
  function TogglePause(s: GameState): (r: GameState)
    ensures s.gameOver ==> r == s
    ensures !s.gameOver ==> r.paused == !s.paused
    ensures r == s.(paused := r.paused)
  {
    if s.gameOver then s else s.(paused := !s.paused)
  }

  /** Pausing twice gives back the same state. */
  lemma TogglePauseTwice(s: GameState)
    ensures TogglePause(TogglePause(s)) == s
  {
  }

  /** Direction requests and pausing keep the engine invariant. */
  lemma InputsPreserveValid(s: GameState, name: string)
    requires Valid(s)
    ensures Valid(WithDirection(s, name)) && Valid(TogglePause(s))
  {
  }
}
