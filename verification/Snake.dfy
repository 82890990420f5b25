/** The game of snake.c: its rules as functions on a game, what every game satisfies, and the
    in-place updates that follow the rules. */
module Snake {
  const GRID_W: int := 30
  const GRID_H: int := 18
  const MAX_SNAKE: nat := 540

  datatype Cell = Cell(x: int, y: int) {
    predicate InGrid() { 0 <= x < GRID_W && 0 <= y < GRID_H }

    function Moved(dx: int, dy: int): Cell { Cell(x + dx, y + dy) }
  }

  datatype Game = Game(
    body: seq<Cell>, dx: int, dy: int, nextDx: int, nextDy: int,
    food: Cell, score: int, paused: bool, over: bool)

  /** The random cells that place_food draws, one after another. */
  type Draws = nat -> (nat, nat)

  function Drawn(draws: Draws, k: nat): (c: Cell)
    ensures c.InGrid()
  {
    Cell(draws(k).0 % GRID_W, draws(k).1 % GRID_H)
  }

  /** place_food: the first free cell of so many draws, or the old place. */
  function PlaceFood(body: seq<Cell>, food: Cell, draws: Draws, k: nat): Cell
    requires k <= MAX_SNAKE
    decreases MAX_SNAKE - k
  {
    if k == MAX_SNAKE then food
    else if Drawn(draws, k) !in body then Drawn(draws, k)
    else PlaceFood(body, food, draws, k + 1)
  }

  /** reset_game. */
  function Fresh(draws: Draws): Game {
    var body := [Cell(15, 9), Cell(14, 9), Cell(13, 9), Cell(12, 9), Cell(11, 9)];
    Game(body, 1, 0, 1, 0, PlaceFood(body, Cell(0, 0), draws, 0), 0, false, false)
  }

  /** step: one tick of the clock. */
  function Tick(g: Game, draws: Draws): Game
    requires g.body != []
  {
    if g.paused || g.over then g
    else
      var head := g.body[0].Moved(g.nextDx, g.nextDy);
      var turned := g.(dx := g.nextDx, dy := g.nextDy);
      if !head.InGrid() || head in g.body then turned.(over := true)
      else if head != g.food then turned.(body := [head] + g.body[..|g.body| - 1])
      else
        var body := [head] + (if |g.body| < MAX_SNAKE then g.body else g.body[..|g.body| - 1]);
        turned.(body := body, score := g.score + 10, food := PlaceFood(body, g.food, draws, 0))
  }

  /** direction: a turn is taken up unless it reverses the last move. */
  function Turn(g: Game, dx: int, dy: int): Game {
    if dx != -g.dx || dy != -g.dy then g.(nextDx := dx, nextDy := dy) else g
  }

  datatype Input = GoUp | GoDown | GoLeft | GoRight | Pause | Restart(draws: Draws) | Clock(draws: Draws) | Other

  /** One turn of the main loop: a key, or a tick. */
  function Respond(g: Game, input: Input): Game
    requires g.body != []
  {
    match input
    case GoUp => Turn(g, 0, -1)
    case GoDown => Turn(g, 0, 1)
    case GoLeft => Turn(g, -1, 0)
    case GoRight => Turn(g, 1, 0)
    case Pause => g.(paused := !g.paused)
    case Restart(draws) => if g.over then Fresh(draws) else g
    case Clock(draws) => Tick(g, draws)
    case Other => g
  }

  // ----- what every game satisfies

  predicate Unit(dx: int, dy: int) { (dx == 0 && (dy == 1 || dy == -1)) || (dy == 0 && (dx == 1 || dx == -1)) }

  predicate Adjacent(a: Cell, b: Cell) { Unit(a.x - b.x, a.y - b.y) }

  ghost predicate InsideGrid(body: seq<Cell>) { forall i :: 0 <= i < |body| ==> body[i].InGrid() }

  ghost predicate Distinct(body: seq<Cell>) { forall i, j :: 0 <= i < j < |body| ==> body[i] != body[j] }

  ghost predicate Chained(body: seq<Cell>) { forall i :: 0 <= i < |body| - 1 ==> Adjacent(body[i], body[i + 1]) }

  ghost predicate Inv(g: Game) {
    && 5 <= |g.body| <= MAX_SNAKE
    && InsideGrid(g.body) && Distinct(g.body) && Chained(g.body)
    && Unit(g.dx, g.dy) && Unit(g.nextDx, g.nextDy)
    && (!g.over ==> g.body[0] == g.body[1].Moved(g.dx, g.dy))
    && (g.nextDx != -g.dx || g.nextDy != -g.dy)
    && g.food.InGrid()
    && g.score == 10 * (|g.body| - 5)
  }

  lemma {:induction false} FoodInGrid(body: seq<Cell>, food: Cell, draws: Draws, k: nat)
    requires k <= MAX_SNAKE && food.InGrid()
    ensures PlaceFood(body, food, draws, k).InGrid()
    ensures PlaceFood(body, food, draws, k) == food || PlaceFood(body, food, draws, k) !in body
    decreases MAX_SNAKE - k
  {
    if k < MAX_SNAKE {
      FoodInGrid(body, food, draws, k + 1);
    }
  }

  /** From a place under the snake, the food is found a free cell exactly if one is drawn. */
  lemma {:induction false} FoodStaysIff(body: seq<Cell>, food: Cell, draws: Draws, k: nat)
    requires k <= MAX_SNAKE && food in body
    ensures PlaceFood(body, food, draws, k) in body <==> forall j :: k <= j < MAX_SNAKE ==> Drawn(draws, j) in body
    ensures PlaceFood(body, food, draws, k) in body ==> PlaceFood(body, food, draws, k) == food
    decreases MAX_SNAKE - k
  {
    hide Drawn;
    if k < MAX_SNAKE && Drawn(draws, k) in body {
      FoodStaysIff(body, food, draws, k + 1);
    }
  }

  // ----- the pigeonhole argument

  function CellIndex(c: Cell): int { c.y * GRID_W + c.x }

  function Indices(body: seq<Cell>): set<int> { set i | 0 <= i < |body| :: CellIndex(body[i]) }

  function Range(n: nat): (r: set<int>)
    ensures forall k :: k in r <==> 0 <= k < n
  {
    if n == 0 then {} else Range(n - 1) + {n - 1}
  }

  lemma {:induction false} RangeSize(n: nat)
    ensures |Range(n)| == n
  {
    if n > 0 {
      RangeSize(n - 1);
    }
  }

  lemma IndexInjective(a: Cell, b: Cell)
    requires a.InGrid() && b.InGrid() && CellIndex(a) == CellIndex(b)
    ensures a == b
  {
  }

  /** As many indices as cells. */
  lemma {:induction false} IndicesSize(body: seq<Cell>)
    requires InsideGrid(body) && Distinct(body)
    ensures |Indices(body)| == |body|
    decreases |body|
  {
    if body == [] {
      assert Indices(body) == {};
    } else {
      var n := |body| - 1;
      var front := body[..n];
      IndicesSize(front);
      assert Indices(body) == Indices(front) + {CellIndex(body[n])};
      if CellIndex(body[n]) in Indices(front) {
        var i :| 0 <= i < n && CellIndex(front[i]) == CellIndex(body[n]);
        IndexInjective(body[i], body[n]);
      }
    }
  }

  lemma IndicesInRange(body: seq<Cell>)
    requires InsideGrid(body)
    ensures Indices(body) <= Range(MAX_SNAKE)
  {
    forall k | k in Indices(body) ensures k in Range(MAX_SNAKE) {
      var i :| 0 <= i < |body| && CellIndex(body[i]) == k;
    }
  }

  lemma SameSize(a: set<int>, b: set<int>)
    requires a <= b && |a| == |b|
    ensures a == b
  {
    assert b == a + (b - a);
  }

  /** A snake of full length fills the grid: every cell is its own. */
  lemma FullSnakeFillsGrid(body: seq<Cell>, c: Cell)
    requires InsideGrid(body) && Distinct(body) && |body| == MAX_SNAKE && c.InGrid()
    ensures c in body
  {
    IndicesSize(body);
    IndicesInRange(body);
    RangeSize(MAX_SNAKE);
    SameSize(Indices(body), Range(MAX_SNAKE));
    assert CellIndex(c) in Range(MAX_SNAKE);
    var i :| 0 <= i < |body| && CellIndex(body[i]) == CellIndex(c);
    IndexInjective(body[i], c);
  }

  // ----- steps and runs

  lemma ExtendKeeps(body: seq<Cell>, head: Cell)
    requires InsideGrid(body) && Distinct(body) && Chained(body) && |body| >= 1
    requires head.InGrid() && head !in body && Adjacent(head, body[0])
    ensures InsideGrid([head] + body) && Distinct([head] + body) && Chained([head] + body)
  {
  }

  lemma FrontKeeps(body: seq<Cell>, n: nat)
    requires InsideGrid(body) && Distinct(body) && Chained(body) && n <= |body|
    ensures InsideGrid(body[..n]) && Distinct(body[..n]) && Chained(body[..n])
  {
  }

  /** The head never moves onto the neck, and a tick keeps every law of the game; a snake of full
      length can never eat. */
  lemma TickKeeps(g: Game, draws: Draws)
    requires Inv(g)
    ensures 5 <= |g.body| <= MAX_SNAKE && Inv(Tick(g, draws))
    ensures !g.over ==> g.body[0].Moved(g.nextDx, g.nextDy) != g.body[1]
    ensures |g.body| == MAX_SNAKE ==> Tick(g, draws).body == g.body
  {
    hide InsideGrid, Distinct, Chained, PlaceFood;
    var head := g.body[0].Moved(g.nextDx, g.nextDy);
    if !g.paused && !g.over && head.InGrid() && head !in g.body {
      var front := g.body[..|g.body| - 1];
      FrontKeeps(g.body, |g.body| - 1);
      ExtendKeeps(g.body, head);
      ExtendKeeps(front, head);
      if |g.body| == MAX_SNAKE {
        FullSnakeFillsGrid(g.body, head);
      }
      FoodInGrid([head] + g.body, g.food, draws, 0);
    }
  }

  /** A tick moves the snake by one cell in the direction asked for, every other cell taking its
      predecessor's place; the snake grows exactly if its head meets the food, and dies exactly if
      its head would leave the grid or meet the snake. */
  lemma TickMoves(g: Game, draws: Draws)
    requires Inv(g) && !g.paused && !g.over
    ensures var t, head := Tick(g, draws), g.body[0].Moved(g.nextDx, g.nextDy);
            && (t.over <==> !head.InGrid() || head in g.body)
            && (|t.body| == |g.body| + 1 <==> !t.over && head == g.food)
            && (!t.over ==> t.body[0] == head && forall i :: 1 <= i < |t.body| ==> t.body[i] == g.body[i - 1])
            && (|t.body| != |g.body| + 1 ==> |t.body| == |g.body| && t.food == g.food)
  {
    hide InsideGrid, Distinct, Chained, PlaceFood, Cell.InGrid;
    TickKeeps(g, draws);
    var head := g.body[0].Moved(g.nextDx, g.nextDy);
    if |g.body| == MAX_SNAKE && head.InGrid() {
      FullSnakeFillsGrid(g.body, head);
    }
  }

  /** When the snake eats, the food stays where it was, under the head, exactly if every cell drawn
      lies on the snake; otherwise it comes to a free cell. */
  lemma EatenFoodStaysIff(g: Game, draws: Draws)
    requires Inv(g) && !g.paused && !g.over && |Tick(g, draws).body| == |g.body| + 1
    ensures var t := Tick(g, draws);
            && t.body[0] == g.food
            && (t.food in t.body <==> forall j :: 0 <= j < MAX_SNAKE ==> Drawn(draws, j) in t.body)
            && (t.food in t.body ==> t.food == g.food)
  {
    hide InsideGrid, Distinct, Chained, PlaceFood, Cell.InGrid, Drawn;
    TickMoves(g, draws);
    FoodStaysIff(Tick(g, draws).body, g.food, draws, 0);
  }

  /** Such a game: always the cell in front of the fresh snake is drawn, and the first tick eats it. */
  lemma FoodUnderHead()
    ensures var always: Draws := _ => (16, 9);
            var t := Tick(Fresh(always), always);
            t.score == 10 && t.food == t.body[0] == Cell(16, 9)
  {
    var always: Draws := _ => (16, 9);
    var g := Fresh(always);
    FreshKeeps(always);
    assert Drawn(always, 0) == Cell(16, 9) && g.food == Cell(16, 9);
    var t := Tick(g, always);
    assert t.body == [Cell(16, 9)] + g.body;
    forall j | 0 <= j < MAX_SNAKE ensures Drawn(always, j) in t.body {
      assert Drawn(always, j) == Cell(16, 9) == t.body[0];
    }
    EatenFoodStaysIff(g, always);
  }

  lemma FreshKeeps(draws: Draws)
    ensures Inv(Fresh(draws))
  {
    FoodInGrid(Fresh(draws).body, Cell(0, 0), draws, 0);
  }

  lemma RespondKeeps(g: Game, input: Input)
    requires Inv(g)
    ensures Inv(Respond(g, input))
  {
    match input
    case Clock(draws) => TickKeeps(g, draws);
    case Restart(draws) => FreshKeeps(draws);
    case _ =>
  }

  ghost function Play(g: Game, inputs: seq<Input>): Game
    requires Inv(g)
    decreases |inputs|
  {
    if inputs == [] then g
    else
      RespondKeeps(g, inputs[0]);
      Play(Respond(g, inputs[0]), inputs[1..])
  }

  /** After any keys, ticks and random draws from a fresh game: the snake lies in the grid, its
      cells are distinct and linked, and the score counts what it has eaten. */
  lemma {:induction false} PlayKeeps(g: Game, inputs: seq<Input>)
    requires Inv(g)
    ensures Inv(Play(g, inputs))
    decreases |inputs|
  {
    if inputs != [] {
      RespondKeeps(g, inputs[0]);
      PlayKeeps(Respond(g, inputs[0]), inputs[1..]);
    }
  }

  /** A fresh game: five cells in the middle, heading right, at rest from nothing. */
  lemma FreshIs(draws: Draws)
    ensures var g := Fresh(draws);
            && g.body == [Cell(15, 9), Cell(14, 9), Cell(13, 9), Cell(12, 9), Cell(11, 9)]
            && g.dx == g.nextDx == 1 && g.dy == g.nextDy == 0 && g.score == 0 && !g.paused && !g.over
  {
    hide PlaceFood;
  }

  /** Where a direction key points, up being the smaller rows. */
  function Pointed(key: Input): (int, int) {
    match key
    case GoUp => (0, -1)
    case GoDown => (0, 1)
    case GoLeft => (-1, 0)
    case GoRight => (1, 0)
    case _ => (0, 0)
  }

  /** A direction key steers: on the next tick the head goes where it points, unless that reverses
      the last move, and then it goes where it was to go before; and the game ends exactly if that is
      outside the thirty by eighteen cells or on the snake. */
  lemma KeySteers(g: Game, key: Input, draws: Draws)
    requires Inv(g) && !g.paused && !g.over && (key.GoUp? || key.GoDown? || key.GoLeft? || key.GoRight?)
    ensures var (kx, ky) := Pointed(key);
            var reverse := g.dx + kx == 0 && g.dy + ky == 0;
            var x := g.body[0].x + if reverse then g.nextDx else kx;
            var y := g.body[0].y + if reverse then g.nextDy else ky;
            var t := Tick(Respond(g, key), draws);
            && (t.over <==> !(0 <= x < 30 && 0 <= y < 18) || Cell(x, y) in g.body)
            && t.body != [] && (!t.over ==> t.body[0] == Cell(x, y))
  {
    hide InsideGrid, Distinct, Chained, PlaceFood;
    RespondKeeps(g, key);
    TickMoves(Respond(g, key), draws);
  }

  /** The other keys: pause stops the clock and starts it again, restart works after the end only. */
  lemma OtherKeys(g: Game, draws: Draws)
    requires g.body != []
    ensures Respond(g, Pause) == g.(paused := !g.paused) && Respond(Respond(g, Pause), Pause) == g
    ensures g.paused || g.over ==> Respond(g, Clock(draws)) == g
    ensures Respond(g, Restart(draws)) == if g.over then Fresh(draws) else g
  {
    hide Fresh, PlaceFood;
  }

  // ----- the game in place

  class Board {
    const body: array<Cell>
    var length: nat
    var dx: int
    var dy: int
    var nextDx: int
    var nextDy: int
    var food: Cell
    var score: int
    var paused: bool
    var over: bool

    ghost predicate Valid()
      reads this, body
    {
      body.Length == MAX_SNAKE && length <= MAX_SNAKE && Inv(View())
    }

    ghost function View(): Game
      requires length <= body.Length
      reads this, body
    {
      Game(body[..length], dx, dy, nextDx, nextDy, food, score, paused, over)
    }

    constructor (draws: Draws)
      ensures Valid() && fresh(body) && View() == Fresh(draws)
    {
      body := new Cell[MAX_SNAKE](_ => Cell(0, 0));
      length, dx, dy, nextDx, nextDy := 0, 0, 0, 0, 0;
      food, score, paused, over := Cell(0, 0), 0, false, false;
      new;
      Reset(draws);
    }

    /** occupies. */
    method Occupies(x: int, y: int) returns (found: bool)
      requires length <= body.Length
      ensures found <==> Cell(x, y) in body[..length]
    {
      for i := 0 to length
        invariant Cell(x, y) !in body[..i]
      {
        if body[i].x == x && body[i].y == y {
          assert body[..length][i] == Cell(x, y);
          return true;
        }
        assert body[..i + 1] == body[..i] + [body[i]];
      }
      return false;
    }

    /** place_food. */
    method PlaceFoodOnBoard(draws: Draws)
      requires length <= body.Length
      modifies `food
      ensures food == PlaceFood(body[..length], old(food), draws, 0)
    {
      for attempts := 0 to MAX_SNAKE
        invariant food == old(food)
        invariant PlaceFood(body[..length], old(food), draws, 0)
                  == PlaceFood(body[..length], old(food), draws, attempts)
      {
        var c := Drawn(draws, attempts);
        var taken := Occupies(c.x, c.y);
        if !taken {
          food := c;
          return;
        }
      }
    }

    /** reset_game. */
    method Reset(draws: Draws)
      requires body.Length == MAX_SNAKE
      modifies this, body
      ensures Valid() && View() == Fresh(draws)
    {
      hide Inv, PlaceFood;
      length, dx, dy, nextDx, nextDy := 5, 1, 0, 1, 0;
      food, score, paused, over := Cell(0, 0), 0, false, false;
      for i := 0 to 5
        modifies body
        invariant forall k :: 0 <= k < i ==> body[k] == Cell(15 - k, 9)
      {
        body[i] := Cell(GRID_W / 2 - i, GRID_H / 2);
      }
      assert body[..5] == [Cell(15, 9), Cell(14, 9), Cell(13, 9), Cell(12, 9), Cell(11, 9)];
      PlaceFoodOnBoard(draws);
      FreshKeeps(draws);
    }

    /** The shift of step: every cell but the first takes its predecessor's place. */
    method Shift(n: nat, head: Cell)
      requires 1 <= n <= body.Length
      modifies body
      ensures body[..n] == [head] + old(body[..n - 1])
    {
      for i := n - 1 downto 0
        invariant forall k :: 0 <= k <= i ==> body[k] == old(body[k])
        invariant forall k :: i < k < n ==> body[k] == old(body[k - 1])
      {
        body[i + 1] := body[i];
      }
      body[0] := head;
    }

    /** step. */
    method Step(draws: Draws)
      requires Valid()
      modifies this, body
      ensures Valid() && View() == Tick(old(View()), draws)
    {
      hide Inv, PlaceFood;
      ghost var g := View();
      TickKeeps(g, draws);
      if paused || over {
        return;
      }
      var head := body[0].Moved(nextDx, nextDy);
      var taken := Occupies(head.x, head.y);
      if !head.InGrid() || taken {
        dx, dy, over := nextDx, nextDy, true;
        return;
      }
      Advance(head, draws);
    }

    /** The move of step when nothing stands in the way. */
    method Advance(head: Cell, draws: Draws)
      requires body.Length == MAX_SNAKE && 1 <= length <= MAX_SNAKE && !paused && !over
      requires head == body[0].Moved(nextDx, nextDy) && head.InGrid() && head !in body[..length]
      modifies this, body
      ensures length <= body.Length && View() == Tick(old(View()), draws)
    {
      hide Inv, PlaceFood, Cell.InGrid;
      ghost var g := View();
      dx, dy := nextDx, nextDy;
      var ate := head == food;
      if ate && length < MAX_SNAKE {
        length := length + 1;
      }
      Shift(length, head);
      assert body[..length] == [head] + g.body[..length - 1];
      if ate {
        score := score + 10;
        PlaceFoodOnBoard(draws);
      }
    }

    /** direction. */
    method Direction(newDx: int, newDy: int)
      requires Valid() && Unit(newDx, newDy)
      modifies `nextDx, `nextDy
      ensures Valid() && View() == Turn(old(View()), newDx, newDy)
    {
      if newDx != -dx || newDy != -dy {
        nextDx := newDx;
        nextDy := newDy;
      }
    }
  }
}
