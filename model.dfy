/** The simulation engine of a Snake game on a toroidal grid (the `model`
    module of the program): directions, positions, the derived board of
    tiles, food placement and the `Game` state machine that one `Step`
    advances by one cell. */
module Model {

  // ---------------------------------------------------------------------
  // Values
  // ---------------------------------------------------------------------

  datatype Option<T> = None | Some(value: T)

  datatype Direction = Up | Down | Left | Right

  /** A cell of the grid; `x` is the column, `y` the row (row 0 is the top). */
  datatype Position = Position(x: nat, y: nat)

  datatype Tile = Snake | Head | Food | Empty

  /** A derived snapshot: `tiles` holds the grid in row-major order. */
  datatype Board = Board(width: nat, height: nat, tiles: seq<Tile>)

  datatype GameStep = Lose | Continue(board: Board)

  // ---------------------------------------------------------------------
  // Direction algebra
  // ---------------------------------------------------------------------

  /** The direction pointing the other way. */
  function Opposite(d: Direction): (r: Direction)
    ensures r != d
    ensures (d == Up || d == Down) <==> (r == Up || r == Down)
  {
    match d
    case Up => Down
    case Down => Up
    case Left => Right
    case Right => Left
  }

  lemma OppositeInvolutive(d: Direction)
    ensures Opposite(Opposite(d)) == d
  {
  }

  /** The direction a step actually takes: a request to reverse onto the
      body is replaced by the last direction, any other request is kept. */
  function Resolve(requested: Direction, last: Direction): (r: Direction)
    ensures r != Opposite(last)
    ensures r == requested <==> requested != Opposite(last)
    ensures r != requested ==> r == last
  {
    if requested == Opposite(last) then last else requested
  }

  // ---------------------------------------------------------------------
  // Toroidal geometry
  // ---------------------------------------------------------------------

  predicate InBounds(p: Position, width: nat, height: nat) {
    p.x < width && p.y < height
  }

  /** Column offset of one move in direction `d`. */
  function DeltaX(d: Direction): int {
    match d
    case Left => -1
    case Right => 1
    case _ => 0
  }

  /** Row offset of one move in direction `d` (rows grow downwards). */
  function DeltaY(d: Direction): int {
    match d
    case Up => -1
    case Down => 1
    case _ => 0
  }

  /** Reference definition of a move on the torus: shift by the offset and
      reduce modulo the size of the grid in each coordinate. */
  function Shifted(p: Position, d: Direction, width: nat, height: nat): Position
    requires width > 0 && height > 0
    requires InBounds(p, width, height)
  {
    Position((p.x + DeltaX(d) + width) % width, (p.y + DeltaY(d) + height) % height)
  }

  /** The cell one move from `head`, wrapping independently at each edge. */
  function NextHead(head: Position, direction: Direction, width: nat, height: nat): (p: Position)
    requires width > 0 && height > 0
    ensures InBounds(head, width, height) ==> InBounds(p, width, height)
    ensures InBounds(head, width, height) ==> p == Shifted(head, direction, width, height)
  {
    ModArith(head.x, width);
    ModArith(head.y, height);
    match direction
    case Up => Position(head.x, if head.y > 0 then head.y - 1 else height - 1)
    case Down => Position(head.x, if head.y + 1 < height then head.y + 1 else 0)
    case Left => Position(if head.x > 0 then head.x - 1 else width - 1, head.y)
    case Right => Position(if head.x + 1 < width then head.x + 1 else 0, head.y)
  }

  /** Reduction modulo `n` of the three values a move can produce from a
      coordinate `c < n`. */
  lemma ModArith(c: nat, n: nat)
    requires 0 < n
    ensures c < n ==> (c + n) % n == c
    ensures c < n && c > 0 ==> (c - 1 + n) % n == c - 1
    ensures c < n && c == 0 ==> (c - 1 + n) % n == n - 1
    ensures c < n && c + 1 < n ==> (c + 1 + n) % n == c + 1
    ensures c < n && c + 1 == n ==> (c + 1 + n) % n == 0
  {
    if c < n {
      ModOfRange(c + n, n, 1);
      ModOfRange(c - 1 + n, n, if c > 0 then 1 else 0);
      ModOfRange(c + 1 + n, n, if c + 1 < n then 1 else 2);
    }
  }

  /** `a % n` for `a` known to lie in `[q * n, q * n + n)` with `q` at most 2. */
  lemma ModOfRange(a: int, n: int, q: int)
    requires 0 < n && 0 <= q <= 2
    requires q * n <= a < q * n + n
    ensures a % n == a - q * n
  {
    var r := a % n;
    var k := a / n;
    assert a == k * n + r && 0 <= r < n;
    if k > q {
      MulMono(q + 1, k, n);
    }
  }

  lemma {:induction false} MulMono(a: int, b: int, c: nat)
    requires a <= b
    ensures a * c <= b * c
    decreases b - a
  {
    if a < b {
      MulMono(a + 1, b, c);
      assert (a + 1) * c == a * c + c;
    }
  }

  /** Moving back the opposite way undoes a move. */
  lemma NextHeadReversible(head: Position, d: Direction, width: nat, height: nat)
    requires width > 0 && height > 0
    requires InBounds(head, width, height)
    ensures NextHead(NextHead(head, d, width, height), Opposite(d), width, height) == head
  {
  }

  /** The four edge cases of the wrap-around, the other coordinate kept. */
  lemma NextHeadWraps(head: Position, width: nat, height: nat)
    requires width > 0 && height > 0
    ensures head.y == 0 ==> NextHead(head, Up, width, height) == Position(head.x, height - 1)
    ensures head.y == height - 1 ==> NextHead(head, Down, width, height) == Position(head.x, 0)
    ensures head.x == 0 ==> NextHead(head, Left, width, height) == Position(width - 1, head.y)
    ensures head.x == width - 1 ==> NextHead(head, Right, width, height) == Position(0, head.y)
  {
  }

  // ---------------------------------------------------------------------
  // Snake bodies and the game invariant
  // ---------------------------------------------------------------------

  predicate AllInBounds(s: seq<Position>, width: nat, height: nat) {
    forall i :: 0 <= i < |s| ==> InBounds(s[i], width, height)
  }

  predicate Distinct(s: seq<Position>) {
    forall i, j :: 0 <= i < j < |s| ==> s[i] != s[j]
  }

  /** Every cell of the grid lies on `s`: no free cell is left. */
  ghost predicate Covers(s: seq<Position>, width: nat, height: nat) {
    forall p :: InBounds(p, width, height) ==> p in s
  }

  /** The invariant of a game's state: a non-empty body of distinct cells
      inside the grid, and food on a free cell, or absent only when the
      body covers the grid. */
  ghost predicate WellFormed(width: nat, height: nat, snake: seq<Position>, food: Option<Position>) {
    && |snake| >= 1
    && AllInBounds(snake, width, height)
    && Distinct(snake)
    && match food
       case Some(f) => InBounds(f, width, height) && f !in snake
       case None => Covers(snake, width, height)
  }

  // ---------------------------------------------------------------------
  // Food placement
  // ---------------------------------------------------------------------

  /** The cells of row `y`, left to right. */
  function RowCells(width: nat, y: nat): (r: seq<Position>)
    ensures |r| == width
    ensures forall x :: 0 <= x < width ==> r[x] == Position(x, y)
  {
    seq(width, x requires 0 <= x < width => Position(x, y))
  }

  /** Every cell of a `width` x `height` grid in row-major order. */
  function Cells(width: nat, height: nat): (r: seq<Position>)
    ensures |r| == width * height
    ensures Distinct(r)
    ensures forall p :: p in r <==> InBounds(p, width, height)
  {
    if height == 0 then []
    else
      var rest := Cells(width, height - 1);
      var row := RowCells(width, height - 1);
      assert forall p: Position :: p in row <==> p.y == height - 1 && p.x < width by {
        forall p: Position | p.y == height - 1 && p.x < width ensures p in row {
          assert row[p.x] == p;
        }
      }
      assert width * (height - 1) + width == width * height;
      forall i, j | 0 <= i < j < |rest + row| ensures (rest + row)[i] != (rest + row)[j] {
        if i < |rest| <= j {
          assert (rest + row)[i] in rest;
        }
      }
      rest + row
  }

  /** The cells of `cells` that are not on `snake`, in their order. */
  function Free(cells: seq<Position>, snake: seq<Position>): (r: seq<Position>)
    ensures forall p :: p in r <==> p in cells && p !in snake
  {
    if cells == [] then []
    else if cells[0] in snake then Free(cells[1..], snake)
    else [cells[0]] + Free(cells[1..], snake)
  }

  /** The candidates for food: every free cell, in row-major order. */
  function Candidates(snake: seq<Position>, width: nat, height: nat): (r: seq<Position>)
    ensures forall p :: p in r <==> InBounds(p, width, height) && p !in snake
  {
    Free(Cells(width, height), snake)
  }

  /** Picks some free cell for the food, or `None` when there is none.  The
      pick among the candidates stands for the random draw. */
  method NextFood(snake: seq<Position>, width: nat, height: nat) returns (food: Option<Position>)
    ensures food.Some? ==> InBounds(food.value, width, height) && food.value !in snake
    ensures food.None? <==> Covers(snake, width, height)
    ensures AllInBounds(snake, width, height) && Distinct(snake) ==>
              (food.None? <==> |snake| == width * height)
  {
    var candidates := Candidates(snake, width, height);
    if |candidates| == 0 {
      food := None;
    } else {
      var i :| 0 <= i < |candidates|;
      food := Some(candidates[i]);
    }
    if AllInBounds(snake, width, height) && Distinct(snake) {
      CoversIffFull(snake, width, height);
    }
  }

  /** A body of distinct cells inside the grid covers the grid exactly when
      its length is the number of cells. */
  lemma CoversIffFull(snake: seq<Position>, width: nat, height: nat)
    requires AllInBounds(snake, width, height) && Distinct(snake)
    ensures Covers(snake, width, height) <==> |snake| == width * height
  {
    var cells := Cells(width, height);
    var body := set p | p in snake;
    var grid := set p | p in cells;
    DistinctCard(snake);
    DistinctCard(cells);
    assert body <= grid;
    SubsetCard(body, grid);
    if Covers(snake, width, height) {
      forall p | p in grid ensures p in body {
        assert InBounds(p, width, height);
      }
      assert body == grid;
    }
    if |snake| == width * height {
      assert body == grid;
      forall p | InBounds(p, width, height) ensures p in snake {
        assert p in cells;
        assert p in grid;
      }
    }
  }

  /** A sequence without repetitions has as many elements as its set. */
  lemma {:induction false} DistinctCard(s: seq<Position>)
    requires Distinct(s)
    ensures |set p | p in s| == |s|
  {
    if s != [] {
      DistinctCard(s[1..]);
      assert (set p | p in s) == (set p | p in s[1..]) + {s[0]};
      assert s[0] !in s[1..];
    }
  }

  lemma SubsetCard<T>(a: set<T>, b: set<T>)
    requires a <= b
    ensures |a| <= |b|
    ensures |a| == |b| ==> a == b
  {
    assert b == a + (b - a);
    assert a * (b - a) == {};
    if |a| == |b| {
      assert |b - a| == 0;
    }
  }

  // ---------------------------------------------------------------------
  // Board derivation
  // ---------------------------------------------------------------------

  /** Row-major index of a cell in a grid `width` cells wide. */
  function Index(p: Position, width: nat): nat {
    p.y * width + p.x
  }

  /** Inside the grid, the index is a bijection onto `[0, width * height)`. */
  lemma IndexInGrid(p: Position, q: Position, width: nat, height: nat)
    requires InBounds(p, width, height) && InBounds(q, width, height)
    ensures Index(p, width) < width * height
    ensures Index(p, width) == Index(q, width) <==> p == q
  {
    RowStart(p.y, height, width);
    if p.y < q.y {
      RowStart(p.y, q.y, width);
    } else if q.y < p.y {
      RowStart(q.y, p.y, width);
    }
  }

  /** Every index of row `a` lies below the start of any later row `b`. */
  lemma RowStart(a: nat, b: nat, width: nat)
    requires a < b
    ensures a * width + width <= b * width
    ensures b * width == width * b
  {
    MulMono(a + 1, b, width);
    assert (a + 1) * width == a * width + width;
  }

  /** Some cell of `s` has index `k`. */
  predicate OnSnake(k: int, width: nat, s: seq<Position>) {
    exists i :: 0 <= i < |s| && Index(s[i], width) == k
  }

  /** The tile at index `k` once the food and then the cells of `s` have
      been painted over an empty grid (later paint wins). */
  function Painted(k: int, width: nat, food: Option<Position>, s: seq<Position>): Tile {
    if OnSnake(k, width, s) then Snake
    else if food.Some? && Index(food.value, width) == k then Food
    else Empty
  }

  /** The tile at index `k` of the board: the head is painted last. */
  function TileAt(k: int, width: nat, food: Option<Position>, snake: seq<Position>): Tile {
    if |snake| > 0 && Index(snake[0], width) == k then Head
    else Painted(k, width, food, snake)
  }

  /** The board derived from a state. */
  function BoardOf(width: nat, height: nat, food: Option<Position>, snake: seq<Position>): (b: Board)
    ensures b.width == width && b.height == height && |b.tiles| == width * height
  {
    Board(width, height, seq(width * height, k => TileAt(k, width, food, snake)))
  }

  /** Builds the board: an all-`Empty` grid, then the food, every snake cell
      and finally the head are written into it in place. */
  method NewBoard(width: nat, height: nat, food: Option<Position>, snake: seq<Position>)
    returns (board: Board)
    requires food.Some? ==> Index(food.value, width) < width * height
    requires forall i :: 0 <= i < |snake| ==> Index(snake[i], width) < width * height
    ensures board == BoardOf(width, height, food, snake)
  {
    var tiles := new Tile[width * height](_ => Empty);
    match food {
      case Some(f) => tiles[Index(f, width)] := Food;
      case None =>
    }
    for i := 0 to |snake|
      invariant forall k :: 0 <= k < tiles.Length ==> tiles[k] == Painted(k, width, food, snake[..i])
    {
      tiles[Index(snake[i], width)] := Snake;
      forall k | 0 <= k < tiles.Length
        ensures OnSnake(k, width, snake[..i + 1]) <==> OnSnake(k, width, snake[..i]) || k == Index(snake[i], width)
      {
        assert snake[..i + 1][i] == snake[i];
        if OnSnake(k, width, snake[..i]) {
          var j :| 0 <= j < i && Index(snake[..i][j], width) == k;
          assert snake[..i + 1][j] == snake[..i][j];
        }
        if OnSnake(k, width, snake[..i + 1]) && k != Index(snake[i], width) {
          var j :| 0 <= j < i + 1 && Index(snake[..i + 1][j], width) == k;
          assert snake[..i][j] == snake[..i + 1][j];
        }
      }
    }
    assert snake[..|snake|] == snake;
    if |snake| > 0 {
      tiles[Index(snake[0], width)] := Head;
    }
    board := Board(width, height, tiles[..]);
  }

  /** What a cell of the board shows, for a body and food inside the grid:
      the head, another body cell, food off the body, or nothing. */
  lemma BoardCell(width: nat, height: nat, food: Option<Position>, snake: seq<Position>, p: Position)
    requires |snake| >= 1 && AllInBounds(snake, width, height)
    requires food.Some? ==> InBounds(food.value, width, height)
    requires InBounds(p, width, height)
    ensures Index(p, width) < width * height
    ensures var t := BoardOf(width, height, food, snake).tiles[Index(p, width)];
            && (t == Head <==> p == snake[0])
            && (t == Snake <==> p in snake && p != snake[0])
            && (t == Food <==> food == Some(p) && p !in snake)
            && (t == Empty <==> p !in snake && food != Some(p))
  {
    var k := Index(p, width);
    IndexInGrid(p, p, width, height);
    IndexInGrid(p, snake[0], width, height);
    if food.Some? {
      IndexInGrid(p, food.value, width, height);
    }
    assert OnSnake(k, width, snake) <==> p in snake by {
      if OnSnake(k, width, snake) {
        var i :| 0 <= i < |snake| && Index(snake[i], width) == k;
        IndexInGrid(p, snake[i], width, height);
      }
      if p in snake {
        var i :| 0 <= i < |snake| && snake[i] == p;
        assert Index(snake[i], width) == k;
      }
    }
  }

  /** The rows of a board, `width` tiles each (`Board::iter`). */
  function Rows(board: Board): (rows: seq<seq<Tile>>)
    requires board.width > 0
    ensures Concat(rows) == board.tiles
    ensures forall i :: 0 <= i < |rows| ==> 0 < |rows[i]| <= board.width
  {
    Chunks(board.tiles, board.width)
  }

  /** Consecutive pieces of `n` elements, the last one possibly shorter. */
  function Chunks<T>(s: seq<T>, n: nat): (r: seq<seq<T>>)
    requires n > 0
    ensures Concat(r) == s
    ensures forall i :: 0 <= i < |r| ==> 0 < |r[i]| <= n
    decreases |s|
  {
    if |s| <= n then (if s == [] then [] else [s])
    else [s[..n]] + Chunks(s[n..], n)
  }

  function Concat<T>(rows: seq<seq<T>>): seq<T> {
    if rows == [] then [] else rows[0] + Concat(rows[1..])
  }

  /** `i * n` as repeated addition, which keeps the solver's reasoning about
      pieces linear. */
  function Times(i: nat, n: nat): nat {
    if i == 0 then 0 else Times(i - 1, n) + n
  }

  lemma {:induction false} TimesIsProduct(i: nat, n: nat)
    ensures Times(i, n) == i * n
  {
    if i > 0 {
      TimesIsProduct(i - 1, n);
      assert (i - 1) * n + n == i * n;
    }
  }

  /** A sequence of `k` pieces of `n` elements splits into `k` full pieces,
      the `i`-th holding the elements from `i * n` up to `i * n + n`. */
  lemma {:induction false} ChunkAt<T>(s: seq<T>, n: nat, k: nat, i: nat)
    requires n > 0 && |s| == Times(k, n) && i < k
    ensures |Chunks(s, n)| == k
    ensures Times(i, n) + n <= |s| && Chunks(s, n)[i] == s[Times(i, n) .. Times(i, n) + n]
  {
    if k == 1 {
      assert |s| == n;
    } else {
      var rest := s[n..];
      assert Times(k - 1, n) >= n by { TimesIsProduct(k - 1, n); MulMono(1, k - 1, n); }
      assert Chunks(s, n) == [s[..n]] + Chunks(rest, n);
      ChunkAt(rest, n, k - 1, if i == 0 then 0 else i - 1);
    }
  }

  /** `Board::iter` on a derived board gives `height` rows of `width` tiles,
      and tile `x` of row `y` is the tile of cell `(x, y)`. */
  lemma RowsOfBoard(width: nat, height: nat, food: Option<Position>, snake: seq<Position>)
    requires width > 0
    ensures |Rows(BoardOf(width, height, food, snake))| == height
    ensures forall y :: 0 <= y < height ==> |Rows(BoardOf(width, height, food, snake))[y]| == width
    ensures forall y: nat, x: nat :: y < height && x < width ==>
              Rows(BoardOf(width, height, food, snake))[y][x] == TileAt(Index(Position(x, y), width), width, food, snake)
  {
    if height > 0 {
      RowTile(width, height, food, snake, 0, 0);
    } else {
      assert BoardOf(width, height, food, snake).tiles == [];
    }
    forall y: nat | y < height
      ensures |Rows(BoardOf(width, height, food, snake))[y]| == width
    {
      RowTile(width, height, food, snake, y, 0);
    }
    forall y: nat, x: nat | y < height && x < width
      ensures Rows(BoardOf(width, height, food, snake))[y][x] == TileAt(Index(Position(x, y), width), width, food, snake)
    {
      RowTile(width, height, food, snake, y, x);
    }
  }

  lemma RowTile(width: nat, height: nat, food: Option<Position>, snake: seq<Position>, y: nat, x: nat)
    requires width > 0 && y < height && x < width
    ensures var b := BoardOf(width, height, food, snake);
            && |Rows(b)| == height && |Rows(b)[y]| == width
            && Rows(b)[y][x] == TileAt(Index(Position(x, y), width), width, food, snake)
  {
    var b := BoardOf(width, height, food, snake);
    TimesIsProduct(height, width);
    ChunkAt(b.tiles, width, height, y);
    var k := Times(y, width) + x;
    assert k == Index(Position(x, y), width) by { TimesIsProduct(y, width); }
    assert Rows(b)[y][x] == b.tiles[k];
  }

  // ---------------------------------------------------------------------
  // Moving the body
  // ---------------------------------------------------------------------

  /** Pushing a free in-grid cell onto the front keeps the body a set of
      distinct in-grid cells, one longer, with every old cell kept. */
  lemma GrowBody(snake: seq<Position>, head: Position, width: nat, height: nat)
    requires AllInBounds(snake, width, height) && Distinct(snake)
    requires InBounds(head, width, height) && head !in snake
    ensures AllInBounds([head] + snake, width, height) && Distinct([head] + snake)
    ensures |[head] + snake| == |snake| + 1
    ensures forall p :: p in [head] + snake <==> p == head || p in snake
  {
  }

  /** Pushing a free in-grid cell onto the front and dropping the tail keeps
      the body a set of distinct in-grid cells of the same length; the old
      tail is vacated and every other old cell kept. */
  lemma SlideBody(snake: seq<Position>, head: Position, width: nat, height: nat)
    requires |snake| >= 1 && AllInBounds(snake, width, height) && Distinct(snake)
    requires InBounds(head, width, height) && head !in snake
    ensures var moved := [head] + snake[..|snake| - 1];
            && AllInBounds(moved, width, height) && Distinct(moved)
            && |moved| == |snake|
            && snake[|snake| - 1] !in moved
            && forall p :: p in moved <==> p == head || (p in snake && p != snake[|snake| - 1])
  {
    var tail := snake[|snake| - 1];
    var moved := [head] + snake[..|snake| - 1];
    forall p ensures p in moved <==> p == head || (p in snake && p != tail) {
      if p in snake && p != tail {
        var i :| 0 <= i < |snake| && snake[i] == p;
        assert snake[..|snake| - 1][i] == p;
      }
    }
  }

  // ---------------------------------------------------------------------
  // The game
  // ---------------------------------------------------------------------

  /** The state of one session.  `snake` lists the body from head to tail. */
  class Game {
    const width: nat
    const height: nat
    var snake: seq<Position>
    var food: Option<Position>
    var lastDirection: Direction

    ghost predicate Valid()
      reads this
    {
      WellFormed(width, height, snake, food)
    }

    /** A new game: the fixed five-cell body heading up, food on a free cell. */
    constructor (width: nat, height: nat)
      requires width >= 8 && height >= 8
      ensures Valid()
      ensures this.width == width && this.height == height
      ensures snake == [Position(7, 5), Position(7, 6), Position(7, 7), Position(6, 7), Position(5, 7)]
      ensures food.Some? && lastDirection == Up
    {
      var initial := [Position(7, 5), Position(7, 6), Position(7, 7), Position(6, 7), Position(5, 7)];
      var f := NextFood(initial, width, height);
      assert InBounds(Position(0, 0), width, height) && Position(0, 0) !in initial;
      this.width := width;
      this.height := height;
      snake := initial;
      food := f;
      lastDirection := Up;
    }

    /** The front of the body. */
    function Head(): (p: Position)
      reads this
      requires |snake| >= 1
      ensures p in snake && p == snake[0]
      ensures Valid() ==> InBounds(p, width, height)
    {
      snake[0]
    }

    /** A fresh snapshot of the current state. */
    method CurrentBoard() returns (board: Board)
      requires Valid()
      ensures board == BoardOf(width, height, food, snake)
    {
      forall i | 0 <= i < |snake| ensures Index(snake[i], width) < width * height {
        IndexInGrid(snake[i], snake[i], width, height);
      }
      if food.Some? {
        IndexInGrid(food.value, food.value, width, height);
      }
      board := NewBoard(width, height, food, snake);
    }

    /** Advances the game by one cell in the requested direction (a
        reversal is replaced by the last direction).  Running into any
        current cell, the tail included, loses and changes nothing;
        otherwise the head moves, the body grows when the food is eaten and
        keeps its length otherwise, and the new board is returned. */
    method Step(direction: Direction) returns (result: GameStep)
      requires Valid()
      modifies this
      ensures Valid()
      ensures var resolved := Resolve(direction, old(lastDirection));
              var head := NextHead(old(snake)[0], resolved, width, height);
              if head in old(snake) then
                && result == Lose
                && snake == old(snake) && food == old(food) && lastDirection == old(lastDirection)
              else
                && lastDirection == resolved
                && (if old(food) == Some(head) then
                      && snake == [head] + old(snake)
                      && (food.None? <==> |snake| == width * height)
                    else
                      && snake == [head] + old(snake)[..|old(snake)| - 1]
                      && food == old(food))
                && result == Continue(BoardOf(width, height, food, snake))
    {
      var resolved := Resolve(direction, lastDirection);
      var head := NextHead(Head(), resolved, width, height);
      if head in snake {
        return Lose;
      }
      ghost var body := snake;
      snake := [head] + snake;
      var eat := food == Some(head);
      if eat {
        GrowBody(body, head, width, height);
        food := NextFood(snake, width, height);
      } else {
        SlideBody(body, head, width, height);
        assert snake[..|snake| - 1] == [head] + body[..|body| - 1];
        snake := snake[..|snake| - 1];
      }
      lastDirection := resolved;
      var board := CurrentBoard();
      result := Continue(board);
    }
  }
}
