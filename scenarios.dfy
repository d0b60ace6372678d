/** A session driven through the public operations of the engine only, the
    way the driving loop uses it: construct, then step. */
module Scenarios {
  import opened Model

  /** On the 12 x 12 grid the program uses, six requests to go up from the
      start all continue, whatever food is placed and eaten: the head climbs
      five rows to the top and the sixth move wraps it to the bottom row. */
  method UpAcrossTheTopEdge() returns (heads: seq<Position>, results: seq<GameStep>)
    ensures heads == [Position(7, 4), Position(7, 3), Position(7, 2), Position(7, 1), Position(7, 0), Position(7, 11)]
    ensures |results| == 6 && forall i :: 0 <= i < 6 ==> results[i].Continue?
  {
    var game := new Game(12, 12);
    heads, results := [], [];
    var n := 0;
    while n < 5
      invariant 0 <= n <= 5 && game.Valid() && game.width == 12 && game.height == 12
      invariant game.lastDirection == Up && game.snake[0] == Position(7, 5 - n)
      invariant forall i :: 0 <= i < |game.snake| ==> game.snake[i].x != 7 || 5 - n <= game.snake[i].y <= 7
      invariant heads == [Position(7, 4), Position(7, 3), Position(7, 2), Position(7, 1), Position(7, 0)][..n]
      invariant |results| == n && forall i :: 0 <= i < n ==> results[i].Continue?
    {
      var r := game.Step(Up);
      heads, results := heads + [game.snake[0]], results + [r];
      n := n + 1;
    }
    var r := game.Step(Up);
    heads, results := heads + [game.snake[0]], results + [r];
  }
}
