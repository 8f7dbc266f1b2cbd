/** The region predicates of the agents: target area, stable area, deepest cell, and the
    10-cell triangles the board uses for its win test.

    The agents write each area as a 4x4 (target) or 3x3 (stable) corner square AND a
    diagonal clause that was meant to cut the square down to a triangle. The clause is
    implied by the two bounds, so every area is in fact the whole square; the lemmas
    and contracts below make that explicit. */
module Regions {
  import opened Topology

  /** A player's target area, as the minimax agent writes it (players 1 to 4); the greedy
      and A* agents write the same clauses for players 1 and 2. */
  predicate InTargetArea(player: int, p: Pos)
    ensures InTargetArea(player, p) <==> InTargetSquare(player, p)
  {
    if player == 1 then p.r >= 8 && p.c >= 8 && p.r + p.c >= 16
    else if player == 2 then p.r <= 3 && p.c <= 3 && p.r + p.c <= 6
    else if player == 3 then p.r <= 3 && p.c >= 8 && p.c - p.r >= 5
    else if player == 4 then p.r >= 8 && p.c <= 3 && p.r - p.c >= 5
    else false
  }

  /** A player's stable area: the innermost part of the target area. */
  predicate InStableArea(player: int, p: Pos)
    ensures InStableArea(player, p) <==> InStableSquare(player, p)
  {
    if player == 1 then p.r >= 9 && p.c >= 9 && p.r + p.c >= 18
    else if player == 2 then p.r <= 2 && p.c <= 2 && p.r + p.c <= 4
    else if player == 3 then p.r <= 2 && p.c >= 9 && p.c - p.r >= 7
    else if player == 4 then p.r >= 9 && p.c <= 2 && p.r - p.c >= 7
    else false
  }

  /** The 4x4 corner square: 1 bottom-right, 2 top-left, 3 top-right, 4 bottom-left. */
  predicate InTargetSquare(player: int, p: Pos) {
    (player == 1 && p.r >= 8 && p.c >= 8) ||
    (player == 2 && p.r <= 3 && p.c <= 3) ||
    (player == 3 && p.r <= 3 && p.c >= 8) ||
    (player == 4 && p.r >= 8 && p.c <= 3)
  }

  /** The 3x3 corner square inside the target square. */
  predicate InStableSquare(player: int, p: Pos) {
    (player == 1 && p.r >= 9 && p.c >= 9) ||
    (player == 2 && p.r <= 2 && p.c <= 2) ||
    (player == 3 && p.r <= 2 && p.c >= 9) ||
    (player == 4 && p.r >= 9 && p.c <= 2)
  }

  /** The greedy and A* agents only know players 1 and 2; for any other id their
      in_target_area is falsy. */
  predicate InTargetArea2(player: int, p: Pos) {
    (player == 1 || player == 2) && InTargetArea(player, p)
  }

  predicate InStableArea2(player: int, p: Pos) {
    (player == 1 || player == 2) && InStableArea(player, p)
  }

  /** The two-player areas are the corner squares of players 1 and 2, and empty for any
      other id. */
  lemma TwoPlayerAreas(player: int, p: Pos)
    ensures InTargetArea2(player, p) <==> (player == 1 || player == 2) && InTargetSquare(player, p)
    ensures InStableArea2(player, p) <==> (player == 1 || player == 2) && InStableSquare(player, p)
  {
  }

  lemma StableInTarget(player: int, p: Pos)
    ensures InStableArea(player, p) ==> InTargetArea(player, p)
    ensures InStableArea2(player, p) ==> InTargetArea2(player, p)
  {
  }

  /** The deepest cell of a player's target: the corner cell the distances are measured to. */
  function DeepTarget(player: int): (t: Pos)
    requires 1 <= player <= 4
    ensures InBounds(t) && InStableArea(player, t)
  {
    if player == 1 then Pos(11, 11)
    else if player == 2 then Pos(0, 0)
    else if player == 3 then Pos(0, 11)
    else Pos(11, 0)
  }

  /** Within the board the target square of a player has exactly 16 cells and its
      stable square 9: every cell (r, c) of the square is in the target area. */
  lemma TargetSquareCells(player: int, p: Pos)
    requires 1 <= player <= 4 && InBounds(p)
    ensures InTargetArea(player, p) <==> Abs(p.r - DeepTarget(player).r) <= 3 && Abs(p.c - DeepTarget(player).c) <= 3
    ensures InStableArea(player, p) <==> Abs(p.r - DeepTarget(player).r) <= 2 && Abs(p.c - DeepTarget(player).c) <= 2
  {
  }

  /** The 10 cells of the triangle a player must fill to win (the board's win test and
      the A* agent's congestion rule list them explicitly); only players 1 and 2 have one. */
  function TargetTriangle(player: int): (cells: seq<Pos>)
    ensures player == 1 || player == 2 ==> |cells| == 10
    ensures player != 1 && player != 2 ==> cells == []
    ensures forall k :: 0 <= k < |cells| ==> InBounds(cells[k])
  {
    if player == 1 then
      [Pos(11, 11),
       Pos(11, 10), Pos(10, 11),
       Pos(11, 9), Pos(10, 10), Pos(9, 11),
       Pos(11, 8), Pos(10, 9), Pos(9, 10), Pos(8, 11)]
    else if player == 2 then
      [Pos(0, 0),
       Pos(0, 1), Pos(1, 0),
       Pos(0, 2), Pos(1, 1), Pos(2, 0),
       Pos(0, 3), Pos(1, 2), Pos(2, 1), Pos(3, 0)]
    else []
  }

  /** The triangle is the set of cells within distance 3 of the deep corner: a proper
      subset of the target square, which the agents' target test does not single out. */
  lemma TriangleShape(player: int, p: Pos)
    requires player == 1 || player == 2
    ensures p in TargetTriangle(player) <==> InBounds(p) && Manhattan(p, DeepTarget(player)) <= 3
    ensures p in TargetTriangle(player) ==> InTargetArea(player, p)
    ensures Distinct(TargetTriangle(player))
  {
  }
}
