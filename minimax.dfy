/** The minimax agent (ai/minimax_ai.py), for players 1 to 4: after the corner rule of
    move_utils, it plays the first move whose alpha-beta value (the opponent to move,
    depth - 1 plies left) is largest. The opponent is fixed: player 1 for every other
    id, player 2 for player 1. Leaves are scored by `evaluate`, a sum over the player's
    pieces of a distance penalty and target and stable area bonuses.

    The search methods are proved against plain minimax functions (MaxSpec, MinSpec):
    each returns a fail-soft alpha-beta value of the exact minimax value. The infinities
    the program starts its windows and running values with are the Ext values NegInf and
    PosInf. */
module MinimaxAgent {
  import opened Topology
  import opened Regions
  import MoveUtils
  import GameBoard

  // ---------------------------------------------------------------- extended integers

  /** An integer or one of Python's float('-inf') and float('inf'). */
  datatype Ext = NegInf | Fin(n: int) | PosInf

  /** a < b. */
  predicate Less(a: Ext, b: Ext) {
    (a.NegInf? && !b.NegInf?) || (a.Fin? && (b.PosInf? || (b.Fin? && a.n < b.n)))
  }

  predicate AtMost(a: Ext, b: Ext) {
    a == b || Less(a, b)
  }

  /** Python's max(a, b): b only if it is larger. */
  function Max(a: Ext, b: Ext): (r: Ext)
    ensures AtMost(a, r) && AtMost(b, r) && (r == a || r == b)
  {
    if Less(a, b) then b else a
  }

  /** Python's min(a, b): b only if it is smaller. */
  function Min(a: Ext, b: Ext): (r: Ext)
    ensures AtMost(r, a) && AtMost(r, b) && (r == a || r == b)
  {
    if Less(b, a) then b else a
  }

  /** The fixed opponent of min_value. */
  function Opponent(player: int): (opp: int)
    ensures opp == 1 || opp == 2
    ensures opp != player || player == 1 || player == 2
    ensures player == 1 ==> opp == 2
  {
    if player != 1 then 1 else 2
  }

  // ---------------------------------------------------------------- evaluation

  /** The score of one piece at p: minus twice its Manhattan distance to the deep corner,
      plus 50 inside the target area and another 100 inside the stable area. */
  function PieceValue(player: int, p: Pos): int
    requires 1 <= player <= 4
  {
    var bonus := if InTargetArea(player, p) then 50 + (if InStableArea(player, p) then 100 else 0) else 0;
    bonus - 2 * Manhattan(p, DeepTarget(player))
  }

  /** On the board a piece is worth between -44 and 150; any piece in the stable area
      is worth more than any piece outside it, and any piece in the target area more than
      any piece outside the target. */
  lemma PieceValueSpec(player: int, p: Pos, q: Pos)
    requires 1 <= player <= 4 && InBounds(p) && InBounds(q)
    ensures -44 <= PieceValue(player, p) <= 150
    ensures PieceValue(player, p) == 150 <==> p == DeepTarget(player)
    ensures InStableArea(player, p) && !InStableArea(player, q) ==> PieceValue(player, p) > PieceValue(player, q)
    ensures InTargetArea(player, p) && !InTargetArea(player, q) ==> PieceValue(player, p) > PieceValue(player, q)
  {
    TargetSquareCells(player, p);
    TargetSquareCells(player, q);
  }

  /** The scores of the pieces ps, summed in order. */
  function SumValues(player: int, ps: seq<Pos>): int
    requires 1 <= player <= 4 || ps == []
  {
    if ps == [] then 0 else SumValues(player, ps[..|ps| - 1]) + PieceValue(player, ps[|ps| - 1])
  }

  /** evaluate(board). For an id other than 1 to 4 the program has no target; it only
      gets through when the id has no pieces, and then scores 0. */
  function Evaluation(g: Grid, player: int): int
    requires 1 <= player <= 4 || Pieces(g, player) == []
  {
    SumValues(player, Pieces(g, player))
  }

  /** evaluate(board): the player's pieces in row-major order, scored one by one. */
  method Evaluate(g: Grid, player: int) returns (score: int)
    requires 1 <= player <= 4 || Pieces(g, player) == []
    ensures score == Evaluation(g, player)
  {
    score := ScorePieces(player, Pieces(g, player));
  }

  /** The loop of evaluate over the pieces ps. */
  method ScorePieces(player: int, ps: seq<Pos>) returns (score: int)
    requires 1 <= player <= 4 || ps == []
    ensures score == SumValues(player, ps)
  {
    score := 0;
    for i := 0 to |ps|
      invariant score == SumValues(player, ps[..i])
    {
      var piece := ps[i];
      SumValuesSnoc(player, ps, i);
      ghost var before := score;
      var target := DeepTarget(player);
      var distance := Abs(piece.r - target.r) + Abs(piece.c - target.c);
      score := score - distance * 2;
      if InTargetArea(player, piece) {
        score := score + 50;
        if InStableArea(player, piece) {
          score := score + 100;
        }
      }
      assert score == before + PieceValue(player, piece);
    }
    assert ps[..|ps|] == ps;
  }

  /** The sum over one more piece adds that piece's score. */
  lemma SumValuesSnoc(player: int, ps: seq<Pos>, i: nat)
    requires 1 <= player <= 4 && i < |ps|
    ensures SumValues(player, ps[..i + 1]) == SumValues(player, ps[..i]) + PieceValue(player, ps[i])
  {
    assert ps[..i + 1][..i] == ps[..i];
  }

  /** The evaluation lies between -44 and 150 times the number of pieces. */
  lemma {:induction false} SumValuesRange(player: int, ps: seq<Pos>)
    requires 1 <= player <= 4 && forall k :: 0 <= k < |ps| ==> InBounds(ps[k])
    ensures -44 * |ps| <= SumValues(player, ps) <= 150 * |ps|
  {
    if ps != [] {
      SumValuesRange(player, ps[..|ps| - 1]);
      PieceValueSpec(player, ps[|ps| - 1], ps[|ps| - 1]);
    }
  }

  lemma EvaluationRange(g: Grid, player: int)
    requires 1 <= player <= 4
    ensures -44 * Count(g, player) <= Evaluation(g, player) <= 150 * Count(g, player)
  {
    PiecesCount(g, player);
    SumValuesRange(player, Pieces(g, player));
  }

  /** The scores of the player's pieces among the first n cells, summed cell by cell. */
  function CellSum(g: Grid, player: int, n: nat): int
    requires 1 <= player <= 4 && n <= CellCount
  {
    if n == 0 then 0
    else CellSum(g, player, n - 1) + (if g[n - 1] == player then PieceValue(player, PosAt(n - 1)) else 0)
  }

  lemma {:induction false} SumValuesCells(g: Grid, player: int, n: nat)
    requires 1 <= player <= 4 && n <= CellCount
    ensures SumValues(player, PiecesBelow(g, player, n)) == CellSum(g, player, n)
  {
    if n > 0 {
      SumValuesCells(g, player, n - 1);
      var front := PiecesBelow(g, player, n - 1);
      if g[n - 1] == player {
        assert PiecesBelow(g, player, n) == front + [PosAt(n - 1)];
        assert (front + [PosAt(n - 1)])[..|front|] == front;
      } else {
        assert PiecesBelow(g, player, n) == front;
      }
    }
  }

  /** Cell by cell, the cells the move changes account for the whole difference. */
  lemma {:induction false} CellSumMoved(g: Grid, player: int, src: Pos, dst: Pos, n: nat)
    requires 1 <= player <= 4 && n <= CellCount
    requires InBounds(src) && InBounds(dst) && src != dst && At(g, dst) == 0
    ensures CellSum(Moved(g, src, dst), player, n) ==
      CellSum(g, player, n) +
      (if At(g, src) == player then
         (if Idx(dst) < n then PieceValue(player, dst) else 0) - (if Idx(src) < n then PieceValue(player, src) else 0)
       else 0)
  {
    if n > 0 {
      CellSumMoved(g, player, src, dst, n - 1);
      var h := Moved(g, src, dst);
      var p := PosAt(n - 1);
      PosAtIdx(src);
      PosAtIdx(dst);
      assert h[n - 1] == At(h, p) && g[n - 1] == At(g, p);
      if p == src {
        assert h[n - 1] == 0;
      } else if p == dst {
        assert h[n - 1] == g[Idx(src)] && g[n - 1] == 0;
      } else {
        assert h[n - 1] == g[n - 1];
      }
    }
  }

  /** Moving one of the player's pieces from src to the empty cell dst changes the
      evaluation by the two cells' piece scores; moving anyone else's changes nothing. */
  lemma MovedEvaluation(g: Grid, player: int, src: Pos, dst: Pos)
    requires 1 <= player <= 4 && InBounds(src) && InBounds(dst) && src != dst && At(g, dst) == 0
    ensures At(g, src) == player ==>
      Evaluation(Moved(g, src, dst), player) == Evaluation(g, player) - PieceValue(player, src) + PieceValue(player, dst)
    ensures At(g, src) != player ==> Evaluation(Moved(g, src, dst), player) == Evaluation(g, player)
  {
    SumValuesCells(g, player, CellCount);
    SumValuesCells(Moved(g, src, dst), player, CellCount);
    CellSumMoved(g, player, src, dst, CellCount);
  }

  // ---------------------------------------------------------------- terminal test

  /** The 4x4 square whose cells terminal counts for player v (1 to 4), row by row. */
  function SquareCells(v: int): (cs: seq<Pos>)
    requires 1 <= v <= 4
    ensures |cs| == 16
  {
    var r0 := if v == 1 || v == 4 then 8 else 0;
    var c0 := if v == 1 || v == 3 then 8 else 0;
    seq(16, k requires 0 <= k < 16 => Pos(r0 + k / 4, c0 + k % 4))
  }

  /** The diagonal clause terminal adds to the square. */
  predicate Diagonal(v: int, p: Pos) {
    if v == 1 then p.r + p.c >= 16
    else if v == 2 then p.r + p.c <= 6
    else if v == 3 then p.c - p.r >= 5
    else p.r - p.c >= 5
  }

  /** The cells of cs that pass the diagonal clause and hold v, in order. */
  function Holding(g: Grid, v: int, cs: seq<Pos>): (hs: seq<Pos>)
    requires forall k :: 0 <= k < |cs| ==> InBounds(cs[k])
    ensures |hs| <= |cs|
  {
    if cs == [] then []
    else
      var c := cs[|cs| - 1];
      Holding(g, v, cs[..|cs| - 1]) + (if Diagonal(v, c) && At(g, c) == v then [c] else [])
  }

  /** terminal(board): for some player 1 to 4, exactly 10 cells of its square pass the
      diagonal clause and hold it. */
  function Terminal(g: Grid): bool {
    |Holding(g, 1, SquareCells(1))| == 10 || |Holding(g, 2, SquareCells(2))| == 10 ||
    |Holding(g, 3, SquareCells(3))| == 10 || |Holding(g, 4, SquareCells(4))| == 10
  }

  /** The squares are the target areas, their cells are listed once each, and the
      diagonal clause holds on all of them. */
  lemma SquareCellsSpec(v: int)
    requires 1 <= v <= 4
    ensures forall p :: p in SquareCells(v) <==> InBounds(p) && InTargetArea(v, p)
    ensures forall k :: 0 <= k < 16 ==> Diagonal(v, SquareCells(v)[k])
    ensures Distinct(SquareCells(v))
  {
    var cs := SquareCells(v);
    forall p | InBounds(p) && InTargetArea(v, p) ensures p in cs {
      var r0 := if v == 1 || v == 4 then 8 else 0;
      var c0 := if v == 1 || v == 3 then 8 else 0;
      var k := (p.r - r0) * 4 + (p.c - c0);
      assert cs[k] == p;
    }
  }

  lemma {:induction false} HoldingSpec(g: Grid, v: int, cs: seq<Pos>, x: Pos)
    requires forall k :: 0 <= k < |cs| ==> InBounds(cs[k])
    ensures x in Holding(g, v, cs) <==> x in cs && Diagonal(v, x) && At(g, x) == v
  {
    if cs != [] {
      HoldingSpec(g, v, cs[..|cs| - 1], x);
      SplitLast(cs);
    }
  }

  lemma {:induction false} HoldingDistinct(g: Grid, v: int, cs: seq<Pos>)
    requires forall k :: 0 <= k < |cs| ==> InBounds(cs[k])
    requires Distinct(cs)
    ensures Distinct(Holding(g, v, cs))
  {
    if cs != [] {
      var front := cs[..|cs| - 1];
      var c := cs[|cs| - 1];
      HoldingDistinct(g, v, front);
      if Diagonal(v, c) && At(g, c) == v {
        HoldingSpec(g, v, front, c);
        DistinctAppend(Holding(g, v, front), c);
      }
    }
  }

  /** The cells terminal counts for v are exactly v's pieces in its target area. */
  lemma SquareHeld(g: Grid, v: int)
    requires 1 <= v <= 4
    ensures forall x :: x in Holding(g, v, SquareCells(v)) <==> x in Pieces(g, v) && InTargetArea(v, x)
    ensures Distinct(Holding(g, v, SquareCells(v)))
  {
    SquareCellsSpec(v);
    forall x ensures x in Holding(g, v, SquareCells(v)) <==> x in Pieces(g, v) && InTargetArea(v, x) {
      HoldingSpec(g, v, SquareCells(v), x);
    }
    HoldingDistinct(g, v, SquareCells(v));
  }

  /** A terminal board has a player with at least ten pieces. */
  lemma TerminalNeedsTen(g: Grid) returns (v: int)
    requires Terminal(g)
    ensures 1 <= v <= 4 && |Holding(g, v, SquareCells(v))| == 10 && Count(g, v) >= 10
  {
    v := if |Holding(g, 1, SquareCells(1))| == 10 then 1
      else if |Holding(g, 2, SquareCells(2))| == 10 then 2
      else if |Holding(g, 3, SquareCells(3))| == 10 then 3
      else 4;
    SquareHeld(g, v);
    GameBoard.SubsetLength(Holding(g, v, SquareCells(v)), Pieces(g, v));
    PiecesCount(g, v);
  }

  /** A board the game has won for player 1 or 2, with that player's ten pieces, is
      terminal for the search. */
  lemma WonIsTerminal(g: Grid, v: int)
    requires (v == 1 || v == 2) && GameBoard.Won(g, v) && Count(g, v) == 10
    ensures Terminal(g)
  {
    GameBoard.WonSpec(g, v);
    SquareHeld(g, v);
    var hs := Holding(g, v, SquareCells(v));
    forall x ensures x in hs <==> x in Pieces(g, v) {
      if x in Pieces(g, v) {
        TargetSquareCells(v, x);
      }
    }
    GameBoard.SameElementsSameLength(hs, Pieces(g, v));
    PiecesCount(g, v);
  }

  // ---------------------------------------------------------------- the minimax value

  /** Every listed move joins two cells of the board. */
  predicate OnBoard(ms: seq<Move>) {
    forall i :: 0 <= i < |ms| ==> InBounds(ms[i].src) && InBounds(ms[i].dst)
  }

  lemma AllMovesOnBoard(g: Grid, v: int)
    ensures OnBoard(MoveUtils.AllMoves(g, v, None))
  {
    var ms := MoveUtils.AllMoves(g, v, None);
    forall i | 0 <= i < |ms| ensures InBounds(ms[i].src) && InBounds(ms[i].dst) {
      MoveUtils.AllMovesSpec(g, v, None, ms[i]);
    }
  }

  /** A two-player game as the search sees it, for the side `me` searching against
      `opp`: the moves of a side on a board, the board after a move from one cell to
      another, the terminal test and the score of a leaf. */
  datatype Game = Game(moves: (Grid, int) -> seq<Move>, play: (Grid, Pos, Pos) -> Grid,
                       terminal: Grid -> bool, score: Grid -> int, me: int, opp: int)

  /** The game the agent of `player` searches: get_all_moves, simulate_move, is_terminal
      and evaluate on the 12 by 12 board. A move off the board, which get_all_moves never
      lists, leaves the board as it is. */
  function Pegs(player: int): Game
    requires 1 <= player <= 4
  {
    Game((b: Grid, v: int) => MoveUtils.AllMoves(b, v, None),
         (b: Grid, s: Pos, d: Pos) => if InBounds(s) && InBounds(d) then Moved(b, s, d) else b,
         (b: Grid) => Terminal(b), (b: Grid) => Evaluation(b, player), player, Opponent(player))
  }

  /** gm agrees with the board functions the agent of `player` calls. Each fact is
      triggered by the board function alone, so that a proof about gm only ever
      unfolds the board functions it has itself called. */
  ghost predicate Plays(gm: Game, player: int) {
    1 <= player <= 4 && gm.me == player && gm.opp == Opponent(player) &&
    (forall b: Grid, v {:trigger MoveUtils.AllMoves(b, v, None)} :: gm.moves(b, v) == MoveUtils.AllMoves(b, v, None)) &&
    (forall b: Grid, s, d {:trigger Moved(b, s, d)} :: InBounds(s) && InBounds(d) ==> gm.play(b, s, d) == Moved(b, s, d)) &&
    (forall b: Grid {:trigger Terminal(b)} :: gm.terminal(b) == Terminal(b)) &&
    (forall b: Grid {:trigger Evaluation(b, player)} :: gm.score(b) == Evaluation(b, player))
  }

  lemma PegsPlays(player: int)
    requires 1 <= player <= 4
    ensures Plays(Pegs(player), player)
  {
  }

  /** Python's running max(value, x) from -inf over the values vs. */
  function Largest(vs: seq<int>): (r: Ext)
    ensures r.Fin? <==> vs != []
  {
    if vs == [] then NegInf else Max(Largest(vs[..|vs| - 1]), Fin(vs[|vs| - 1]))
  }

  /** Python's running min(value, x) from +inf over the values vs. */
  function Smallest(vs: seq<int>): (r: Ext)
    ensures r.Fin? <==> vs != []
  {
    if vs == [] then PosInf else Min(Smallest(vs[..|vs| - 1]), Fin(vs[|vs| - 1]))
  }

  /** The running max is one of the values and no value exceeds it. */
  lemma {:induction false} LargestSpec(vs: seq<int>) returns (i: nat)
    requires vs != []
    ensures i < |vs| && Largest(vs) == Fin(vs[i])
    ensures forall j :: 0 <= j < |vs| ==> vs[j] <= Largest(vs).n
  {
    var front := vs[..|vs| - 1];
    if front == [] {
      i := 0;
    } else {
      var k := LargestSpec(front);
      i := if front[k] < vs[|vs| - 1] then |vs| - 1 else k;
    }
  }

  /** The running min is one of the values and no value is below it. */
  lemma {:induction false} SmallestSpec(vs: seq<int>) returns (i: nat)
    requires vs != []
    ensures i < |vs| && Smallest(vs) == Fin(vs[i])
    ensures forall j :: 0 <= j < |vs| ==> Smallest(vs).n <= vs[j]
  {
    var front := vs[..|vs| - 1];
    if front == [] {
      i := 0;
    } else {
      var k := SmallestSpec(front);
      i := if vs[|vs| - 1] < front[k] then |vs| - 1 else k;
    }
  }

  /** The minimax value with `me` to move and depth plies left: the score at depth 0,
      on a terminal board or without moves; else the largest value of a move. */
  function MaxSpec(gm: Game, g: Grid, depth: nat): int
    decreases depth, 2, 0
  {
    if depth == 0 || gm.terminal(g) then gm.score(g)
    else
      var ms := gm.moves(g, gm.me);
      if ms == [] then gm.score(g) else Largest(ChildMins(gm, g, depth - 1, ms)).n
  }

  /** The minimax value with `opp` to move: the smallest value of its moves. */
  function MinSpec(gm: Game, g: Grid, depth: nat): int
    decreases depth, 2, 0
  {
    if depth == 0 || gm.terminal(g) then gm.score(g)
    else
      var ms := gm.moves(g, gm.opp);
      if ms == [] then gm.score(g) else Smallest(ChildMaxes(gm, g, depth - 1, ms)).n
  }

  /** The values, in order, of the boards after the moves ms, `opp` to move next and d
      plies left. */
  function ChildMins(gm: Game, g: Grid, d: nat, ms: seq<Move>): (vs: seq<int>)
    ensures |vs| == |ms|
    decreases d + 1, 1, |ms|
  {
    if ms == [] then []
    else ChildMins(gm, g, d, ms[..|ms| - 1]) + [MinAfter(gm, g, d, ms[|ms| - 1])]
  }

  /** The values, in order, of the boards after the moves ms, `me` to move next. */
  function ChildMaxes(gm: Game, g: Grid, d: nat, ms: seq<Move>): (vs: seq<int>)
    ensures |vs| == |ms|
    decreases d + 1, 1, |ms|
  {
    if ms == [] then []
    else ChildMaxes(gm, g, d, ms[..|ms| - 1]) + [MaxAfter(gm, g, d, ms[|ms| - 1])]
  }

  /** The value of the board after move m, `opp` to move next and d plies left. */
  function MinAfter(gm: Game, g: Grid, d: nat, m: Move): int
    decreases d + 1, 0, 0
  {
    MinSpec(gm, gm.play(g, m.src, m.dst), d)
  }

  /** The value of the board after move m, `me` to move next and d plies left. */
  function MaxAfter(gm: Game, g: Grid, d: nat, m: Move): int
    decreases d + 1, 0, 0
  {
    MaxSpec(gm, gm.play(g, m.src, m.dst), d)
  }

  /** The i-th child value is the value of the board after the i-th move. */
  lemma {:induction false} ChildMinsAt(gm: Game, g: Grid, d: nat, ms: seq<Move>, i: nat)
    requires i < |ms|
    ensures ChildMins(gm, g, d, ms)[i] == MinSpec(gm, gm.play(g, ms[i].src, ms[i].dst), d)
    decreases |ms|
  {
    if i < |ms| - 1 {
      var front := ms[..|ms| - 1];
      ChildMinsAt(gm, g, d, front, i);
      assert front[i] == ms[i];
    }
  }

  lemma {:induction false} ChildMaxesAt(gm: Game, g: Grid, d: nat, ms: seq<Move>, i: nat)
    requires i < |ms|
    ensures ChildMaxes(gm, g, d, ms)[i] == MaxSpec(gm, gm.play(g, ms[i].src, ms[i].dst), d)
    decreases |ms|
  {
    if i < |ms| - 1 {
      var front := ms[..|ms| - 1];
      ChildMaxesAt(gm, g, d, front, i);
      assert front[i] == ms[i];
    }
  }

  /** The minimax value of an inner node with `me` to move is the value of one of its
      moves. */
  lemma MaxSpecNode(gm: Game, g: Grid, depth: nat) returns (k: nat)
    requires depth > 0 && !gm.terminal(g) && gm.moves(g, gm.me) != []
    ensures k < |gm.moves(g, gm.me)|
    ensures MaxSpec(gm, g, depth) == ChildMins(gm, g, depth - 1, gm.moves(g, gm.me))[k]
  {
    k := LargestSpec(ChildMins(gm, g, depth - 1, gm.moves(g, gm.me)));
  }

  lemma MinSpecNode(gm: Game, g: Grid, depth: nat) returns (k: nat)
    requires depth > 0 && !gm.terminal(g) && gm.moves(g, gm.opp) != []
    ensures k < |gm.moves(g, gm.opp)|
    ensures MinSpec(gm, g, depth) == ChildMaxes(gm, g, depth - 1, gm.moves(g, gm.opp))[k]
  {
    k := SmallestSpec(ChildMaxes(gm, g, depth - 1, gm.moves(g, gm.opp)));
  }

  /** A leaf, or a node whose side to move has no move, is worth its score. */
  lemma MaxLeafScore(gm: Game, g: Grid, depth: nat)
    requires depth == 0 || gm.terminal(g) || gm.moves(g, gm.me) == []
    ensures MaxSpec(gm, g, depth) == gm.score(g)
  {
  }

  lemma MinLeafScore(gm: Game, g: Grid, depth: nat)
    requires depth == 0 || gm.terminal(g) || gm.moves(g, gm.opp) == []
    ensures MinSpec(gm, g, depth) == gm.score(g)
  {
  }

  /** Minimax values stay within the bounds of the leaf scores. */
  lemma {:induction false} MaxSpecBounds(gm: Game, g: Grid, depth: nat, lo: int, hi: int)
    requires forall b :: lo <= gm.score(b) <= hi
    ensures lo <= MaxSpec(gm, g, depth) <= hi
    decreases depth, 1
  {
    if depth > 0 && !gm.terminal(g) && gm.moves(g, gm.me) != [] {
      var ms := gm.moves(g, gm.me);
      var k := MaxSpecNode(gm, g, depth);
      var child := gm.play(g, ms[k].src, ms[k].dst);
      ChildMinsAt(gm, g, depth - 1, ms, k);
      MinSpecBounds(gm, child, depth - 1, lo, hi);
    } else {
      MaxLeafScore(gm, g, depth);
      assert lo <= gm.score(g) <= hi;
    }
  }

  lemma {:induction false} MinSpecBounds(gm: Game, g: Grid, depth: nat, lo: int, hi: int)
    requires forall b :: lo <= gm.score(b) <= hi
    ensures lo <= MinSpec(gm, g, depth) <= hi
    decreases depth, 1
  {
    if depth > 0 && !gm.terminal(g) && gm.moves(g, gm.opp) != [] {
      var ms := gm.moves(g, gm.opp);
      var k := MinSpecNode(gm, g, depth);
      var child := gm.play(g, ms[k].src, ms[k].dst);
      ChildMaxesAt(gm, g, depth - 1, ms, k);
      MaxSpecBounds(gm, child, depth - 1, lo, hi);
    } else {
      MinLeafScore(gm, g, depth);
      assert lo <= gm.score(g) <= hi;
    }
  }

  // ---------------------------------------------------------------- alpha-beta search

  /** Sequence facts the search loops use. */
  lemma SliceSnoc(vs: seq<int>, i: nat)
    requires i < |vs|
    ensures vs[..i + 1] == vs[..i] + [vs[i]]
  {
  }

  lemma SliceAll(vs: seq<int>, i: nat)
    requires i == |vs|
    ensures vs[..i] == vs
  {
  }

  /** v is a fail-soft alpha-beta value of t for the window (alpha, beta): t itself when
      v falls inside the window, an upper bound on t when v <= alpha, a lower bound when
      v >= beta. */
  predicate FailSoft(v: int, t: int, alpha: Ext, beta: Ext) {
    (AtMost(Fin(v), alpha) ==> t <= v) &&
    (AtMost(beta, Fin(v)) ==> v <= t) &&
    (Less(alpha, Fin(v)) && Less(Fin(v), beta) ==> t == v)
  }

  /** With the whole window open the search value is exact. */
  lemma FullWindow(v: int, t: int)
    requires FailSoft(v, t, NegInf, PosInf)
    ensures v == t
  {
  }

  /** The loop state of max_value after the moves with true values vs: value is below
      beta, alpha has been raised to it, no true value exceeds value, and value is exact
      once it is above the original alpha. */
  predicate MaxLoop(vs: seq<int>, alpha: Ext, beta: Ext, a: Ext, value: Ext) {
    var t := Largest(vs);
    Less(value, beta) && a == Max(alpha, value) && (value.NegInf? <==> vs == []) && !value.PosInf? &&
    AtMost(t, value) && (Less(alpha, value) ==> t == value)
  }

  predicate MinLoop(vs: seq<int>, alpha: Ext, beta: Ext, b: Ext, value: Ext) {
    var t := Smallest(vs);
    Less(alpha, value) && b == Min(beta, value) && (value.PosInf? <==> vs == []) && !value.NegInf? &&
    AtMost(value, t) && (Less(value, beta) ==> t == value)
  }

  /** One more move, of true value t, searched with window (a, beta) keeps the max_value
      loop state, unless the new value reaches beta. */
  lemma MaxStep(vs: seq<int>, t: int, alpha: Ext, beta: Ext, a: Ext, value: Ext, c: int)
    requires MaxLoop(vs, alpha, beta, a, value)
    requires FailSoft(c, t, a, beta)
    ensures Less(Max(value, Fin(c)), beta) ==>
      MaxLoop(vs + [t], alpha, beta, Max(a, Max(value, Fin(c))), Max(value, Fin(c)))
    ensures !Less(Max(value, Fin(c)), beta) ==> Max(value, Fin(c)) == Fin(c) && c <= t
  {
    assert (vs + [t])[..|vs|] == vs;
  }

  lemma MinStep(vs: seq<int>, t: int, alpha: Ext, beta: Ext, b: Ext, value: Ext, c: int)
    requires MinLoop(vs, alpha, beta, b, value)
    requires FailSoft(c, t, alpha, b)
    ensures Less(alpha, Min(value, Fin(c))) ==>
      MinLoop(vs + [t], alpha, beta, Min(b, Min(value, Fin(c))), Min(value, Fin(c)))
    ensures !Less(alpha, Min(value, Fin(c))) ==> Min(value, Fin(c)) == Fin(c) && t <= c
  {
    assert (vs + [t])[..|vs|] == vs;
  }

  /** The exact leaf value is a fail-soft value for any window. */
  lemma MaxSpecLeaf(gm: Game, g: Grid, depth: nat, alpha: Ext, beta: Ext)
    requires depth == 0 || gm.terminal(g) || gm.moves(g, gm.me) == []
    ensures FailSoft(gm.score(g), MaxSpec(gm, g, depth), alpha, beta)
  {
  }

  lemma MinSpecLeaf(gm: Game, g: Grid, depth: nat, alpha: Ext, beta: Ext)
    requires depth == 0 || gm.terminal(g) || gm.moves(g, gm.opp) == []
    ensures FailSoft(gm.score(g), MinSpec(gm, g, depth), alpha, beta)
  {
  }

  /** At an inner node a fail-soft value of the best child value is one of the node. */
  lemma MaxSpecInner(gm: Game, g: Grid, d: nat, ms: seq<Move>, alpha: Ext, beta: Ext, v: int)
    requires !gm.terminal(g) && ms == gm.moves(g, gm.me) && ms != []
    requires FailSoft(v, Largest(ChildMins(gm, g, d, ms)).n, alpha, beta)
    ensures FailSoft(v, MaxSpec(gm, g, d + 1), alpha, beta)
  {
  }

  lemma MinSpecInner(gm: Game, g: Grid, d: nat, ms: seq<Move>, alpha: Ext, beta: Ext, v: int)
    requires !gm.terminal(g) && ms == gm.moves(g, gm.opp) && ms != []
    requires FailSoft(v, Smallest(ChildMaxes(gm, g, d, ms)).n, alpha, beta)
    ensures FailSoft(v, MinSpec(gm, g, d + 1), alpha, beta)
  {
  }

  /** max_value(board, depth, alpha, beta): a fail-soft alpha-beta value of the minimax
      value with the player to move. */
  method MaxValue(ghost gm: Game, g: Grid, player: int, depth: nat, alpha: Ext, beta: Ext) returns (value: int)
    requires Plays(gm, player) && Less(alpha, beta)
    ensures FailSoft(value, MaxSpec(gm, g, depth), alpha, beta)
    decreases depth, 1, 0
  {
    if depth == 0 || Terminal(g) {
      value := Evaluate(g, player);
      MaxSpecLeaf(gm, g, depth, alpha, beta);
      return;
    }
    var moves := MoveUtils.GetAllMoves(g, player, None);
    if moves == [] {
      value := Evaluate(g, player);
      MaxSpecLeaf(gm, g, depth, alpha, beta);
      return;
    }
    AllMovesOnBoard(g, player);
    value := MaxBranch(gm, g, player, depth, moves, alpha, beta);
  }

  /** max_value at an inner node with moves to search. */
  method MaxBranch(ghost gm: Game, g: Grid, player: int, depth: nat, moves: seq<Move>, alpha: Ext, beta: Ext)
    returns (value: int)
    requires Plays(gm, player) && Less(alpha, beta) && OnBoard(moves)
    requires depth > 0 && !gm.terminal(g) && moves == gm.moves(g, gm.me) && moves != []
    ensures FailSoft(value, MaxSpec(gm, g, depth), alpha, beta)
    decreases depth, 0, 1
  {
    var d := depth - 1;
    value := MaxOverMoves(gm, g, player, d, moves, alpha, beta);
    MaxSpecInner(gm, g, d, moves, alpha, beta, value);
  }

  /** The loop of max_value over the moves of an inner node, each searched with the
      opponent to move and depth - 1 plies left. */
  method MaxOverMoves(ghost gm: Game, g: Grid, player: int, d: nat, moves: seq<Move>, alpha: Ext, beta: Ext)
    returns (value: int)
    requires Plays(gm, player) && Less(alpha, beta) && OnBoard(moves) && moves != []
    ensures FailSoft(value, Largest(ChildMins(gm, g, d, moves)).n, alpha, beta)
    decreases d + 1, 0, 0
  {
    ghost var vals := ChildMins(gm, g, d, moves);
    var v := NegInf;
    var a := alpha;
    var i := 0;
    while i < |moves|
      invariant 0 <= i <= |moves|
      invariant MaxLoop(vals[..i], alpha, beta, a, v)
    {
      var move := moves[i];
      var newBoard := Moved(g, move.src, move.dst);
      var c := MinValue(gm, newBoard, player, d, a, beta);
      ChildMinsAt(gm, g, d, moves, i);
      SliceSnoc(vals, i);
      MaxStep(vals[..i], vals[i], alpha, beta, a, v, c);
      v := Max(v, Fin(c));
      if !Less(v, beta) {
        var k := LargestSpec(vals);
        value := v.n;
        return;
      }
      a := Max(a, v);
      i := i + 1;
    }
    SliceAll(vals, i);
    value := v.n;
  }

  /** min_value(board, depth, alpha, beta): a fail-soft alpha-beta value of the minimax
      value with the opponent to move. */
  method MinValue(ghost gm: Game, g: Grid, player: int, depth: nat, alpha: Ext, beta: Ext) returns (value: int)
    requires Plays(gm, player) && Less(alpha, beta)
    ensures FailSoft(value, MinSpec(gm, g, depth), alpha, beta)
    decreases depth, 1, 0
  {
    var opp := Opponent(player);
    if depth == 0 || Terminal(g) {
      value := Evaluate(g, player);
      MinSpecLeaf(gm, g, depth, alpha, beta);
      return;
    }
    var moves := MoveUtils.GetAllMoves(g, opp, None);
    if moves == [] {
      value := Evaluate(g, player);
      MinSpecLeaf(gm, g, depth, alpha, beta);
      return;
    }
    AllMovesOnBoard(g, opp);
    value := MinBranch(gm, g, player, depth, moves, alpha, beta);
  }

  /** min_value at an inner node with moves to search. */
  method MinBranch(ghost gm: Game, g: Grid, player: int, depth: nat, moves: seq<Move>, alpha: Ext, beta: Ext)
    returns (value: int)
    requires Plays(gm, player) && Less(alpha, beta) && OnBoard(moves)
    requires depth > 0 && !gm.terminal(g) && moves == gm.moves(g, gm.opp) && moves != []
    ensures FailSoft(value, MinSpec(gm, g, depth), alpha, beta)
    decreases depth, 0, 1
  {
    var d := depth - 1;
    value := MinOverMoves(gm, g, player, d, moves, alpha, beta);
    MinSpecInner(gm, g, d, moves, alpha, beta, value);
  }

  /** The loop of min_value over the opponent's moves at an inner node, each searched
      with the player to move and depth - 1 plies left. */
  method MinOverMoves(ghost gm: Game, g: Grid, player: int, d: nat, moves: seq<Move>, alpha: Ext, beta: Ext)
    returns (value: int)
    requires Plays(gm, player) && Less(alpha, beta) && OnBoard(moves) && moves != []
    ensures FailSoft(value, Smallest(ChildMaxes(gm, g, d, moves)).n, alpha, beta)
    decreases d + 1, 0, 0
  {
    ghost var vals := ChildMaxes(gm, g, d, moves);
    var v := PosInf;
    var b := beta;
    var i := 0;
    while i < |moves|
      invariant 0 <= i <= |moves|
      invariant MinLoop(vals[..i], alpha, beta, b, v)
    {
      var move := moves[i];
      var newBoard := Moved(g, move.src, move.dst);
      var c := MaxValue(gm, newBoard, player, d, alpha, b);
      ChildMaxesAt(gm, g, d, moves, i);
      SliceSnoc(vals, i);
      MinStep(vals[..i], vals[i], alpha, beta, b, v, c);
      v := Min(v, Fin(c));
      if !Less(alpha, v) {
        var k := SmallestSpec(vals);
        value := v.n;
        return;
      }
      b := Min(b, v);
      i := i + 1;
    }
    SliceAll(vals, i);
    value := v.n;
  }

  // ---------------------------------------------------------------- the choice

  /** The index choose_move settles on: the first index of a largest value, found the
      way its loop finds it, replacing the best only on a strictly larger value. */
  function FirstArgMax(vs: seq<int>): (k: nat)
    requires vs != []
    ensures k < |vs|
  {
    if |vs| == 1 then 0
    else
      var k := FirstArgMax(vs[..|vs| - 1]);
      if vs[k] < vs[|vs| - 1] then |vs| - 1 else k
  }

  /** One step of choose_move's loop: the index moves to i only on a strictly larger
      value. */
  lemma FirstArgMaxStep(vs: seq<int>, i: nat)
    requires i < |vs|
    ensures i == 0 ==> FirstArgMax(vs[..i + 1]) == 0
    ensures i > 0 ==>
      FirstArgMax(vs[..i + 1]) == (var k := FirstArgMax(vs[..i]); if vs[k] < vs[i] then i else k)
  {
    var front := vs[..i + 1];
    assert front[..i] == vs[..i];
    if i > 0 {
      assert front[FirstArgMax(vs[..i])] == vs[FirstArgMax(vs[..i])];
    }
  }

  /** FirstArgMax picks a largest value, and every value before it is smaller. */
  lemma {:induction false} FirstArgMaxSpec(vs: seq<int>)
    requires vs != []
    ensures forall j :: 0 <= j < |vs| ==> vs[j] <= vs[FirstArgMax(vs)]
    ensures forall j :: 0 <= j < FirstArgMax(vs) ==> vs[j] < vs[FirstArgMax(vs)]
  {
    if |vs| > 1 {
      var front := vs[..|vs| - 1];
      FirstArgMaxSpec(front);
      assert forall j :: 0 <= j < |front| ==> front[j] == vs[j];
    }
  }

  /** On a board that is not terminal, the value of the move choose_move picks is the
      minimax value of the position. */
  lemma ChoiceIsMinimax(gm: Game, g: Grid, depth: nat)
    requires depth >= 1 && !gm.terminal(g) && gm.moves(g, gm.me) != []
    ensures var vs := ChildMins(gm, g, depth - 1, gm.moves(g, gm.me));
      vs[FirstArgMax(vs)] == MaxSpec(gm, g, depth)
  {
    var vs := ChildMins(gm, g, depth - 1, gm.moves(g, gm.me));
    var k := LargestSpec(vs);
    FirstArgMaxSpec(vs);
  }

  /** One pass of choose_move's loop: min_value with the whole window open on the board
      after moves[i] is that move's minimax value. */
  method RootValue(ghost gm: Game, g: Grid, player: int, d: nat, moves: seq<Move>, i: nat) returns (val: int)
    requires Plays(gm, player) && OnBoard(moves) && i < |moves|
    ensures val == ChildMins(gm, g, d, moves)[i]
  {
    var move := moves[i];
    var newBoard := Moved(g, move.src, move.dst);
    val := MinValue(gm, newBoard, player, d, NegInf, PosInf);
    ChildMinsAt(gm, g, d, moves, i);
    FullWindow(val, ChildMins(gm, g, d, moves)[i]);
  }

  /** The loop of choose_move over the moves: the first move with the largest value,
      the opponent to move and d plies left. */
  method FirstBest(ghost gm: Game, g: Grid, player: int, depth: nat, moves: seq<Move>) returns (m: Move)
    requires Plays(gm, player) && OnBoard(moves) && moves != [] && depth >= 1
    ensures m == moves[FirstArgMax(ChildMins(gm, g, depth - 1, moves))]
  {
    var d := depth - 1;
    ghost var vals := ChildMins(gm, g, d, moves);
    var bestVal := NegInf;
    var bestMove: Option<Move> := None;
    for i := 0 to |moves|
      invariant i == 0 ==> bestVal == NegInf && bestMove.None?
      invariant i > 0 ==>
        (var k := FirstArgMax(vals[..i]); bestMove == Some(moves[k]) && bestVal == Fin(vals[k]))
    {
      var move := moves[i];
      var val := RootValue(gm, g, player, d, moves, i);
      FirstArgMaxStep(vals, i);
      ghost var next := FirstArgMax(vals[..i + 1]);
      if Less(bestVal, Fin(val)) {
        assert next == i;
        bestVal := Fin(val);
        bestMove := Some(move);
      } else {
        assert i > 0 && next == FirstArgMax(vals[..i]);
      }
      assert bestMove == Some(moves[next]) && bestVal == Fin(vals[next]);
    }
    SliceAll(vals, |moves|);
    m := bestMove.value;
  }

  /** A side with a move has a piece: an id other than 1 to 4 with no pieces never moves. */
  lemma MovesNeedPieces(g: Grid, player: int)
    requires MoveUtils.AllMoves(g, player, None) != []
    ensures Pieces(g, player) != []
  {
    var ms := MoveUtils.AllMoves(g, player, None);
    MoveUtils.AllMovesSpec(g, player, None, ms[0]);
    assert ms[0].src in Pieces(g, player);
  }

  /** The search loop of choose_move on the board game with search depth `depth`: each
      move is scored by min_value with depth - 1 plies left. */
  method BestMove(g: Grid, player: int, depth: nat, moves: seq<Move>) returns (m: Move)
    requires depth >= 1 && 1 <= player <= 4 && OnBoard(moves) && moves != []
    ensures m == moves[FirstArgMax(ChildMins(Pegs(player), g, depth - 1, moves))]
  {
    PegsPlays(player);
    m := FirstBest(Pegs(player), g, player, depth, moves);
  }

  /** choose_move(board) with search depth `depth`: the corner rule's move when it
      applies; otherwise None exactly when the player has no move, and else the first
      move of get_all_moves with the largest minimax value (opponent to move, depth - 1
      plies left). */
  method ChooseMove(g: Grid, player: int, depth: nat) returns (m: Option<Move>)
    requires depth >= 1
    requires 1 <= player <= 4 || Pieces(g, player) == []
    ensures MoveUtils.FreeUpApplies(g, player) ==> m.Some? && MoveUtils.FreeUpMove(g, player, m.value)
    ensures !MoveUtils.FreeUpApplies(g, player) ==> (m.None? <==> MoveUtils.AllMoves(g, player, None) == [])
    ensures !MoveUtils.FreeUpApplies(g, player) && m.Some? ==>
      (var ms := MoveUtils.AllMoves(g, player, None);
       1 <= player <= 4 && m.value == ms[FirstArgMax(ChildMins(Pegs(player), g, depth - 1, ms))])
  {
    var moveToFree := MoveUtils.FreeUpTargetEntry(g, player);
    if moveToFree.Some? {
      return moveToFree;
    }
    var moves := MoveUtils.GetAllMoves(g, player, None);
    if moves == [] {
      return None;
    }
    MovesNeedPieces(g, player);
    AllMovesOnBoard(g, player);
    var best := BestMove(g, player, depth, moves);
    m := Some(best);
  }
}
