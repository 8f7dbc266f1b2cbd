/** The game board (board.py): a 12x12 integer grid held in an array that init_pieces
    and move_piece change in place, the two-player starting layout, the bonus cells,
    and the win test. The query methods only read the array; each is specified by the
    function of MoveUtils, or of this module, over the board's current contents. */
module GameBoard {
  import opened Topology
  import opened Regions
  import MoveUtils

  /** The two diamond cells, worth 3 points each to the player holding them. */
  const DiamondPoints: seq<Pos> := [Pos(5, 5), Pos(6, 6)]
  /** The two gold cells, worth 1 point each. */
  const GoldPoints: seq<Pos> := [Pos(5, 6), Pos(6, 5)]

  /** The starting content of a cell: player 1 fills the top-left triangle (player 2's
      target), player 2 the bottom-right one (player 1's target), the rest is empty. */
  function InitialCell(p: Pos): int {
    if p in TargetTriangle(2) then 1 else if p in TargetTriangle(1) then 2 else 0
  }

  function InitialGrid(): (g: Grid)
    ensures forall p :: InBounds(p) ==> At(g, p) == InitialCell(p)
  {
    var g: Grid := seq(CellCount, i requires 0 <= i < CellCount => InitialCell(PosAt(i)));
    forall p | InBounds(p) ensures At(g, p) == InitialCell(p) {
      PosAtIdx(p);
    }
    g
  }

  /** The starting layout in arithmetic terms: the three-step triangles at the two ends
      of the main diagonal. */
  lemma InitialCellShape(p: Pos)
    requires InBounds(p)
    ensures InitialCell(p) == (if p.r + p.c <= 3 then 1 else if p.r + p.c >= 19 then 2 else 0)
  {
    TriangleShape(1, p);
    TriangleShape(2, p);
  }

  /** The starting layout has exactly 10 pieces of each player. */
  lemma InitialCounts()
    ensures Count(InitialGrid(), 1) == 10 && Count(InitialGrid(), 2) == 10
  {
    InitialPieces(1);
    InitialPieces(2);
  }

  lemma InitialPieces(v: int)
    requires v == 1 || v == 2
    ensures Count(InitialGrid(), v) == 10
  {
    var g := InitialGrid();
    var home := TargetTriangle(3 - v);
    forall p ensures p in Pieces(g, v) <==> p in home {
      TriangleShape(3 - v, p);
      if InBounds(p) {
        InitialCellShape(p);
        assert At(g, p) == InitialCell(p);
      }
    }
    TriangleShape(3 - v, Pos(0, 0));
    SameElementsSameLength(Pieces(g, v), home);
    PiecesCount(g, v);
  }

  /** in_target_area(pos) of the board: decided by the piece in the cell; false for an
      empty cell or any other value. */
  function CellInTarget(g: Grid, p: Pos): bool
    requires InBounds(p)
  {
    if At(g, p) == 1 then p.r >= 8 && p.c >= 8 && p.r + p.c >= 16
    else if At(g, p) == 2 then p.r <= 3 && p.c <= 3 && p.r + p.c <= 6
    else false
  }

  /** The board's target test is the agents' target square of the piece's owner. */
  lemma CellInTargetSpec(g: Grid, p: Pos)
    requires InBounds(p)
    ensures CellInTarget(g, p) <==> (At(g, p) == 1 && p.r >= 8 && p.c >= 8) || (At(g, p) == 2 && p.r <= 3 && p.c <= 3)
    ensures CellInTarget(g, p) <==> (At(g, p) == 1 || At(g, p) == 2) && InTargetArea(At(g, p), p)
  {
  }

  /** Player v (1 or 2) has won: every piece of v is in v's target, and every cell of v's
      target triangle holds v. */
  function Won(g: Grid, v: int): bool {
    (forall p :: p in Pieces(g, v) ==> CellInTarget(g, p)) &&
    (forall k :: 0 <= k < |TargetTriangle(v)| ==> InBounds(TargetTriangle(v)[k]) && At(g, TargetTriangle(v)[k]) == v)
  }

  /** is_game_over(). */
  function GameOver(g: Grid): bool {
    Won(g, 1) || Won(g, 2)
  }

  /** The game is over iff for player 1 or 2 every piece of that player stands in its 4x4
      target square and every cell of its 10-cell triangle holds it; the winner then has
      at least 10 pieces on the board. */
  lemma GameOverSpec(g: Grid)
    ensures GameOver(g) <==> exists v :: (v == 1 || v == 2) && WonBySquare(g, v)
    ensures GameOver(g) ==> Count(g, 1) >= 10 || Count(g, 2) >= 10
  {
    forall v | v == 1 || v == 2 ensures Won(g, v) <==> WonBySquare(g, v) {
      WonSpec(g, v);
    }
    if Won(g, 1) {
      TriangleOwned(g, 1);
    } else if Won(g, 2) {
      TriangleOwned(g, 2);
    }
  }

  /** The win condition stated over all cells. */
  ghost predicate WonBySquare(g: Grid, v: int) {
    (forall p :: InBounds(p) && At(g, p) == v ==> InTargetSquare(v, p)) &&
    (forall c :: c in TargetTriangle(v) ==> InBounds(c) && At(g, c) == v)
  }

  lemma WonSpec(g: Grid, v: int)
    requires v == 1 || v == 2
    ensures Won(g, v) <==> WonBySquare(g, v)
  {
    forall p | InBounds(p) ensures p in Pieces(g, v) <==> At(g, p) == v {
    }
    forall p | InBounds(p) && At(g, p) == v ensures CellInTarget(g, p) <==> InTargetSquare(v, p) {
      CellInTargetSpec(g, p);
    }
    forall c | c in TargetTriangle(v) ensures exists k :: 0 <= k < |TargetTriangle(v)| && TargetTriangle(v)[k] == c {
    }
  }

  /** A player owning its whole triangle has at least its 10 pieces. */
  lemma TriangleOwned(g: Grid, v: int)
    requires v == 1 || v == 2
    requires forall k :: 0 <= k < |TargetTriangle(v)| ==> InBounds(TargetTriangle(v)[k]) && At(g, TargetTriangle(v)[k]) == v
    ensures Count(g, v) >= 10
  {
    var tri := TargetTriangle(v);
    var ps := Pieces(g, v);
    TriangleShape(v, Pos(0, 0));
    forall c | c in tri ensures c in ps {
      var k :| 0 <= k < |tri| && tri[k] == c;
    }
    SubsetLength(tri, ps);
    PiecesCount(g, v);
  }

  /** A distinct sequence has as many elements as its set. */
  lemma {:induction false} DistinctCard(s: seq<Pos>)
    requires Distinct(s)
    ensures |set x | x in s| == |s|
  {
    if s != [] {
      var front := s[..|s| - 1];
      var x := s[|s| - 1];
      assert Distinct(front);
      DistinctCard(front);
      forall i | 0 <= i < |front| ensures front[i] != x {
        assert front[i] == s[i];
      }
      assert (set y | y in s) == (set y | y in front) + {x};
    }
  }

  lemma SubsetLength(a: seq<Pos>, b: seq<Pos>)
    requires Distinct(a) && Distinct(b)
    requires forall x :: x in a ==> x in b
    ensures |a| <= |b|
  {
    DistinctCard(a);
    DistinctCard(b);
    var sa, sb := set x | x in a, set x | x in b;
    assert sb == sa + (sb - sa);
    assert sa * (sb - sa) == {};
  }

  lemma SameElementsSameLength(a: seq<Pos>, b: seq<Pos>)
    requires Distinct(a) && Distinct(b)
    requires forall x :: x in a <==> x in b
    ensures |a| == |b|
  {
    SubsetLength(a, b);
    SubsetLength(b, a);
  }

  /** The number of cells of ps that hold the player. */
  function Owned(g: Grid, player: int, ps: seq<Pos>): (n: nat)
    requires forall k :: 0 <= k < |ps| ==> InBounds(ps[k])
    ensures n <= |ps|
  {
    if ps == [] then 0
    else Owned(g, player, ps[..|ps| - 1]) + (if At(g, ps[|ps| - 1]) == player then 1 else 0)
  }

  /** get_points_score(player_id). */
  function PointsScore(g: Grid, player: int): nat {
    3 * Owned(g, player, DiamondPoints) + Owned(g, player, GoldPoints)
  }

  /** The bonus score lies in 0..8 and is 0 for a player holding none of the four cells. */
  lemma PointsScoreRange(g: Grid, player: int)
    ensures PointsScore(g, player) <= 8
    ensures PointsScore(g, player) == 0 <==>
      forall p :: p in DiamondPoints + GoldPoints ==> At(g, p) != player
  {
    var d, o := DiamondPoints, GoldPoints;
    assert d[..1] == [Pos(5, 5)] && d[..1][..0] == [] && o[..1] == [Pos(5, 6)] && o[..1][..0] == [];
    assert Owned(g, player, d) == (if At(g, Pos(5, 5)) == player then 1 else 0) + (if At(g, Pos(6, 6)) == player then 1 else 0);
    assert Owned(g, player, o) == (if At(g, Pos(5, 6)) == player then 1 else 0) + (if At(g, Pos(6, 5)) == player then 1 else 0);
  }

  class Board {
    /** The 12x12 grid; 0 is an empty cell, k a piece of player k. */
    const board: array2<int>

    predicate Valid() {
      board.Length0 == Side && board.Length1 == Side
    }

    /** The current contents of the grid, row by row. */
    function Snapshot(): (g: Grid)
      requires Valid()
      reads board
      ensures forall p :: InBounds(p) ==> At(g, p) == board[p.r, p.c]
    {
      var g: Grid := seq(CellCount, i requires 0 <= i < CellCount reads board =>
        if i / Side < board.Length0 && i % Side < board.Length1 then board[i / Side, i % Side] else 0);
      forall p | InBounds(p) ensures At(g, p) == board[p.r, p.c] {
        PosAtIdx(p);
      }
      g
    }

    /** Board(): an empty grid set up by init_pieces. */
    constructor ()
      ensures Valid() && fresh(board)
      ensures Snapshot() == InitialGrid()
    {
      board := new int[Side, Side]((i, j) => 0);
      new;
      assert forall i, j :: 0 <= i < Side && 0 <= j < Side ==> board[i, j] == 0;
      InitPieces();
      ghost var now, initial := Snapshot(), InitialGrid();
      forall p | InBounds(p) ensures At(now, p) == At(initial, p) {
        InitialCellShape(p);
        assert At(now, p) == board[p.r, p.c];
      }
      GridExt(now, initial);
    }

    /** init_pieces(): writes the 20 starting pieces, player 1's on the cells with
        r + c <= 3 and player 2's on those with r + c >= 19, and leaves every other cell
        as it was. */
    method InitPieces()
      requires Valid()
      modifies board
      ensures forall i, j :: 0 <= i < Side && 0 <= j < Side ==>
        board[i, j] == (if i + j <= 3 then 1 else if i + j >= 19 then 2 else old(board[i, j]))
    {
      board[0, 0] := 1;
      board[0, 1] := 1;
      board[1, 0] := 1;
      board[0, 2] := 1;
      board[1, 1] := 1;
      board[2, 0] := 1;
      board[0, 3] := 1;
      board[1, 2] := 1;
      board[2, 1] := 1;
      board[3, 0] := 1;

      board[11, 11] := 2;
      board[11, 10] := 2;
      board[10, 11] := 2;
      board[11, 9] := 2;
      board[10, 10] := 2;
      board[9, 11] := 2;
      board[11, 8] := 2;
      board[10, 9] := 2;
      board[9, 10] := 2;
      board[8, 11] := 2;
    }

    /** move_piece(from_pos, to_pos): succeeds iff the destination is empty, and then
        carries the source's content there and empties the source; otherwise nothing
        changes. */
    method MovePiece(src: Pos, dst: Pos) returns (ok: bool)
      requires Valid() && InBounds(src) && InBounds(dst)
      modifies board
      ensures ok == (old(board[dst.r, dst.c]) == 0)
      ensures ok ==> Snapshot() == Moved(old(Snapshot()), src, dst)
      ensures !ok ==> Snapshot() == old(Snapshot())
    {
      if board[dst.r, dst.c] == 0 {
        ghost var before := Snapshot();
        board[dst.r, dst.c] := board[src.r, src.c];
        board[src.r, src.c] := 0;
        GridExt(Snapshot(), Moved(before, src, dst));
        return true;
      }
      return false;
    }

    /** get_valid_moves(pos) on the board's own grid. */
    method GetValidMoves(pos: Pos) returns (moves: seq<Pos>)
      requires Valid()
      ensures moves == MoveUtils.ValidMoves(pos, Snapshot())
    {
      ghost var g := Snapshot();
      moves := [];
      var i := 0;
      while i < |MoveUtils.Orthogonal|
        invariant 0 <= i <= |MoveUtils.Orthogonal|
        invariant moves == MoveUtils.StepsAlong(pos, g, MoveUtils.Orthogonal[..i])
      {
        var d := MoveUtils.Orthogonal[i];
        var nx, ny := pos.r + d.dr, pos.c + d.dc;
        MoveUtils.StepsAlongSnoc(pos, g, MoveUtils.Orthogonal, i);
        assert Step(pos, d) == Pos(nx, ny);
        if 0 <= nx < 12 && 0 <= ny < 12 && board[nx, ny] == 0 {
          assert At(g, Pos(nx, ny)) == 0;
          moves := moves + [Pos(nx, ny)];
        }
        i := i + 1;
      }
      assert MoveUtils.Orthogonal[..i] == MoveUtils.Orthogonal;
    }

    /** get_jump_moves(pos) on the board's own grid. */
    method GetJumpMoves(pos: Pos) returns (jumps: seq<Pos>)
      requires Valid()
      ensures jumps == MoveUtils.JumpMoves(pos, Snapshot())
    {
      ghost var g := Snapshot();
      jumps := [];
      var i := 0;
      while i < |MoveUtils.Compass|
        invariant 0 <= i <= |MoveUtils.Compass|
        invariant jumps == MoveUtils.JumpsAlong(pos, g, MoveUtils.Compass[..i])
      {
        var d := MoveUtils.Compass[i];
        var landingx, landingy := pos.r + 2 * d.dr, pos.c + 2 * d.dc;
        MoveUtils.JumpsAlongSnoc(pos, g, MoveUtils.Compass, i);
        assert Hop(pos, d) == Pos(landingx, landingy);
        var open := JumpOpen(pos, d);
        assert open == MoveUtils.CanJump(pos, g, d);
        if open {
          jumps := jumps + [Pos(landingx, landingy)];
        }
        i := i + 1;
      }
      assert MoveUtils.Compass[..i] == MoveUtils.Compass;
    }

    /** The test get_jump_moves makes in direction d: the cell passed over is on the
        board and occupied, and the landing cell is on the board and empty. */
    method JumpOpen(pos: Pos, d: Dir) returns (open: bool)
      requires Valid()
      ensures open == MoveUtils.CanJump(pos, Snapshot(), d)
    {
      ghost var g := Snapshot();
      var midx, midy := pos.r + d.dr, pos.c + d.dc;
      var landingx, landingy := pos.r + 2 * d.dr, pos.c + 2 * d.dc;
      var over := 0 <= midx < 12 && 0 <= midy < 12 && board[midx, midy] != 0;
      assert over == (InBounds(Pos(midx, midy)) && At(g, Pos(midx, midy)) != 0);
      var onto := 0 <= landingx < 12 && 0 <= landingy < 12 && board[landingx, landingy] == 0;
      assert onto == (InBounds(Pos(landingx, landingy)) && At(g, Pos(landingx, landingy)) == 0);
      assert Step(pos, d) == Pos(midx, midy) && Hop(pos, d) == Pos(landingx, landingy);
      open := over && onto;
    }

    /** get_points_score(player_id). */
    method GetPointsScore(player: int) returns (score: int)
      requires Valid()
      ensures score == PointsScore(Snapshot(), player)
    {
      score := 0;
      var i := 0;
      while i < |DiamondPoints|
        invariant 0 <= i <= |DiamondPoints|
        invariant score == 3 * Owned(Snapshot(), player, DiamondPoints[..i])
      {
        var pos := DiamondPoints[i];
        if board[pos.r, pos.c] == player {
          score := score + 3;
        }
        assert DiamondPoints[..i + 1][..i] == DiamondPoints[..i];
        i := i + 1;
      }
      assert DiamondPoints[..i] == DiamondPoints;
      var base := score;
      i := 0;
      while i < |GoldPoints|
        invariant 0 <= i <= |GoldPoints|
        invariant score == base + Owned(Snapshot(), player, GoldPoints[..i])
      {
        var pos := GoldPoints[i];
        if board[pos.r, pos.c] == player {
          score := score + 1;
        }
        assert GoldPoints[..i + 1][..i] == GoldPoints[..i];
        i := i + 1;
      }
      assert GoldPoints[..i] == GoldPoints;
    }
  }
}
