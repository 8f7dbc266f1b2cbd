/** The shared vocabulary of the game engine: positions, moves and the 12x12 grid.

    The grid is a numpy 12x12 integer matrix in the program (0 = empty, k = a piece of
    player k). Here it is a value: the sequence of its 144 cells in row-major order,
    so cell (r, c) sits at index r * 12 + c, and "row-major enumeration" (what
    np.argwhere does) is enumeration by increasing index. */
module Topology {

  datatype Option<T> = None | Some(value: T)

  /** Side length of the board. */
  const Side := 12
  /** Number of cells of the board. */
  const CellCount := 144

  datatype Pos = Pos(r: int, c: int)

  /** A move is an ordered pair (from, to). */
  datatype Move = Move(src: Pos, dst: Pos)

  /** A unit direction (dx, dy) of the move generator. */
  datatype Dir = Dir(dr: int, dc: int)

  type Grid = g: seq<int> | |g| == 144 witness seq(144, i => 0)

  predicate InBounds(p: Pos) {
    0 <= p.r < Side && 0 <= p.c < Side
  }

  function Idx(p: Pos): (i: nat)
    requires InBounds(p)
    ensures i < CellCount
  {
    p.r * Side + p.c
  }

  /** The position of the cell stored at index i. */
  function PosAt(i: int): (p: Pos)
    requires 0 <= i < CellCount
    ensures InBounds(p) && Idx(p) == i
  {
    Pos(i / Side, i % Side)
  }

  lemma PosAtIdx(p: Pos)
    requires InBounds(p)
    ensures PosAt(Idx(p)) == p
  {
  }

  lemma IdxInjective(p: Pos, q: Pos)
    requires InBounds(p) && InBounds(q) && Idx(p) == Idx(q)
    ensures p == q
  {
    PosAtIdx(p);
    PosAtIdx(q);
  }

  function At(g: Grid, p: Pos): int
    requires InBounds(p)
  {
    g[Idx(p)]
  }

  /** The grid with cell p set to v. */
  function Put(g: Grid, p: Pos, v: int): (h: Grid)
    requires InBounds(p)
    ensures At(h, p) == v
    ensures forall q :: InBounds(q) && q != p ==> At(h, q) == At(g, q)
  {
    forall q | InBounds(q) && q != p ensures Idx(q) != Idx(p) {
      if Idx(q) == Idx(p) { IdxInjective(p, q); }
    }
    g[Idx(p) := v]
  }

  function Abs(x: int): nat {
    if x < 0 then -x else x
  }

  function Manhattan(p: Pos, q: Pos): nat {
    Abs(p.r - q.r) + Abs(p.c - q.c)
  }

  function Step(p: Pos, d: Dir): Pos {
    Pos(p.r + d.dr, p.c + d.dc)
  }

  function Hop(p: Pos, d: Dir): Pos {
    Pos(p.r + 2 * d.dr, p.c + 2 * d.dc)
  }

  predicate Distinct<T(==)>(s: seq<T>) {
    forall i, j :: 0 <= i < j < |s| ==> s[i] != s[j]
  }

  /** The elements of a non-empty sequence are those of its front and its last one. */
  lemma SplitLast<T>(s: seq<T>)
    requires s != []
    ensures forall x :: x in s <==> x in s[..|s| - 1] || x == s[|s| - 1]
  {
    assert s == s[..|s| - 1] + [s[|s| - 1]];
  }

  /** A position at which x occurs in s. */
  lemma IndexOf<T>(s: seq<T>, x: T) returns (k: nat)
    requires x in s
    ensures k < |s| && s[k] == x
  {
    k :| 0 <= k < |s| && s[k] == x;
  }

  /** Appending is associative. */
  lemma AppendAssoc<T>(a: seq<T>, b: seq<T>, c: seq<T>)
    ensures (a + b) + c == a + (b + c)
  {
  }

  lemma DistinctAppend<T>(a: seq<T>, x: T)
    requires Distinct(a) && x !in a
    ensures Distinct(a + [x])
  {
    var b := a + [x];
    forall i, j | 0 <= i < j < |b| ensures b[i] != b[j] {
      if j == |a| { assert b[i] == a[i] && a[i] in a; }
    }
  }

  /** Number of cells holding v: the piece count of player v. */
  function Count(g: Grid, v: int): nat {
    multiset(g)[v]
  }

  /** The positions among the first n cells that hold v, in row-major order. */
  function PiecesBelow(g: Grid, v: int, n: nat): (ps: seq<Pos>)
    requires n <= CellCount
    ensures |ps| <= n
    ensures forall k :: 0 <= k < |ps| ==> InBounds(ps[k]) && Idx(ps[k]) < n && At(g, ps[k]) == v
    ensures forall i, j :: 0 <= i < j < |ps| ==> Idx(ps[i]) < Idx(ps[j])
  {
    if n == 0 then []
    else PiecesBelow(g, v, n - 1) + (if g[n - 1] == v then [PosAt(n - 1)] else [])
  }

  lemma {:induction false} PiecesBelowComplete(g: Grid, v: int, n: nat, p: Pos)
    requires n <= CellCount
    requires InBounds(p) && Idx(p) < n && At(g, p) == v
    ensures p in PiecesBelow(g, v, n)
  {
    if Idx(p) == n - 1 {
      PosAtIdx(p);
    } else {
      PiecesBelowComplete(g, v, n - 1, p);
    }
  }

  /** np.argwhere(board == v): every cell holding v, in row-major order. */
  function Pieces(g: Grid, v: int): (ps: seq<Pos>)
    ensures Distinct(ps)
    ensures forall p :: p in ps <==> InBounds(p) && At(g, p) == v
    ensures forall i, j :: 0 <= i < j < |ps| ==> Idx(ps[i]) < Idx(ps[j])
  {
    var ps := PiecesBelow(g, v, CellCount);
    forall p | InBounds(p) && At(g, p) == v ensures p in ps {
      PiecesBelowComplete(g, v, CellCount, p);
    }
    ps
  }

  /** A piece earlier in row-major order comes earlier in the piece list. */
  lemma PiecesBefore(g: Grid, v: int, i: nat, k: nat)
    requires i < |Pieces(g, v)| && k < |Pieces(g, v)|
    requires Idx(Pieces(g, v)[k]) < Idx(Pieces(g, v)[i])
    ensures k < i
  {
  }

  lemma {:induction false} PiecesBelowCount(g: Grid, v: int, n: nat)
    requires n <= CellCount
    ensures |PiecesBelow(g, v, n)| == multiset(g[..n])[v]
  {
    if n > 0 {
      PiecesBelowCount(g, v, n - 1);
      assert |PiecesBelow(g, v, n)| == |PiecesBelow(g, v, n - 1)| + (if g[n - 1] == v then 1 else 0);
      assert g[..n] == g[..n - 1] + [g[n - 1]];
      assert multiset(g[..n]) == multiset(g[..n - 1]) + multiset{g[n - 1]};
    }
  }

  /** The number of listed pieces is the piece count. */
  lemma PiecesCount(g: Grid, v: int)
    ensures |Pieces(g, v)| == Count(g, v)
  {
    PiecesBelowCount(g, v, CellCount);
    assert g[..CellCount] == g;
  }

  /** Index of the first element of s nearest to target in Manhattan distance:
      Python's min(s, key=lambda p: distance to target), which keeps the first of equals. */
  function NearestIndex(s: seq<Pos>, target: Pos): (k: nat)
    requires |s| > 0
    ensures k < |s|
    ensures forall j :: 0 <= j < |s| ==> Manhattan(s[k], target) <= Manhattan(s[j], target)
    ensures forall j :: 0 <= j < k ==> Manhattan(s[k], target) < Manhattan(s[j], target)
  {
    if |s| == 1 then 0
    else
      var k := NearestIndex(s[1..], target);
      if Manhattan(s[0], target) <= Manhattan(s[k + 1], target) then 0 else k + 1
  }

  /** Two grids that agree on every cell are equal. */
  lemma GridExt(a: Grid, b: Grid)
    requires forall p :: InBounds(p) ==> At(a, p) == At(b, p)
    ensures a == b
  {
    forall i | 0 <= i < CellCount ensures a[i] == b[i] {
      var p := PosAt(i);
      assert At(a, p) == At(b, p);
    }
  }

  /** The grid after moving the content of src to dst and emptying src: simulate_move,
      and move_piece when it succeeds. With src == dst the cell ends up empty. */
  function Moved(g: Grid, src: Pos, dst: Pos): (h: Grid)
    requires InBounds(src) && InBounds(dst)
    ensures At(h, src) == 0
    ensures dst != src ==> At(h, dst) == At(g, src)
    ensures forall q :: InBounds(q) && q != src && q != dst ==> At(h, q) == At(g, q)
  {
    Put(Put(g, dst, At(g, src)), src, 0)
  }

  /** Moving a piece onto an empty cell keeps every player's piece count. */
  lemma MovedKeepsCounts(g: Grid, src: Pos, dst: Pos, v: int)
    requires InBounds(src) && InBounds(dst) && src != dst && At(g, dst) == 0
    ensures Count(Moved(g, src, dst), v) == Count(g, v)
  {
    var h1 := Put(g, dst, At(g, src));
    assert h1 == g[Idx(dst) := g[Idx(src)]];
    assert multiset(h1) == multiset(g) - multiset{0} + multiset{g[Idx(src)]};
    var h2 := Put(h1, src, 0);
    assert Idx(src) != Idx(dst) by {
      if Idx(src) == Idx(dst) { IdxInjective(src, dst); }
    }
    assert h1[Idx(src)] == g[Idx(src)];
    assert multiset(h2) == multiset(h1) - multiset{g[Idx(src)]} + multiset{0};
  }
}
