/** The move generator (ai/move_utils.py): step moves, single jumps, chain jumps, the
    union of these over a player's pieces, and the congestion-relief rule that moves a
    piece on a target-border cell one cell deeper.

    None of these operations changes the grid. Each list the program builds by a loop
    is specified by a function that builds the same list (in the same order) and by
    lemmas that characterise its members independently. */
module MoveUtils {
  import opened Topology
  import opened Regions

  /** The four step directions, in the program's order. */
  const Orthogonal: seq<Dir> := [Dir(-1, 0), Dir(1, 0), Dir(0, -1), Dir(0, 1)]

  /** The eight jump directions, in the program's order. */
  const Compass: seq<Dir> :=
    [Dir(-1, -1), Dir(-1, 0), Dir(-1, 1),
     Dir(0, -1), Dir(0, 1),
     Dir(1, -1), Dir(1, 0), Dir(1, 1)]

  /** Depth cap of the chain-jump search (the default max_depth). */
  const MaxChainDepth := 5

  // ---------------------------------------------------------------- steps

  /** The neighbour of pos in direction d is on the board and empty. */
  predicate CanStep(pos: Pos, g: Grid, d: Dir) {
    InBounds(Step(pos, d)) && At(g, Step(pos, d)) == 0
  }

  /** The step destinations along the directions ds, in order. */
  function StepsAlong(pos: Pos, g: Grid, ds: seq<Dir>): (qs: seq<Pos>)
    ensures |qs| <= |ds|
  {
    if ds == [] then []
    else
      StepsAlong(pos, g, ds[..|ds| - 1]) +
      (if CanStep(pos, g, ds[|ds| - 1]) then [Step(pos, ds[|ds| - 1])] else [])
  }

  lemma {:induction false} StepsAlongSound(pos: Pos, g: Grid, ds: seq<Dir>, q: Pos)
    requires q in StepsAlong(pos, g, ds)
    ensures exists d :: d in ds && CanStep(pos, g, d) && q == Step(pos, d)
  {
    var front := ds[..|ds| - 1];
    if q in StepsAlong(pos, g, front) {
      StepsAlongSound(pos, g, front, q);
      var d :| d in front && CanStep(pos, g, d) && q == Step(pos, d);
      assert d in ds;
    } else {
      assert ds[|ds| - 1] in ds;
    }
  }

  lemma {:induction false} StepsAlongComplete(pos: Pos, g: Grid, ds: seq<Dir>, d: Dir)
    requires d in ds && CanStep(pos, g, d)
    ensures Step(pos, d) in StepsAlong(pos, g, ds)
  {
    var front := ds[..|ds| - 1];
    if d != ds[|ds| - 1] {
      assert d in front;
      StepsAlongComplete(pos, g, front, d);
    }
  }

  lemma {:induction false} StepsAlongDistinct(pos: Pos, g: Grid, ds: seq<Dir>)
    requires Distinct(ds)
    ensures Distinct(StepsAlong(pos, g, ds))
  {
    if ds != [] {
      var front := ds[..|ds| - 1];
      var last := ds[|ds| - 1];
      assert Distinct(front);
      StepsAlongDistinct(pos, g, front);
      if CanStep(pos, g, last) {
        forall q | q in StepsAlong(pos, g, front) ensures q != Step(pos, last) {
          StepsAlongSound(pos, g, front, q);
          var d :| d in front && CanStep(pos, g, d) && q == Step(pos, d);
          var k :| 0 <= k < |front| && front[k] == d;
          assert ds[k] == d && d != last;
        }
        DistinctAppend(StepsAlong(pos, g, front), Step(pos, last));
      }
    }
  }

  /** get_valid_moves(pos, board): the empty orthogonal neighbours of pos. */
  function ValidMoves(pos: Pos, g: Grid): seq<Pos> {
    StepsAlong(pos, g, Orthogonal)
  }

  /** The step destinations are exactly the empty cells orthogonally adjacent to pos:
      at most 4 of them, without repetition. */
  lemma ValidMovesSpec(pos: Pos, g: Grid)
    ensures forall q :: q in ValidMoves(pos, g) <==> InBounds(q) && At(g, q) == 0 && Manhattan(pos, q) == 1
    ensures |ValidMoves(pos, g)| <= 4 && Distinct(ValidMoves(pos, g))
  {
    forall q | InBounds(q) && At(g, q) == 0 && Manhattan(pos, q) == 1
      ensures q in ValidMoves(pos, g)
    {
      var d := Dir(q.r - pos.r, q.c - pos.c);
      assert d in Orthogonal && Step(pos, d) == q;
      StepsAlongComplete(pos, g, Orthogonal, d);
    }
    forall q | q in ValidMoves(pos, g)
      ensures InBounds(q) && At(g, q) == 0 && Manhattan(pos, q) == 1
    {
      StepsAlongSound(pos, g, Orthogonal, q);
      var d :| d in Orthogonal && CanStep(pos, g, d) && q == Step(pos, d);
      assert Abs(d.dr) + Abs(d.dc) == 1;
    }
    StepsAlongDistinct(pos, g, Orthogonal);
  }

  // ---------------------------------------------------------------- single jumps

  /** The neighbour in direction d is occupied and the cell beyond it is on the board
      and empty. */
  predicate CanJump(pos: Pos, g: Grid, d: Dir) {
    InBounds(Step(pos, d)) && At(g, Step(pos, d)) != 0 &&
    InBounds(Hop(pos, d)) && At(g, Hop(pos, d)) == 0
  }

  /** q is reached from p by one jump: two cells away along one of the eight
      directions, over an occupied cell, onto an empty one. */
  predicate IsJump(g: Grid, p: Pos, q: Pos) {
    var dr, dc := q.r - p.r, q.c - p.c;
    (dr == -2 || dr == 0 || dr == 2) && (dc == -2 || dc == 0 || dc == 2) && (dr != 0 || dc != 0) &&
    InBounds(Pos(p.r + dr / 2, p.c + dc / 2)) && At(g, Pos(p.r + dr / 2, p.c + dc / 2)) != 0 &&
    InBounds(q) && At(g, q) == 0
  }

  /** The eight directions are the unit offsets other than (0, 0). */
  lemma CompassShape(d: Dir)
    requires d in Compass
    ensures -1 <= d.dr <= 1 && -1 <= d.dc <= 1 && (d.dr != 0 || d.dc != 0)
  {
    var k :| 0 <= k < |Compass| && Compass[k] == d;
  }

  lemma InCompass(d: Dir)
    requires -1 <= d.dr <= 1 && -1 <= d.dc <= 1 && (d.dr != 0 || d.dc != 0)
    ensures d in Compass
  {
    var k := if d.dr == -1 then 1 + d.dc else if d.dr == 0 then (if d.dc == -1 then 3 else 4) else 6 + d.dc;
    assert Compass[k] == d;
  }

  lemma CanJumpIsJump(pos: Pos, g: Grid, d: Dir)
    requires d in Compass && CanJump(pos, g, d)
    ensures IsJump(g, pos, Hop(pos, d))
  {
    CompassShape(d);
    var q := Hop(pos, d);
    var dr, dc := q.r - pos.r, q.c - pos.c;
    assert dr == 2 * d.dr && dc == 2 * d.dc;
    Halve(d.dr);
    Halve(d.dc);
    assert (dr == -2 || dr == 0 || dr == 2) && (dc == -2 || dc == 0 || dc == 2) && (dr != 0 || dc != 0);
    assert Pos(pos.r + dr / 2, pos.c + dc / 2) == Step(pos, d);
  }

  lemma Halve(x: int)
    ensures (2 * x) / 2 == x
  {
  }

  /** Every jump goes along one of the eight directions. */
  lemma IsJumpDirection(g: Grid, p: Pos, q: Pos) returns (d: Dir)
    requires IsJump(g, p, q)
    ensures d in Compass && q == Hop(p, d) && CanJump(p, g, d)
  {
    var dr, dc := q.r - p.r, q.c - p.c;
    var hr := if dr == -2 then -1 else if dr == 0 then 0 else 1;
    var hc := if dc == -2 then -1 else if dc == 0 then 0 else 1;
    assert dr / 2 == hr && dc / 2 == hc;
    d := Dir(hr, hc);
    InCompass(d);
    assert Step(p, d) == Pos(p.r + dr / 2, p.c + dc / 2);
  }

  /** The jump landings along the directions ds, in order. */
  function JumpsAlong(pos: Pos, g: Grid, ds: seq<Dir>): (qs: seq<Pos>)
    ensures |qs| <= |ds|
  {
    if ds == [] then []
    else
      JumpsAlong(pos, g, ds[..|ds| - 1]) +
      (if CanJump(pos, g, ds[|ds| - 1]) then [Hop(pos, ds[|ds| - 1])] else [])
  }

  lemma {:induction false} JumpsAlongSound(pos: Pos, g: Grid, ds: seq<Dir>, q: Pos)
    requires q in JumpsAlong(pos, g, ds)
    ensures exists d :: d in ds && CanJump(pos, g, d) && q == Hop(pos, d)
  {
    var front := ds[..|ds| - 1];
    if q in JumpsAlong(pos, g, front) {
      JumpsAlongSound(pos, g, front, q);
      var d :| d in front && CanJump(pos, g, d) && q == Hop(pos, d);
      assert d in ds;
    } else {
      assert ds[|ds| - 1] in ds;
    }
  }

  lemma {:induction false} JumpsAlongComplete(pos: Pos, g: Grid, ds: seq<Dir>, d: Dir)
    requires d in ds && CanJump(pos, g, d)
    ensures Hop(pos, d) in JumpsAlong(pos, g, ds)
  {
    var front := ds[..|ds| - 1];
    if d != ds[|ds| - 1] {
      assert d in front;
      JumpsAlongComplete(pos, g, front, d);
    }
  }

  lemma {:induction false} JumpsAlongDistinct(pos: Pos, g: Grid, ds: seq<Dir>)
    requires Distinct(ds)
    ensures Distinct(JumpsAlong(pos, g, ds))
  {
    if ds != [] {
      var front := ds[..|ds| - 1];
      var last := ds[|ds| - 1];
      assert Distinct(front);
      JumpsAlongDistinct(pos, g, front);
      if CanJump(pos, g, last) {
        forall q | q in JumpsAlong(pos, g, front) ensures q != Hop(pos, last) {
          JumpsAlongSound(pos, g, front, q);
          var d :| d in front && CanJump(pos, g, d) && q == Hop(pos, d);
          var k :| 0 <= k < |front| && front[k] == d;
          assert ds[k] == d && d != last;
        }
        DistinctAppend(JumpsAlong(pos, g, front), Hop(pos, last));
      }
    }
  }

  /** get_jump_moves(pos, board): the single-jump landings from pos. */
  function JumpMoves(pos: Pos, g: Grid): seq<Pos> {
    JumpsAlong(pos, g, Compass)
  }

  /** The landings are exactly the cells one jump away: at most 8, without repetition. */
  lemma JumpMovesSpec(pos: Pos, g: Grid)
    ensures forall q :: q in JumpMoves(pos, g) <==> IsJump(g, pos, q)
    ensures |JumpMoves(pos, g)| <= 8 && Distinct(JumpMoves(pos, g))
  {
    forall q | IsJump(g, pos, q) ensures q in JumpMoves(pos, g) {
      var d := IsJumpDirection(g, pos, q);
      JumpsAlongComplete(pos, g, Compass, d);
    }
    forall q | q in JumpMoves(pos, g) ensures IsJump(g, pos, q) {
      JumpsAlongSound(pos, g, Compass, q);
      var d :| d in Compass && CanJump(pos, g, d) && q == Hop(pos, d);
      CanJumpIsJump(pos, g, d);
    }
    JumpsAlongDistinct(pos, g, Compass);
  }

  // ---------------------------------------------------------------- chain jumps

  function Last(path: seq<Pos>): Pos
    requires |path| > 0
  {
    path[|path| - 1]
  }

  /** path is a chain of single jumps from pos: it starts at pos, each consecutive pair
      is a legal single jump on the (unchanged) grid, no cell repeats, and no landing
      was in visited. */
  predicate JumpChain(g: Grid, pos: Pos, visited: set<Pos>, path: seq<Pos>) {
    |path| >= 2 && path[0] == pos && Distinct(path) &&
    (forall k :: 1 <= k < |path| ==> path[k] !in visited) &&
    Hops(g, path)
  }

  /** Each cell of path after the first is one jump away from the cell before it. */
  predicate Hops(g: Grid, path: seq<Pos>) {
    |path| <= 1 || (IsJump(g, path[0], path[1]) && Hops(g, path[1..]))
  }

  /** Every path is a jump chain from pos of at most maxDepth jumps. */
  predicate Chains(g: Grid, pos: Pos, visited: set<Pos>, maxDepth: int, paths: seq<seq<Pos>>) {
    forall path :: path in paths ==> JumpChain(g, pos, visited, path) && |path| <= maxDepth + 1
  }

  predicate NonEmpty(paths: seq<seq<Pos>>) {
    forall k :: 0 <= k < |paths| ==> |paths[k]| >= 1
  }

  lemma ChainsAppend(g: Grid, pos: Pos, visited: set<Pos>, maxDepth: int, a: seq<seq<Pos>>, b: seq<seq<Pos>>)
    requires Chains(g, pos, visited, maxDepth, a) && Chains(g, pos, visited, maxDepth, b)
    ensures Chains(g, pos, visited, maxDepth, a + b)
  {
  }

  /** A jump from pos to an unvisited t, followed by a chain from t that avoids t and
      visited, is a chain from pos. */
  lemma PrependChain(g: Grid, pos: Pos, t: Pos, visited: set<Pos>, fp: seq<Pos>)
    requires pos in visited && t !in visited && IsJump(g, pos, t)
    requires JumpChain(g, t, visited + {t}, fp)
    ensures JumpChain(g, pos, visited, [pos] + fp)
  {
    var path := [pos] + fp;
    forall k | 1 <= k < |path| ensures path[k] !in visited {
      assert path[k] == fp[k - 1];
    }
    assert path[1..] == fp;
    forall i, j | 0 <= i < j < |path| ensures path[i] != path[j] {
      assert path[j] == fp[j - 1];
      if i > 0 { assert path[i] == fp[i - 1]; }
    }
  }

  /** The program's step `paths.append([pos] + fp[1:])` for each further path fp that does
      not start at pos: it drops fp's first cell, the landing it continues from. */
  function Spliced(pos: Pos, fps: seq<seq<Pos>>): (paths: seq<seq<Pos>>)
    requires NonEmpty(fps)
    ensures NonEmpty(paths)
  {
    if fps == [] then []
    else
      var fp := fps[|fps| - 1];
      assert fp in fps;
      Spliced(pos, fps[..|fps| - 1]) + (if fp[0] == pos then [] else [[pos] + fp[1..]])
  }

  /** get_continuous_jump_moves(pos, board, visited, max_depth) as written. */
  function ContinuousJumpMoves(pos: Pos, g: Grid, visited: set<Pos>, maxDepth: int): (paths: seq<seq<Pos>>)
    requires pos in visited
    ensures NonEmpty(paths)
    decreases maxDepth, 1
  {
    if maxDepth <= 0 then []
    else ContinuousJumpsAlong(pos, g, visited, maxDepth, Compass)
  }

  /** The paths of ContinuousJumpMoves found along the directions ds, in order. */
  function ContinuousJumpsAlong(pos: Pos, g: Grid, visited: set<Pos>, maxDepth: int, ds: seq<Dir>): (paths: seq<seq<Pos>>)
    requires pos in visited && maxDepth > 0
    ensures NonEmpty(paths)
    decreases maxDepth, 0, |ds|
  {
    if ds == [] then []
    else
      var front := ContinuousJumpsAlong(pos, g, visited, maxDepth, ds[..|ds| - 1]);
      var d := ds[|ds| - 1];
      if CanJump(pos, g, d) && Hop(pos, d) !in visited then
        var t := Hop(pos, d);
        var further := ContinuousJumpMoves(t, g, visited + {t}, maxDepth - 1);
        front + [[pos, t]] + Spliced(pos, further)
      else front
  }

  /** The evidently intended step `paths.append([pos] + fp)`: keep the whole hop list. */
  function Prepended(pos: Pos, fps: seq<seq<Pos>>): (paths: seq<seq<Pos>>)
    requires NonEmpty(fps)
    ensures NonEmpty(paths)
  {
    if fps == [] then []
    else
      var fp := fps[|fps| - 1];
      assert fp in fps;
      Prepended(pos, fps[..|fps| - 1]) + (if fp[0] == pos then [] else [[pos] + fp])
  }

  lemma {:induction false} PrependedChains(g: Grid, pos: Pos, t: Pos, visited: set<Pos>, maxDepth: int, fps: seq<seq<Pos>>)
    requires pos in visited && t !in visited && IsJump(g, pos, t)
    requires NonEmpty(fps) && Chains(g, t, visited + {t}, maxDepth - 1, fps)
    ensures Chains(g, pos, visited, maxDepth, Prepended(pos, fps))
  {
    if fps != [] {
      var front := fps[..|fps| - 1];
      var fp := fps[|fps| - 1];
      assert forall x :: x in front ==> x in fps;
      assert fp in fps;
      PrependedChains(g, pos, t, visited, maxDepth, front);
      if fp[0] != pos {
        PrependChain(g, pos, t, visited, fp);
        ChainsAppend(g, pos, visited, maxDepth, Prepended(pos, front), [[pos] + fp]);
      }
    }
  }

  /** Chain-jump enumeration with the full hop list kept in every path. */
  function JumpChains(pos: Pos, g: Grid, visited: set<Pos>, maxDepth: int): (paths: seq<seq<Pos>>)
    requires pos in visited
    ensures NonEmpty(paths)
    decreases maxDepth, 1
  {
    if maxDepth <= 0 then []
    else JumpChainsAlong(pos, g, visited, maxDepth, Compass)
  }

  /** The paths of JumpChains found along the directions ds, in order. */
  function JumpChainsAlong(pos: Pos, g: Grid, visited: set<Pos>, maxDepth: int, ds: seq<Dir>): (paths: seq<seq<Pos>>)
    requires pos in visited && maxDepth > 0
    ensures NonEmpty(paths)
    decreases maxDepth, 0, |ds|
  {
    if ds == [] then []
    else
      var front := JumpChainsAlong(pos, g, visited, maxDepth, ds[..|ds| - 1]);
      var d := ds[|ds| - 1];
      if CanJump(pos, g, d) && Hop(pos, d) !in visited then
        var t := Hop(pos, d);
        front + [[pos, t]] + Prepended(pos, JumpChains(t, g, visited + {t}, maxDepth - 1))
      else front
  }

  /** One direction's contribution keeps every path a chain. */
  lemma ChainsStep(g: Grid, pos: Pos, t: Pos, visited: set<Pos>, maxDepth: int, front: seq<seq<Pos>>, further: seq<seq<Pos>>)
    requires pos in visited && t !in visited && IsJump(g, pos, t) && maxDepth > 0
    requires Chains(g, pos, visited, maxDepth, front)
    requires NonEmpty(further) && Chains(g, t, visited + {t}, maxDepth - 1, further)
    ensures Chains(g, pos, visited, maxDepth, front + [[pos, t]] + Prepended(pos, further))
  {
    PrependedChains(g, pos, t, visited, maxDepth, further);
    assert JumpChain(g, pos, visited, [pos, t]);
    ChainsAppend(g, pos, visited, maxDepth, front, [[pos, t]]);
    ChainsAppend(g, pos, visited, maxDepth, front + [[pos, t]], Prepended(pos, further));
  }

  /** Soundness: every enumerated path is a chain of at most maxDepth legal jumps from pos
      that never lands on a visited cell. */
  lemma {:induction false} JumpChainsSound(pos: Pos, g: Grid, visited: set<Pos>, maxDepth: int)
    requires pos in visited
    ensures Chains(g, pos, visited, maxDepth, JumpChains(pos, g, visited, maxDepth))
    decreases maxDepth, 1
  {
    if maxDepth > 0 {
      JumpChainsAlongSound(pos, g, visited, maxDepth, Compass);
    }
  }

  lemma {:induction false} JumpChainsAlongSound(pos: Pos, g: Grid, visited: set<Pos>, maxDepth: int, ds: seq<Dir>)
    requires pos in visited && maxDepth > 0
    requires forall d :: d in ds ==> d in Compass
    ensures Chains(g, pos, visited, maxDepth, JumpChainsAlong(pos, g, visited, maxDepth, ds))
    decreases maxDepth, 0, |ds|
  {
    if ds != [] {
      var front := ds[..|ds| - 1];
      SplitLast(ds);
      JumpChainsAlongSound(pos, g, visited, maxDepth, front);
      var frontChains := JumpChainsAlong(pos, g, visited, maxDepth, front);
      var d := ds[|ds| - 1];
      if CanJump(pos, g, d) && Hop(pos, d) !in visited {
        var t := Hop(pos, d);
        var further := JumpChains(t, g, visited + {t}, maxDepth - 1);
        JumpChainsSound(t, g, visited + {t}, maxDepth - 1);
        CanJumpIsJump(pos, g, d);
        ChainsStep(g, pos, t, visited, maxDepth, frontChains, further);
        assert JumpChainsAlong(pos, g, visited, maxDepth, ds) == frontChains + [[pos, t]] + Prepended(pos, further);
      } else {
        assert JumpChainsAlong(pos, g, visited, maxDepth, ds) == frontChains;
      }
    }
  }

  lemma {:induction false} PrependedHas(pos: Pos, fps: seq<seq<Pos>>, fp: seq<Pos>)
    requires NonEmpty(fps) && fp in fps && fp[0] != pos
    ensures [pos] + fp in Prepended(pos, fps)
  {
    var front := fps[..|fps| - 1];
    if fp != fps[|fps| - 1] {
      assert fp in front;
      assert forall x :: x in front ==> x in fps;
      PrependedHas(pos, front, fp);
    }
  }

  lemma {:induction false} JumpChainsAlongHas(pos: Pos, g: Grid, visited: set<Pos>, maxDepth: int, ds: seq<Dir>, d: Dir)
    requires pos in visited && maxDepth > 0
    requires d in ds && CanJump(pos, g, d) && Hop(pos, d) !in visited
    ensures [pos, Hop(pos, d)] in JumpChainsAlong(pos, g, visited, maxDepth, ds)
    ensures forall fp :: fp in JumpChains(Hop(pos, d), g, visited + {Hop(pos, d)}, maxDepth - 1) ==>
              [pos] + fp in JumpChainsAlong(pos, g, visited, maxDepth, ds)
    decreases |ds|
  {
    var front := ds[..|ds| - 1];
    var t := Hop(pos, d);
    var further := JumpChains(t, g, visited + {t}, maxDepth - 1);
    if d != ds[|ds| - 1] {
      assert d in front;
      JumpChainsAlongHas(pos, g, visited, maxDepth, front, d);
    } else {
      JumpChainsSound(t, g, visited + {t}, maxDepth - 1);
      forall fp | fp in further
        ensures [pos] + fp in JumpChainsAlong(pos, g, visited, maxDepth, ds)
      {
        assert fp[0] == t && t != pos;
        PrependedHas(pos, further, fp);
      }
    }
  }

  /** A chain further on from the landing of a jump along d, preceded by pos, is among the
      chains along ds. */
  lemma JumpChainsAlongHasTail(pos: Pos, g: Grid, visited: set<Pos>, maxDepth: int, ds: seq<Dir>, d: Dir, fp: seq<Pos>)
    requires pos in visited && maxDepth > 0
    requires d in ds && CanJump(pos, g, d) && Hop(pos, d) !in visited
    requires fp in JumpChains(Hop(pos, d), g, visited + {Hop(pos, d)}, maxDepth - 1)
    ensures [pos] + fp in JumpChainsAlong(pos, g, visited, maxDepth, ds)
  {
    JumpChainsAlongHas(pos, g, visited, maxDepth, ds, d);
  }

  /** The converse of PrependChain: after its first jump, a chain of two or more jumps
      goes on as a chain from the landing cell that avoids it and visited. */
  lemma ChainTail(g: Grid, pos: Pos, visited: set<Pos>, path: seq<Pos>)
    requires JumpChain(g, pos, visited, path) && |path| > 2
    ensures JumpChain(g, path[1], visited + {path[1]}, path[1..]) && path == [pos] + path[1..]
  {
    var fp := path[1..];
    forall k | 1 <= k < |fp| ensures fp[k] !in visited + {path[1]} {
      assert fp[k] == path[k + 1] && path[1] != path[k + 1];
    }
  }

  /** Completeness: every chain of at most maxDepth jumps from pos avoiding visited is
      enumerated. */
  lemma {:induction false} JumpChainsComplete(pos: Pos, g: Grid, visited: set<Pos>, maxDepth: int, path: seq<Pos>)
    requires pos in visited
    requires JumpChain(g, pos, visited, path) && |path| <= maxDepth + 1
    ensures path in JumpChains(pos, g, visited, maxDepth)
    decreases |path|
  {
    var t := path[1];
    assert IsJump(g, pos, t) && t !in visited;
    var d := IsJumpDirection(g, pos, t);
    assert Hop(pos, d) == t;
    if |path| == 2 {
      JumpChainsAlongHas(pos, g, visited, maxDepth, Compass, d);
      assert path == [pos, t];
    } else {
      ChainTail(g, pos, visited, path);
      JumpChainsComplete(t, g, visited + {t}, maxDepth - 1, path[1..]);
      JumpChainsAlongHasTail(pos, g, visited, maxDepth, Compass, d, path[1..]);
    }
  }

  // ---------------------------------------------------------------- as written vs. intended

  /** What survives of a path in the program's splice: its first and last cells. */
  function Ends(path: seq<Pos>): seq<Pos> {
    if |path| < 2 then path else [path[0], Last(path)]
  }

  function EndsAll(paths: seq<seq<Pos>>): (es: seq<seq<Pos>>)
    ensures |es| == |paths|
  {
    if paths == [] then []
    else EndsAll(paths[..|paths| - 1]) + [Ends(paths[|paths| - 1])]
  }

  lemma {:induction false} EndsAllAppend(a: seq<seq<Pos>>, b: seq<seq<Pos>>)
    ensures EndsAll(a + b) == EndsAll(a) + EndsAll(b)
    decreases |b|
  {
    if b != [] {
      var b' := b[..|b| - 1];
      assert (a + b)[..|a + b| - 1] == a + b';
      EndsAllAppend(a, b');
    } else {
      assert a + b == a;
    }
  }

  lemma {:induction false} EndsAllNonEmpty(paths: seq<seq<Pos>>)
    requires NonEmpty(paths)
    ensures NonEmpty(EndsAll(paths))
  {
    if paths != [] {
      var front := paths[..|paths| - 1];
      assert forall x :: x in front ==> x in paths;
      assert paths[|paths| - 1] in paths;
      EndsAllNonEmpty(front);
    }
  }

  lemma EndsAllSnoc(paths: seq<seq<Pos>>, path: seq<Pos>)
    ensures EndsAll(paths + [path]) == EndsAll(paths) + [Ends(path)]
  {
    assert (paths + [path])[..|paths|] == paths;
  }

  /** Every path has at least two cells and starts at t. */
  predicate StartAt(t: Pos, fps: seq<seq<Pos>>) {
    forall k :: 0 <= k < |fps| ==> |fps[k]| >= 2 && fps[k][0] == t
  }

  lemma ChainsStartAt(g: Grid, t: Pos, visited: set<Pos>, maxDepth: int, paths: seq<seq<Pos>>)
    requires Chains(g, t, visited, maxDepth, paths)
    ensures NonEmpty(paths) && StartAt(t, paths)
  {
    forall k | 0 <= k < |paths| ensures |paths[k]| >= 2 && paths[k][0] == t {
      assert paths[k] in paths;
    }
  }

  /** Splicing chains that start at t != pos (the program) keeps exactly the two ends of
      prepending them (the evident intent). */
  lemma {:induction false} SplicedEnds(pos: Pos, t: Pos, fps: seq<seq<Pos>>)
    requires t != pos && NonEmpty(fps) && StartAt(t, fps)
    ensures NonEmpty(EndsAll(fps))
    ensures Spliced(pos, EndsAll(fps)) == EndsAll(Prepended(pos, fps))
  {
    EndsAllNonEmpty(fps);
    if fps != [] {
      var front := fps[..|fps| - 1];
      var fp := fps[|fps| - 1];
      assert StartAt(t, front);
      SplicedEnds(pos, t, front);
      var es := EndsAll(fps);
      var e := Ends(fp);
      assert es == EndsAll(front) + [e];
      assert es[..|es| - 1] == EndsAll(front);
      assert e[0] == t && e[1..] == [Last(fp)];
      assert fp in fps;
      assert Prepended(pos, fps) == Prepended(pos, front) + [[pos] + fp];
      EndsAllSnoc(Prepended(pos, front), [pos] + fp);
      assert Ends([pos] + fp) == [pos, Last(fp)];
      assert Spliced(pos, es) == Spliced(pos, EndsAll(front)) + [[pos] + e[1..]];
      assert [pos] + e[1..] == [pos, Last(fp)];
    }
  }

  /** One direction's contribution: the program's [origin, landing] plus spliced further
      paths keeps the ends of the intended [origin, landing] plus prepended chains. */
  lemma SpliceStep(pos: Pos, t: Pos, front: seq<seq<Pos>>, further: seq<seq<Pos>>)
    requires t != pos && NonEmpty(further) && StartAt(t, further)
    ensures NonEmpty(EndsAll(further))
    ensures EndsAll(front) + [[pos, t]] + Spliced(pos, EndsAll(further)) ==
            EndsAll(front + [[pos, t]] + Prepended(pos, further))
  {
    SplicedEnds(pos, t, further);
    EndsAllSnoc(front, [pos, t]);
    assert Ends([pos, t]) == [pos, t];
    EndsAllAppend(front + [[pos, t]], Prepended(pos, further));
  }

  /** The program's chain enumeration returns, in the same order, the first and last cells
      of every intended chain: the same destinations, but not the hops between them. */
  lemma {:induction false} ContinuousJumpMovesEnds(pos: Pos, g: Grid, visited: set<Pos>, maxDepth: int)
    requires pos in visited
    ensures ContinuousJumpMoves(pos, g, visited, maxDepth) == EndsAll(JumpChains(pos, g, visited, maxDepth))
    decreases maxDepth, 1
  {
    if maxDepth > 0 {
      ContinuousJumpsAlongEnds(pos, g, visited, maxDepth, Compass);
    }
  }

  lemma {:induction false} ContinuousJumpsAlongEnds(pos: Pos, g: Grid, visited: set<Pos>, maxDepth: int, ds: seq<Dir>)
    requires pos in visited && maxDepth > 0
    ensures ContinuousJumpsAlong(pos, g, visited, maxDepth, ds) == EndsAll(JumpChainsAlong(pos, g, visited, maxDepth, ds))
    decreases maxDepth, 0, |ds|
  {
    if ds != [] {
      var front := ds[..|ds| - 1];
      ContinuousJumpsAlongEnds(pos, g, visited, maxDepth, front);
      var d := ds[|ds| - 1];
      if CanJump(pos, g, d) && Hop(pos, d) !in visited {
        var t := Hop(pos, d);
        var further := JumpChains(t, g, visited + {t}, maxDepth - 1);
        ContinuousJumpMovesEnds(t, g, visited + {t}, maxDepth - 1);
        JumpChainsSound(t, g, visited + {t}, maxDepth - 1);
        ChainsStartAt(g, t, visited + {t}, maxDepth - 1, further);
        var frontChains := JumpChainsAlong(pos, g, visited, maxDepth, front);
        SpliceStep(pos, t, frontChains, further);
        calc {
          ContinuousJumpsAlong(pos, g, visited, maxDepth, ds);
          ContinuousJumpsAlong(pos, g, visited, maxDepth, front) + [[pos, t]] + Spliced(pos, ContinuousJumpMoves(t, g, visited + {t}, maxDepth - 1));
          EndsAll(frontChains) + [[pos, t]] + Spliced(pos, EndsAll(further));
          EndsAll(frontChains + [[pos, t]] + Prepended(pos, further));
          EndsAll(JumpChainsAlong(pos, g, visited, maxDepth, ds));
        }
      } else {
        assert ContinuousJumpsAlong(pos, g, visited, maxDepth, ds) == ContinuousJumpsAlong(pos, g, visited, maxDepth, front);
        assert JumpChainsAlong(pos, g, visited, maxDepth, ds) == JumpChainsAlong(pos, g, visited, maxDepth, front);
      }
    }
  }

  /** Consequently every path the program returns has exactly two cells: pos and an empty,
      unvisited landing. So no path exists when maxDepth <= 0, and the `fp[0] == pos` filter
      never fires: a further path starts at its own landing, which was added to visited. */
  lemma ContinuousPathsHaveTwoCells(pos: Pos, g: Grid, visited: set<Pos>, maxDepth: int, path: seq<Pos>)
    requires pos in visited
    requires path in ContinuousJumpMoves(pos, g, visited, maxDepth)
    ensures maxDepth >= 1 && |path| == 2 && path[0] == pos
    ensures InBounds(path[1]) && At(g, path[1]) == 0 && path[1] !in visited
  {
    ContinuousJumpMovesEnds(pos, g, visited, maxDepth);
    JumpChainsSound(pos, g, visited, maxDepth);
    var chains := JumpChains(pos, g, visited, maxDepth);
    var k :| 0 <= k < |chains| && EndsAll(chains)[k] == path;
    EndsAllIndex(chains, k);
    assert chains[k] in chains;
    LastOfChain(g, pos, visited, chains[k]);
  }

  lemma {:induction false} EndsAllIndex(paths: seq<seq<Pos>>, k: nat)
    requires k < |paths|
    ensures EndsAll(paths)[k] == Ends(paths[k])
  {
    if k < |paths| - 1 {
      EndsAllIndex(paths[..|paths| - 1], k);
    }
  }

  lemma EndsAllHas(paths: seq<seq<Pos>>, path: seq<Pos>)
    requires path in paths
    ensures Ends(path) in EndsAll(paths)
  {
    var k :| 0 <= k < |paths| && paths[k] == path;
    EndsAllIndex(paths, k);
  }

  // ---------------------------------------------------------------- chain destinations

  /** The destinations get_all_moves takes from a list of paths: the last cell of every
      path with more than one cell, in order. */
  function EndPoints(paths: seq<seq<Pos>>): (qs: seq<Pos>)
    ensures |qs| <= |paths|
  {
    if paths == [] then []
    else
      var path := paths[|paths| - 1];
      EndPoints(paths[..|paths| - 1]) + (if |path| > 1 then [Last(path)] else [])
  }

  lemma {:induction false} EndPointsMember(paths: seq<seq<Pos>>, q: Pos)
    ensures q in EndPoints(paths) <==> exists k :: 0 <= k < |paths| && |paths[k]| > 1 && Last(paths[k]) == q
  {
    if q in EndPoints(paths) {
      var k := EndPointsSource(paths, q);
    }
    if exists k :: 0 <= k < |paths| && |paths[k]| > 1 && Last(paths[k]) == q {
      var k :| 0 <= k < |paths| && |paths[k]| > 1 && Last(paths[k]) == q;
      EndPointsHas(paths, k);
    }
  }

  /** Each destination is the last cell of some path of two or more cells. */
  lemma {:induction false} EndPointsSource(paths: seq<seq<Pos>>, q: Pos) returns (k: nat)
    requires q in EndPoints(paths)
    ensures k < |paths| && |paths[k]| > 1 && Last(paths[k]) == q
  {
    var front := paths[..|paths| - 1];
    if q in EndPoints(front) {
      k := EndPointsSource(front, q);
      assert paths[k] == front[k];
    } else {
      k := |paths| - 1;
    }
  }

  /** The last cell of every path of two or more cells is a destination. */
  lemma {:induction false} EndPointsHas(paths: seq<seq<Pos>>, k: nat)
    requires k < |paths| && |paths[k]| > 1
    ensures Last(paths[k]) in EndPoints(paths)
  {
    var front := paths[..|paths| - 1];
    if k < |front| {
      EndPointsHas(front, k);
      assert front[k] == paths[k];
    }
  }



  /** Keeping only the two ends of each path does not change the destinations. */
  lemma {:induction false} EndPointsOfEnds(paths: seq<seq<Pos>>)
    ensures EndPoints(EndsAll(paths)) == EndPoints(paths)
  {
    if paths != [] {
      var front := paths[..|paths| - 1];
      EndPointsOfEnds(front);
      var es := EndsAll(paths);
      assert es[..|es| - 1] == EndsAll(front);
    }
  }

  /** The chain destinations from pos: the last cells of all chains of at most
      MaxChainDepth jumps, in the program's order (with repetitions). */
  function JumpTargets(pos: Pos, g: Grid): seq<Pos> {
    EndPoints(JumpChains(pos, g, {pos}, MaxChainDepth))
  }

  /** The destinations the program draws from get_continuous_jump_moves are exactly the
      intended chain destinations, in the same order: the lost hops do not matter to it. */
  lemma ContinuousJumpTargets(pos: Pos, g: Grid)
    ensures EndPoints(ContinuousJumpMoves(pos, g, {pos}, MaxChainDepth)) == JumpTargets(pos, g)
  {
    ContinuousJumpMovesEnds(pos, g, {pos}, MaxChainDepth);
    EndPointsOfEnds(JumpChains(pos, g, {pos}, MaxChainDepth));
  }

  /** q is a chain destination iff some chain of 1 to MaxChainDepth legal jumps, never
      revisiting a cell, leads from pos to q; such a q is an empty cell other than pos. */
  lemma JumpTargetsSpec(pos: Pos, g: Grid, q: Pos)
    ensures q in JumpTargets(pos, g) <==>
      exists path :: JumpChain(g, pos, {pos}, path) && |path| <= MaxChainDepth + 1 && Last(path) == q
    ensures q in JumpTargets(pos, g) ==> InBounds(q) && At(g, q) == 0 && q != pos
  {
    var chains := JumpChains(pos, g, {pos}, MaxChainDepth);
    JumpChainsSound(pos, g, {pos}, MaxChainDepth);
    EndPointsMember(chains, q);
    if q in JumpTargets(pos, g) {
      var k :| 0 <= k < |chains| && |chains[k]| > 1 && Last(chains[k]) == q;
      var path := chains[k];
      assert path in chains;
      LastOfChain(g, pos, {pos}, path);
    }
    if exists path :: JumpChain(g, pos, {pos}, path) && |path| <= MaxChainDepth + 1 && Last(path) == q {
      var path :| JumpChain(g, pos, {pos}, path) && |path| <= MaxChainDepth + 1 && Last(path) == q;
      JumpChainsComplete(pos, g, {pos}, MaxChainDepth, path);
      var k := IndexOf(chains, path);
    }
  }

  /** The last cell of a chain is an empty cell that was not visited. */
  lemma {:induction false} LastOfChain(g: Grid, pos: Pos, visited: set<Pos>, path: seq<Pos>)
    requires JumpChain(g, pos, visited, path)
    ensures InBounds(Last(path)) && At(g, Last(path)) == 0 && Last(path) !in visited
  {
    LastHop(g, path);
  }

  lemma {:induction false} LastHop(g: Grid, path: seq<Pos>)
    requires |path| >= 2 && Hops(g, path)
    ensures IsJump(g, path[|path| - 2], Last(path))
    decreases |path|
  {
    if |path| > 2 {
      LastHop(g, path[1..]);
    }
  }

  /** A single jump is also a one-jump chain, so get_all_moves lists it twice. */
  lemma SingleJumpIsChain(pos: Pos, g: Grid, q: Pos)
    requires q in JumpMoves(pos, g)
    ensures q in JumpTargets(pos, g)
  {
    JumpMovesSpec(pos, g);
    assert IsJump(g, pos, q);
    var path := [pos, q];
    assert Hops(g, path[1..]);
    assert JumpChain(g, pos, {pos}, path);
    JumpTargetsSpec(pos, g, q);
  }

  // ---------------------------------------------------------------- the lost hops

  /** A row with pieces at (0, 0), (0, 1) and (0, 3): from (0, 0) the chain
      (0, 0) -> (0, 2) -> (0, 4) is legal. */
  const TwoHopRow: Grid := seq(144, i => if i == 0 || i == 1 || i == 3 then 1 else 0)

  /** As written, get_continuous_jump_moves returns the path [(0, 0), (0, 4)] for that
      row, and its one "hop" is not a jump: the landing (0, 2) is lost. */
  lemma SplicedPathIsNotAChain()
    ensures [Pos(0, 0), Pos(0, 4)] in ContinuousJumpMoves(Pos(0, 0), TwoHopRow, {Pos(0, 0)}, MaxChainDepth)
    ensures !Hops(TwoHopRow, [Pos(0, 0), Pos(0, 4)])
  {
    var g := TwoHopRow;
    var chain := [Pos(0, 0), Pos(0, 2), Pos(0, 4)];
    assert g[1] == 1 && g[2] == 0 && g[3] == 1 && g[4] == 0;
    assert IsJump(g, Pos(0, 0), Pos(0, 2)) && IsJump(g, Pos(0, 2), Pos(0, 4));
    assert chain[1..][1..] == [Pos(0, 4)];
    assert Hops(g, chain[1..]);
    assert JumpChain(g, Pos(0, 0), {Pos(0, 0)}, chain);
    JumpChainsComplete(Pos(0, 0), g, {Pos(0, 0)}, MaxChainDepth, chain);
    ContinuousJumpMovesEnds(Pos(0, 0), g, {Pos(0, 0)}, MaxChainDepth);
    EndsAllHas(JumpChains(Pos(0, 0), g, {Pos(0, 0)}, MaxChainDepth), chain);
  }

  // ---------------------------------------------------------------- loops of the generator

  /** One more direction adds its step destination, if any, at the end. */
  lemma StepsAlongSnoc(pos: Pos, g: Grid, ds: seq<Dir>, i: nat)
    requires i < |ds|
    ensures StepsAlong(pos, g, ds[..i + 1]) ==
      StepsAlong(pos, g, ds[..i]) + (if CanStep(pos, g, ds[i]) then [Step(pos, ds[i])] else [])
  {
    assert ds[..i + 1][..i] == ds[..i] && ds[..i + 1][i] == ds[i];
  }

  /** One more direction adds its jump landing, if any, at the end. */
  lemma JumpsAlongSnoc(pos: Pos, g: Grid, ds: seq<Dir>, i: nat)
    requires i < |ds|
    ensures JumpsAlong(pos, g, ds[..i + 1]) ==
      JumpsAlong(pos, g, ds[..i]) + (if CanJump(pos, g, ds[i]) then [Hop(pos, ds[i])] else [])
  {
    assert ds[..i + 1][..i] == ds[..i] && ds[..i + 1][i] == ds[i];
  }

  /** get_valid_moves(pos, board). */
  method GetValidMoves(pos: Pos, g: Grid) returns (moves: seq<Pos>)
    ensures moves == ValidMoves(pos, g)
  {
    moves := [];
    var i := 0;
    while i < |Orthogonal|
      invariant 0 <= i <= |Orthogonal|
      invariant moves == StepsAlong(pos, g, Orthogonal[..i])
    {
      var n := Step(pos, Orthogonal[i]);
      StepsAlongSnoc(pos, g, Orthogonal, i);
      if InBounds(n) && At(g, n) == 0 {
        moves := moves + [n];
      }
      i := i + 1;
    }
    assert Orthogonal[..i] == Orthogonal;
  }

  /** get_jump_moves(pos, board). */
  method GetJumpMoves(pos: Pos, g: Grid) returns (moves: seq<Pos>)
    ensures moves == JumpMoves(pos, g)
  {
    moves := [];
    var i := 0;
    while i < |Compass|
      invariant 0 <= i <= |Compass|
      invariant moves == JumpsAlong(pos, g, Compass[..i])
    {
      var d := Compass[i];
      var mid, landing := Step(pos, d), Hop(pos, d);
      JumpsAlongSnoc(pos, g, Compass, i);
      if InBounds(mid) && At(g, mid) != 0 && InBounds(landing) && At(g, landing) == 0 {
        moves := moves + [landing];
      }
      i := i + 1;
    }
    assert Compass[..i] == Compass;
  }

  // ---------------------------------------------------------------- all moves

  /** The moves from pos to each of qs, in order. */
  function Tagged(pos: Pos, qs: seq<Pos>): (ms: seq<Move>)
    ensures |ms| == |qs|
  {
    if qs == [] then [] else Tagged(pos, qs[..|qs| - 1]) + [Move(pos, qs[|qs| - 1])]
  }

  lemma TaggedSnoc(pos: Pos, qs: seq<Pos>, q: Pos)
    ensures Tagged(pos, qs + [q]) == Tagged(pos, qs) + [Move(pos, q)]
  {
    assert (qs + [q])[..|qs|] == qs;
  }

  lemma {:induction false} TaggedMember(pos: Pos, qs: seq<Pos>, m: Move)
    ensures m in Tagged(pos, qs) <==> m.src == pos && m.dst in qs
  {
    if qs != [] {
      var front := qs[..|qs| - 1];
      TaggedMember(pos, front, m);
      assert qs == front + [qs[|qs| - 1]];
    }
  }

  /** The moves get_all_moves lists for one source: its steps, then its single jumps, then
      its chain destinations. */
  function MovesFrom(pos: Pos, g: Grid): seq<Move> {
    Tagged(pos, ValidMoves(pos, g)) + Tagged(pos, JumpMoves(pos, g)) + Tagged(pos, JumpTargets(pos, g))
  }

  /** The moves of all sources ps, source by source. */
  function MovesOf(ps: seq<Pos>, g: Grid): seq<Move> {
    if ps == [] then [] else MovesOf(ps[..|ps| - 1], g) + MovesFrom(ps[|ps| - 1], g)
  }

  /** The sources get_all_moves scans: every cell holding the player in row-major order,
      or only only_from when that is given (whether or not it holds the player). */
  function Sources(g: Grid, player: int, onlyFrom: Option<Pos>): seq<Pos> {
    match onlyFrom
    case None => Pieces(g, player)
    case Some(p) => [p]
  }

  /** get_all_moves(board, player_id, only_from). */
  function AllMoves(g: Grid, player: int, onlyFrom: Option<Pos>): seq<Move> {
    MovesOf(Sources(g, player, onlyFrom), g)
  }

  /** q can be reached from p by a chain of 1 to MaxChainDepth jumps. */
  ghost predicate ChainReachable(g: Grid, p: Pos, q: Pos) {
    exists path :: JumpChain(g, p, {p}, path) && |path| <= MaxChainDepth + 1 && Last(path) == q
  }

  /** q is a destination the generator offers from p: a step, a single jump or a chain. */
  ghost predicate Reachable(g: Grid, p: Pos, q: Pos) {
    (InBounds(q) && At(g, q) == 0 && Manhattan(p, q) == 1) || IsJump(g, p, q) || ChainReachable(g, p, q)
  }

  lemma MovesFromSpec(pos: Pos, g: Grid, m: Move)
    ensures m in MovesFrom(pos, g) <==> m.src == pos && Reachable(g, pos, m.dst)
  {
    ValidMovesSpec(pos, g);
    JumpMovesSpec(pos, g);
    JumpTargetsSpec(pos, g, m.dst);
    TaggedMember(pos, ValidMoves(pos, g), m);
    TaggedMember(pos, JumpMoves(pos, g), m);
    TaggedMember(pos, JumpTargets(pos, g), m);
  }

  lemma {:induction false} MovesOfSpec(ps: seq<Pos>, g: Grid, m: Move)
    ensures m in MovesOf(ps, g) <==> m.src in ps && Reachable(g, m.src, m.dst)
  {
    if ps != [] {
      var front, last := ps[..|ps| - 1], ps[|ps| - 1];
      SplitLast(ps);
      MovesOfSpec(front, g, m);
      MovesFromSpec(last, g, m);
      assert m in MovesOf(ps, g) <==> m in MovesOf(front, g) || m in MovesFrom(last, g);
    }
  }

  /** Every destination is an empty cell of the board other than the source. */
  lemma ReachableLegal(g: Grid, p: Pos, q: Pos)
    requires Reachable(g, p, q)
    ensures InBounds(q) && At(g, q) == 0 && q != p
  {
    if ChainReachable(g, p, q) {
      var path :| JumpChain(g, p, {p}, path) && |path| <= MaxChainDepth + 1 && Last(path) == q;
      LastOfChain(g, p, {p}, path);
    }
  }

  /** The moves of get_all_moves: without only_from, exactly the reachable destinations of
      the cells holding the player; with it, exactly those of only_from. Every destination
      is an empty cell other than the source. */
  lemma AllMovesSpec(g: Grid, player: int, onlyFrom: Option<Pos>, m: Move)
    ensures onlyFrom.None? ==>
      (m in AllMoves(g, player, onlyFrom) <==> InBounds(m.src) && At(g, m.src) == player && Reachable(g, m.src, m.dst))
    ensures onlyFrom.Some? ==>
      (m in AllMoves(g, player, onlyFrom) <==> m.src == onlyFrom.value && Reachable(g, m.src, m.dst))
    ensures m in AllMoves(g, player, onlyFrom) ==> InBounds(m.dst) && At(g, m.dst) == 0 && m.dst != m.src
  {
    MovesOfSpec(Sources(g, player, onlyFrom), g, m);
    if Reachable(g, m.src, m.dst) {
      ReachableLegal(g, m.src, m.dst);
    }
  }

  /** moves followed by a move from pos to each of qs: the program's
      `for m in ...: moves.append((pos, m))`. */
  method AppendTagged(moves: seq<Move>, pos: Pos, qs: seq<Pos>) returns (out: seq<Move>)
    ensures out == moves + Tagged(pos, qs)
  {
    out := moves;
    var j := 0;
    while j < |qs|
      invariant 0 <= j <= |qs|
      invariant out == moves + Tagged(pos, qs[..j])
    {
      out := out + [Move(pos, qs[j])];
      assert qs[..j + 1][..j] == qs[..j];
      j := j + 1;
    }
    assert qs[..j] == qs;
  }

  /** moves followed by a move from pos to the last cell of each path longer than one cell:
      the program's `for path in jump_paths: if len(path) > 1: ...`. */
  method AppendEndPoints(moves: seq<Move>, pos: Pos, paths: seq<seq<Pos>>) returns (out: seq<Move>)
    ensures out == moves + Tagged(pos, EndPoints(paths))
  {
    out := moves;
    var k := 0;
    while k < |paths|
      invariant 0 <= k <= |paths|
      invariant out == moves + Tagged(pos, EndPoints(paths[..k]))
    {
      var path := paths[k];
      assert paths[..k + 1][..k] == paths[..k];
      assert EndPoints(paths[..k + 1]) == EndPoints(paths[..k]) + (if |path| > 1 then [Last(path)] else []);
      if |path| > 1 {
        TaggedSnoc(pos, EndPoints(paths[..k]), Last(path));
        out := out + [Move(pos, path[|path| - 1])];
      } else {
        assert EndPoints(paths[..k + 1]) == EndPoints(paths[..k]);
      }
      k := k + 1;
    }
    assert paths[..k] == paths;
  }

  /** The three appends of one source add up to its moves. */
  lemma MovesFromParts(pos: Pos, g: Grid, m0: seq<Move>, m1: seq<Move>, m2: seq<Move>, m3: seq<Move>)
    requires m1 == m0 + Tagged(pos, ValidMoves(pos, g))
    requires m2 == m1 + Tagged(pos, JumpMoves(pos, g))
    requires m3 == m2 + Tagged(pos, EndPoints(ContinuousJumpMoves(pos, g, {pos}, MaxChainDepth)))
    ensures m3 == m0 + MovesFrom(pos, g)
  {
    ContinuousJumpTargets(pos, g);
    var a, b, c := Tagged(pos, ValidMoves(pos, g)), Tagged(pos, JumpMoves(pos, g)), Tagged(pos, JumpTargets(pos, g));
    assert m3 == ((m0 + a) + b) + c;
    AppendAssoc(m0 + a, b, c);
    AppendAssoc(m0, a, b + c);
    AppendAssoc(a, b, c);
  }

  /** get_all_moves(board, player_id, only_from): the chain destinations are read off the
      program's own get_continuous_jump_moves, whose paths' last cells are the intended ones. */
  method GetAllMoves(g: Grid, player: int, onlyFrom: Option<Pos>) returns (moves: seq<Move>)
    ensures moves == AllMoves(g, player, onlyFrom)
  {
    moves := CollectMoves(Sources(g, player, onlyFrom), g);
  }

  /** The loop of get_all_moves over the source cells. */
  method CollectMoves(positions: seq<Pos>, g: Grid) returns (moves: seq<Move>)
    ensures moves == MovesOf(positions, g)
  {
    moves := [];
    var i := 0;
    while i < |positions|
      invariant 0 <= i <= |positions|
      invariant moves == MovesOf(positions[..i], g)
    {
      var pos := positions[i];
      var steps := GetValidMoves(pos, g);
      var m1 := AppendTagged(moves, pos, steps);
      var jumps := GetJumpMoves(pos, g);
      var m2 := AppendTagged(m1, pos, jumps);
      var jumpPaths := ContinuousJumpMoves(pos, g, {pos}, MaxChainDepth);
      var m3 := AppendEndPoints(m2, pos, jumpPaths);
      MovesFromParts(pos, g, moves, m1, m2, m3);
      assert positions[..i + 1][..i] == positions[..i];
      moves := m3;
      i := i + 1;
    }
    assert positions[..i] == positions;
  }

  // ---------------------------------------------------------------- congestion relief

  /** The 3x3 corner free_up_target_entry works on for one player: its first row and
      column, the edge row and column whose pieces it moves, the inward direction
      (dr, dc), and the corner cell the distances are measured to. */
  datatype Corner = Corner(row0: int, col0: int, edgeRow: int, edgeCol: int, dr: int, dc: int, deep: Pos)

  /** The corners as move_utils writes them: bottom-right for 1, bottom-left for 2,
      top-right for 3, top-left for 4; no corner for any other id. */
  function EntryCorner(player: int): Option<Corner> {
    if player == 1 then Some(Corner(9, 9, 9, 9, 1, 1, Pos(11, 11)))
    else if player == 2 then Some(Corner(9, 0, 9, 2, 1, -1, Pos(11, 0)))
    else if player == 3 then Some(Corner(0, 9, 2, 9, -1, 1, Pos(0, 11)))
    else if player == 4 then Some(Corner(0, 0, 2, 2, -1, -1, Pos(0, 0)))
    else None
  }

  predicate InCorner(k: Corner, p: Pos) {
    k.row0 <= p.r < k.row0 + 3 && k.col0 <= p.c < k.col0 + 3
  }

  lemma CornerInBounds(player: int)
    requires EntryCorner(player).Some?
    ensures forall p :: InCorner(EntryCorner(player).value, p) ==> InBounds(p)
  {
  }

  /** The three cells one step deeper than p, in the program's order. */
  function DeeperCells(k: Corner, p: Pos): seq<Pos> {
    [Pos(p.r + k.dr, p.c), Pos(p.r, p.c + k.dc), Pos(p.r + k.dr, p.c + k.dc)]
  }

  /** The candidates of the program: those deeper cells that are on the board and empty
      (its bounds tests only check the coordinate that moves, the other being inside
      the corner). */
  function Deeper(k: Corner, g: Grid, p: Pos): (qs: seq<Pos>)
    ensures |qs| <= 3
  {
    var cs := DeeperCells(k, p);
    IfFree(g, cs[0]) + IfFree(g, cs[1]) + IfFree(g, cs[2])
  }

  /** [q] if q is an empty cell of the board, else []. */
  function IfFree(g: Grid, q: Pos): (qs: seq<Pos>)
    ensures |qs| <= 1
  {
    if InBounds(q) && At(g, q) == 0 then [q] else []
  }

  lemma DeeperSpec(k: Corner, g: Grid, p: Pos, q: Pos)
    ensures q in Deeper(k, g, p) <==> q in DeeperCells(k, p) && InBounds(q) && At(g, q) == 0
  {
  }

  /** A cell the rule can move from: a piece of the player on the corner's edge row or
      column with at least one empty deeper cell. */
  predicate Movable(k: Corner, player: int, g: Grid, p: Pos) {
    InBounds(p) && InCorner(k, p) && At(g, p) == player &&
    (p.r == k.edgeRow || p.c == k.edgeCol) && Deeper(k, g, p) != []
  }

  /** p comes before q in row-major order. */
  predicate RowMajorBefore(p: Pos, q: Pos) {
    p.r < q.r || (p.r == q.r && p.c < q.c)
  }

  /** The candidate nearest to the deep corner, first of equals (Python's min). */
  function Nearest(qs: seq<Pos>, target: Pos): Pos
    requires |qs| > 0
  {
    qs[NearestIndex(qs, target)]
  }

  /** The candidate list free_up_target_entry builds for the piece at p. */
  method EntryCandidates(k: Corner, g: Grid, p: Pos) returns (candidates: seq<Pos>)
    ensures candidates == Deeper(k, g, p)
  {
    candidates := [];
    var a, b, c := Pos(p.r + k.dr, p.c), Pos(p.r, p.c + k.dc), Pos(p.r + k.dr, p.c + k.dc);
    if InBounds(a) && At(g, a) == 0 {
      candidates := candidates + [a];
    }
    assert candidates == IfFree(g, a);
    if InBounds(b) && At(g, b) == 0 {
      candidates := candidates + [b];
    }
    assert candidates == IfFree(g, a) + IfFree(g, b);
    if InBounds(c) && At(g, c) == 0 {
      candidates := candidates + [c];
    }
    assert DeeperCells(k, p) == [a, b, c];
  }

  /** The congestion rule applies: the player has a corner and a movable piece in it. */
  ghost predicate FreeUpApplies(g: Grid, player: int) {
    EntryCorner(player).Some? &&
    exists p :: InCorner(EntryCorner(player).value, p) && Movable(EntryCorner(player).value, player, g, p)
  }

  /** mv is the move the rule makes: from the first movable piece of the corner in
      row-major order to its deeper empty cell nearest the corner cell. */
  ghost predicate FreeUpMove(g: Grid, player: int, mv: Move) {
    EntryCorner(player).Some? &&
    var k := EntryCorner(player).value;
    Movable(k, player, g, mv.src) && mv.dst == Nearest(Deeper(k, g, mv.src), k.deep) &&
    forall p :: InCorner(k, p) && RowMajorBefore(p, mv.src) ==> !Movable(k, player, g, p)
  }

  /** free_up_target_entry(board, player_id): scans its corner row by row and returns the
      first movable piece with the deeper empty cell nearest the corner; None if there is
      none or the id has no corner. */
  method FreeUpTargetEntry(g: Grid, player: int) returns (m: Option<Move>)
    ensures m.None? <==> !FreeUpApplies(g, player)
    ensures m.Some? ==> FreeUpMove(g, player, m.value)
  {
    var corner := EntryCorner(player);
    if corner.None? {
      return None;
    }
    var k := corner.value;
    CornerInBounds(player);
    var row := k.row0;
    while row < k.row0 + 3
      invariant k.row0 <= row <= k.row0 + 3
      invariant forall p :: InCorner(k, p) && p.r < row ==> !Movable(k, player, g, p)
    {
      var col := k.col0;
      while col < k.col0 + 3
        invariant k.col0 <= col <= k.col0 + 3
        invariant forall p :: InCorner(k, p) && (p.r < row || (p.r == row && p.c < col)) ==> !Movable(k, player, g, p)
      {
        var p := Pos(row, col);
        if At(g, p) == player && (row == k.edgeRow || col == k.edgeCol) {
          var candidates := EntryCandidates(k, g, p);
          if candidates != [] {
            assert Movable(k, player, g, p);
            return Some(Move(p, Nearest(candidates, k.deep)));
          }
        }
        assert !Movable(k, player, g, p);
        forall q | InCorner(k, q) && (q.r < row || (q.r == row && q.c < col + 1))
          ensures !Movable(k, player, g, q)
        {
          if q != p {
            assert q.r < row || (q.r == row && q.c < col);
          }
        }
        col := col + 1;
      }
      row := row + 1;
    }
    return None;
  }

  /** For player 1 a returned move starts on row 9 or column 9 of the bottom-right 3x3
      corner, goes one cell down, right or diagonally down-right onto an empty cell, and no
      other candidate is nearer to (11, 11). */
  lemma FreeUpPlayerOneShape(g: Grid, src: Pos, dst: Pos)
    requires Movable(EntryCorner(1).value, 1, g, src)
    requires dst == Nearest(Deeper(EntryCorner(1).value, g, src), Pos(11, 11))
    ensures 9 <= src.r <= 11 && 9 <= src.c <= 11 && (src.r == 9 || src.c == 9) && At(g, src) == 1
    ensures dst in [Pos(src.r + 1, src.c), Pos(src.r, src.c + 1), Pos(src.r + 1, src.c + 1)]
    ensures InBounds(dst) && At(g, dst) == 0
    ensures forall q :: q in Deeper(EntryCorner(1).value, g, src) ==> Manhattan(dst, Pos(11, 11)) <= Manhattan(q, Pos(11, 11))
  {
    var k := EntryCorner(1).value;
    var qs := Deeper(k, g, src);
    var i := NearestIndex(qs, Pos(11, 11));
    assert dst in qs;
    DeeperSpec(k, g, src, dst);
  }

  /** The corners agree with the agents' target areas only for players 1 and 3 (where
      they are the stable squares); for players 2 and 4 they lie outside the target. */
  lemma CornerVersusTarget(player: int, p: Pos)
    requires EntryCorner(player).Some? && InCorner(EntryCorner(player).value, p)
    ensures player == 1 || player == 3 ==> InStableArea(player, p)
    ensures player == 2 || player == 4 ==> !InTargetArea(player, p)
  {
  }
}
