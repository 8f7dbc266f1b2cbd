/** improved_free_up_target_entry, the congestion rule the greedy and the A* agents share
    (ai/greedy_ai.py and ai/astar_ai.py hold two copies; the A* copy guards its second
    branch with a count of the player's pieces on the 10-cell triangle).

    While some piece of the player still waits outside the target, a piece standing on
    one of the four entry cells of the target is pushed one cell deeper, onto the empty
    in-target cell nearest the deep corner. Failing that, a piece inside the target steps
    out onto an adjacent empty cell to make room. Player 1 works in the bottom-right
    corner, player 2 in the top-left; any other id gets no move. */
module Congestion {
  import opened Topology
  import opened Regions
  import MoveUtils

  /** The entry cells in the order they are tried. */
  function EntryCells(player: int): (es: seq<Pos>)
    ensures forall k :: 0 <= k < |es| ==> InBounds(es[k]) && InTargetArea2(player, es[k])
  {
    if player == 1 then [Pos(8, 11), Pos(9, 10), Pos(10, 9), Pos(11, 8)]
    else if player == 2 then [Pos(3, 0), Pos(2, 1), Pos(1, 2), Pos(0, 3)]
    else []
  }

  /** The three directions towards the player's deep corner, in the program's order. */
  function Inward(player: int): seq<Dir> {
    if player == 1 then [Dir(1, 0), Dir(0, 1), Dir(1, 1)] else [Dir(-1, 0), Dir(0, -1), Dir(-1, -1)]
  }

  /** The three directions away from the deep corner. */
  function Outward(player: int): seq<Dir> {
    if player == 1 then [Dir(-1, 0), Dir(0, -1), Dir(-1, -1)] else [Dir(1, 0), Dir(0, 1), Dir(1, 1)]
  }

  /** The cells of ps outside the player's target, in order. */
  function Outside(player: int, ps: seq<Pos>): seq<Pos> {
    if ps == [] then []
    else (if !InTargetArea2(player, ps[0]) then [ps[0]] else []) + Outside(player, ps[1..])
  }

  lemma {:induction false} OutsideSpec(player: int, ps: seq<Pos>, q: Pos)
    ensures q in Outside(player, ps) <==> q in ps && !InTargetArea2(player, q)
  {
    if ps != [] {
      OutsideSpec(player, ps[1..], q);
      assert ps == [ps[0]] + ps[1..];
    }
  }

  /** Filtering a list without repetitions keeps it without repetitions. */
  lemma {:induction false} OutsideDistinct(player: int, ps: seq<Pos>)
    requires Distinct(ps)
    ensures Distinct(Outside(player, ps))
  {
    if ps != [] {
      var rest := Outside(player, ps[1..]);
      OutsideDistinct(player, ps[1..]);
      OutsideSpec(player, ps[1..], ps[0]);
      assert ps[0] !in ps[1..] by {
        forall k | 0 <= k < |ps[1..]| ensures ps[1..][k] != ps[0] {
          assert ps[1..][k] == ps[k + 1];
        }
      }
      var o := Outside(player, ps);
      if !InTargetArea2(player, ps[0]) {
        assert o == [ps[0]] + rest;
        forall i, j | 0 <= i < j < |o| ensures o[i] != o[j] {
          assert o[j] == rest[j - 1];
          if i > 0 {
            assert o[i] == rest[i - 1];
          }
        }
      } else {
        assert o == rest;
      }
    }
  }

  /** The waiting list: the player's pieces outside its target, in row-major order. */
  function Waiting(g: Grid, player: int): seq<Pos> {
    Outside(player, Pieces(g, player))
  }

  lemma WaitingSpec(g: Grid, player: int)
    ensures forall q :: q in Waiting(g, player) <==> InBounds(q) && At(g, q) == player && !InTargetArea2(player, q)
  {
    forall q ensures q in Waiting(g, player) <==> InBounds(q) && At(g, q) == player && !InTargetArea2(player, q) {
      OutsideSpec(player, Pieces(g, player), q);
    }
  }

  /** The cells of cs that hold the player, in order. */
  function Held(g: Grid, player: int, cs: seq<Pos>): (hs: seq<Pos>)
    requires forall k :: 0 <= k < |cs| ==> InBounds(cs[k])
    ensures |hs| <= |cs|
  {
    if cs == [] then []
    else (if At(g, cs[0]) == player then [cs[0]] else []) + Held(g, player, cs[1..])
  }

  /** The neighbours p + d, for d in ds, that are on the board, empty, and inside the
      player's target (outside it when inside is false), in the order of ds. */
  function Openings(g: Grid, player: int, p: Pos, ds: seq<Dir>, inside: bool): seq<Pos> {
    if ds == [] then []
    else
      var q := Step(p, ds[0]);
      (if InBounds(q) && At(g, q) == 0 && InTargetArea2(player, q) == inside then [q] else []) +
      Openings(g, player, p, ds[1..], inside)
  }

  /** Openings over ds[i..] tests ds[i] first, then goes on with ds[i + 1..]. */
  lemma OpeningsStep(g: Grid, player: int, p: Pos, ds: seq<Dir>, i: nat, inside: bool)
    requires i < |ds|
    ensures Openings(g, player, p, ds[i..], inside) ==
      (if InBounds(Step(p, ds[i])) && At(g, Step(p, ds[i])) == 0 && InTargetArea2(player, Step(p, ds[i])) == inside
       then [Step(p, ds[i])] else []) + Openings(g, player, p, ds[i + 1..], inside)
  {
    assert ds[i..][0] == ds[i];
    assert ds[i..][1..] == ds[i + 1..];
  }

  lemma {:induction false} OpeningsSpec(g: Grid, player: int, p: Pos, ds: seq<Dir>, inside: bool, q: Pos)
    ensures q in Openings(g, player, p, ds, inside) <==>
      (exists d :: d in ds && q == Step(p, d)) && InBounds(q) && At(g, q) == 0 && InTargetArea2(player, q) == inside
  {
    if ds != [] {
      OpeningsSpec(g, player, p, ds[1..], inside, q);
      assert ds == [ds[0]] + ds[1..];
    }
  }

  /** A piece of the player stands on entry cell e and has a deeper free cell. */
  predicate CanAdvance(g: Grid, player: int, e: Pos) {
    InBounds(e) && At(g, e) == player && Openings(g, player, e, Inward(player), true) != []
  }

  /** A cell of the target from which a piece can step out onto a free cell. */
  predicate CanExit(g: Grid, player: int, p: Pos) {
    InTargetArea2(player, p) && Openings(g, player, p, Outward(player), false) != []
  }

  /** The first entry cell of es that can advance, moved to its free deeper cell nearest
      the deep corner (the first of equals, as Python's min keeps). */
  function FirstEntry(g: Grid, player: int, es: seq<Pos>): Option<Move>
    requires player == 1 || player == 2
  {
    if es == [] then None
    else if CanAdvance(g, player, es[0]) then
      Some(Move(es[0], MoveUtils.Nearest(Openings(g, player, es[0], Inward(player), true), DeepTarget(player))))
    else FirstEntry(g, player, es[1..])
  }

  /** The first cell of ps that can step out, moved to its first free outer cell. */
  function FirstExit(g: Grid, player: int, ps: seq<Pos>): Option<Move> {
    if ps == [] then None
    else if CanExit(g, player, ps[0]) then Some(Move(ps[0], Openings(g, player, ps[0], Outward(player), false)[0]))
    else FirstExit(g, player, ps[1..])
  }

  /** improved_free_up_target_entry: the greedy copy with guarded false, the A* copy with
      guarded true (its exit branch needs 9 of the 10 triangle cells held). */
  function ImprovedFreeUp(g: Grid, player: int, guarded: bool): Option<Move> {
    if player != 1 && player != 2 then None
    else
      var waiting := Waiting(g, player);
      var entry := FirstEntry(g, player, EntryCells(player));
      if waiting != [] && entry.Some? then entry
      else if waiting != [] && (!guarded || |Held(g, player, TargetTriangle(player))| >= 9) then
        FirstExit(g, player, Pieces(g, player))
      else None
  }

  lemma {:induction false} FirstEntrySpec(g: Grid, player: int, es: seq<Pos>)
    requires player == 1 || player == 2
    ensures FirstEntry(g, player, es).None? <==> forall k :: 0 <= k < |es| ==> !CanAdvance(g, player, es[k])
    ensures FirstEntry(g, player, es).Some? ==>
      var m := FirstEntry(g, player, es).value;
      exists i :: 0 <= i < |es| && es[i] == m.src && CanAdvance(g, player, es[i]) &&
        (forall k :: 0 <= k < i ==> !CanAdvance(g, player, es[k])) &&
        m.dst == MoveUtils.Nearest(Openings(g, player, m.src, Inward(player), true), DeepTarget(player))
  {
    if es != [] && !CanAdvance(g, player, es[0]) {
      FirstEntrySpec(g, player, es[1..]);
      var r := FirstEntry(g, player, es[1..]);
      if r.Some? {
        var i :| 0 <= i < |es[1..]| && es[1..][i] == r.value.src && CanAdvance(g, player, es[1..][i]) &&
          (forall k :: 0 <= k < i ==> !CanAdvance(g, player, es[1..][k])) &&
          r.value.dst == MoveUtils.Nearest(Openings(g, player, r.value.src, Inward(player), true), DeepTarget(player));
        assert es[i + 1] == r.value.src;
      }
    }
  }

  lemma {:induction false} FirstExitSpec(g: Grid, player: int, ps: seq<Pos>)
    ensures FirstExit(g, player, ps).None? <==> forall k :: 0 <= k < |ps| ==> !CanExit(g, player, ps[k])
    ensures FirstExit(g, player, ps).Some? ==>
      var m := FirstExit(g, player, ps).value;
      exists i :: 0 <= i < |ps| && ps[i] == m.src && CanExit(g, player, ps[i]) &&
        (forall k :: 0 <= k < i ==> !CanExit(g, player, ps[k])) &&
        m.dst == Openings(g, player, m.src, Outward(player), false)[0]
  {
    if ps != [] && !CanExit(g, player, ps[0]) {
      FirstExitSpec(g, player, ps[1..]);
      var r := FirstExit(g, player, ps[1..]);
      if r.Some? {
        var i :| 0 <= i < |ps[1..]| && ps[1..][i] == r.value.src && CanExit(g, player, ps[1..][i]) &&
          (forall k :: 0 <= k < i ==> !CanExit(g, player, ps[1..][k])) &&
          r.value.dst == Openings(g, player, r.value.src, Outward(player), false)[0];
        assert ps[i + 1] == r.value.src;
      }
    }
  }

  /** An entry move starts on an entry cell holding the player, goes one cell inward onto
      an empty cell of the target, and no other free inward cell is nearer the corner. */
  lemma EntryMoveShape(g: Grid, player: int, m: Move)
    requires player == 1 || player == 2
    requires FirstEntry(g, player, EntryCells(player)) == Some(m)
    ensures m.src in EntryCells(player) && At(g, m.src) == player
    ensures exists d :: d in Inward(player) && m.dst == Step(m.src, d)
    ensures InBounds(m.dst) && At(g, m.dst) == 0 && InTargetArea2(player, m.dst)
    ensures forall q :: q in Openings(g, player, m.src, Inward(player), true) ==>
      Manhattan(m.dst, DeepTarget(player)) <= Manhattan(q, DeepTarget(player))
  {
    FirstEntrySpec(g, player, EntryCells(player));
    var cands := Openings(g, player, m.src, Inward(player), true);
    var k := NearestIndex(cands, DeepTarget(player));
    OpeningsSpec(g, player, m.src, Inward(player), true, m.dst);
  }

  /** An exit move starts on a cell of the target and goes one cell outward onto an empty
      cell outside the target. */
  lemma ExitMoveShape(g: Grid, player: int, ps: seq<Pos>, m: Move)
    requires FirstExit(g, player, ps) == Some(m)
    ensures m.src in ps && InTargetArea2(player, m.src)
    ensures exists d :: d in Outward(player) && m.dst == Step(m.src, d)
    ensures InBounds(m.dst) && At(g, m.dst) == 0 && !InTargetArea2(player, m.dst)
  {
    FirstExitSpec(g, player, ps);
    var outs := Openings(g, player, m.src, Outward(player), false);
    assert m.dst in outs;
    OpeningsSpec(g, player, m.src, Outward(player), false, m.dst);
  }

  /** The rule moves only while some piece waits outside the target; an entry move comes
      first, and a piece leaves the target only if no entry cell can advance (and, in the
      A* copy, 9 of the 10 triangle cells hold the player). The mover is a piece of the
      player and lands on an empty cell. */
  lemma ImprovedFreeUpSpec(g: Grid, player: int, guarded: bool)
    ensures ImprovedFreeUp(g, player, guarded).Some? ==>
      (player == 1 || player == 2) && Waiting(g, player) != []
    ensures ((player == 1 || player == 2) && Waiting(g, player) != [] &&
             FirstEntry(g, player, EntryCells(player)).Some?) ==>
      ImprovedFreeUp(g, player, guarded) == FirstEntry(g, player, EntryCells(player))
    ensures ImprovedFreeUp(g, player, guarded).Some? && FirstEntry(g, player, EntryCells(player)).None? ==>
      (!guarded || |Held(g, player, TargetTriangle(player))| >= 9) &&
      ImprovedFreeUp(g, player, guarded) == FirstExit(g, player, Pieces(g, player))
    ensures ((player == 1 || player == 2) && Waiting(g, player) != [] &&
             FirstEntry(g, player, EntryCells(player)).None? &&
             (!guarded || |Held(g, player, TargetTriangle(player))| >= 9)) ==>
      ImprovedFreeUp(g, player, guarded) == FirstExit(g, player, Pieces(g, player))
    ensures ImprovedFreeUp(g, player, guarded).Some? ==>
      var m := ImprovedFreeUp(g, player, guarded).value;
      InBounds(m.src) && At(g, m.src) == player && InBounds(m.dst) && At(g, m.dst) == 0
  {
    var r := ImprovedFreeUp(g, player, guarded);
    if r.Some? {
      var entry := FirstEntry(g, player, EntryCells(player));
      if entry.Some? {
        EntryMoveShape(g, player, r.value);
      } else {
        ExitMoveShape(g, player, Pieces(g, player), r.value);
      }
    }
  }

  // ---------------------------------------------------------------- the loops

  /** The candidates list of one entry cell: the program's loop over the inward offsets. */
  method EntryCandidates(g: Grid, player: int, e: Pos) returns (candidates: seq<Pos>)
    ensures candidates == Openings(g, player, e, Inward(player), true)
  {
    var ds := Inward(player);
    candidates := [];
    var i := 0;
    while i < |ds|
      invariant 0 <= i <= |ds|
      invariant candidates + Openings(g, player, e, ds[i..], true) == Openings(g, player, e, ds, true)
    {
      var n := Step(e, ds[i]);
      OpeningsStep(g, player, e, ds, i, true);
      ghost var rest := Openings(g, player, e, ds[i + 1..], true);
      if 0 <= n.r < 12 && 0 <= n.c < 12 && At(g, n) == 0 && InTargetArea2(player, n) {
        AppendAssoc(candidates, [n], rest);
        candidates := candidates + [n];
      } else {
        assert Openings(g, player, e, ds[i..], true) == rest;
      }
      i := i + 1;
    }
  }

  /** The first free outer cell of p: the program's inner loop with early return. */
  method ExitCell(g: Grid, player: int, p: Pos) returns (q: Option<Pos>)
    ensures q.None? <==> Openings(g, player, p, Outward(player), false) == []
    ensures q.Some? ==> q.value == Openings(g, player, p, Outward(player), false)[0]
  {
    var ds := Outward(player);
    var i := 0;
    while i < |ds|
      invariant 0 <= i <= |ds|
      invariant Openings(g, player, p, ds[i..], false) == Openings(g, player, p, ds, false)
    {
      var n := Step(p, ds[i]);
      OpeningsStep(g, player, p, ds, i, false);
      if 0 <= n.r < 12 && 0 <= n.c < 12 && !InTargetArea2(player, n) && At(g, n) == 0 {
        return Some(n);
      }
      i := i + 1;
    }
    assert ds[i..] == [];
    return None;
  }

  /** The loop over the entry cells: it returns only while the waiting list is not empty. */
  method EntryMove(g: Grid, player: int, waiting: seq<Pos>) returns (m: Option<Move>)
    requires player == 1 || player == 2
    ensures m == if waiting != [] then FirstEntry(g, player, EntryCells(player)) else None
  {
    var entries := EntryCells(player);
    var i := 0;
    while i < |entries|
      invariant 0 <= i <= |entries|
      invariant waiting == [] || FirstEntry(g, player, entries[i..]) == FirstEntry(g, player, entries)
    {
      var e := entries[i];
      assert entries[i..][1..] == entries[i + 1..];
      if At(g, e) == player {
        var candidates := EntryCandidates(g, player, e);
        if candidates != [] && waiting != [] {
          return Some(Move(e, MoveUtils.Nearest(candidates, DeepTarget(player))));
        }
      }
      i := i + 1;
    }
    assert entries[i..] == [];
    return None;
  }

  /** The loop that lets a piece of the target step out. */
  method ExitMove(g: Grid, player: int) returns (m: Option<Move>)
    ensures m == FirstExit(g, player, Pieces(g, player))
  {
    var pieces := Pieces(g, player);
    var j := 0;
    while j < |pieces|
      invariant 0 <= j <= |pieces|
      invariant FirstExit(g, player, pieces[j..]) == FirstExit(g, player, pieces)
    {
      var p := pieces[j];
      assert pieces[j..][1..] == pieces[j + 1..];
      if InTargetArea2(player, p) {
        var q := ExitCell(g, player, p);
        if q.Some? {
          return Some(Move(p, q.value));
        }
      }
      j := j + 1;
    }
    assert pieces[j..] == [];
    return None;
  }

  /** improved_free_up_target_entry(board) of the greedy agent (guarded false) and of the
      A* agent (guarded true). */
  method ImprovedFreeUpTargetEntry(g: Grid, player: int, guarded: bool) returns (m: Option<Move>)
    ensures m == ImprovedFreeUp(g, player, guarded)
  {
    if player != 1 && player != 2 {
      return None;
    }
    var waiting := Waiting(g, player);
    var inTarget := Held(g, player, TargetTriangle(player));
    m := EntryMove(g, player, waiting);
    if m.Some? {
      return m;
    }
    if (!guarded || |inTarget| >= 9) && waiting != [] {
      m := ExitMove(g, player);
    }
  }
}
