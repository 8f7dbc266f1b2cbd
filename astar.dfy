/** The A* agent (ai/astar_ai.py). It accepts any player id; outside 1 and 2 its target
    area is empty, so no cell is a goal and every search answers None. Its choice has
    three stages: the guarded congestion rule; else, for every piece outside its target,
    an A* search over the cells the move generator offers (steps, single jumps and chain
    destinations, all on the unchanged board) for an empty cell of the target, keeping the
    first piece whose path's first cell is closest to the deep corner; else the same over
    all pieces.

    random.shuffle is not modelled: the shuffled list of outside pieces is a parameter
    `order`, assumed to be a permutation of them. The priority queue is a sequence from
    which the least (f, row, column) entry is taken: the order in which heapq hands out
    entries, without its array layout. */
module AStarAgent {
  import opened Topology
  import opened Regions
  import MoveUtils
  import Congestion

  // ---------------------------------------------------------------- the search space

  /** heuristic(pos): the Manhattan distance to (11, 11) for player 1 and to (0, 0) for
      every other player. */
  function Heuristic(player: int, p: Pos): nat {
    Manhattan(p, if player == 1 then Pos(11, 11) else Pos(0, 0))
  }

  /** The heuristic is 0 only on the corner it aims at, which is the deep corner of
      players 1 and 2, and at most 22 on the board. */
  lemma HeuristicSpec(player: int, p: Pos)
    ensures Heuristic(player, p) == 0 <==> p == (if player == 1 then Pos(11, 11) else Pos(0, 0))
    ensures (player == 1 || player == 2) ==> Heuristic(player, p) == Manhattan(p, DeepTarget(player))
    ensures InBounds(p) ==> Heuristic(player, p) <= 22
  {
  }

  /** The search stops at an empty cell of the player's target area. */
  predicate Goal(g: Grid, player: int, p: Pos) {
    InBounds(p) && InTargetArea2(player, p) && At(g, p) == 0
  }

  /** get_neighbors(pos, board): the step destinations, the single-jump landings and the
      chain destinations get_all_jump_targets draws from get_continuous_jump_moves. */
  function Neighbors(g: Grid, p: Pos): seq<Pos> {
    MoveUtils.ValidMoves(p, g) + MoveUtils.JumpMoves(p, g) +
    MoveUtils.EndPoints(MoveUtils.ContinuousJumpMoves(p, g, {p}, MoveUtils.MaxChainDepth))
  }

  /** The neighbours of p are exactly the destinations the move generator offers from p;
      each is an empty cell of the board other than p. */
  lemma NeighborsSpec(g: Grid, p: Pos, q: Pos)
    ensures q in Neighbors(g, p) <==> MoveUtils.Reachable(g, p, q)
    ensures q in Neighbors(g, p) ==> InBounds(q) && At(g, q) == 0 && q != p
  {
    MoveUtils.ValidMovesSpec(p, g);
    MoveUtils.JumpMovesSpec(p, g);
    MoveUtils.ContinuousJumpTargets(p, g);
    MoveUtils.JumpTargetsSpec(p, g, q);
    if MoveUtils.Reachable(g, p, q) {
      MoveUtils.ReachableLegal(g, p, q);
    }
  }

  /** w is a walk: every cell after the first is a neighbour of the one before it. */
  predicate Walk(g: Grid, w: seq<Pos>) {
    |w| >= 1 && forall k :: 0 <= k < |w| - 1 ==> w[k + 1] in Neighbors(g, w[k])
  }

  /** Some walk from start ends on a goal cell. */
  ghost predicate GoalReachable(g: Grid, player: int, start: Pos) {
    exists w :: Walk(g, w) && w[0] == start && Goal(g, player, MoveUtils.Last(w))
  }

  // ---------------------------------------------------------------- the open set

  /** An open-set entry (f, pos). */
  datatype Entry = Entry(f: int, pos: Pos)

  /** The tuple order heapq uses: by f, then by row, then by column. */
  predicate EntryLe(a: Entry, b: Entry) {
    a.f < b.f || (a.f == b.f && (a.pos.r < b.pos.r || (a.pos.r == b.pos.r && a.pos.c <= b.pos.c)))
  }

  /** The index of an entry heappop hands out: one no other entry precedes. */
  function MinIndex(h: seq<Entry>): (k: nat)
    requires |h| > 0
    ensures k < |h| && forall j :: 0 <= j < |h| ==> EntryLe(h[k], h[j])
  {
    if |h| == 1 then 0
    else
      var k := MinIndex(h[..|h| - 1]);
      assert forall j :: 0 <= j < |h| - 1 ==> h[..|h| - 1][j] == h[j];
      if EntryLe(h[k], h[|h| - 1]) then k else |h| - 1
  }

  function Remove(h: seq<Entry>, k: nat): (r: seq<Entry>)
    requires k < |h|
    ensures |r| == |h| - 1
  {
    h[..k] + h[k + 1..]
  }

  /** Some entry of the open set is for p. */
  predicate Queued(h: seq<Entry>, p: Pos) {
    exists i :: 0 <= i < |h| && h[i].pos == p
  }

  lemma PushQueued(h: seq<Entry>, e: Entry, p: Pos)
    ensures Queued(h + [e], p) <==> Queued(h, p) || e.pos == p
  {
    if Queued(h, p) {
      var i :| 0 <= i < |h| && h[i].pos == p;
      assert (h + [e])[i] == h[i];
    }
    if Queued(h + [e], p) && e.pos != p {
      var i :| 0 <= i < |h| + 1 && (h + [e])[i].pos == p;
      assert h[i] == (h + [e])[i];
    }
    if e.pos == p {
      assert (h + [e])[|h|] == e;
    }
  }

  /** Taking out the entry at k keeps every other position queued. */
  lemma RemoveQueued(h: seq<Entry>, k: nat, p: Pos)
    requires k < |h| && Queued(h, p) && p != h[k].pos
    ensures Queued(Remove(h, k), p)
  {
    var i :| 0 <= i < |h| && h[i].pos == p;
    if i < k {
      assert Remove(h, k)[i] == h[i];
    } else {
      assert Remove(h, k)[i - 1] == h[i];
    }
  }

  // ---------------------------------------------------------------- the search state

  /* The search proper is written over `adj`, get_neighbors with the board fixed, given
     as a function value; AStar passes the cells Neighbors(g, .) offers. Every cell adj
     offers is on the board and differs from the cell it is offered from. */

  ghost predicate Legal(adj: Pos -> seq<Pos>) {
    forall p, q :: q in adj(p) ==> InBounds(q) && q != p
  }

  /** The best-path tree: start is known at distance 0 and has no predecessor, every other
      known cell has one, which is known, nearer to start, and has it as a neighbour. */
  predicate Tree(adj: Pos -> seq<Pos>, start: Pos, gs: map<Pos, nat>, cameFrom: map<Pos, Pos>) {
    start in gs && gs[start] == 0 && start !in cameFrom && Rooted(start, gs, cameFrom) && Linked(adj, gs, cameFrom)
  }

  /** Every known cell is on the board and is start or has a predecessor. */
  predicate Rooted(start: Pos, gs: map<Pos, nat>, cameFrom: map<Pos, Pos>) {
    forall k :: k in gs ==> InBounds(k) && (k == start || k in cameFrom)
  }

  /** Every predecessor link joins two known cells, the nearer first, by an edge. */
  predicate Linked(adj: Pos -> seq<Pos>, gs: map<Pos, nat>, cameFrom: map<Pos, Pos>) {
    forall n :: n in cameFrom ==>
      n in gs && cameFrom[n] in gs && gs[cameFrom[n]] < gs[n] && n in adj(cameFrom[n])
  }

  /** Every queued cell is known. */
  predicate HeapKeys(h: seq<Entry>, gs: map<Pos, nat>) {
    forall i :: 0 <= i < |h| ==> h[i].pos in gs
  }

  /** k was expanded: it is no goal and all its neighbours are known. */
  predicate Settled(g: Grid, player: int, adj: Pos -> seq<Pos>, gs: map<Pos, nat>, k: Pos) {
    !Goal(g, player, k) && forall q :: q in adj(k) ==> q in gs
  }

  /** Every known cell other than skip is still queued or was expanded. */
  predicate CoveredBut(g: Grid, player: int, adj: Pos -> seq<Pos>, h: seq<Entry>, gs: map<Pos, nat>, skip: Pos) {
    forall k :: k in gs && k != skip ==> Queued(h, k) || Settled(g, player, adj, gs, k)
  }

  predicate Covered(g: Grid, player: int, adj: Pos -> seq<Pos>, h: seq<Entry>, gs: map<Pos, nat>) {
    forall k :: k in gs ==> Queued(h, k) || Settled(g, player, adj, gs, k)
  }

  // ---------------------------------------------------------------- termination measure

  /** The number of the first n cells that are not yet known. */
  function Unseen(gs: map<Pos, nat>, n: nat): nat
    requires n <= CellCount
  {
    if n == 0 then 0 else Unseen(gs, n - 1) + (if PosAt(n - 1) in gs then 0 else 1)
  }

  /** The sum of the distances recorded for the first n cells. */
  function Total(gs: map<Pos, nat>, n: nat): nat
    requires n <= CellCount
  {
    if n == 0 then 0 else Total(gs, n - 1) + (if PosAt(n - 1) in gs then gs[PosAt(n - 1)] else 0)
  }

  /** Learning a new cell lowers the unseen count by one. */
  lemma {:induction false} AddKey(gs: map<Pos, nat>, c: Pos, v: nat, n: nat)
    requires c !in gs && InBounds(c) && n <= CellCount
    ensures Unseen(gs[c := v], n) + (if Idx(c) < n then 1 else 0) == Unseen(gs, n)
    ensures Total(gs[c := v], n) == Total(gs, n) + (if Idx(c) < n then v else 0)
  {
    if n > 0 {
      AddKey(gs, c, v, n - 1);
      PosAtIdx(c);
    }
  }

  /** Changing the distance of a known cell keeps the unseen count and moves the sum by
      the change. */
  lemma {:induction false} LowerKey(gs: map<Pos, nat>, c: Pos, v: nat, n: nat)
    requires c in gs && InBounds(c) && n <= CellCount
    ensures Unseen(gs[c := v], n) == Unseen(gs, n)
    ensures Total(gs[c := v], n) + (if Idx(c) < n then gs[c] else 0) == Total(gs, n) + (if Idx(c) < n then v else 0)
  {
    if n > 0 {
      LowerKey(gs, c, v, n - 1);
      PosAtIdx(c);
    }
  }

  /** The search made progress or at least did not lose any: fewer unseen cells, or as
      many with no larger (twice the distance sum plus the queue length). */
  predicate Progress(gs0: map<Pos, nat>, h0: seq<Entry>, gs: map<Pos, nat>, h: seq<Entry>) {
    Unseen(gs, CellCount) < Unseen(gs0, CellCount) ||
    (Unseen(gs, CellCount) == Unseen(gs0, CellCount) &&
     2 * Total(gs, CellCount) + |h| <= 2 * Total(gs0, CellCount) + |h0|)
  }

  // ---------------------------------------------------------------- relaxing one edge

  lemma ProgressTrans(gs0: map<Pos, nat>, h0: seq<Entry>, gs1: map<Pos, nat>, h1: seq<Entry>,
                      gs2: map<Pos, nat>, h2: seq<Entry>)
    requires Progress(gs0, h0, gs1, h1) && Progress(gs1, h1, gs2, h2)
    ensures Progress(gs0, h0, gs2, h2)
  {
  }

  /** Recording cur as the predecessor of its neighbour nb at a shorter distance keeps
      the tree. */
  lemma RelaxTree(adj: Pos -> seq<Pos>, start: Pos, gs: map<Pos, nat>, cameFrom: map<Pos, Pos>, cur: Pos, nb: Pos)
    requires Legal(adj) && Tree(adj, start, gs, cameFrom) && cur in gs && nb in adj(cur)
    requires nb !in gs || gs[cur] + 1 < gs[nb]
    ensures Tree(adj, start, gs[nb := gs[cur] + 1], cameFrom[nb := cur]) && InBounds(nb)
  {
    RelaxRooted(start, gs, cameFrom, cur, nb, gs[cur] + 1);
    RelaxLinked(adj, gs, cameFrom, cur, nb);
  }

  lemma RelaxRooted(start: Pos, gs: map<Pos, nat>, cameFrom: map<Pos, Pos>, cur: Pos, nb: Pos, t: nat)
    requires Rooted(start, gs, cameFrom) && InBounds(nb)
    ensures Rooted(start, gs[nb := t], cameFrom[nb := cur])
  {
  }

  lemma RelaxLinked(adj: Pos -> seq<Pos>, gs: map<Pos, nat>, cameFrom: map<Pos, Pos>, cur: Pos, nb: Pos)
    requires Linked(adj, gs, cameFrom) && cur in gs && nb in adj(cur) && nb != cur
    requires nb !in gs || gs[cur] + 1 < gs[nb]
    ensures Linked(adj, gs[nb := gs[cur] + 1], cameFrom[nb := cur])
  {
    var gs', cf' := gs[nb := gs[cur] + 1], cameFrom[nb := cur];
    forall n | n in cf'
      ensures n in gs' && cf'[n] in gs' && gs'[cf'[n]] < gs'[n] && n in adj(cf'[n])
    {
      if n != nb {
        assert n in cameFrom && cf'[n] == cameFrom[n];
      }
    }
  }

  /** Queuing an entry for a cell that becomes known keeps every known cell other than cur
      queued or expanded. */
  lemma RelaxCovered(g: Grid, player: int, adj: Pos -> seq<Pos>, h: seq<Entry>, gs: map<Pos, nat>, cur: Pos,
                     nb: Pos, t: nat, e: Entry)
    requires HeapKeys(h, gs) && CoveredBut(g, player, adj, h, gs, cur) && e.pos == nb
    ensures HeapKeys(h + [e], gs[nb := t]) && CoveredBut(g, player, adj, h + [e], gs[nb := t], cur)
  {
    var gs', h' := gs[nb := t], h + [e];
    forall i | 0 <= i < |h'| ensures h'[i].pos in gs' {
      if i < |h| {
        assert h'[i] == h[i];
      }
    }
    forall k | k in gs' && k != cur ensures Queued(h', k) || Settled(g, player, adj, gs', k) {
      PushQueued(h, e, k);
      if k != nb && !Queued(h, k) {
        assert Settled(g, player, adj, gs, k);
      }
    }
  }

  /** Learning a cell or shortening its distance, while queuing one entry, makes progress. */
  lemma RelaxProgress(h: seq<Entry>, gs: map<Pos, nat>, nb: Pos, t: nat, e: Entry)
    requires InBounds(nb) && (nb !in gs || t < gs[nb])
    ensures Progress(gs, h, gs[nb := t], h + [e])
  {
    if nb in gs {
      LowerKey(gs, nb, t, CellCount);
    } else {
      AddKey(gs, nb, t, CellCount);
    }
  }

  /** Every cell of qs is known. */
  predicate Known(qs: seq<Pos>, gs: map<Pos, nat>) {
    forall i :: 0 <= i < |qs| ==> qs[i] in gs
  }

  lemma KnownSnoc(qs: seq<Pos>, q: Pos, gs: map<Pos, nat>, gs': map<Pos, nat>)
    requires Known(qs, gs) && gs.Keys <= gs'.Keys && q in gs'
    ensures Known(qs + [q], gs')
  {
    forall i | 0 <= i < |qs| + 1 ensures (qs + [q])[i] in gs' {
      if i < |qs| {
        assert (qs + [q])[i] == qs[i];
      }
    }
  }

  /** One pass of the program's loop over get_neighbors: if nb is new, or reached more
      cheaply through cur, record cur as its predecessor and queue it. The search state
      stays consistent, nb becomes known, and no known cell is forgotten. */
  method RelaxEdge(ghost g: Grid, player: int, adj: Pos -> seq<Pos>, ghost start: Pos, ghost h0: seq<Entry>,
                   ghost gs0: map<Pos, nat>, h: seq<Entry>, gs: map<Pos, nat>, cameFrom: map<Pos, Pos>,
                   cur: Pos, neighbor: Pos)
    returns (h': seq<Entry>, gs': map<Pos, nat>, cameFrom': map<Pos, Pos>)
    requires Legal(adj) && Tree(adj, start, gs, cameFrom) && HeapKeys(h, gs) && CoveredBut(g, player, adj, h, gs, cur)
    requires cur in gs && neighbor in adj(cur) && Progress(gs0, h0, gs, h)
    ensures Tree(adj, start, gs', cameFrom') && HeapKeys(h', gs') && CoveredBut(g, player, adj, h', gs', cur)
    ensures Progress(gs0, h0, gs', h')
    ensures cur in gs' && gs.Keys <= gs'.Keys && neighbor in gs'
  {
    h', gs', cameFrom' := h, gs, cameFrom;
    var tentative := gs[cur] + 1;
    if neighbor !in gs || tentative < gs[neighbor] {
      var f := tentative + Heuristic(player, neighbor);
      RelaxTree(adj, start, gs, cameFrom, cur, neighbor);
      RelaxCovered(g, player, adj, h, gs, cur, neighbor, tentative, Entry(f, neighbor));
      RelaxProgress(h, gs, neighbor, tentative, Entry(f, neighbor));
      ProgressTrans(gs0, h0, gs, h, gs[neighbor := tentative], h + [Entry(f, neighbor)]);
      cameFrom' := cameFrom[neighbor := cur];
      gs' := gs[neighbor := tentative];
      h' := h + [Entry(f, neighbor)];
    }
  }

  /** Relaxes every edge out of cur (the program's loop over get_neighbors). Afterwards cur
      is expanded, and so every known cell is queued or expanded. */
  method Expand(ghost g: Grid, player: int, adj: Pos -> seq<Pos>, ghost start: Pos, h0: seq<Entry>,
                gs0: map<Pos, nat>, cf0: map<Pos, Pos>, cur: Pos)
    returns (h: seq<Entry>, gs: map<Pos, nat>, cameFrom: map<Pos, Pos>)
    requires Legal(adj) && Tree(adj, start, gs0, cf0) && HeapKeys(h0, gs0) && CoveredBut(g, player, adj, h0, gs0, cur)
    requires cur in gs0 && !Goal(g, player, cur)
    ensures Tree(adj, start, gs, cameFrom) && HeapKeys(h, gs) && Covered(g, player, adj, h, gs)
    ensures Progress(gs0, h0, gs, h)
  {
    h, gs, cameFrom := h0, gs0, cf0;
    var nbrs := adj(cur);
    var j := 0;
    while j < |nbrs|
      invariant 0 <= j <= |nbrs|
      invariant Tree(adj, start, gs, cameFrom) && HeapKeys(h, gs) && CoveredBut(g, player, adj, h, gs, cur)
      invariant cur in gs && Known(nbrs[..j], gs)
      invariant Progress(gs0, h0, gs, h)
    {
      ghost var before := gs;
      assert nbrs[..j + 1] == nbrs[..j] + [nbrs[j]];
      h, gs, cameFrom := RelaxEdge(g, player, adj, start, h0, gs0, h, gs, cameFrom, cur, nbrs[j]);
      KnownSnoc(nbrs[..j], nbrs[j], before, gs);
      j := j + 1;
    }
    assert nbrs[..j] == nbrs;
    assert Settled(g, player, adj, gs, cur);
  }

  // ---------------------------------------------------------------- completeness

  /** Once every known cell has been expanded, no walk from start leaves the known cells,
      so none reaches a goal. */
  lemma NoGoalReachable(g: Grid, player: int, adj: Pos -> seq<Pos>, start: Pos, gs: map<Pos, nat>)
    requires forall p :: adj(p) == Neighbors(g, p)
    requires start in gs && forall k :: k in gs ==> Settled(g, player, adj, gs, k)
    ensures !GoalReachable(g, player, start)
  {
    forall w | Walk(g, w) && w[0] == start ensures !Goal(g, player, MoveUtils.Last(w)) {
      var i := 0;
      while i < |w| - 1
        invariant 0 <= i <= |w| - 1 && w[i] in gs
      {
        assert w[i + 1] in adj(w[i]);
        i := i + 1;
      }
    }
  }

  // ---------------------------------------------------------------- the search

  /** The neighbour function the search runs on is legal. */
  lemma NeighborsLegal(g: Grid, adj: Pos -> seq<Pos>)
    requires forall p :: adj(p) == Neighbors(g, p)
    ensures Legal(adj)
  {
    forall p, q | q in adj(p) ensures InBounds(q) && q != p {
      NeighborsSpec(g, p, q);
    }
  }

  /** a_star(start, board): Some path only if path is a walk from start to a goal cell;
      None only if no walk from start reaches one. */
  method AStar(g: Grid, player: int, start: Pos) returns (path: Option<seq<Pos>>)
    requires InBounds(start)
    ensures path.Some? ==> Walk(g, path.value) && path.value[0] == start && Goal(g, player, MoveUtils.Last(path.value))
    ensures path.None? ==> !GoalReachable(g, player, start)
  {
    var adj := (p: Pos) => Neighbors(g, p);
    NeighborsLegal(g, adj);
    var openSet := [Entry(Heuristic(player, start), start)];
    var cameFrom: map<Pos, Pos> := map[];
    var gScore: map<Pos, nat> := map[start := 0];
    assert Queued(openSet, start) by { assert openSet[0].pos == start; }
    while openSet != []
      invariant Tree(adj, start, gScore, cameFrom) && HeapKeys(openSet, gScore) && Covered(g, player, adj, openSet, gScore)
      decreases Unseen(gScore, CellCount), 2 * Total(gScore, CellCount) + |openSet|
    {
      var k := MinIndex(openSet);
      var current := openSet[k].pos;
      ghost var before := openSet;
      openSet := Remove(openSet, k);
      if InTargetArea2(player, current) && At(g, current) == 0 {
        var p := ReconstructPath(g, adj, start, gScore, cameFrom, current);
        return Some(p);
      }
      forall q | q in gScore && q != current ensures Queued(openSet, q) || Settled(g, player, adj, gScore, q) {
        if !Settled(g, player, adj, gScore, q) {
          RemoveQueued(before, k, q);
        }
      }
      assert forall i :: 0 <= i < |openSet| ==> openSet[i] in before;
      openSet, gScore, cameFrom := Expand(g, player, adj, start, openSet, gScore, cameFrom, current);
    }
    forall q | q in gScore ensures Settled(g, player, adj, gScore, q) {
      assert !Queued(openSet, q);
    }
    NoGoalReachable(g, player, adj, start, gScore);
    return None;
  }

  /** path.reverse(). */
  function Reversed(s: seq<Pos>): (r: seq<Pos>)
    ensures |r| == |s| && forall i :: 0 <= i < |s| ==> r[i] == s[|s| - 1 - i]
  {
    if s == [] then [] else Reversed(s[1..]) + [s[0]]
  }

  /** back is a walk read backwards: every cell is a neighbour of the one after it. */
  predicate BackWalk(adj: Pos -> seq<Pos>, back: seq<Pos>) {
    forall k :: 0 <= k < |back| - 1 ==> back[k] in adj(back[k + 1])
  }

  lemma BackWalkSnoc(adj: Pos -> seq<Pos>, back: seq<Pos>, q: Pos)
    requires |back| >= 1 && BackWalk(adj, back) && back[|back| - 1] in adj(q)
    ensures BackWalk(adj, back + [q])
  {
    forall k | 0 <= k < |back| ensures (back + [q])[k] in adj((back + [q])[k + 1]) {
      assert (back + [q])[k] == back[k];
    }
  }

  /** Reversing a backward walk gives a walk. */
  lemma ReversedWalk(g: Grid, adj: Pos -> seq<Pos>, back: seq<Pos>)
    requires forall p :: adj(p) == Neighbors(g, p)
    requires |back| >= 1 && BackWalk(adj, back)
    ensures Walk(g, Reversed(back))
  {
    var path := Reversed(back);
    forall k | 0 <= k < |path| - 1 ensures path[k + 1] in Neighbors(g, path[k]) {
      assert path[k] == back[|back| - 1 - k] && path[k + 1] == back[|back| - 1 - k - 1];
      assert path[k + 1] in adj(path[k]);
    }
  }

  /** reconstruct_path(came_from, current): follows the predecessors back to start and
      reverses, giving a walk from start to current. */
  method ReconstructPath(ghost g: Grid, adj: Pos -> seq<Pos>, ghost start: Pos, ghost gs: map<Pos, nat>,
                         cameFrom: map<Pos, Pos>, current: Pos) returns (path: seq<Pos>)
    requires forall p :: adj(p) == Neighbors(g, p)
    requires Tree(adj, start, gs, cameFrom) && current in gs
    ensures Walk(g, path) && path[0] == start && MoveUtils.Last(path) == current
  {
    var cur := current;
    var back := [current];
    while cur in cameFrom
      invariant cur in gs && |back| >= 1 && back[0] == current && back[|back| - 1] == cur
      invariant BackWalk(adj, back)
      decreases gs[cur]
    {
      BackWalkSnoc(adj, back, cameFrom[cur]);
      cur := cameFrom[cur];
      back := back + [cur];
    }
    ReversedWalk(g, adj, back);
    path := Reversed(back);
  }

  // ---------------------------------------------------------------- the choice

  /** A move the search stages may return: from a cell of the player to the second cell
      of a walk that ends on a goal cell. */
  ghost predicate Searched(g: Grid, player: int, m: Move) {
    InBounds(m.src) && At(g, m.src) == player &&
    exists w :: Walk(g, w) && |w| >= 2 && w[0] == m.src && w[1] == m.dst && Goal(g, player, MoveUtils.Last(w))
  }

  /** r is an answer a_star may give for start: a walk of two or more cells from start to
      a goal cell, or None when no walk from start reaches one. */
  ghost predicate Answer(g: Grid, player: int, start: Pos, r: Option<seq<Pos>>) {
    match r
    case Some(path) => Walk(g, path) && |path| >= 2 && path[0] == start && Goal(g, player, MoveUtils.Last(path))
    case None => !GoalReachable(g, player, start)
  }

  /** A path from a cell of the player has at least two cells: its last cell is empty. */
  lemma LongPath(g: Grid, player: int, p: Pos, path: seq<Pos>)
    requires InBounds(p) && At(g, p) == player
    requires Walk(g, path) && path[0] == p && Goal(g, player, MoveUtils.Last(path))
    ensures |path| >= 2 && Searched(g, player, Move(p, path[1]))
  {
    assert |path| >= 2;
  }

  /** An answer for start is Some exactly when a goal cell can be reached from start. */
  lemma AnswerReach(g: Grid, player: int, start: Pos, r: Option<seq<Pos>>)
    requires Answer(g, player, start, r)
    ensures r.Some? <==> GoalReachable(g, player, start)
  {
    if r.Some? {
      var w := r.value;
      assert Walk(g, w) && w[0] == start && Goal(g, player, MoveUtils.Last(w));
    }
  }

  /** Among the answers found for the pieces ps, k is the first path whose second cell has
      the lowest heuristic, and m is the move of ps[k] to that cell. */
  predicate FirstLowest(player: int, ps: seq<Pos>, found: seq<Option<seq<Pos>>>, k: nat, m: Move) {
    k < |ps| && k < |found| && found[k].Some? && |found[k].value| >= 2 && m == Move(ps[k], found[k].value[1]) &&
    (forall j :: 0 <= j < |found| && found[j].Some? && |found[j].value| >= 2 ==>
       Heuristic(player, m.dst) <= Heuristic(player, found[j].value[1])) &&
    (forall j :: 0 <= j < k && found[j].Some? && |found[j].value| >= 2 ==>
       Heuristic(player, m.dst) < Heuristic(player, found[j].value[1]))
  }

  /** Appending the answer for the next piece keeps found a list of answers for ps. */
  lemma AnswersSnoc(g: Grid, player: int, ps: seq<Pos>, found: seq<Option<seq<Pos>>>, r: Option<seq<Pos>>)
    requires |found| < |ps| && forall j :: 0 <= j < |found| ==> Answer(g, player, ps[j], found[j])
    requires Answer(g, player, ps[|found|], r)
    ensures forall j :: 0 <= j < |found| + 1 ==> Answer(g, player, ps[j], (found + [r])[j])
  {
    var f := found + [r];
    forall j | 0 <= j < |f| ensures Answer(g, player, ps[j], f[j]) {
      if j < |found| {
        assert f[j] == found[j];
      }
    }
  }

  /** A next answer whose second cell is no better keeps the first lowest pick. */
  lemma KeepLowest(player: int, ps: seq<Pos>, found: seq<Option<seq<Pos>>>, k: nat, m: Move, r: Option<seq<Pos>>)
    requires FirstLowest(player, ps, found, k, m)
    requires r.Some? && |r.value| >= 2 ==> Heuristic(player, m.dst) <= Heuristic(player, r.value[1])
    ensures FirstLowest(player, ps, found + [r], k, m)
  {
    var f := found + [r];
    forall j | 0 <= j < |f| && f[j].Some? && |f[j].value| >= 2
      ensures Heuristic(player, m.dst) <= Heuristic(player, f[j].value[1])
    {
      if j < |found| {
        assert f[j] == found[j];
      }
    }
  }

  /** A next answer whose second cell beats every earlier one becomes the pick. */
  lemma NewLowest(player: int, ps: seq<Pos>, found: seq<Option<seq<Pos>>>, r: Option<seq<Pos>>)
    requires |found| < |ps| && r.Some? && |r.value| >= 2
    requires forall j :: 0 <= j < |found| && found[j].Some? && |found[j].value| >= 2 ==>
      Heuristic(player, r.value[1]) < Heuristic(player, found[j].value[1])
    ensures FirstLowest(player, ps, found + [r], |found|, Move(ps[|found|], r.value[1]))
  {
    var f := found + [r];
    forall j | 0 <= j < |f| && f[j].Some? && |f[j].value| >= 2
      ensures Heuristic(player, r.value[1]) <= Heuristic(player, f[j].value[1])
    {
      if j < |found| {
        assert f[j] == found[j];
      }
    }
  }

  /** One search stage: runs a_star from each of ps in order, found being its answers, and
      keeps the move along the first path whose second cell has the strictly lowest
      heuristic, with that heuristic. */
  method SearchStage(g: Grid, player: int, ps: seq<Pos>)
    returns (best: Option<(Move, nat)>, ghost found: seq<Option<seq<Pos>>>)
    requires forall i :: 0 <= i < |ps| ==> InBounds(ps[i]) && At(g, ps[i]) == player
    ensures |found| == |ps| && forall i :: 0 <= i < |ps| ==> Answer(g, player, ps[i], found[i])
    ensures best.None? <==> forall p :: p in ps ==> !GoalReachable(g, player, p)
    ensures best.Some? ==>
      best.value.1 == Heuristic(player, best.value.0.dst) && best.value.0.src in ps &&
      Searched(g, player, best.value.0) && exists k :: FirstLowest(player, ps, found, k, best.value.0)
  {
    best := None;
    found := [];
    ghost var k: nat := 0;
    var i := 0;
    while i < |ps|
      invariant 0 <= i <= |ps| && |found| == i
      invariant forall j :: 0 <= j < i ==> Answer(g, player, ps[j], found[j])
      invariant best.None? <==> forall j :: 0 <= j < i ==> found[j].None?
      invariant best.Some? ==>
        best.value.1 == Heuristic(player, best.value.0.dst) && FirstLowest(player, ps, found, k, best.value.0)
    {
      var pos := ps[i];
      var path := AStar(g, player, pos);
      if path.Some? {
        LongPath(g, player, pos, path.value);
      }
      assert Answer(g, player, pos, path);
      ghost var found0 := found;
      AnswersSnoc(g, player, ps, found0, path);
      found := found + [path];
      if path.Some? && |path.value| >= 2 {
        var score := Heuristic(player, path.value[1]);
        if best.None? || score < best.value.1 {
          NewLowest(player, ps, found0, path);
          best := Some((Move(pos, path.value[1]), score));
          k := i;
        } else {
          KeepLowest(player, ps, found0, k, best.value.0, path);
        }
      } else if best.Some? {
        KeepLowest(player, ps, found0, k, best.value.0, path);
      }
      i := i + 1;
    }
    forall j | 0 <= j < |ps| ensures found[j].Some? <==> GoalReachable(g, player, ps[j]) {
      AnswerReach(g, player, ps[j], found[j]);
    }
    if best.Some? {
      LongPath(g, player, ps[k], found[k].value);
    }
  }

  /** choose_move(board), with the shuffled outside pieces given as order. The congestion
      rule comes first. Otherwise the stage over order, and failing that the stage over all
      pieces in row-major order (best_score is still infinite then, since it only changes
      together with best_move), answers the move of the first searched piece whose path's
      second cell has the lowest heuristic; None only if no piece has a path. searched and
      found are the pieces of the stage that answered and a_star's answers for them. */
  method ChooseMove(g: Grid, player: int, order: seq<Pos>)
    returns (m: Option<Move>, ghost searched: seq<Pos>, ghost found: seq<Option<seq<Pos>>>)
    requires multiset(order) == multiset(Congestion.Waiting(g, player))
    ensures Congestion.ImprovedFreeUp(g, player, true).Some? ==> m == Congestion.ImprovedFreeUp(g, player, true)
    ensures Congestion.ImprovedFreeUp(g, player, true).None? ==>
      (m.Some? ==> Searched(g, player, m.value)) &&
      ((exists p :: p in order && GoalReachable(g, player, p)) ==> m.Some? && m.value.src in order) &&
      (m.None? <==> forall p :: InBounds(p) && At(g, p) == player ==> !GoalReachable(g, player, p))
    ensures Congestion.ImprovedFreeUp(g, player, true).None? && m.Some? ==>
      (searched == order || (searched == Pieces(g, player) && forall p :: p in order ==> !GoalReachable(g, player, p))) &&
      |found| == |searched| && (forall i :: 0 <= i < |searched| ==> Answer(g, player, searched[i], found[i])) &&
      exists k :: FirstLowest(player, searched, found, k, m.value)
  {
    searched, found := [], [];
    var allPositions := Pieces(g, player);
    m := Congestion.ImprovedFreeUpTargetEntry(g, player, true);
    if m.Some? {
      return;
    }
    Congestion.WaitingSpec(g, player);
    assert forall i :: 0 <= i < |order| ==> order[i] in multiset(Congestion.Waiting(g, player));
    var best;
    best, found := SearchStage(g, player, order);
    searched := order;
    if best.Some? {
      return Some(best.value.0), searched, found;
    }
    best, found := SearchStage(g, player, allPositions);
    searched := allPositions;
    if best.Some? {
      return Some(best.value.0), searched, found;
    }
    return None, searched, found;
  }
}
