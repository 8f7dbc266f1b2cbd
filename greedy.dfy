/** The greedy agent (ai/greedy_ai.py), for players 1 and 2. Its choice has three stages:
    move a piece onto the empty deep corner if one can step or single-jump there; else the
    congestion rule; else score every step and single-jump destination of the pieces it
    considers by the Manhattan improvement towards the deep corner plus entry bonuses,
    and keep the first best. Chain jumps are never considered.

    random.shuffle is not modelled: the shuffled list of positions is a parameter `order`,
    and the properties that depend on it assume it is a permutation of the considered
    positions. */
module GreedyAgent {
  import opened Topology
  import opened Regions
  import MoveUtils
  import Congestion

  /** calculate_score(pos): the Manhattan distance to the deep corner, (11, 11) for
      player 1 and (0, 0) for player 2; lower is better. */
  function CalculateScore(player: int, p: Pos): nat
    requires player == 1 || player == 2
  {
    Manhattan(p, DeepTarget(player))
  }

  /** The score is 0 only on the deep corner, at most 22 on the board, at most 6 inside
      the target and at least 4 outside it, and at most 4 in the stable area. */
  lemma CalculateScoreSpec(player: int, p: Pos)
    requires player == 1 || player == 2
    ensures CalculateScore(player, p) == 0 <==> p == DeepTarget(player)
    ensures InBounds(p) ==> CalculateScore(player, p) <= 22
    ensures InBounds(p) && InTargetArea2(player, p) ==> CalculateScore(player, p) <= 6
    ensures InBounds(p) && !InTargetArea2(player, p) ==> CalculateScore(player, p) >= 4
    ensures InBounds(p) && InStableArea2(player, p) ==> CalculateScore(player, p) <= 4
  {
  }

  // ---------------------------------------------------------------- stage 1: the deep corner

  /** t is a step or a single-jump destination of p. */
  predicate Reaches(g: Grid, p: Pos, t: Pos) {
    t in MoveUtils.ValidMoves(p, g) + MoveUtils.JumpMoves(p, g)
  }

  /** The first cell of ps from which t can be reached. */
  function FirstReaching(g: Grid, ps: seq<Pos>, t: Pos): Option<Pos> {
    if ps == [] then None
    else if Reaches(g, ps[0], t) then Some(ps[0])
    else FirstReaching(g, ps[1..], t)
  }

  /** One step of the search: the first reaching cell of ps[i..] is ps[i] or lies
      further on. */
  lemma FirstReachingStep(g: Grid, ps: seq<Pos>, i: nat, t: Pos)
    requires i < |ps|
    ensures FirstReaching(g, ps[i..], t) ==
      if Reaches(g, ps[i], t) then Some(ps[i]) else FirstReaching(g, ps[i + 1..], t)
  {
    assert ps[i..][0] == ps[i] && ps[i..][1..] == ps[i + 1..];
  }

  lemma {:induction false} FirstReachingSpec(g: Grid, ps: seq<Pos>, t: Pos)
    ensures FirstReaching(g, ps, t).None? <==> forall k :: 0 <= k < |ps| ==> !Reaches(g, ps[k], t)
    ensures FirstReaching(g, ps, t).Some? ==>
      exists i :: 0 <= i < |ps| && ps[i] == FirstReaching(g, ps, t).value && Reaches(g, ps[i], t) &&
        forall k :: 0 <= k < i ==> !Reaches(g, ps[k], t)
  {
    if ps != [] && !Reaches(g, ps[0], t) {
      FirstReachingSpec(g, ps[1..], t);
      var r := FirstReaching(g, ps[1..], t);
      if r.Some? {
        var i :| 0 <= i < |ps[1..]| && ps[1..][i] == r.value && Reaches(g, ps[1..][i], t) &&
          forall k :: 0 <= k < i ==> !Reaches(g, ps[1..][k], t);
        assert ps[i + 1] == r.value;
      }
    }
  }

  /** p reaches t exactly when t is an empty cell next to p or one jump away. */
  lemma ReachesSpec(g: Grid, p: Pos, t: Pos)
    ensures Reaches(g, p, t) <==> (InBounds(t) && At(g, t) == 0 && Manhattan(p, t) == 1) || MoveUtils.IsJump(g, p, t)
  {
    MoveUtils.ValidMovesSpec(p, g);
    MoveUtils.JumpMovesSpec(p, g);
  }

  /** The first stage: the first piece, in row-major order, that can reach the empty
      deep corner. */
  function DeepMove(g: Grid, player: int): Option<Move>
    requires player == 1 || player == 2
  {
    var deep := DeepTarget(player);
    if At(g, deep) != 0 then None
    else
      var first := FirstReaching(g, Pieces(g, player), deep);
      if first.Some? then Some(Move(first.value, deep)) else None
  }

  /** The first stage moves a piece of the player onto the empty deep corner, and every
      piece before it in row-major order has no way there; it moves nothing only if the
      corner is occupied or no piece reaches it. */
  lemma DeepMoveSpec(g: Grid, player: int)
    requires player == 1 || player == 2
    ensures DeepMove(g, player).None? <==>
      At(g, DeepTarget(player)) != 0 ||
      forall p :: InBounds(p) && At(g, p) == player ==> !Reaches(g, p, DeepTarget(player))
    ensures DeepMove(g, player).Some? ==>
      var m := DeepMove(g, player).value;
      m.dst == DeepTarget(player) && At(g, m.dst) == 0 && InBounds(m.src) && At(g, m.src) == player &&
      Reaches(g, m.src, m.dst) &&
      forall p :: InBounds(p) && At(g, p) == player && Idx(p) < Idx(m.src) ==> !Reaches(g, p, m.dst)
  {
    var deep := DeepTarget(player);
    var ps := Pieces(g, player);
    if At(g, deep) == 0 {
      var first := FirstReaching(g, ps, deep);
      if first.Some? {
        DeepFound(g, player);
        assert DeepMove(g, player) == Some(Move(first.value, deep));
      } else {
        DeepAbsent(g, player);
        assert DeepMove(g, player).None?;
      }
    }
  }

  /** The piece the first stage finds reaches the corner, and no piece before it does. */
  lemma DeepFound(g: Grid, player: int)
    requires player == 1 || player == 2
    requires FirstReaching(g, Pieces(g, player), DeepTarget(player)).Some?
    ensures
      var src := FirstReaching(g, Pieces(g, player), DeepTarget(player)).value;
      InBounds(src) && At(g, src) == player && Reaches(g, src, DeepTarget(player)) &&
      forall p :: InBounds(p) && At(g, p) == player && Idx(p) < Idx(src) ==> !Reaches(g, p, DeepTarget(player))
  {
    var deep := DeepTarget(player);
    var ps := Pieces(g, player);
    FirstReachingSpec(g, ps, deep);
    var i :| 0 <= i < |ps| && ps[i] == FirstReaching(g, ps, deep).value && Reaches(g, ps[i], deep) &&
      forall k :: 0 <= k < i ==> !Reaches(g, ps[k], deep);
    assert ps[i] in ps;
    forall p | InBounds(p) && At(g, p) == player && Idx(p) < Idx(ps[i]) ensures !Reaches(g, p, deep) {
      var k := PieceIndex(g, player, p);
      PiecesBefore(g, player, i, k);
    }
  }

  /** When the first stage finds nothing, no piece reaches the corner. */
  lemma DeepAbsent(g: Grid, player: int)
    requires player == 1 || player == 2
    requires FirstReaching(g, Pieces(g, player), DeepTarget(player)).None?
    ensures forall p :: InBounds(p) && At(g, p) == player ==> !Reaches(g, p, DeepTarget(player))
  {
    var deep := DeepTarget(player);
    var ps := Pieces(g, player);
    FirstReachingSpec(g, ps, deep);
    forall p | InBounds(p) && At(g, p) == player ensures !Reaches(g, p, deep) {
      var k := PieceIndex(g, player, p);
    }
  }

  /** The position of a piece in the row-major piece list. */
  lemma PieceIndex(g: Grid, player: int, p: Pos) returns (k: nat)
    requires InBounds(p) && At(g, p) == player
    ensures k < |Pieces(g, player)| && Pieces(g, player)[k] == p
  {
    var ps := Pieces(g, player);
    assert p in ps;
    k :| 0 <= k < |ps| && ps[k] == p;
  }

  // ---------------------------------------------------------------- stage 3: the normal strategy

  /** The cells of ps not in the player's stable area, in order. */
  function Unsettled(player: int, ps: seq<Pos>): seq<Pos> {
    if ps == [] then []
    else (if !InStableArea2(player, ps[0]) then [ps[0]] else []) + Unsettled(player, ps[1..])
  }

  lemma {:induction false} UnsettledSpec(player: int, ps: seq<Pos>, q: Pos)
    ensures q in Unsettled(player, ps) <==> q in ps && !InStableArea2(player, q)
  {
    if ps != [] {
      UnsettledSpec(player, ps[1..], q);
      assert ps == [ps[0]] + ps[1..];
    }
  }

  /** positions_to_consider before the shuffle: the pieces outside the target, or, when
      there are none, the pieces outside the stable area. */
  function Considered(g: Grid, player: int): seq<Pos> {
    var outside := Congestion.Waiting(g, player);
    if outside != [] then outside else Unsettled(player, Pieces(g, player))
  }

  /** The entry bonus: 200 when exactly one piece is left outside the target, else 50. */
  function Bonus(g: Grid, player: int): int {
    if |Congestion.Waiting(g, player)| == 1 then 200 else 50
  }

  /** A piece of the player outside its target. */
  predicate Outsider(g: Grid, player: int, q: Pos) {
    InBounds(q) && At(g, q) == player && !InTargetArea2(player, q)
  }

  /** p occurs in w as often as w is long when every element of w is p. */
  lemma {:induction false} CountAll(w: seq<Pos>, p: Pos)
    requires forall k :: 0 <= k < |w| ==> w[k] == p
    ensures multiset(w)[p] == |w|
  {
    if w != [] {
      assert w == [w[0]] + w[1..];
      CountAll(w[1..], p);
    }
  }

  /** A list without repetitions holds p at most once. */
  lemma {:induction false} CountDistinct(w: seq<Pos>, p: Pos)
    requires Distinct(w)
    ensures multiset(w)[p] <= 1
  {
    if w != [] {
      var t := w[1..];
      assert w == [w[0]] + t;
      assert Distinct(t) by {
        forall i, j | 0 <= i < j < |t| ensures t[i] != t[j] {
          assert t[i] == w[i + 1] && t[j] == w[j + 1];
        }
      }
      CountDistinct(t, p);
      if w[0] == p {
        forall k | 0 <= k < |t| ensures t[k] != p {
          assert t[k] == w[k + 1];
        }
        assert multiset(t)[p] == 0;
      }
    }
  }

  /** A list without repetitions whose every element is p, p among them, is [p]. */
  lemma OnlyElement(w: seq<Pos>, p: Pos)
    requires Distinct(w) && p in w && forall q :: q in w ==> q == p
    ensures |w| == 1
  {
    forall k | 0 <= k < |w| ensures w[k] == p {
      assert w[k] in w;
    }
    CountAll(w, p);
    CountDistinct(w, p);
  }

  /** Exactly one piece of the player is outside its target. */
  ghost predicate LoneOutsider(g: Grid, player: int) {
    exists p :: Outsider(g, player, p) && forall q :: Outsider(g, player, q) ==> q == p
  }

  /** One piece alone outside the target makes the bonus 200. */
  lemma LoneBonus(g: Grid, player: int, p: Pos)
    requires Outsider(g, player, p) && forall q :: Outsider(g, player, q) ==> q == p
    ensures Bonus(g, player) == 200
  {
    var w := Congestion.Waiting(g, player);
    assert Distinct(w) by {
      Congestion.OutsideDistinct(player, Pieces(g, player));
    }
    assert forall q :: q in w <==> Outsider(g, player, q) by {
      Congestion.WaitingSpec(g, player);
    }
    OnlyElement(w, p);
  }

  /** A bonus of 200 means one piece alone outside the target. */
  lemma BonusLone(g: Grid, player: int)
    requires Bonus(g, player) == 200
    ensures LoneOutsider(g, player)
  {
    var w := Congestion.Waiting(g, player);
    Congestion.WaitingSpec(g, player);
    assert Outsider(g, player, w[0]);
    forall q | Outsider(g, player, q) ensures q == w[0] {
      assert q in w;
    }
  }

  /** The bonus is 200 exactly when the player has one piece, and no other, outside its
      target; otherwise it is 50. */
  lemma BonusSpec(g: Grid, player: int)
    ensures Bonus(g, player) == 200 <==> LoneOutsider(g, player)
    ensures Bonus(g, player) != 200 ==> Bonus(g, player) == 50
  {
    if Bonus(g, player) == 200 {
      BonusLone(g, player);
    }
    if LoneOutsider(g, player) {
      var p :| Outsider(g, player, p) && forall q :: Outsider(g, player, q) ==> q == p;
      LoneBonus(g, player, p);
    }
  }

  /** The cells of cs inside the player's target, in order. */
  function InsideOnly(player: int, cs: seq<Pos>): seq<Pos> {
    if cs == [] then []
    else (if InTargetArea2(player, cs[0]) then [cs[0]] else []) + InsideOnly(player, cs[1..])
  }

  lemma {:induction false} InsideOnlySpec(player: int, cs: seq<Pos>)
    ensures multiset(InsideOnly(player, cs)) <= multiset(cs)
    ensures forall q :: q in InsideOnly(player, cs) <==> q in cs && InTargetArea2(player, q)
  {
    if cs != [] {
      InsideOnlySpec(player, cs[1..]);
      assert cs == [cs[0]] + cs[1..];
    }
  }

  /** s is in non-decreasing score order. */
  predicate SortedByScore(player: int, s: seq<Pos>)
    requires player == 1 || player == 2
  {
    forall i, j :: 0 <= i < j < |s| ==> CalculateScore(player, s[i]) <= CalculateScore(player, s[j])
  }

  /** x inserted after every element of s whose score is not greater. */
  function InsertByScore(player: int, x: Pos, s: seq<Pos>): seq<Pos>
    requires player == 1 || player == 2
  {
    if s == [] then [x]
    else if CalculateScore(player, x) < CalculateScore(player, s[0]) then [x] + s
    else [s[0]] + InsertByScore(player, x, s[1..])
  }

  /** list.sort(key=calculate_score): a stable insertion sort. */
  function SortByScore(player: int, cs: seq<Pos>): seq<Pos>
    requires player == 1 || player == 2
  {
    if cs == [] then []
    else InsertByScore(player, cs[|cs| - 1], SortByScore(player, cs[..|cs| - 1]))
  }

  /** a in front of a sorted list no smaller than a is sorted. */
  lemma SortedCons(player: int, a: Pos, t: seq<Pos>)
    requires player == 1 || player == 2
    requires SortedByScore(player, t)
    requires t != [] ==> CalculateScore(player, a) <= CalculateScore(player, t[0])
    ensures SortedByScore(player, [a] + t)
  {
    var r := [a] + t;
    forall i, j | 0 <= i < j < |r| ensures CalculateScore(player, r[i]) <= CalculateScore(player, r[j]) {
      assert r[j] == t[j - 1];
      if i > 0 {
        assert r[i] == t[i - 1];
      } else if j > 1 {
        assert CalculateScore(player, t[0]) <= CalculateScore(player, t[j - 1]);
      }
    }
  }

  lemma SortedTail(player: int, s: seq<Pos>)
    requires player == 1 || player == 2
    requires SortedByScore(player, s) && s != []
    ensures SortedByScore(player, s[1..])
  {
    var t := s[1..];
    forall i, j | 0 <= i < j < |t| ensures CalculateScore(player, t[i]) <= CalculateScore(player, t[j]) {
      assert t[i] == s[i + 1] && t[j] == s[j + 1];
    }
  }

  /** Inserting keeps every element and adds x once. */
  lemma {:induction false} InsertByScorePerm(player: int, x: Pos, s: seq<Pos>)
    requires player == 1 || player == 2
    ensures multiset(InsertByScore(player, x, s)) == multiset(s) + multiset{x}
  {
    if s == [] {
      assert InsertByScore(player, x, s) == [x];
    } else if CalculateScore(player, x) < CalculateScore(player, s[0]) {
      assert InsertByScore(player, x, s) == [x] + s;
    } else {
      var rest := s[1..];
      var r := InsertByScore(player, x, rest);
      InsertByScorePerm(player, x, rest);
      assert InsertByScore(player, x, s) == [s[0]] + r;
      assert multiset([s[0]] + r) == multiset{s[0]} + multiset(r);
      assert s == [s[0]] + rest;
      assert multiset(s) == multiset{s[0]} + multiset(rest);
    }
  }

  /** Inserting into a sorted list keeps it sorted; the head is x exactly when x scores
      strictly lower than the old head. */
  lemma {:induction false} InsertByScoreSorted(player: int, x: Pos, s: seq<Pos>)
    requires player == 1 || player == 2
    requires SortedByScore(player, s)
    ensures SortedByScore(player, InsertByScore(player, x, s))
    ensures InsertByScore(player, x, s)[0] ==
      if s == [] || CalculateScore(player, x) < CalculateScore(player, s[0]) then x else s[0]
  {
    if s == [] {
    } else if CalculateScore(player, x) < CalculateScore(player, s[0]) {
      SortedCons(player, x, s);
    } else {
      var rest := s[1..];
      SortedTail(player, s);
      InsertByScoreSorted(player, x, rest);
      var ins := InsertByScore(player, x, rest);
      if rest != [] {
        assert CalculateScore(player, s[0]) <= CalculateScore(player, s[1]);
      }
      SortedCons(player, s[0], ins);
    }
  }

  /** Inserting into a sorted list: the elements plus x, sorted, x placed after every
      element of no greater score. */
  lemma InsertByScoreSpec(player: int, x: Pos, s: seq<Pos>)
    requires player == 1 || player == 2
    requires SortedByScore(player, s)
    ensures multiset(InsertByScore(player, x, s)) == multiset(s) + multiset{x}
    ensures SortedByScore(player, InsertByScore(player, x, s))
    ensures InsertByScore(player, x, s)[0] ==
      if s == [] || CalculateScore(player, x) < CalculateScore(player, s[0]) then x else s[0]
  {
    InsertByScorePerm(player, x, s);
    InsertByScoreSorted(player, x, s);
  }

  /** The sort keeps the elements, with their multiplicities. */
  lemma {:induction false} SortByScorePerm(player: int, cs: seq<Pos>)
    requires player == 1 || player == 2
    ensures multiset(SortByScore(player, cs)) == multiset(cs)
  {
    if cs != [] {
      var front := cs[..|cs| - 1];
      SortByScorePerm(player, front);
      InsertByScorePerm(player, cs[|cs| - 1], SortByScore(player, front));
      assert cs == front + [cs[|cs| - 1]];
    }
  }

  /** The sort orders the elements by score. */
  lemma {:induction false} SortByScoreSorted(player: int, cs: seq<Pos>)
    requires player == 1 || player == 2
    ensures SortedByScore(player, SortByScore(player, cs))
  {
    if cs != [] {
      var front := cs[..|cs| - 1];
      SortByScoreSorted(player, front);
      InsertByScoreSorted(player, cs[|cs| - 1], SortByScore(player, front));
    }
  }

  /** The sort keeps the elements, with their multiplicities, and orders them by score. */
  lemma SortByScoreSpec(player: int, cs: seq<Pos>)
    requires player == 1 || player == 2
    ensures multiset(SortByScore(player, cs)) == multiset(cs)
    ensures SortedByScore(player, SortByScore(player, cs))
  {
    SortByScorePerm(player, cs);
    SortByScoreSorted(player, cs);
  }

  /** candidate_moves of one position: its step and single-jump destinations; for a
      position already in the target only those in the target, sorted by score. */
  function Candidates(g: Grid, player: int, p: Pos): seq<Pos>
    requires player == 1 || player == 2
  {
    var cs := MoveUtils.ValidMoves(p, g) + MoveUtils.JumpMoves(p, g);
    if InTargetArea2(player, p) then SortByScore(player, InsideOnly(player, cs)) else cs
  }

  /** The candidates are exactly the step and single-jump destinations, restricted to the
      target when the position is in it. */
  lemma CandidatesSpec(g: Grid, player: int, p: Pos, q: Pos)
    requires player == 1 || player == 2
    ensures q in Candidates(g, player, p) <==>
      Reaches(g, p, q) && (InTargetArea2(player, p) ==> InTargetArea2(player, q))
  {
    var cs := MoveUtils.ValidMoves(p, g) + MoveUtils.JumpMoves(p, g);
    if InTargetArea2(player, p) {
      InsideOnlySpec(player, cs);
      SortByScoreSpec(player, InsideOnly(player, cs));
      assert q in SortByScore(player, InsideOnly(player, cs)) <==> q in multiset(InsideOnly(player, cs));
    }
  }

  /** The improvement of moving p to q: the score gained, plus the bonus for entering the
      target and twice the bonus for entering the stable area. */
  function Improvement(player: int, bonus: int, m: Move): int
    requires player == 1 || player == 2
  {
    CalculateScore(player, m.src) - CalculateScore(player, m.dst) +
    (if !InTargetArea2(player, m.src) && InTargetArea2(player, m.dst) then bonus else 0) +
    (if !InStableArea2(player, m.src) && InStableArea2(player, m.dst) then 2 * bonus else 0)
  }

  /** A move that ends outside the target gains exactly its score difference; one from
      outside the target into the stable area gains it plus three times the bonus, one
      from outside into the rest of the target plus the bonus. */
  lemma ImprovementSpec(player: int, bonus: int, m: Move)
    requires player == 1 || player == 2
    ensures !InTargetArea2(player, m.dst) ==>
      Improvement(player, bonus, m) == CalculateScore(player, m.src) - CalculateScore(player, m.dst)
    ensures !InTargetArea2(player, m.src) && InStableArea2(player, m.dst) ==>
      Improvement(player, bonus, m) == CalculateScore(player, m.src) - CalculateScore(player, m.dst) + 3 * bonus
    ensures !InTargetArea2(player, m.src) && InTargetArea2(player, m.dst) && !InStableArea2(player, m.dst) ==>
      Improvement(player, bonus, m) == CalculateScore(player, m.src) - CalculateScore(player, m.dst) + bonus
  {
    StableInTarget(player, m.src);
    StableInTarget(player, m.dst);
  }

  /** The skip test of the loop: a position in both the target and the stable area. */
  predicate Skipped(player: int, p: Pos) {
    InTargetArea2(player, p) && InStableArea2(player, p)
  }

  /** The moves the loop scores, in its order. */
  function Options(g: Grid, player: int, order: seq<Pos>): seq<Move>
    requires player == 1 || player == 2
  {
    if order == [] then []
    else
      var p := order[|order| - 1];
      Options(g, player, order[..|order| - 1]) +
      (if Skipped(player, p) then [] else MoveUtils.Tagged(p, Candidates(g, player, p)))
  }

  /** The move kept by `if improvement > best_improvement`, starting from minus infinity:
      the first move of greatest improvement. */
  function Best(player: int, bonus: int, ms: seq<Move>): Option<Move>
    requires player == 1 || player == 2
  {
    if ms == [] then None
    else
      var b := Best(player, bonus, ms[..|ms| - 1]);
      var m := ms[|ms| - 1];
      if b.None? || Improvement(player, bonus, m) > Improvement(player, bonus, b.value) then Some(m) else b
  }

  /** The move kept by `if new_score < best_fallback`, starting from plus infinity. */
  function Fallback(player: int, ms: seq<Move>): Option<Move>
    requires player == 1 || player == 2
  {
    if ms == [] then None
    else
      var b := Fallback(player, ms[..|ms| - 1]);
      var m := ms[|ms| - 1];
      if b.None? || CalculateScore(player, m.dst) < CalculateScore(player, b.value.dst) then Some(m) else b
  }

  /** The third stage's answer: best_move, or fallback_move when there is none. */
  function NormalChoice(g: Grid, player: int, order: seq<Pos>): Option<Move>
    requires player == 1 || player == 2
  {
    var ms := Options(g, player, order);
    var b := Best(player, Bonus(g, player), ms);
    if b.Some? then b else Fallback(player, ms)
  }

  /** choose_move(board) with the shuffled positions given as order. */
  function GreedyChoice(g: Grid, player: int, order: seq<Pos>): Option<Move>
    requires player == 1 || player == 2
  {
    var deep := DeepMove(g, player);
    if deep.Some? then deep
    else
      var free := Congestion.ImprovedFreeUp(g, player, false);
      if free.Some? then free else NormalChoice(g, player, order)
  }

  /** Best is the first move of greatest improvement; i is its index. */
  lemma {:induction false} BestSpec(player: int, bonus: int, ms: seq<Move>) returns (i: int)
    requires player == 1 || player == 2
    ensures Best(player, bonus, ms).None? <==> ms == []
    ensures Best(player, bonus, ms).Some? ==>
      0 <= i < |ms| && ms[i] == Best(player, bonus, ms).value &&
      (forall k :: 0 <= k < |ms| ==> Improvement(player, bonus, ms[k]) <= Improvement(player, bonus, ms[i])) &&
      (forall k :: 0 <= k < i ==> Improvement(player, bonus, ms[k]) < Improvement(player, bonus, ms[i]))
  {
    i := 0;
    if ms != [] {
      var n := |ms| - 1;
      var front := ms[..n];
      var i0 := BestSpec(player, bonus, front);
      var b := Best(player, bonus, front);
      var m := ms[n];
      if b.None? || Improvement(player, bonus, m) > Improvement(player, bonus, b.value) {
        i := n;
        forall k | 0 <= k < n ensures Improvement(player, bonus, ms[k]) < Improvement(player, bonus, m) {
          assert ms[k] == front[k];
        }
      } else {
        i := i0;
        forall k | 0 <= k < |ms| ensures Improvement(player, bonus, ms[k]) <= Improvement(player, bonus, ms[i]) {
          if k < n {
            assert ms[k] == front[k];
          }
        }
        forall k | 0 <= k < i ensures Improvement(player, bonus, ms[k]) < Improvement(player, bonus, ms[i]) {
          assert ms[k] == front[k];
        }
      }
    }
  }

  /** Fallback is None iff no move was scored; otherwise it is the move at i, whose
      destination has the smallest score, and every earlier move's a strictly larger one
      (the program's strict `<`). */
  lemma {:induction false} FallbackSpec(player: int, ms: seq<Move>) returns (i: int)
    requires player == 1 || player == 2
    ensures Fallback(player, ms).None? <==> ms == []
    ensures Fallback(player, ms).Some? ==>
      0 <= i < |ms| && ms[i] == Fallback(player, ms).value &&
      (forall k :: 0 <= k < |ms| ==> CalculateScore(player, ms[i].dst) <= CalculateScore(player, ms[k].dst)) &&
      (forall k :: 0 <= k < i ==> CalculateScore(player, ms[i].dst) < CalculateScore(player, ms[k].dst))
  {
    i := 0;
    if ms != [] {
      var n := |ms| - 1;
      var front := ms[..n];
      var i0 := FallbackSpec(player, front);
      var b := Fallback(player, front);
      var m := ms[n];
      if b.None? || CalculateScore(player, m.dst) < CalculateScore(player, b.value.dst) {
        i := n;
        forall k | 0 <= k < n ensures CalculateScore(player, m.dst) < CalculateScore(player, ms[k].dst) {
          assert ms[k] == front[k];
        }
      } else {
        i := i0;
        forall k | 0 <= k < |ms| ensures CalculateScore(player, ms[i].dst) <= CalculateScore(player, ms[k].dst) {
          if k < n {
            assert ms[k] == front[k];
          }
        }
        forall k | 0 <= k < i ensures CalculateScore(player, ms[i].dst) < CalculateScore(player, ms[k].dst) {
          assert ms[k] == front[k];
        }
      }
    }
  }


  lemma {:induction false} OptionsSpec(g: Grid, player: int, order: seq<Pos>, m: Move)
    requires player == 1 || player == 2
    ensures m in Options(g, player, order) <==>
      m.src in order && !Skipped(player, m.src) && m.dst in Candidates(g, player, m.src)
  {
    if order != [] {
      var front := order[..|order| - 1];
      var p := order[|order| - 1];
      OptionsSpec(g, player, front, m);
      var tail := if Skipped(player, p) then [] else MoveUtils.Tagged(p, Candidates(g, player, p));
      assert Options(g, player, order) == Options(g, player, front) + tail;
      MoveUtils.TaggedMember(p, Candidates(g, player, p), m);
      SplitLast(order);
    }
  }

  /** No considered position is ever skipped: the waiting pieces are outside the target
      and the others outside the stable area. */
  lemma NeverSkipped(g: Grid, player: int, p: Pos)
    requires p in Considered(g, player)
    ensures !Skipped(player, p)
  {
    Congestion.WaitingSpec(g, player);
    UnsettledSpec(player, Pieces(g, player), p);
  }

  /** With order a permutation of the considered positions, the two hold the same
      positions. */
  lemma ConsideredOrder(g: Grid, player: int, order: seq<Pos>)
    requires multiset(order) == multiset(Considered(g, player))
    ensures forall p :: p in Considered(g, player) <==> p in order
  {
    forall p | p in Considered(g, player) ensures p in order {
      assert p in multiset(order);
    }
    forall p | p in order ensures p in Considered(g, player) {
      assert p in multiset(Considered(g, player));
    }
  }

  /** The fallback is never the answer: best_move is None only when nothing was scored,
      and then fallback_move is None as well. */
  lemma NormalChoiceBest(g: Grid, player: int, order: seq<Pos>)
    requires player == 1 || player == 2
    ensures NormalChoice(g, player, order) == Best(player, Bonus(g, player), Options(g, player, order))
  {
    var ms := Options(g, player, order);
    var _ := BestSpec(player, Bonus(g, player), ms);
    var _ := FallbackSpec(player, ms);
  }

  /** The third stage answers None exactly when no considered position has a candidate. */
  lemma NormalChoiceNone(g: Grid, player: int, order: seq<Pos>)
    requires player == 1 || player == 2
    requires multiset(order) == multiset(Considered(g, player))
    ensures NormalChoice(g, player, order).None? <==>
      forall p :: p in Considered(g, player) ==> Candidates(g, player, p) == []
  {
    var ms := Options(g, player, order);
    NormalChoiceBest(g, player, order);
    var _ := BestSpec(player, Bonus(g, player), ms);
    ConsideredOrder(g, player, order);
    if ms == [] {
      forall p | p in Considered(g, player) ensures Candidates(g, player, p) == [] {
        NeverSkipped(g, player, p);
        if Candidates(g, player, p) != [] {
          var q := Candidates(g, player, p)[0];
          OptionsSpec(g, player, order, Move(p, q));
        }
      }
    } else {
      OptionsSpec(g, player, order, ms[0]);
    }
  }

  /** A move of the third stage goes from a considered piece outside the stable area to
      one of its candidates, inside the target if it started there, with the greatest
      improvement of all scored moves. */
  lemma NormalChoiceSome(g: Grid, player: int, order: seq<Pos>)
    requires player == 1 || player == 2
    requires multiset(order) == multiset(Considered(g, player))
    requires NormalChoice(g, player, order).Some?
    ensures
      var m := NormalChoice(g, player, order).value;
      m.src in Considered(g, player) && InBounds(m.src) && At(g, m.src) == player &&
      !InStableArea2(player, m.src) && Reaches(g, m.src, m.dst) &&
      (InTargetArea2(player, m.src) ==> InTargetArea2(player, m.dst)) &&
      forall m' :: m' in Options(g, player, order) ==>
        Improvement(player, Bonus(g, player), m') <= Improvement(player, Bonus(g, player), m)
  {
    var ms := Options(g, player, order);
    var bonus := Bonus(g, player);
    NormalChoiceBest(g, player, order);
    var i := BestSpec(player, bonus, ms);
    Congestion.WaitingSpec(g, player);
    ConsideredOrder(g, player, order);
    var b := Best(player, bonus, ms).value;
    OptionsSpec(g, player, order, b);
    CandidatesSpec(g, player, b.src, b.dst);
    UnsettledSpec(player, Pieces(g, player), b.src);
    StableInTarget(player, b.src);
    forall m' | m' in ms ensures Improvement(player, bonus, m') <= Improvement(player, bonus, b) {
      var k :| 0 <= k < |ms| && ms[k] == m';
    }
  }

  /** With order a permutation of the considered positions, the third stage answers None
      exactly when none of them has a candidate; otherwise it moves a considered piece to
      one of its candidates, never from the stable area, inside the target if it started
      there, and with the greatest improvement of all scored moves, the first such in the
      loop's order. The fallback is never the answer. */
  lemma NormalChoiceSpec(g: Grid, player: int, order: seq<Pos>)
    requires player == 1 || player == 2
    requires multiset(order) == multiset(Considered(g, player))
    ensures NormalChoice(g, player, order) == Best(player, Bonus(g, player), Options(g, player, order))
    ensures NormalChoice(g, player, order).None? <==>
      forall p :: p in Considered(g, player) ==> Candidates(g, player, p) == []
    ensures NormalChoice(g, player, order).Some? ==>
      var m := NormalChoice(g, player, order).value;
      m.src in Considered(g, player) && InBounds(m.src) && At(g, m.src) == player &&
      !InStableArea2(player, m.src) && Reaches(g, m.src, m.dst) &&
      (InTargetArea2(player, m.src) ==> InTargetArea2(player, m.dst)) &&
      forall m' :: m' in Options(g, player, order) ==>
        Improvement(player, Bonus(g, player), m') <= Improvement(player, Bonus(g, player), m)
  {
    NormalChoiceBest(g, player, order);
    NormalChoiceNone(g, player, order);
    if NormalChoice(g, player, order).Some? {
      NormalChoiceSome(g, player, order);
    }
  }

  /** The three stages in order: the deep-corner move wins, then the congestion rule, and
      only then the normal strategy. */
  lemma GreedyChoiceSpec(g: Grid, player: int, order: seq<Pos>)
    requires player == 1 || player == 2
    requires multiset(order) == multiset(Considered(g, player))
    ensures DeepMove(g, player).Some? ==> GreedyChoice(g, player, order) == DeepMove(g, player)
    ensures DeepMove(g, player).None? && Congestion.ImprovedFreeUp(g, player, false).Some? ==>
      GreedyChoice(g, player, order) == Congestion.ImprovedFreeUp(g, player, false)
    ensures DeepMove(g, player).None? && Congestion.ImprovedFreeUp(g, player, false).None? ==>
      GreedyChoice(g, player, order) == NormalChoice(g, player, order)
    ensures GreedyChoice(g, player, order).Some? ==>
      var m := GreedyChoice(g, player, order).value;
      InBounds(m.src) && At(g, m.src) == player && InBounds(m.dst) && At(g, m.dst) == 0
  {
    var r := GreedyChoice(g, player, order);
    if r.Some? {
      var m := r.value;
      if DeepMove(g, player).Some? {
        DeepMoveSpec(g, player);
      } else if Congestion.ImprovedFreeUp(g, player, false).Some? {
        Congestion.ImprovedFreeUpSpec(g, player, false);
      } else {
        NormalChoiceSpec(g, player, order);
        ReachesSpec(g, m.src, m.dst);
      }
    }
  }

  // ---------------------------------------------------------------- the loops

  /** The first stage: the loop over the pieces in row-major order, returning the first
      whose steps and single jumps include the empty deep corner. */
  method DeepTargetMove(g: Grid, player: int) returns (m: Option<Move>)
    requires player == 1 || player == 2
    ensures m == DeepMove(g, player)
  {
    var deep := DeepTarget(player);
    if At(g, deep) == 0 {
      var positions := Pieces(g, player);
      ghost var first := FirstReaching(g, positions, deep);
      var i := 0;
      while i < |positions|
        invariant 0 <= i <= |positions|
        invariant FirstReaching(g, positions[i..], deep) == first
      {
        var pos := positions[i];
        FirstReachingStep(g, positions, i, deep);
        var steps := MoveUtils.GetValidMoves(pos, g);
        var jumps := MoveUtils.GetJumpMoves(pos, g);
        if deep in steps + jumps {
          assert first == Some(pos);
          return Some(Move(pos, deep));
        }
        i := i + 1;
      }
      assert positions[i..] == [];
      assert first.None?;
    }
    return None;
  }

  /** The loop's variables after scoring the moves seen: best_move and best_improvement
      (None standing for minus infinity), fallback_move and best_fallback (None standing
      for plus infinity). */
  predicate Tracks(player: int, bonus: int, seen: seq<Move>, best: Option<Move>, bestImp: Option<int>,
                   fallback: Option<Move>, bestFallback: Option<int>)
    requires player == 1 || player == 2
  {
    best == Best(player, bonus, seen) &&
    bestImp == (if best.None? then None else Some(Improvement(player, bonus, best.value))) &&
    fallback == Fallback(player, seen) &&
    bestFallback == (if fallback.None? then None else Some(CalculateScore(player, fallback.value.dst)))
  }

  lemma BestSnoc(player: int, bonus: int, ms: seq<Move>, m: Move)
    requires player == 1 || player == 2
    ensures Best(player, bonus, ms + [m]) ==
      var b := Best(player, bonus, ms);
      if b.None? || Improvement(player, bonus, m) > Improvement(player, bonus, b.value) then Some(m) else b
  {
    assert (ms + [m])[..|ms|] == ms;
  }

  lemma FallbackSnoc(player: int, ms: seq<Move>, m: Move)
    requires player == 1 || player == 2
    ensures Fallback(player, ms + [m]) ==
      var b := Fallback(player, ms);
      if b.None? || CalculateScore(player, m.dst) < CalculateScore(player, b.value.dst) then Some(m) else b
  {
    assert (ms + [m])[..|ms|] == ms;
  }

  /** The moves seen after one more candidate of pos. */
  lemma SeenSnoc(seen: seq<Move>, pos: Pos, candidates: seq<Pos>, j: nat)
    requires j < |candidates|
    ensures seen + MoveUtils.Tagged(pos, candidates[..j + 1]) ==
      seen + MoveUtils.Tagged(pos, candidates[..j]) + [Move(pos, candidates[j])]
  {
    assert candidates[..j + 1] == candidates[..j] + [candidates[j]];
    MoveUtils.TaggedSnoc(pos, candidates[..j], candidates[j]);
  }

  /** Scoring one more move keeps the loop's variables tracking the moves seen. */
  lemma TracksSnoc(player: int, bonus: int, seen: seq<Move>, m: Move, best: Option<Move>, bestImp: Option<int>,
                   fallback: Option<Move>, bestFallback: Option<int>)
    requires player == 1 || player == 2
    requires Tracks(player, bonus, seen, best, bestImp, fallback, bestFallback)
    ensures
      var up := bestImp.None? || Improvement(player, bonus, m) > bestImp.value;
      var down := bestFallback.None? || CalculateScore(player, m.dst) < bestFallback.value;
      Tracks(player, bonus, seen + [m],
             if up then Some(m) else best, if up then Some(Improvement(player, bonus, m)) else bestImp,
             if down then Some(m) else fallback, if down then Some(CalculateScore(player, m.dst)) else bestFallback)
  {
    BestSnoc(player, bonus, seen, m);
    FallbackSnoc(player, seen, m);
  }

  lemma OptionsSnoc(g: Grid, player: int, order: seq<Pos>, i: nat)
    requires player == 1 || player == 2
    requires i < |order|
    ensures Options(g, player, order[..i + 1]) == Options(g, player, order[..i]) +
      (if Skipped(player, order[i]) then [] else MoveUtils.Tagged(order[i], Candidates(g, player, order[i])))
  {
    assert order[..i + 1][..i] == order[..i] && order[..i + 1][i] == order[i];
  }

  /** The inner loop: scores each candidate of pos and updates the four variables. */
  method ScoreCandidates(player: int, bonus: int, pos: Pos, candidates: seq<Pos>, ghost seen: seq<Move>,
                         best0: Option<Move>, bestImp0: Option<int>, fallback0: Option<Move>, bestFallback0: Option<int>)
    returns (best: Option<Move>, bestImp: Option<int>, fallback: Option<Move>, bestFallback: Option<int>)
    requires player == 1 || player == 2
    requires Tracks(player, bonus, seen, best0, bestImp0, fallback0, bestFallback0)
    ensures Tracks(player, bonus, seen + MoveUtils.Tagged(pos, candidates), best, bestImp, fallback, bestFallback)
  {
    best, bestImp, fallback, bestFallback := best0, bestImp0, fallback0, bestFallback0;
    var currentScore := CalculateScore(player, pos);
    assert seen + MoveUtils.Tagged(pos, candidates[..0]) == seen;
    ghost var cur := seen;
    var j := 0;
    while j < |candidates|
      invariant 0 <= j <= |candidates|
      invariant cur == seen + MoveUtils.Tagged(pos, candidates[..j])
      invariant Tracks(player, bonus, cur, best, bestImp, fallback, bestFallback)
    {
      var candidate := candidates[j];
      var newScore := CalculateScore(player, candidate);
      var improvement := currentScore - newScore;
      if !InTargetArea2(player, pos) && InTargetArea2(player, candidate) {
        improvement := improvement + bonus;
      }
      if !InStableArea2(player, pos) && InStableArea2(player, candidate) {
        improvement := improvement + bonus * 2;
      }
      assert improvement == Improvement(player, bonus, Move(pos, candidate));
      SeenSnoc(seen, pos, candidates, j);
      TracksSnoc(player, bonus, cur, Move(pos, candidate), best, bestImp, fallback, bestFallback);
      if bestImp.None? || improvement > bestImp.value {
        bestImp := Some(improvement);
        best := Some(Move(pos, candidate));
      }
      if bestFallback.None? || newScore < bestFallback.value {
        bestFallback := Some(newScore);
        fallback := Some(Move(pos, candidate));
      }
      cur := cur + [Move(pos, candidate)];
      assert Tracks(player, bonus, cur, best, bestImp, fallback, bestFallback);
      j := j + 1;
    }
    assert candidates[..j] == candidates;
  }

  /** One pass of the outer loop: a position in both areas is skipped; otherwise the
      moves to its candidates are scored. */
  method ConsiderPosition(g: Grid, player: int, bonus: int, pos: Pos, ghost seen: seq<Move>,
                          best0: Option<Move>, bestImp0: Option<int>, fallback0: Option<Move>, bestFallback0: Option<int>)
    returns (best: Option<Move>, bestImp: Option<int>, fallback: Option<Move>, bestFallback: Option<int>)
    requires player == 1 || player == 2
    requires Tracks(player, bonus, seen, best0, bestImp0, fallback0, bestFallback0)
    ensures Tracks(player, bonus, seen + (if Skipped(player, pos) then [] else MoveUtils.Tagged(pos, Candidates(g, player, pos))),
                   best, bestImp, fallback, bestFallback)
  {
    best, bestImp, fallback, bestFallback := best0, bestImp0, fallback0, bestFallback0;
    if !(InTargetArea2(player, pos) && InStableArea2(player, pos)) {
      var steps := MoveUtils.GetValidMoves(pos, g);
      var jumps := MoveUtils.GetJumpMoves(pos, g);
      var candidates := steps + jumps;
      if InTargetArea2(player, pos) {
        candidates := SortByScore(player, InsideOnly(player, candidates));
      }
      assert candidates == Candidates(g, player, pos);
      best, bestImp, fallback, bestFallback :=
        ScoreCandidates(player, bonus, pos, candidates, seen, best, bestImp, fallback, bestFallback);
    } else {
      assert seen + [] == seen;
    }
  }

  /** The third stage: the loop over the shuffled positions. */
  method NormalStrategy(g: Grid, player: int, order: seq<Pos>) returns (m: Option<Move>)
    requires player == 1 || player == 2
    ensures m == NormalChoice(g, player, order)
  {
    var outside := Congestion.Waiting(g, player);
    var bonus := 50;
    if outside != [] && |outside| == 1 {
      bonus := 200;
    }
    assert bonus == Bonus(g, player);
    var best: Option<Move> := None;
    var bestImp: Option<int> := None;
    var fallback: Option<Move> := None;
    var bestFallback: Option<int> := None;
    var i := 0;
    while i < |order|
      invariant 0 <= i <= |order|
      invariant Tracks(player, bonus, Options(g, player, order[..i]), best, bestImp, fallback, bestFallback)
    {
      ghost var seen := Options(g, player, order[..i]);
      ghost var next := Options(g, player, order[..i + 1]);
      OptionsSnoc(g, player, order, i);
      best, bestImp, fallback, bestFallback :=
        ConsiderPosition(g, player, bonus, order[i], seen, best, bestImp, fallback, bestFallback);
      assert Tracks(player, bonus, next, best, bestImp, fallback, bestFallback);
      i := i + 1;
    }
    assert order[..i] == order;
    assert Tracks(player, bonus, Options(g, player, order), best, bestImp, fallback, bestFallback);
    m := if best.Some? then best else fallback;
  }

  /** choose_move(board), with the result of random.shuffle given as order. */
  method ChooseMove(g: Grid, player: int, order: seq<Pos>) returns (m: Option<Move>)
    requires player == 1 || player == 2
    ensures m == GreedyChoice(g, player, order)
  {
    m := DeepTargetMove(g, player);
    if m.Some? {
      return;
    }
    m := Congestion.ImprovedFreeUpTargetEntry(g, player, false);
    if m.Some? {
      return;
    }
    m := NormalStrategy(g, player, order);
  }
}
