/**
 * Walks on the grid and the bookkeeping facts both searches share: the
 * frontier argument behind A*'s optimality and completeness, and the
 * potential that makes the search loops terminate.
 */
module Walks {
  import opened Geometry

  /** Every two consecutive cells are axis neighbours. */
  predicate IsWalk(w: seq<Vec3d>)
  {
    forall i :: 0 <= i < |w| - 1 ==> Manh(w[i], w[i + 1]) == 1
  }

  /** A walk from `a` to `b` whose every cell after the first is passable. */
  predicate WalkBetween(w: seq<Vec3d>, a: Vec3d, b: Vec3d, passable: set<Vec3d>)
  {
    && |w| > 0 && w[0] == a && w[|w| - 1] == b && IsWalk(w)
    && forall i :: 1 <= i < |w| ==> w[i] in passable
  }

  ghost predicate Reachable(a: Vec3d, b: Vec3d, passable: set<Vec3d>)
  {
    exists w :: WalkBetween(w, a, b, passable)
  }

  /** A walk of k steps covers at most k units of Manhattan distance. */
  lemma {:induction false} WalkSpan(w: seq<Vec3d>, i: nat, j: nat)
    requires IsWalk(w) && i <= j < |w|
    ensures Manh(w[i], w[j]) <= j - i
    decreases j - i
  {
    if i < j {
      WalkSpan(w, i, j - 1);
      ManhTriangle(w[i], w[j - 1], w[j]);
    }
  }

  /** No walk between two cells is shorter than their Manhattan distance. */
  lemma WalkAtLeastManh(w: seq<Vec3d>, a: Vec3d, b: Vec3d, passable: set<Vec3d>)
    requires WalkBetween(w, a, b, passable)
    ensures |w| >= Manh(a, b) + 1
  {
    WalkSpan(w, 0, |w| - 1);
  }

  /** Every passable neighbour of `n` is scored, at most one more than `n`. */
  ghost predicate Settled(cost: map<Vec3d, nat>, n: Vec3d, passable: set<Vec3d>)
    requires n in cost
  {
    forall m :: m in Neighbors(n) && m in passable ==> m in cost && cost[m] <= cost[n] + 1
  }

  /** Lowering scores elsewhere keeps a settled cell settled. */
  lemma SettledStaysSettled(cost: map<Vec3d, nat>, cost': map<Vec3d, nat>, n: Vec3d, passable: set<Vec3d>)
    requires n in cost && Settled(cost, n, passable)
    requires forall c :: c in cost ==> c in cost' && cost'[c] <= cost[c]
    requires cost'[n] == cost[n]
    ensures Settled(cost', n, passable)
  {
  }

  /**
   * The frontier argument. If the start is scored 0 and every scored cell is
   * either still open or settled, then along any passable walk either some
   * cell i is open with score at most i, or the k-th cell is scored at most k.
   */
  lemma {:induction false} FrontierOnWalk(w: seq<Vec3d>, k: nat, cost: map<Vec3d, nat>,
                                         passable: set<Vec3d>, open: set<Vec3d>)
    requires k < |w| && IsWalk(w)
    requires forall i :: 1 <= i < |w| ==> w[i] in passable
    requires w[0] in cost && cost[w[0]] == 0
    requires forall n :: n in cost ==> n in open || Settled(cost, n, passable)
    ensures || (exists i :: 0 <= i <= k && w[i] in open && w[i] in cost && cost[w[i]] <= i)
            || (w[k] in cost && cost[w[k]] <= k)
  {
    if k > 0 {
      FrontierOnWalk(w, k - 1, cost, passable, open);
      if w[k - 1] in cost && cost[w[k - 1]] <= k - 1 {
        if w[k - 1] in open {
          assert 0 <= k - 1 <= k && w[k - 1] in open && w[k - 1] in cost && cost[w[k - 1]] <= k - 1;
        } else {
          assert Settled(cost, w[k - 1], passable);
          assert w[k] in Neighbors(w[k - 1]);
        }
      }
    }
  }

  /** Once no cell is open, every cell reachable from the scored start is scored. */
  lemma ClosedScoresCoverReachable(start: Vec3d, b: Vec3d, cost: map<Vec3d, nat>, passable: set<Vec3d>)
    requires start in cost && cost[start] == 0
    requires forall n :: n in cost ==> Settled(cost, n, passable)
    requires Reachable(start, b, passable)
    ensures b in cost
  {
    var w :| WalkBetween(w, start, b, passable);
    FrontierOnWalk(w, |w| - 1, cost, passable, {});
  }

  /** Scores only drop, and the newly scored cells come from `box`. */
  ghost predicate Lowered(box: set<Vec3d>, cost: map<Vec3d, nat>, cost': map<Vec3d, nat>)
  {
    && (forall n :: n in cost ==> n in cost' && cost'[n] <= cost[n])
    && (forall n :: n in cost' && n !in cost ==> n in box)
  }

  /** Giving `next` (a cell of `box`) a better score keeps the scores lowered. */
  lemma LoweredStep(box: set<Vec3d>, cost: map<Vec3d, nat>, cost1: map<Vec3d, nat>, next: Vec3d, newCost: nat)
    requires Lowered(box, cost, cost1)
    requires next in box && (next !in cost1 || newCost < cost1[next])
    ensures Lowered(box, cost, cost1[next := newCost])
  {
    var cost2 := cost1[next := newCost];
    forall n | n in cost ensures n in cost2 && cost2[n] <= cost[n] {
      assert n in cost1 && cost1[n] <= cost[n];
    }
    forall n | n in cost2 && n !in cost ensures n in box {
      if n != next {
        assert n in cost1;
      }
    }
  }

  /** The frontier changed only if some cell was newly scored or improved. */
  ghost predicate Improved<T>(cost: map<Vec3d, nat>, heap: seq<T>, cost': map<Vec3d, nat>, heap': seq<T>)
  {
    heap' == heap || cost'.Keys != cost.Keys || exists n :: n in cost && n in cost' && cost'[n] < cost[n]
  }

  /** The termination potential of a score map: one pair per unit of score. */
  ghost function Pairs(m: map<Vec3d, nat>): set<(Vec3d, int)>
  {
    set c, v | c in m.Keys && 0 <= v < m[c] :: (c, v)
  }

  /**
   * Once scores are lowered, either fewer cells of `box` are unscored, or the
   * keys are the same and the potential does not grow, and shrinks when some
   * score dropped.
   */
  lemma ScoresImprove(box: set<Vec3d>, m: map<Vec3d, nat>, m': map<Vec3d, nat>)
    requires Lowered(box, m, m')
    ensures m'.Keys == m.Keys || box - m'.Keys < box - m.Keys
    ensures m'.Keys == m.Keys ==> Pairs(m') <= Pairs(m)
    ensures m'.Keys == m.Keys && (exists n :: n in m && m'[n] < m[n]) ==> Pairs(m') < Pairs(m)
  {
    if m'.Keys != m.Keys {
      assert m.Keys <= m'.Keys;
      assert m'.Keys == m.Keys + (m'.Keys - m.Keys);
      var n :| n in m'.Keys - m.Keys;
      assert n in box - m.Keys && n !in box - m'.Keys;
    } else {
      forall p | p in Pairs(m') ensures p in Pairs(m) {
        var c, v := p.0, p.1;
        assert c in m.Keys && 0 <= v < m[c];
      }
      if exists n :: n in m && m'[n] < m[n] {
        var n :| n in m && m'[n] < m[n];
        assert (n, m'[n]) in Pairs(m);
        assert (n, m'[n]) !in Pairs(m');
      }
    }
  }

  /**
   * One iteration of a search loop (pop one entry, then relax) lowers the
   * measure (unscored cells of the box, score potential, frontier length)
   * lexicographically.
   */
  lemma MeasureDrops<T>(box: set<Vec3d>, cost: map<Vec3d, nat>, heap: seq<T>, rest: seq<T>,
                        cost': map<Vec3d, nat>, heap': seq<T>)
    requires Lowered(box, cost, cost') && Improved(cost, rest, cost', heap') && |rest| == |heap| - 1
    ensures || box - cost'.Keys < box - cost.Keys
            || (box - cost'.Keys == box - cost.Keys
                && (Pairs(cost') < Pairs(cost) || (Pairs(cost') == Pairs(cost) && |heap'| < |heap|)))
  {
    ScoresImprove(box, cost, cost');
  }

  /** Scoring `neighbors[i]` with `bound` extends "the first `i` neighbours score at most `bound`". */
  lemma ScoredSoFar(passable: set<Vec3d>, neighbors: seq<Vec3d>, i: nat, cost': map<Vec3d, nat>,
                    next: Vec3d, newCost: nat, bound: int)
    requires i < |neighbors| && neighbors[i] == next && newCost <= bound
    requires forall j :: 0 <= j < i && neighbors[j] in passable ==> neighbors[j] in cost' && cost'[neighbors[j]] <= bound
    requires next !in cost' || newCost < cost'[next]
    ensures forall j :: 0 <= j < i + 1 && neighbors[j] in passable ==>
              neighbors[j] in cost'[next := newCost] && cost'[next := newCost][neighbors[j]] <= bound
  {
  }

  /** One more step out of `current` beats the score `n` has (or `n` has none). */
  ghost predicate Improves(cost: map<Vec3d, nat>, current: Vec3d, n: Vec3d)
    requires current in cost
  {
    n !in cost || cost[current] + 1 < cost[n]
  }

  /** `n` is a passable cell of `done` that relaxing out of `current` rescores. */
  ghost predicate Rescored(cost: map<Vec3d, nat>, current: Vec3d, done: set<Vec3d>, passable: set<Vec3d>, n: Vec3d)
    requires current in cost
  {
    n in done && n in passable && Improves(cost, current, n)
  }

  /**
   * `cost'` is `cost` after relaxing the cells of `done` out of `current`:
   * each passable one scores the lesser of its old score and one more than
   * `current`; every other cell keeps its score, and no other cell is added.
   */
  ghost predicate RelaxedOver(cost: map<Vec3d, nat>, current: Vec3d, done: set<Vec3d>, passable: set<Vec3d>,
                              cost': map<Vec3d, nat>)
    requires current in cost
  {
    && (forall n :: n in cost' <==> n in cost || Rescored(cost, current, done, passable, n))
    && (forall n :: n in cost' ==>
          cost'[n] == if Rescored(cost, current, done, passable, n) then cost[current] + 1 else cost[n])
  }

  /** The predecessor map after the same relaxation: exactly the rescored cells now point to `link`. */
  ghost predicate LinkedOver<T>(cost: map<Vec3d, nat>, current: Vec3d, done: set<Vec3d>, passable: set<Vec3d>,
                                came: map<Vec3d, T>, came': map<Vec3d, T>, link: T)
    requires current in cost
  {
    && (forall n :: n in came' <==> n in came || Rescored(cost, current, done, passable, n))
    && (forall n :: n in came' ==>
          came'[n] == if Rescored(cost, current, done, passable, n) then link else came[n])
  }

  /** A cell outside `done` still has its old score. */
  lemma UntouchedCell(cost: map<Vec3d, nat>, current: Vec3d, done: set<Vec3d>, passable: set<Vec3d>,
                      cost': map<Vec3d, nat>, n: Vec3d)
    requires current in cost && RelaxedOver(cost, current, done, passable, cost') && n !in done
    ensures n in cost' <==> n in cost
    ensures n in cost ==> cost'[n] == cost[n]
  {
  }

  /** Looking at a cell that is not rescored extends the relaxation without changing anything. */
  lemma RelaxSkipStep<T>(cost: map<Vec3d, nat>, current: Vec3d, done: set<Vec3d>, passable: set<Vec3d>,
                         cost': map<Vec3d, nat>, came: map<Vec3d, T>, came': map<Vec3d, T>, link: T, next: Vec3d)
    requires current in cost && next !in done
    requires RelaxedOver(cost, current, done, passable, cost')
    requires LinkedOver(cost, current, done, passable, came, came', link)
    requires !(next in passable && Improves(cost, current, next))
    ensures RelaxedOver(cost, current, done + {next}, passable, cost')
    ensures LinkedOver(cost, current, done + {next}, passable, came, came', link)
  {
    forall n ensures Rescored(cost, current, done + {next}, passable, n) <==> Rescored(cost, current, done, passable, n) {
    }
  }

  /** Rescoring a passable, improved cell extends the relaxation by that one cell. */
  lemma RelaxUpdateStep<T>(cost: map<Vec3d, nat>, current: Vec3d, done: set<Vec3d>, passable: set<Vec3d>,
                           cost': map<Vec3d, nat>, came: map<Vec3d, T>, came': map<Vec3d, T>, link: T,
                           next: Vec3d, newCost: nat)
    requires current in cost && next !in done
    requires RelaxedOver(cost, current, done, passable, cost')
    requires LinkedOver(cost, current, done, passable, came, came', link)
    requires next in passable && Improves(cost, current, next) && newCost == cost[current] + 1
    ensures RelaxedOver(cost, current, done + {next}, passable, cost'[next := newCost])
    ensures LinkedOver(cost, current, done + {next}, passable, came, came'[next := link], link)
  {
    forall n ensures Rescored(cost, current, done + {next}, passable, n)
                     <==> n == next || Rescored(cost, current, done, passable, n) {
    }
  }

  /** `c` lies, coordinate by coordinate, between `a` and `b`. */
  predicate Between(a: Vec3d, b: Vec3d, c: Vec3d)
  {
    && (a.x <= c.x <= b.x || b.x <= c.x <= a.x)
    && (a.y <= c.y <= b.y || b.y <= c.y <= a.y)
    && (a.z <= c.z <= b.z || b.z <= c.z <= a.z)
  }

  /** One unit step from `a` toward `b`, fixing x first, then y, then z. */
  function StepToward(a: Vec3d, b: Vec3d): (n: Vec3d)
    requires a != b
    ensures Manh(a, n) == 1 && Manh(n, b) + 1 == Manh(a, b)
    ensures Between(a, b, n)
  {
    if a.x < b.x then Vec3d(a.x + 1, a.y, a.z)
    else if a.x > b.x then Vec3d(a.x - 1, a.y, a.z)
    else if a.y < b.y then Vec3d(a.x, a.y + 1, a.z)
    else if a.y > b.y then Vec3d(a.x, a.y - 1, a.z)
    else if a.z < b.z then Vec3d(a.x, a.y, a.z + 1)
    else Vec3d(a.x, a.y, a.z - 1)
  }

  /** A monotone walk from `a` to `b`: as short as the Manhattan distance allows. */
  function StraightWalk(a: Vec3d, b: Vec3d): (w: seq<Vec3d>)
    ensures |w| == Manh(a, b) + 1 && w[0] == a && w[|w| - 1] == b && IsWalk(w)
    ensures forall i :: 0 <= i < |w| ==> Between(a, b, w[i])
    decreases Manh(a, b)
  {
    if a == b then [a] else [a] + StraightWalk(StepToward(a, b), b)
  }

  /** In a box without obstacles any two cells are joined by a shortest walk. */
  lemma OpenBoxWalk(a: Vec3d, b: Vec3d, size: Vec3d, passable: set<Vec3d>)
    requires a in Box(size) && b in Box(size) && Box(size) <= passable
    ensures WalkBetween(StraightWalk(a, b), a, b, passable)
    ensures |StraightWalk(a, b)| == Manh(a, b) + 1
  {
    var w := StraightWalk(a, b);
    BoxMembership(a, size);
    BoxMembership(b, size);
    forall i | 1 <= i < |w| ensures w[i] in passable {
      BoxMembership(w[i], size);
    }
  }
}
