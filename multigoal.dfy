/**
 * algo2.py: A* toward a set of goals at once (heuristic: distance to the
 * nearest goal), picking the food with the best points-per-step ratio,
 * rebuilding the path to it, and turning its first step into a direction.
 * Here a cell is blocked only when it is outside the box or a fence.
 */
module MultiGoal {
  import opened Wrappers
  import opened Geometry
  import opened Walks
  import opened Frontier
  import opened Snapshot

  /** `is_valid_cell`: inside the box and not a fence; snake bodies are not looked at. */
  function IsValidCell(pos: Vec3d, m: GameMap): (r: bool)
    ensures r <==> pos in Box(m.size) && pos !in m.fences
  {
    BoxMembership(pos, m.size);
    if !(0 <= pos.x < m.size.x) then false
    else if !(0 <= pos.y < m.size.y) then false
    else if !(0 <= pos.z < m.size.z) then false
    else if pos in m.fences then false
    else true
  }

  /** The cells `is_valid_cell` accepts. */
  ghost function ValidCells(m: GameMap): set<Vec3d>
  {
    set c | c in Box(m.size) && c !in m.fences
  }

  /** `manhattan_3d`: the same distance as `Vec3d.manh`. */
  function Manhattan3d(a: Vec3d, b: Vec3d): (d: nat)
    ensures d == Manh(a, b)
  {
    Abs(a.x - b.x) + Abs(a.y - b.y) + Abs(a.z - b.z)
  }

  /** Python's `min` over `manhattan_3d(c, g) for g in goals`, folded from the front. */
  function NearestDistance(c: Vec3d, goals: seq<Vec3d>): nat
    requires |goals| > 0
    decreases |goals|
  {
    if |goals| == 1 then Manhattan3d(c, goals[0])
    else
      var rest := NearestDistance(c, goals[1..]);
      if Manhattan3d(c, goals[0]) <= rest then Manhattan3d(c, goals[0]) else rest
  }

  /** The fold is the least distance: at most the distance to every goal, and attained by one. */
  lemma {:induction false} NearestDistanceIsMinimum(c: Vec3d, goals: seq<Vec3d>)
    requires |goals| > 0
    ensures forall d :: d in goals ==> NearestDistance(c, goals) <= Manh(c, d)
    ensures exists d :: d in goals && NearestDistance(c, goals) == Manh(c, d)
    decreases |goals|
  {
    if |goals| > 1 {
      NearestDistanceIsMinimum(c, goals[1..]);
      assert forall d :: d in goals <==> d == goals[0] || d in goals[1..];
      var d :| d in goals[1..] && NearestDistance(c, goals[1..]) == Manh(c, d);
      assert d in goals;
    } else {
      assert goals[0] in goals;
    }
  }

  /**
   * `multi_goal_heuristic`: the distance to the nearest goal, never more than
   * the distance to any goal (that one goal attains it is NearestDistanceIsMinimum).
   */
  function MultiGoalHeuristic(c: Vec3d, goals: seq<Vec3d>): (h: nat)
    requires |goals| > 0
    ensures forall d {:trigger Manh(c, d)} :: d in goals ==> h <= Manh(c, d)
  {
    NearestDistanceIsMinimum(c, goals);
    NearestDistance(c, goals)
  }

  /** At a goal the heuristic is 0. */
  lemma HeuristicAtGoal(d: Vec3d, goals: seq<Vec3d>)
    requires d in goals
    ensures MultiGoalHeuristic(d, goals) == 0
  {
    assert Manh(d, d) == 0;
  }

  /** The heuristic is consistent: it drops by at most the distance moved. */
  lemma HeuristicConsistent(a: Vec3d, b: Vec3d, goals: seq<Vec3d>)
    requires |goals| > 0
    ensures MultiGoalHeuristic(a, goals) <= Manh(a, b) + MultiGoalHeuristic(b, goals)
  {
    var h := MultiGoalHeuristic(b, goals);
    NearestDistanceIsMinimum(b, goals);
    var d :| d in goals && h == Manh(b, d);
    ManhTriangle(a, b, d);
  }

  /**
   * The `came_from` / `gScore` pair: the start scores 0 and has no
   * predecessor, every other scored cell has one; each such cell is valid,
   * one step from its predecessor, and scores strictly more.
   */
  ghost predicate Tree(start: Vec3d, valid: set<Vec3d>, g: map<Vec3d, nat>, came: map<Vec3d, Vec3d>)
  {
    && start in g && g[start] == 0
    && start !in came
    && came.Keys == g.Keys - {start}
    && forall n {:trigger came[n]} :: n in came ==>
         && n in valid && came[n] in g && g[came[n]] < g[n]
         && Manh(n, came[n]) == 1
  }

  /** Every scored cell other than the start scores at least 1. */
  lemma AwayFromStartIsPositive(start: Vec3d, valid: set<Vec3d>, g: map<Vec3d, nat>, came: map<Vec3d, Vec3d>,
                                n: Vec3d)
    requires Tree(start, valid, g, came) && n in g && n != start
    ensures g[n] > 0
  {
    assert n in came;
  }

  /** Following the predecessors from a scored cell gives a valid walk from the start. */
  ghost function TreeWalk(start: Vec3d, valid: set<Vec3d>, g: map<Vec3d, nat>, came: map<Vec3d, Vec3d>,
                          n: Vec3d): (w: seq<Vec3d>)
    requires Tree(start, valid, g, came) && n in g
    ensures WalkBetween(w, start, n, valid) && |w| <= g[n] + 1
    decreases g[n]
  {
    if n !in came then
      [n]
    else
      var p := came[n];
      var w := TreeWalk(start, valid, g, came, p);
      ManhSymmetric(n, p);
      assert forall i :: 0 <= i < |w| ==> (w + [n])[i] == w[i];
      w + [n]
  }

  /** `d` is scored no higher than any valid walk to it needs. */
  ghost predicate Optimal(start: Vec3d, valid: set<Vec3d>, g: map<Vec3d, nat>, d: Vec3d)
  {
    d in g && forall w :: WalkBetween(w, start, d, valid) ==> g[d] + 1 <= |w|
  }

  /** Open-set entries `(f, node)` carry `f` no lower than the cell's score plus heuristic. */
  ghost predicate EntriesSound(goals: seq<Vec3d>, g: map<Vec3d, nat>, heap: seq<Entry>)
    requires |goals| > 0
  {
    forall x :: x in heap ==> x.cell in g && g[x.cell] + MultiGoalHeuristic(x.cell, goals) <= x.f
  }

  /** The cells whose current score is still queued. */
  ghost function OpenCells(g: map<Vec3d, nat>, heap: seq<Entry>, goals: seq<Vec3d>): set<Vec3d>
    requires |goals| > 0
  {
    set n | n in g && Entry(g[n] + MultiGoalHeuristic(n, goals), 0, n) in heap
  }

  /** The search invariant: entries are sound and every scored cell is open or settled. */
  ghost predicate SearchInv(goals: seq<Vec3d>, valid: set<Vec3d>, g: map<Vec3d, nat>, heap: seq<Entry>)
    requires |goals| > 0
  {
    && EntriesSound(goals, g, heap)
    && forall n :: n in g ==> n in OpenCells(g, heap, goals) || Settled(g, n, valid)
  }

  /** One relaxation `came_from[n] = current; gScore[n] = tentative` keeps the tree shape. */
  lemma TreeRelax(start: Vec3d, valid: set<Vec3d>, g: map<Vec3d, nat>, came: map<Vec3d, Vec3d>,
                  current: Vec3d, next: Vec3d, newScore: nat)
    requires Tree(start, valid, g, came)
    requires current in g && next in valid && Manh(current, next) == 1
    requires newScore == g[current] + 1 && (next !in g || newScore < g[next])
    ensures Tree(start, valid, g[next := newScore], came[next := current])
  {
    var g', came' := g[next := newScore], came[next := current];
    assert next != start;
    assert came'.Keys == g'.Keys - {start};
    forall n | n in came'
      ensures n in valid && came'[n] in g' && g'[came'[n]] < g'[n] && Manh(n, came'[n]) == 1
    {
      if n != next {
        assert came'[n] == came[n];
        ManhSymmetric(n, came[n]);
      } else {
        ManhSymmetric(current, next);
      }
    }
  }

  /** Every cell whose score changed is queued with its new score. */
  ghost predicate Requeued(goals: seq<Vec3d>, g: map<Vec3d, nat>, g': map<Vec3d, nat>, heap': seq<Entry>)
    requires |goals| > 0
  {
    forall n :: n in g' && (n !in g || g'[n] < g[n]) ==>
      Entry(g'[n] + MultiGoalHeuristic(n, goals), 0, n) in heap'
  }

  /** The open set only grows, and its new entries are sound for the new scores. */
  ghost predicate Pushed(goals: seq<Vec3d>, heap: seq<Entry>, g': map<Vec3d, nat>, heap': seq<Entry>)
    requires |goals| > 0
  {
    && (forall x :: x in heap ==> x in heap')
    && (forall x :: x in heap' ==>
          x in heap || (x.cell in g' && g'[x.cell] + MultiGoalHeuristic(x.cell, goals) <= x.f))
  }

  /** What one round of relaxation did, relative to the scores and open set it started from. */
  ghost predicate Relaxed(goals: seq<Vec3d>, box: set<Vec3d>, g: map<Vec3d, nat>, heap: seq<Entry>,
                          g': map<Vec3d, nat>, heap': seq<Entry>)
    requires |goals| > 0
  {
    && Lowered(box, g, g')
    && Requeued(goals, g, g', heap')
    && Pushed(goals, heap, g', heap')
    && Improved(g, heap, g', heap')
  }

  lemma RequeuedStep(goals: seq<Vec3d>, g: map<Vec3d, nat>, g1: map<Vec3d, nat>, heap1: seq<Entry>,
                     next: Vec3d, newScore: nat, e: Entry, g2: map<Vec3d, nat>, heap2: seq<Entry>)
    requires |goals| > 0 && Requeued(goals, g, g1, heap1)
    requires e == Entry(newScore + MultiGoalHeuristic(next, goals), 0, next)
    requires g2 == g1[next := newScore] && heap2 == heap1 + [e]
    ensures Requeued(goals, g, g2, heap2)
  {
    forall n | n in g2 && (n !in g || g2[n] < g[n])
      ensures Entry(g2[n] + MultiGoalHeuristic(n, goals), 0, n) in heap2
    {
      if n == next {
        assert heap2[|heap1|] == Entry(g2[n] + MultiGoalHeuristic(n, goals), 0, n);
      } else {
        assert n in g1 && g2[n] == g1[n] && (n !in g || g1[n] < g[n]);
        var x := Entry(g1[n] + MultiGoalHeuristic(n, goals), 0, n);
        assert x in heap1;
        assert x in heap2;
      }
    }
  }

  lemma PushedStep(goals: seq<Vec3d>, heap: seq<Entry>, g1: map<Vec3d, nat>, heap1: seq<Entry>,
                   next: Vec3d, newScore: nat)
    requires |goals| > 0 && Pushed(goals, heap, g1, heap1)
    requires next !in g1 || newScore < g1[next]
    ensures Pushed(goals, heap, g1[next := newScore],
                   heap1 + [Entry(newScore + MultiGoalHeuristic(next, goals), 0, next)])
  {
    var g2 := g1[next := newScore];
    var e := Entry(newScore + MultiGoalHeuristic(next, goals), 0, next);
    var heap2 := heap1 + [e];
    forall x | x in heap ensures x in heap2 {
      assert x in heap1;
    }
    forall x | x in heap2
      ensures x in heap || (x.cell in g2 && g2[x.cell] + MultiGoalHeuristic(x.cell, goals) <= x.f)
    {
      if x != e {
        assert x in heap1;
        if x !in heap {
          assert x.cell in g1 && g1[x.cell] + MultiGoalHeuristic(x.cell, goals) <= x.f;
        }
      }
    }
  }

  /** Lowering the score of `next` and pushing its entry extends a relaxation round. */
  lemma RelaxStep(goals: seq<Vec3d>, box: set<Vec3d>, g: map<Vec3d, nat>, heap: seq<Entry>,
                  g1: map<Vec3d, nat>, heap1: seq<Entry>, next: Vec3d, newScore: nat)
    requires |goals| > 0 && Relaxed(goals, box, g, heap, g1, heap1)
    requires next in box && (next !in g1 || newScore < g1[next])
    ensures Relaxed(goals, box, g, heap, g1[next := newScore],
                    heap1 + [Entry(newScore + MultiGoalHeuristic(next, goals), 0, next)])
  {
    var g2 := g1[next := newScore];
    LoweredStep(box, g, g1, next, newScore);
    var e := Entry(newScore + MultiGoalHeuristic(next, goals), 0, next);
    RequeuedStep(goals, g, g1, heap1, next, newScore, e, g2, heap1 + [e]);
    PushedStep(goals, heap, g1, heap1, next, newScore);
    if next in g {
      assert next in g2 && g2[next] < g[next];
    } else {
      assert next in g2.Keys - g.Keys;
    }
  }

  /**
   * The invariant of the loop over the neighbours of `current`: the tree
   * shape holds, the round so far is a relaxation, `current` keeps its
   * score, and every valid neighbour looked at so far scores at most one
   * more than `current`.
   */
  ghost predicate ExpandInv(start: Vec3d, valid: set<Vec3d>, goals: seq<Vec3d>, box: set<Vec3d>, current: Vec3d,
                            neighbors: seq<Vec3d>, i: nat, g: map<Vec3d, nat>, heap: seq<Entry>,
                            g': map<Vec3d, nat>, came': map<Vec3d, Vec3d>, heap': seq<Entry>)
    requires |goals| > 0
  {
    && Tree(start, valid, g', came')
    && Relaxed(goals, box, g, heap, g', heap')
    && current in g && current in g' && g'[current] == g[current]
    && i <= |neighbors|
    && forall j :: 0 <= j < i && neighbors[j] in valid ==>
         neighbors[j] in g' && g'[neighbors[j]] <= g[current] + 1
  }

  /** A neighbour that is invalid, or already scored low enough, leaves the state alone. */
  lemma ExpandSkip(start: Vec3d, valid: set<Vec3d>, goals: seq<Vec3d>, box: set<Vec3d>, current: Vec3d,
                   neighbors: seq<Vec3d>, i: nat, g: map<Vec3d, nat>, heap: seq<Entry>,
                   g': map<Vec3d, nat>, came': map<Vec3d, Vec3d>, heap': seq<Entry>)
    requires |goals| > 0
    requires ExpandInv(start, valid, goals, box, current, neighbors, i, g, heap, g', came', heap')
    requires i < |neighbors|
    requires neighbors[i] !in valid || (neighbors[i] in g' && g'[neighbors[i]] <= g'[current] + 1)
    ensures ExpandInv(start, valid, goals, box, current, neighbors, i + 1, g, heap, g', came', heap')
  {
  }

  /** Relaxing a valid neighbour with a better score keeps the loop invariant. */
  lemma ExpandUpdate(start: Vec3d, valid: set<Vec3d>, goals: seq<Vec3d>, box: set<Vec3d>, current: Vec3d,
                     neighbors: seq<Vec3d>, i: nat, next: Vec3d, newScore: nat, g: map<Vec3d, nat>,
                     heap: seq<Entry>, g': map<Vec3d, nat>, came': map<Vec3d, Vec3d>, heap': seq<Entry>)
    requires |goals| > 0
    requires ExpandInv(start, valid, goals, box, current, neighbors, i, g, heap, g', came', heap')
    requires i < |neighbors| && neighbors[i] == next
    requires next in valid && next in box && Manh(current, next) == 1
    requires newScore == g'[current] + 1 && (next !in g' || newScore < g'[next])
    ensures ExpandInv(start, valid, goals, box, current, neighbors, i + 1, g, heap,
                      g'[next := newScore], came'[next := current],
                      heap' + [Entry(newScore + MultiGoalHeuristic(next, goals), 0, next)])
  {
    TreeRelax(start, valid, g', came', current, next, newScore);
    RelaxStep(goals, box, g, heap, g', heap', next, newScore);
    ScoredSoFar(valid, neighbors, i, g', next, newScore, g[current] + 1);
  }

  /**
   * The entries one round of relaxation pushes: one per rescored cell among
   * the first `k` of `ns`, in their order, each `(g + h, node)`.
   */
  ghost function Pushes(goals: seq<Vec3d>, g: map<Vec3d, nat>, current: Vec3d, valid: set<Vec3d>,
                        ns: seq<Vec3d>, k: nat): seq<Entry>
    requires |goals| > 0 && current in g && k <= |ns|
  {
    if k == 0 then []
    else
      Pushes(goals, g, current, valid, ns, k - 1)
      + (if ns[k - 1] in valid && Improves(g, current, ns[k - 1])
         then [Entry(g[current] + 1 + MultiGoalHeuristic(ns[k - 1], goals), 0, ns[k - 1])]
         else [])
  }

  /**
   * The exact state after looking at the first `i` neighbours: `done` holds
   * them, and the scores, links and open set are the relaxation over `done`.
   */
  ghost predicate ExactSoFar(goals: seq<Vec3d>, valid: set<Vec3d>, current: Vec3d, neighbors: seq<Vec3d>, i: nat,
                             done: set<Vec3d>, g: map<Vec3d, nat>, came: map<Vec3d, Vec3d>, heap: seq<Entry>,
                             g': map<Vec3d, nat>, came': map<Vec3d, Vec3d>, heap': seq<Entry>)
    requires |goals| > 0 && current in g && i <= |neighbors|
  {
    && (forall n :: n in done <==> exists j :: 0 <= j < i && neighbors[j] == n)
    && RelaxedOver(g, current, done, valid, g')
    && LinkedOver(g, current, done, valid, came, came', current)
    && heap' == heap + Pushes(goals, g, current, valid, neighbors, i)
  }

  /** A neighbour found invalid or not improved is looked at without changing the state. */
  lemma ExactSkip(goals: seq<Vec3d>, valid: set<Vec3d>, current: Vec3d, neighbors: seq<Vec3d>, i: nat,
                  done: set<Vec3d>, g: map<Vec3d, nat>, came: map<Vec3d, Vec3d>, heap: seq<Entry>,
                  g': map<Vec3d, nat>, came': map<Vec3d, Vec3d>, heap': seq<Entry>)
    requires |goals| > 0 && current in g && neighbors == Neighbors(current) && i < |neighbors|
    requires ExactSoFar(goals, valid, current, neighbors, i, done, g, came, heap, g', came', heap')
    requires current in g' && g'[current] == g[current]
    requires neighbors[i] !in valid || (neighbors[i] in g' && g'[neighbors[i]] <= g'[current] + 1)
    ensures ExactSoFar(goals, valid, current, neighbors, i + 1, done + {neighbors[i]}, g, came, heap, g', came', heap')
  {
    var next := neighbors[i];
    assert next !in done;
    UntouchedCell(g, current, done, valid, g', next);
    RelaxSkipStep(g, current, done, valid, g', came, came', current, next);
  }

  /** A valid neighbour with a better score is rescored, linked to `current` and pushed. */
  lemma ExactUpdate(goals: seq<Vec3d>, valid: set<Vec3d>, current: Vec3d, neighbors: seq<Vec3d>, i: nat,
                    done: set<Vec3d>, g: map<Vec3d, nat>, came: map<Vec3d, Vec3d>, heap: seq<Entry>,
                    g': map<Vec3d, nat>, came': map<Vec3d, Vec3d>, heap': seq<Entry>, next: Vec3d, newScore: nat)
    requires |goals| > 0 && current in g && neighbors == Neighbors(current) && i < |neighbors| && neighbors[i] == next
    requires ExactSoFar(goals, valid, current, neighbors, i, done, g, came, heap, g', came', heap')
    requires current in g' && g'[current] == g[current]
    requires next in valid && newScore == g'[current] + 1 && (next !in g' || newScore < g'[next])
    ensures ExactSoFar(goals, valid, current, neighbors, i + 1, done + {next}, g, came, heap,
                       g'[next := newScore], came'[next := current],
                       heap' + [Entry(newScore + MultiGoalHeuristic(next, goals), 0, next)])
  {
    assert next !in done;
    UntouchedCell(g, current, done, valid, g', next);
    RelaxUpdateStep(g, current, done, valid, g', came, came', current, next, newScore);
    PushesStep(goals, g, current, valid, neighbors, i, Entry(newScore + MultiGoalHeuristic(next, goals), 0, next));
  }

  /** Looking at a rescored neighbour adds its entry to the pushes. */
  lemma PushesStep(goals: seq<Vec3d>, g: map<Vec3d, nat>, current: Vec3d, valid: set<Vec3d>,
                   ns: seq<Vec3d>, k: nat, e: Entry)
    requires |goals| > 0 && current in g && k < |ns|
    requires ns[k] in valid && Improves(g, current, ns[k])
    requires e == Entry(g[current] + 1 + MultiGoalHeuristic(ns[k], goals), 0, ns[k])
    ensures Pushes(goals, g, current, valid, ns, k + 1) == Pushes(goals, g, current, valid, ns, k) + [e]
  {
  }

  /** Once every neighbour is looked at, `done` is the set of neighbours. */
  lemma AllNeighborsDone(current: Vec3d, neighbors: seq<Vec3d>, done: set<Vec3d>)
    requires neighbors == Neighbors(current)
    requires forall n :: n in done <==> exists j :: 0 <= j < |neighbors| && neighbors[j] == n
    ensures done == NeighborSet(current)
  {
    forall n ensures n in done <==> n in NeighborSet(current) {
      if n in neighbors {
        var j :| 0 <= j < |neighbors| && neighbors[j] == n;
      }
    }
  }

  /**
   * The relaxation of the neighbours of `current` (algo2.py:83-98). Exactly
   * the valid neighbours change: each scores the lesser of its old score and
   * one more than `current`, points back to `current` when that was better,
   * and is then pushed; every other cell keeps its score and link.
   */
  method Expand(current: Vec3d, goals: seq<Vec3d>, m: GameMap, ghost start: Vec3d, ghost valid: set<Vec3d>,
                g: map<Vec3d, nat>, came: map<Vec3d, Vec3d>, heap: seq<Entry>)
    returns (g': map<Vec3d, nat>, came': map<Vec3d, Vec3d>, heap': seq<Entry>)
    requires |goals| > 0 && current in g
    requires forall c :: c in valid <==> IsValidCell(c, m)
    requires Tree(start, valid, g, came)
    ensures RelaxedOver(g, current, NeighborSet(current), valid, g')
    ensures LinkedOver(g, current, NeighborSet(current), valid, came, came', current)
    ensures heap' == heap + Pushes(goals, g, current, valid, Neighbors(current), 6)
    ensures Tree(start, valid, g', came')
    ensures Relaxed(goals, Box(m.size), g, heap, g', heap')
    ensures current in g' && g'[current] == g[current]
    ensures Settled(g', current, valid)
  {
    ghost var box := Box(m.size);
    var neighbors := Neighbors(current);
    g', came', heap' := g, came, heap;
    ghost var done: set<Vec3d> := {};
    for i := 0 to |neighbors|
      invariant ExpandInv(start, valid, goals, box, current, neighbors, i, g, heap, g', came', heap')
      invariant ExactSoFar(goals, valid, current, neighbors, i, done, g, came, heap, g', came', heap')
    {
      var next := neighbors[i];
      if !IsValidCell(next, m) {
        ExpandSkip(start, valid, goals, box, current, neighbors, i, g, heap, g', came', heap');
        ExactSkip(goals, valid, current, neighbors, i, done, g, came, heap, g', came', heap');
        done := done + {next};
        continue;
      }
      var tentative := g'[current] + 1;
      if next !in g' || tentative < g'[next] {
        ExpandUpdate(start, valid, goals, box, current, neighbors, i, next, tentative, g, heap, g', came', heap');
        ExactUpdate(goals, valid, current, neighbors, i, done, g, came, heap, g', came', heap', next, tentative);
        came' := came'[next := current];
        g' := g'[next := tentative];
        heap' := heap' + [Entry(tentative + MultiGoalHeuristic(next, goals), 0, next)];
      } else {
        ExpandSkip(start, valid, goals, box, current, neighbors, i, g, heap, g', came', heap');
        ExactSkip(goals, valid, current, neighbors, i, done, g, came, heap, g', came', heap');
      }
      done := done + {next};
    }
    AllNeighborsDone(current, neighbors, done);
  }

  /** A walk's bound on the least entry when that entry is a goal. */
  lemma GoalWalkBound(start: Vec3d, goals: seq<Vec3d>, valid: set<Vec3d>, g: map<Vec3d, nat>,
                      heap: seq<Entry>, e: Entry, w: seq<Vec3d>)
    requires |goals| > 0 && start in g && g[start] == 0 && SearchInv(goals, valid, g, heap)
    requires e in heap && e.cell in goals && forall x :: x in heap ==> EntryLe(e, x)
    requires WalkBetween(w, start, e.cell, valid)
    ensures g[e.cell] + 1 <= |w|
  {
    var k := |w| - 1;
    var open := OpenCells(g, heap, goals);
    HeuristicAtGoal(e.cell, goals);
    FrontierOnWalk(w, k, g, valid, open);
    if exists i :: 0 <= i <= k && w[i] in open && w[i] in g && g[w[i]] <= i {
      var i :| 0 <= i <= k && w[i] in open && w[i] in g && g[w[i]] <= i;
      var x := Entry(g[w[i]] + MultiGoalHeuristic(w[i], goals), 0, w[i]);
      assert x in heap;
      assert EntryLe(e, x);
      WalkSpan(w, i, k);
      assert MultiGoalHeuristic(w[i], goals) <= Manh(w[i], e.cell);
    }
  }

  /** A goal popped as the least entry is scored optimally (the heuristic is admissible). */
  lemma PoppedGoalIsOptimal(start: Vec3d, goals: seq<Vec3d>, valid: set<Vec3d>, g: map<Vec3d, nat>,
                            heap: seq<Entry>, e: Entry)
    requires |goals| > 0 && start in g && g[start] == 0 && SearchInv(goals, valid, g, heap)
    requires e in heap && e.cell in goals && forall x :: x in heap ==> EntryLe(e, x)
    ensures Optimal(start, valid, g, e.cell)
  {
    forall w | WalkBetween(w, start, e.cell, valid) ensures g[e.cell] + 1 <= |w| {
      GoalWalkBound(start, goals, valid, g, heap, e, w);
    }
  }

  /** Lower scores keep an optimal score optimal. */
  lemma OptimalStaysOptimal(start: Vec3d, valid: set<Vec3d>, box: set<Vec3d>, g: map<Vec3d, nat>,
                            g': map<Vec3d, nat>, d: Vec3d)
    requires Optimal(start, valid, g, d) && Lowered(box, g, g')
    ensures Optimal(start, valid, g', d)
  {
  }

  /** After a pop and a relaxation round, a scored cell is still open or settled. */
  lemma OpenOrSettledStep(goals: seq<Vec3d>, valid: set<Vec3d>, box: set<Vec3d>, g: map<Vec3d, nat>,
                          heap: seq<Entry>, e: Entry, rest: seq<Entry>, g': map<Vec3d, nat>,
                          heap': seq<Entry>, n: Vec3d)
    requires |goals| > 0 && n in g'
    requires n in g ==> n in OpenCells(g, heap, goals) || Settled(g, n, valid)
    requires multiset(heap) == multiset(rest) + multiset{e}
    requires Lowered(box, g, g') && Requeued(goals, g, g', heap')
    requires forall x :: x in rest ==> x in heap'
    requires e.cell in g' && n == e.cell ==> Settled(g', e.cell, valid)
    ensures n in OpenCells(g', heap', goals) || Settled(g', n, valid)
  {
    var x := Entry(g'[n] + MultiGoalHeuristic(n, goals), 0, n);
    if n in g && g'[n] == g[n] {
      if n in OpenCells(g, heap, goals) {
        assert x in heap;
        if x != e {
          PopKeepsOthers(heap, e, rest, x);
        }
      } else {
        SettledStaysSettled(g, g', n, valid);
      }
    } else {
      assert x in heap';
    }
  }

  /** Popping an entry and relaxing around its cell keeps the search invariant. */
  lemma SearchStep(goals: seq<Vec3d>, valid: set<Vec3d>, box: set<Vec3d>, g: map<Vec3d, nat>, heap: seq<Entry>,
                   e: Entry, rest: seq<Entry>, g': map<Vec3d, nat>, heap': seq<Entry>)
    requires |goals| > 0 && SearchInv(goals, valid, g, heap)
    requires e in heap && multiset(heap) == multiset(rest) + multiset{e}
    requires Relaxed(goals, box, g, rest, g', heap')
    requires e.cell in g' && e.cell in g && g'[e.cell] == g[e.cell] && Settled(g', e.cell, valid)
    ensures SearchInv(goals, valid, g', heap')
  {
    forall x | x in heap' ensures x.cell in g' && g'[x.cell] + MultiGoalHeuristic(x.cell, goals) <= x.f {
      if x in rest {
        PopRemovesOnly(heap, e, rest, x);
      }
    }
    forall n | n in g' ensures n in OpenCells(g', heap', goals) || Settled(g', n, valid) {
      OpenOrSettledStep(goals, valid, box, g, heap, e, rest, g', heap', n);
    }
  }

  /** A subset is no larger than its superset, and one as large is the whole set. */
  lemma {:induction false} SubsetSize(a: set<Vec3d>, b: set<Vec3d>)
    requires a <= b
    ensures |a| <= |b|
    ensures |a| == |b| ==> a == b
    decreases |a|
  {
    if a != {} {
      var x :| x in a;
      SubsetSize(a - {x}, b - {x});
      assert |a - {x}| == |a| - 1;
      assert |b - {x}| == |b| - 1;
      assert a == (a - {x}) + {x};
      assert b == (b - {x}) + {x};
    }
  }

  /**
   * What the search knows when it stops, either because every goal was
   * popped or because the open set is empty: each goal is scored exactly
   * when it is reachable, and then optimally.
   */
  lemma SearchResult(start: Vec3d, goals: seq<Vec3d>, goalSet: set<Vec3d>, valid: set<Vec3d>,
                     g: map<Vec3d, nat>, came: map<Vec3d, Vec3d>, heap: seq<Entry>, discovered: set<Vec3d>)
    requires |goals| > 0 && goalSet == set d | d in goals
    requires Tree(start, valid, g, came) && SearchInv(goals, valid, g, heap)
    requires discovered <= goalSet && forall d :: d in discovered ==> Optimal(start, valid, g, d)
    requires heap == [] || discovered == goalSet
    ensures forall d :: d in goals ==> (d in g <==> Reachable(start, d, valid))
    ensures forall d :: d in goals && d in g ==> Optimal(start, valid, g, d)
    ensures heap == [] ==> forall n :: n in g ==> Settled(g, n, valid)
    ensures (exists d :: d in goals && d !in g) ==> heap == []
  {
    if heap == [] {
      forall n | n in g ensures Settled(g, n, valid) {
        assert n !in OpenCells(g, heap, goals);
      }
    }
    forall d | d in goals
      ensures (d in g <==> Reachable(start, d, valid)) && (d in g ==> Optimal(start, valid, g, d))
    {
      if d in g {
        var w := TreeWalk(start, valid, g, came, d);
        assert WalkBetween(w, start, d, valid);
      }
      if heap == [] {
        if Reachable(start, d, valid) {
          ClosedScoresCoverReachable(start, d, g, valid);
        }
        if d in g {
          forall w | WalkBetween(w, start, d, valid) ensures g[d] + 1 <= |w| {
            FrontierOnWalk(w, |w| - 1, g, valid, {});
          }
        }
      } else {
        assert d in goalSet;
      }
    }
    if heap != [] {
      forall d | d in goals ensures d in g {
        assert d in discovered;
      }
    }
  }

  /**
   * `a_star_multi_goal`: scores and predecessor links forming a tree of
   * valid walks from `start`; each goal is scored exactly when some valid
   * walk reaches it, and then with its shortest distance. The search stops
   * once every distinct goal has been popped, or else when the open set is
   * empty: so when some goal is left unscored, every scored cell is settled.
   */
  method AStarMultiGoal(start: Vec3d, goals: seq<Vec3d>, m: GameMap)
    returns (g: map<Vec3d, nat>, came: map<Vec3d, Vec3d>)
    requires |goals| > 0
    ensures Tree(start, ValidCells(m), g, came)
    ensures forall d :: d in goals ==> (d in g <==> Reachable(start, d, ValidCells(m)))
    ensures forall d :: d in goals && d in g ==> Optimal(start, ValidCells(m), g, d)
    ensures (exists d :: d in goals && d !in g) ==> forall n :: n in g ==> Settled(g, n, ValidCells(m))
  {
    ghost var valid := ValidCells(m);
    ghost var box := Box(m.size);
    var goalSet := set d | d in goals;
    g := map[start := 0];
    came := map[];
    var heap := [Entry(MultiGoalHeuristic(start, goals), 0, start)];
    var found := 0;
    var discoveredGoals: map<Vec3d, nat> := map[];
    assert Entry(g[start] + MultiGoalHeuristic(start, goals), 0, start) in heap;
    while |heap| > 0
      invariant Tree(start, valid, g, came)
      invariant SearchInv(goals, valid, g, heap)
      invariant discoveredGoals.Keys <= goalSet && found == |discoveredGoals.Keys|
      invariant forall d :: d in discoveredGoals ==> Optimal(start, valid, g, d)
      decreases box - g.Keys, Pairs(g), |heap|
    {
      var e, rest := PopMin(heap);
      var current := e.cell;
      if current in goalSet && current !in discoveredGoals {
        PoppedGoalIsOptimal(start, goals, valid, g, heap, e);
        discoveredGoals := discoveredGoals[current := g[current]];
        found := found + 1;
        if found == |goalSet| {
          SubsetSize(discoveredGoals.Keys, goalSet);
          break;
        }
      }
      var g', came', heap' := Expand(current, goals, m, start, valid, g, came, rest);
      MeasureDrops(box, g, heap, rest, g', heap');
      SearchStep(goals, valid, box, g, heap, e, rest, g', heap');
      forall d | d in discoveredGoals ensures Optimal(start, valid, g', d) {
        OptimalStaysOptimal(start, valid, box, g, g', d);
      }
      g, came, heap := g', came', heap';
    }
    SearchResult(start, goals, goalSet, valid, g, came, heap, discoveredGoals.Keys);
  }

  /** The per-step ratio `points / dist` of a food `dist` steps away. */
  function Ratio(points: int, dist: nat): real
    requires dist > 0
  {
    points as real / dist as real
  }

  /** A food whose cell is scored 0, i.e. right under the head. */
  predicate AtZero(f: Food, g: map<Vec3d, nat>)
  {
    f.coordinate in g && g[f.coordinate] == 0
  }

  /** A food whose cell is scored a positive distance away. */
  predicate Distant(f: Food, g: map<Vec3d, nat>)
  {
    f.coordinate in g && g[f.coordinate] > 0
  }

  /**
   * `foods[k]` has the best ratio among the scored foods, and a strictly
   * better one than every scored food before it.
   */
  predicate FirstBest(foods: seq<Food>, g: map<Vec3d, nat>, k: int)
  {
    && 0 <= k < |foods| && Distant(foods[k], g)
    && (forall j :: 0 <= j < |foods| && Distant(foods[j], g) ==>
          Ratio(foods[j].points, g[foods[j].coordinate]) <= Ratio(foods[k].points, g[foods[k].coordinate]))
    && (forall j :: 0 <= j < k && Distant(foods[j], g) ==>
          Ratio(foods[j].points, g[foods[j].coordinate]) < Ratio(foods[k].points, g[foods[k].coordinate]))
  }

  /**
   * `pick_best_food_astar`: foods whose cell is unscored are skipped; the
   * first food at distance 0 is returned at once; otherwise the first food
   * with the best `points / distance`. `None` exactly when no food is scored.
   */
  method PickBestFood(foods: seq<Food>, g: map<Vec3d, nat>) returns (r: Option<Food>)
    ensures r.None? <==> forall i :: 0 <= i < |foods| ==> foods[i].coordinate !in g
    ensures r.Some? ==> r.value in foods && r.value.coordinate in g
    ensures forall i :: 0 <= i < |foods| && AtZero(foods[i], g) && (forall j :: 0 <= j < i ==> !AtZero(foods[j], g))
              ==> r == Some(foods[i])
    ensures (exists i :: 0 <= i < |foods| && AtZero(foods[i], g)) ==> r.Some? && AtZero(r.value, g)
    ensures (forall i :: 0 <= i < |foods| ==> !AtZero(foods[i], g)) && r.Some? ==>
              exists k :: FirstBest(foods, g, k) && r.value == foods[k]
  {
    // `best_score = -inf` is represented by `best == None`.
    var best: Option<Food> := None;
    var bestScore: real := 0.0;
    ghost var k := 0;
    for i := 0 to |foods|
      invariant best.None? <==> forall j :: 0 <= j < i ==> foods[j].coordinate !in g
      invariant forall j :: 0 <= j < i ==> !AtZero(foods[j], g)
      invariant best.Some? ==> 0 <= k < i && best.value == foods[k] && Distant(foods[k], g)
      invariant best.Some? ==> bestScore == Ratio(foods[k].points, g[foods[k].coordinate])
      invariant best.Some? ==> forall j :: 0 <= j < i && Distant(foods[j], g) ==>
                  Ratio(foods[j].points, g[foods[j].coordinate]) <= bestScore
      invariant best.Some? ==> forall j :: 0 <= j < k && Distant(foods[j], g) ==>
                  Ratio(foods[j].points, g[foods[j].coordinate]) < bestScore
    {
      var f := foods[i];
      if f.coordinate !in g {
        continue;
      }
      var dist := g[f.coordinate];
      if dist == 0 {
        return Some(f);
      }
      var score := f.points as real / dist as real;
      if best.None? || score > bestScore {
        bestScore := score;
        best := Some(f);
        k := i;
      }
    }
    if best.Some? {
      assert FirstBest(foods, g, k);
    }
    return best;
  }

  /** Predecessor links whose scores strictly decrease (so they have no cycle). */
  ghost predicate Descending(came: map<Vec3d, Vec3d>, g: map<Vec3d, nat>)
  {
    forall n {:trigger came[n]} :: n in came ==> n in g && came[n] in g && g[came[n]] < g[n]
  }

  /** The cells met following the predecessor links back from `n`, listed from the far end. */
  ghost function Chain(n: Vec3d, came: map<Vec3d, Vec3d>, g: map<Vec3d, nat>): seq<Vec3d>
    requires Descending(came, g)
    decreases if n in g then g[n] else 0
  {
    if n in came then Chain(came[n], came, g) + [n] else [n]
  }

  /**
   * The chain back from `n` ends at `n`, starts at a cell without a
   * predecessor, links each cell to the one before it, is `[n]` when `n`
   * has no predecessor, and is no longer than the score of `n` allows.
   */
  lemma {:induction false} ChainFacts(n: Vec3d, came: map<Vec3d, Vec3d>, g: map<Vec3d, nat>)
    requires Descending(came, g)
    ensures var c := Chain(n, came, g);
      && |c| > 0 && c[|c| - 1] == n && c[0] !in came
      && (forall i :: 1 <= i < |c| ==> c[i] in came && came[c[i]] == c[i - 1])
      && (n !in came ==> c == [n])
      && (n in g ==> c[0] in g && |c| <= g[n] + 1)
    decreases if n in g then g[n] else 0
  {
    if n in came {
      var p := came[n];
      ChainFacts(p, came, g);
      var c := Chain(n, came, g);
      var cp := Chain(p, came, g);
      assert c == cp + [n];
      forall i | 1 <= i < |c| ensures c[i] in came && came[c[i]] == c[i - 1] {
        if i < |cp| {
          assert c[i] == cp[i] && c[i - 1] == cp[i - 1];
        } else {
          assert c[i] == n && c[i - 1] == cp[|cp| - 1];
        }
      }
    }
  }

  /**
   * `reconstruct_path`: the path ends at `target`, its first cell has no
   * predecessor and each cell is the predecessor of the next one; it is
   * `[target]` when `target` has none.
   */
  method ReconstructPath(target: Vec3d, came: map<Vec3d, Vec3d>, ghost g: map<Vec3d, nat>) returns (path: seq<Vec3d>)
    requires Descending(came, g)
    ensures path == Chain(target, came, g)
    ensures |path| > 0 && path[|path| - 1] == target && path[0] !in came
    ensures forall i :: 1 <= i < |path| ==> path[i] in came && came[path[i]] == path[i - 1]
    ensures target !in came ==> path == [target]
    ensures target in g ==> path[0] in g && |path| <= g[target] + 1
  {
    // The source appends and reverses at the end; prepending builds the same list.
    path := [];
    var current := target;
    while current in came
      invariant Chain(current, came, g) + path == Chain(target, came, g)
      decreases if current in g then g[current] else 0
    {
      path := [current] + path;
      current := came[current];
    }
    path := [current] + path;
    ChainFacts(target, came, g);
  }

  /** A path of predecessor links back from a scored cell is a valid walk from the start. */
  lemma LinkedPathIsWalk(start: Vec3d, valid: set<Vec3d>, g: map<Vec3d, nat>, came: map<Vec3d, Vec3d>,
                         path: seq<Vec3d>, target: Vec3d)
    requires Tree(start, valid, g, came)
    requires |path| > 0 && path[|path| - 1] == target && path[0] !in came && path[0] in g
    requires forall i :: 1 <= i < |path| ==> path[i] in came && came[path[i]] == path[i - 1]
    ensures WalkBetween(path, start, target, valid)
  {
    assert path[0] == start;
    forall i | 0 <= i < |path| - 1 ensures Manh(path[i], path[i + 1]) == 1 {
      assert came[path[i + 1]] == path[i];
      ManhSymmetric(path[i], path[i + 1]);
    }
  }

  /** `game_map.food + game_map.golden + game_map.sus`. */
  function AllFoods(m: GameMap): (r: seq<Food>)
    ensures forall f :: f in r <==> f in m.food || f in m.golden || f in m.sus
    ensures |r| == |m.food| + |m.golden| + |m.sus|
    ensures forall i :: 0 <= i < |m.food| ==> r[i] == m.food[i]
    ensures forall i :: 0 <= i < |m.golden| ==> r[|m.food| + i] == m.golden[i]
    ensures forall i :: 0 <= i < |m.sus| ==> r[|m.food| + |m.golden| + i] == m.sus[i]
  {
    m.food + m.golden + m.sus
  }

  /** The foods within `radius` of the head that are worth points, in their order. */
  function Candidates(foods: seq<Food>, head: Vec3d, radius: int): (r: seq<Food>)
    ensures forall f :: f in r <==> f in foods && Manh(head, f.coordinate) <= radius && f.points > 0
    ensures |r| <= |foods|
  {
    if foods == [] then []
    else
      assert forall f :: f in foods <==> f == foods[0] || f in foods[1..];
      var rest := Candidates(foods[1..], head, radius);
      if Manhattan3d(head, foods[0].coordinate) <= radius && foods[0].points > 0 then [foods[0]] + rest else rest
  }

  /** Filtering a concatenation filters each part, keeping the source order. */
  lemma {:induction false} CandidatesAppend(a: seq<Food>, b: seq<Food>, head: Vec3d, radius: int)
    ensures Candidates(a + b, head, radius) == Candidates(a, head, radius) + Candidates(b, head, radius)
    decreases |a|
  {
    if a != [] {
      assert (a + b)[1..] == a[1..] + b;
      CandidatesAppend(a[1..], b, head, radius);
    } else {
      assert a + b == b;
    }
  }

  /** A kept food occurs in the candidates as often as in the input; a dropped one never. */
  lemma {:induction false} CandidatesCount(foods: seq<Food>, head: Vec3d, radius: int, f: Food)
    ensures multiset(Candidates(foods, head, radius))[f]
         == if Manh(head, f.coordinate) <= radius && f.points > 0 then multiset(foods)[f] else 0
    decreases |foods|
  {
    if foods != [] {
      assert foods == [foods[0]] + foods[1..];
      CandidatesCount(foods[1..], head, radius, f);
    }
  }

  /** `[f.coordinate for f in candidates]`. */
  function Coordinates(foods: seq<Food>): (r: seq<Vec3d>)
    ensures |r| == |foods| && forall i :: 0 <= i < |foods| ==> r[i] == foods[i].coordinate
  {
    if foods == [] then [] else [foods[0].coordinate] + Coordinates(foods[1..])
  }

  /** The triple `(direction, path, best_food)` returned for a move. */
  datatype Move = Move(direction: Vec3d, path: seq<Vec3d>, food: Food)

  /** `w` is a valid walk from `a` to `b` that no valid walk beats. */
  ghost predicate Shortest(w: seq<Vec3d>, a: Vec3d, b: Vec3d, valid: set<Vec3d>)
  {
    WalkBetween(w, a, b, valid) && forall w' :: WalkBetween(w', a, b, valid) ==> |w| <= |w'|
  }

  /** The cases in which no move is proposed. */
  ghost predicate NoMove(head: Vec3d, cands: seq<Food>, valid: set<Vec3d>)
  {
    || cands == []
    || (forall f :: f in cands ==> !Reachable(head, f.coordinate, valid))
    || (exists f :: f in cands && f.coordinate == head)
  }

  /** No candidate reached by a shortest walk has a better ratio than `food` reached by `path`. */
  ghost predicate BestAmong(head: Vec3d, cands: seq<Food>, valid: set<Vec3d>, food: Food, path: seq<Vec3d>)
  {
    forall f, w :: f in cands && Shortest(w, head, f.coordinate, valid) && |w| > 1 && |path| > 1 ==>
      Ratio(f.points, |w| - 1) <= Ratio(food.points, |path| - 1)
  }

  /**
   * A proposed move: a candidate food, a shortest valid walk to it of at
   * least two cells, its first step as a unit direction, and no candidate
   * with a better ratio.
   */
  ghost predicate GoodMove(head: Vec3d, cands: seq<Food>, valid: set<Vec3d>, mv: Move)
  {
    && mv.food in cands
    && Shortest(mv.path, head, mv.food.coordinate, valid)
    && |mv.path| >= 2 && mv.direction == Sub(mv.path[1], head)
    && mv.direction in UnitSteps
    && BestAmong(head, cands, valid, mv.food, mv.path)
  }

  /**
   * `get_next_move_astar_multi`: among the foods within `radius` that are
   * worth points, a shortest valid walk to the reachable one with the best
   * ratio of points to distance, and its first step as a unit direction;
   * `None` when there is no candidate, none is reachable, or one lies under
   * the head.
   */
  method NextMove(snake: Snake, m: GameMap, radius: int) returns (r: Option<Move>)
    requires |snake.geometry| > 0
    ensures r.None? <==> NoMove(Head(snake), Candidates(AllFoods(m), Head(snake), radius), ValidCells(m))
    ensures r.Some? ==> GoodMove(Head(snake), Candidates(AllFoods(m), Head(snake), radius), ValidCells(m), r.value)
  {
    var head := Head(snake);
    var cands := Candidates(AllFoods(m), head, radius);
    ghost var valid := ValidCells(m);
    if |cands| == 0 {
      return None;
    }
    var goals := Coordinates(cands);
    var g, came := AStarMultiGoal(head, goals, m);
    var best := PickBestFood(cands, g);
    if best.None? {
      NoneReachable(head, cands, goals, valid, g);
      return None;
    }
    var food := best.value;
    var path := ReconstructPath(food.coordinate, came, g);
    if |path| < 2 {
      assert food.coordinate == head;
      return None;
    }
    var direction := Sub(path[1], head);
    LinkedPathIsWalk(head, valid, g, came, path, food.coordinate);
    MoveFacts(head, cands, goals, valid, g, came, food, path);
    BestRatio(head, cands, goals, valid, g, came, food, path);
    StepIsUnit(head, path[1]);
    r := Some(Move(direction, path, food));
    assert GoodMove(head, cands, valid, r.value);
  }

  /** No scored candidate means no reachable candidate. */
  lemma NoneReachable(head: Vec3d, cands: seq<Food>, goals: seq<Vec3d>, valid: set<Vec3d>, g: map<Vec3d, nat>)
    requires |goals| == |cands| && forall i :: 0 <= i < |cands| ==> goals[i] == cands[i].coordinate
    requires forall d :: d in goals ==> (d in g <==> Reachable(head, d, valid))
    requires forall i :: 0 <= i < |cands| ==> cands[i].coordinate !in g
    ensures forall f :: f in cands ==> !Reachable(head, f.coordinate, valid)
  {
    forall f | f in cands ensures !Reachable(head, f.coordinate, valid) {
      var i :| 0 <= i < |cands| && cands[i] == f;
      assert goals[i] in goals;
    }
  }

  /** Each candidate's cell is one of the goals searched for. */
  lemma CandidateIsGoal(cands: seq<Food>, goals: seq<Vec3d>, f: Food)
    requires |goals| == |cands| && forall i :: 0 <= i < |cands| ==> goals[i] == cands[i].coordinate
    requires f in cands
    ensures f.coordinate in goals
  {
    var i :| 0 <= i < |cands| && cands[i] == f;
    assert goals[i] == f.coordinate;
  }

  /** An optimally scored cell's shortest walks have exactly its score in steps. */
  lemma ShortestHasScore(start: Vec3d, valid: set<Vec3d>, g: map<Vec3d, nat>, came: map<Vec3d, Vec3d>,
                         d: Vec3d, w: seq<Vec3d>)
    requires Tree(start, valid, g, came) && Optimal(start, valid, g, d)
    requires Shortest(w, start, d, valid)
    ensures |w| == g[d] + 1
  {
    var tw := TreeWalk(start, valid, g, came, d);
    assert |w| <= |tw|;
  }

  /** The proposed walk is shortest, and no candidate lies under the head. */
  lemma MoveFacts(head: Vec3d, cands: seq<Food>, goals: seq<Vec3d>, valid: set<Vec3d>, g: map<Vec3d, nat>,
                  came: map<Vec3d, Vec3d>, food: Food, path: seq<Vec3d>)
    requires |goals| == |cands| && forall i :: 0 <= i < |cands| ==> goals[i] == cands[i].coordinate
    requires Tree(head, valid, g, came)
    requires forall d :: d in goals && d in g ==> Optimal(head, valid, g, d)
    requires food in cands && food.coordinate in g
    requires (exists i :: 0 <= i < |cands| && AtZero(cands[i], g)) ==> AtZero(food, g)
    requires WalkBetween(path, head, food.coordinate, valid) && |path| <= g[food.coordinate] + 1 && |path| >= 2
    ensures Shortest(path, head, food.coordinate, valid)
    ensures |path| == g[food.coordinate] + 1
    ensures !NoMove(head, cands, valid)
  {
    CandidateIsGoal(cands, goals, food);
    assert Optimal(head, valid, g, food.coordinate);
    assert Reachable(head, food.coordinate, valid);
    assert !AtZero(food, g);
    NoneAtHead(head, cands, valid, g);
  }

  /** The proposed food has the best ratio among the candidates, over shortest walks. */
  lemma BestRatio(head: Vec3d, cands: seq<Food>, goals: seq<Vec3d>, valid: set<Vec3d>, g: map<Vec3d, nat>,
                  came: map<Vec3d, Vec3d>, food: Food, path: seq<Vec3d>)
    requires |goals| == |cands| && forall i :: 0 <= i < |cands| ==> goals[i] == cands[i].coordinate
    requires Tree(head, valid, g, came)
    requires forall d :: d in goals ==> (d in g <==> Reachable(head, d, valid))
    requires forall d :: d in goals && d in g ==> Optimal(head, valid, g, d)
    requires food.coordinate in g && |path| == g[food.coordinate] + 1
    requires (forall i :: 0 <= i < |cands| ==> !AtZero(cands[i], g)) ==> exists k :: FirstBest(cands, g, k) && food == cands[k]
    requires forall f :: f in cands ==> f.coordinate != head
    ensures BestAmong(head, cands, valid, food, path)
  {
    forall i | 0 <= i < |cands| ensures !AtZero(cands[i], g) {
      assert cands[i] in cands;
      if cands[i].coordinate in g {
        AwayFromStartIsPositive(head, valid, g, came, cands[i].coordinate);
      }
    }
    var k :| FirstBest(cands, g, k) && food == cands[k];
    forall f, w | f in cands && Shortest(w, head, f.coordinate, valid) && |w| > 1 && |path| > 1
      ensures Ratio(f.points, |w| - 1) <= Ratio(food.points, |path| - 1)
    {
      var j :| 0 <= j < |cands| && cands[j] == f;
      CandidateIsGoal(cands, goals, f);
      assert WalkBetween(w, head, f.coordinate, valid);
      assert f.coordinate in g;
      RatioAtMostBest(head, cands, valid, g, came, k, j, w, path);
    }
  }

  /** A candidate reached by a shortest walk has at most the ratio of the first best food. */
  lemma RatioAtMostBest(head: Vec3d, cands: seq<Food>, valid: set<Vec3d>, g: map<Vec3d, nat>,
                        came: map<Vec3d, Vec3d>, k: int, j: int, w: seq<Vec3d>, path: seq<Vec3d>)
    requires Tree(head, valid, g, came)
    requires FirstBest(cands, g, k) && 0 <= j < |cands|
    requires Optimal(head, valid, g, cands[j].coordinate) && Shortest(w, head, cands[j].coordinate, valid) && |w| > 1
    requires |path| == g[cands[k].coordinate] + 1
    ensures |path| > 1 && Ratio(cands[j].points, |w| - 1) <= Ratio(cands[k].points, |path| - 1)
  {
    ShortestHasScore(head, valid, g, came, cands[j].coordinate, w);
    BestRatioBound(cands, g, k, j, |w| - 1, |path| - 1);
  }

  /** The first best food's ratio bounds that of every food at a positive distance. */
  lemma BestRatioBound(foods: seq<Food>, g: map<Vec3d, nat>, k: int, j: int, dj: nat, dk: nat)
    requires FirstBest(foods, g, k) && 0 <= j < |foods| && foods[j].coordinate in g
    requires dj == g[foods[j].coordinate] && dk == g[foods[k].coordinate] && dj > 0
    ensures dk > 0 && Ratio(foods[j].points, dj) <= Ratio(foods[k].points, dk)
  {
    assert Distant(foods[j], g);
  }

  /** When no candidate is scored 0, none lies under the head (which is scored 0). */
  lemma NoneAtHead(head: Vec3d, cands: seq<Food>, valid: set<Vec3d>, g: map<Vec3d, nat>)
    requires head in g && g[head] == 0
    requires forall i :: 0 <= i < |cands| ==> !AtZero(cands[i], g)
    ensures forall f :: f in cands ==> f.coordinate != head
  {
    forall f | f in cands ensures f.coordinate != head {
      var i :| 0 <= i < |cands| && cands[i] == f;
      assert !AtZero(cands[i], g);
    }
  }
}
