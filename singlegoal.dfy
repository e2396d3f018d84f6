/**
 * algo.py: the single-goal A* over the 6-connected box `[0, SIZE)` with unit
 * edge cost and the Manhattan heuristic. A cell is blocked when it is a fence
 * or a segment of an enemy body.
 */
module SingleGoal {
  import opened Wrappers
  import opened Geometry
  import opened Walks
  import opened Frontier
  import opened Snapshot

  /** `in_bounds`: it holds exactly on the box of cells below `size`. */
  function InBounds(v: Vec3d, size: Vec3d): (r: bool)
    ensures r <==> v in Box(size)
  {
    BoxMembership(v, size);
    0 <= v.x < size.x && 0 <= v.y < size.y && 0 <= v.z < size.z
  }

  /** `[seg for e in enemies for seg in e.geometry]`. */
  function EnemyPositions(enemies: seq<EnemySnake>): (r: seq<RawCoord>)
    ensures forall t :: t in r <==> exists e :: e in enemies && t in e.geometry
  {
    if enemies == [] then []
    else
      assert forall e :: e in enemies <==> e == enemies[0] || e in enemies[1..];
      enemies[0].geometry + EnemyPositions(enemies[1..])
  }

  /**
   * `is_obstacle`: `v` is a fence or its coordinates are a segment of some
   * enemy (a `Vec3d` equals the plain tuple of its coordinates).
   */
  function IsObstacle(v: Vec3d, fences: seq<Vec3d>, enemies: seq<EnemySnake>): (r: bool)
    ensures r <==> v in fences || exists e :: e in enemies && Coords(v) in e.geometry
  {
    if v in fences then true
    else Coords(v) in EnemyPositions(enemies)
  }

  /** The cells the search may enter. */
  ghost function Passable(size: Vec3d, fences: seq<Vec3d>, enemies: seq<EnemySnake>): set<Vec3d>
  {
    set c | c in Box(size) && !IsObstacle(c, fences, enemies)
  }

  lemma PassableCell(c: Vec3d, size: Vec3d, fences: seq<Vec3d>, enemies: seq<EnemySnake>)
    ensures c in Passable(size, fences, enemies) <==> InBounds(c, size) && !IsObstacle(c, fences, enemies)
  {
  }

  /**
   * The `came_from` / `cost_so_far` pair: the start costs 0 and has no
   * predecessor; every other cell is passable and is one step from its
   * predecessor, which costs strictly less.
   */
  ghost predicate Tree(start: Vec3d, passable: set<Vec3d>, cost: map<Vec3d, nat>,
                       came: map<Vec3d, Option<Vec3d>>)
  {
    && start in cost && cost[start] == 0
    && came.Keys == cost.Keys
    && came[start] == None
    && forall n {:trigger came[n]} :: n in came && n != start ==>
         && came[n].Some? && n in passable
         && came[n].value in cost && cost[came[n].value] < cost[n]
         && Manh(n, came[n].value) == 1
  }

  /** Frontier entries carry a cost no better than the cell's and `f = g + h`. */
  ghost predicate EntriesSound(goal: Vec3d, cost: map<Vec3d, nat>, heap: seq<Entry>)
  {
    forall x :: x in heap ==> x.cell in cost && cost[x.cell] <= x.g && x.f == x.g + Manh(x.cell, goal)
  }

  /** The cells whose current cost is still queued. */
  ghost function OpenCells(cost: map<Vec3d, nat>, heap: seq<Entry>, goal: Vec3d): set<Vec3d>
  {
    set n | n in cost && Entry(cost[n] + Manh(n, goal), cost[n], n) in heap
  }

  /** A*'s optimality argument: when the least entry is the goal, no passable walk beats its cost. */
  lemma GoalCostIsOptimal(start: Vec3d, goal: Vec3d, passable: set<Vec3d>, cost: map<Vec3d, nat>,
                          heap: seq<Entry>, e: Entry, w: seq<Vec3d>)
    requires start in cost && cost[start] == 0
    requires EntriesSound(goal, cost, heap)
    requires forall n :: n in cost ==> n in OpenCells(cost, heap, goal) || Settled(cost, n, passable)
    requires e in heap && e.cell == goal && forall x :: x in heap ==> EntryLe(e, x)
    requires WalkBetween(w, start, goal, passable)
    ensures cost[goal] <= |w| - 1
  {
    var k := |w| - 1;
    FrontierOnWalk(w, k, cost, passable, OpenCells(cost, heap, goal));
    if exists i :: 0 <= i <= k && w[i] in OpenCells(cost, heap, goal) && w[i] in cost && cost[w[i]] <= i {
      var i :| 0 <= i <= k && w[i] in OpenCells(cost, heap, goal) && w[i] in cost && cost[w[i]] <= i;
      var x := Entry(cost[w[i]] + Manh(w[i], goal), cost[w[i]], w[i]);
      assert x in heap;
      WalkSpan(w, i, k);
      assert EntryLe(e, x);
    }
  }

  /** One relaxation `came_from[next] = current; cost_so_far[next] = new_cost` keeps the tree shape. */
  lemma TreeRelax(start: Vec3d, passable: set<Vec3d>, cost: map<Vec3d, nat>, came: map<Vec3d, Option<Vec3d>>,
                  current: Vec3d, next: Vec3d, newCost: nat)
    requires Tree(start, passable, cost, came)
    requires current in cost && next in passable && Manh(current, next) == 1
    requires newCost == cost[current] + 1 && (next !in cost || newCost < cost[next])
    ensures Tree(start, passable, cost[next := newCost], came[next := Some(current)])
  {
    var cost', came' := cost[next := newCost], came[next := Some(current)];
    forall n | n in came' && n != start
      ensures && came'[n].Some? && n in passable
              && came'[n].value in cost' && cost'[came'[n].value] < cost'[n]
              && Manh(n, came'[n].value) == 1
    {
      if n != next {
        assert came'[n] == came[n];
      }
    }
  }

  /** Every cell whose score changed is queued with its new score. */
  ghost predicate Requeued(goal: Vec3d, cost: map<Vec3d, nat>, cost': map<Vec3d, nat>, heap': seq<Entry>)
  {
    forall n :: n in cost' && (n !in cost || cost'[n] < cost[n]) ==>
      Entry(cost'[n] + Manh(n, goal), cost'[n], n) in heap'
  }

  /** The frontier only grows, and its new entries are sound for the new scores. */
  ghost predicate Pushed(goal: Vec3d, heap: seq<Entry>, cost': map<Vec3d, nat>, heap': seq<Entry>)
  {
    && (forall x :: x in heap ==> x in heap')
    && (forall x :: x in heap' ==>
          x in heap || (x.cell in cost' && cost'[x.cell] <= x.g && x.f == x.g + Manh(x.cell, goal)))
  }

  /**
   * What one round of relaxation did, relative to the scores `cost` and the
   * frontier `heap` it started from.
   */
  ghost predicate Relaxed(goal: Vec3d, box: set<Vec3d>, cost: map<Vec3d, nat>, heap: seq<Entry>,
                          cost': map<Vec3d, nat>, heap': seq<Entry>)
  {
    && Lowered(box, cost, cost')
    && Requeued(goal, cost, cost', heap')
    && Pushed(goal, heap, cost', heap')
    && Improved(cost, heap, cost', heap')
  }

  lemma RequeuedStep(goal: Vec3d, cost: map<Vec3d, nat>, cost1: map<Vec3d, nat>, heap1: seq<Entry>,
                     next: Vec3d, newCost: nat)
    requires Requeued(goal, cost, cost1, heap1)
    ensures Requeued(goal, cost, cost1[next := newCost], heap1 + [Entry(newCost + Manh(next, goal), newCost, next)])
  {
    var cost2 := cost1[next := newCost];
    var heap2 := heap1 + [Entry(newCost + Manh(next, goal), newCost, next)];
    forall n | n in cost2 && (n !in cost || cost2[n] < cost[n])
      ensures Entry(cost2[n] + Manh(n, goal), cost2[n], n) in heap2
    {
      if n != next {
        assert n in cost1 && cost2[n] == cost1[n];
        assert Entry(cost1[n] + Manh(n, goal), cost1[n], n) in heap1;
      }
    }
  }

  lemma PushedStep(goal: Vec3d, heap: seq<Entry>, cost1: map<Vec3d, nat>, heap1: seq<Entry>,
                   next: Vec3d, newCost: nat)
    requires Pushed(goal, heap, cost1, heap1)
    requires next !in cost1 || newCost < cost1[next]
    ensures Pushed(goal, heap, cost1[next := newCost], heap1 + [Entry(newCost + Manh(next, goal), newCost, next)])
  {
    var cost2 := cost1[next := newCost];
    var e := Entry(newCost + Manh(next, goal), newCost, next);
    var heap2 := heap1 + [e];
    forall x | x in heap ensures x in heap2 {
      assert x in heap1;
    }
    forall x | x in heap2
      ensures x in heap || (x.cell in cost2 && cost2[x.cell] <= x.g && x.f == x.g + Manh(x.cell, goal))
    {
      if x != e {
        assert x in heap1;
        if x !in heap {
          assert x.cell in cost1 && cost1[x.cell] <= x.g;
        }
      }
    }
  }

  /** Lowering the score of `next` and pushing its entry extends a relaxation round. */
  lemma RelaxStep(goal: Vec3d, box: set<Vec3d>, cost: map<Vec3d, nat>, heap: seq<Entry>,
                  cost1: map<Vec3d, nat>, heap1: seq<Entry>, next: Vec3d, newCost: nat)
    requires Relaxed(goal, box, cost, heap, cost1, heap1)
    requires next in box && (next !in cost1 || newCost < cost1[next])
    ensures Relaxed(goal, box, cost, heap, cost1[next := newCost],
                    heap1 + [Entry(newCost + Manh(next, goal), newCost, next)])
  {
    var cost2 := cost1[next := newCost];
    LoweredStep(box, cost, cost1, next, newCost);
    RequeuedStep(goal, cost, cost1, heap1, next, newCost);
    PushedStep(goal, heap, cost1, heap1, next, newCost);
    if next in cost {
      assert next in cost2 && cost2[next] < cost[next];
    } else {
      assert next in cost2.Keys - cost.Keys;
    }
  }

  /**
   * The invariant of the loop over the neighbours of `current`: the tree
   * shape holds, the round so far is a relaxation, `current` keeps its
   * score, and every passable neighbour looked at so far scores at most one
   * more than `current`.
   */
  ghost predicate ExpandInv(start: Vec3d, passable: set<Vec3d>, goal: Vec3d, box: set<Vec3d>, current: Vec3d,
                            neighbors: seq<Vec3d>, i: nat, cost: map<Vec3d, nat>, heap: seq<Entry>,
                            cost': map<Vec3d, nat>, came': map<Vec3d, Option<Vec3d>>, heap': seq<Entry>)
  {
    && Tree(start, passable, cost', came')
    && Relaxed(goal, box, cost, heap, cost', heap')
    && current in cost && current in cost' && cost'[current] == cost[current]
    && i <= |neighbors|
    && forall j :: 0 <= j < i && neighbors[j] in passable ==>
         neighbors[j] in cost' && cost'[neighbors[j]] <= cost[current] + 1
  }

  /** A neighbour that is blocked, or already scored low enough, leaves the state alone. */
  lemma ExpandSkip(start: Vec3d, passable: set<Vec3d>, goal: Vec3d, box: set<Vec3d>, current: Vec3d,
                   neighbors: seq<Vec3d>, i: nat, cost: map<Vec3d, nat>, heap: seq<Entry>,
                   cost': map<Vec3d, nat>, came': map<Vec3d, Option<Vec3d>>, heap': seq<Entry>)
    requires ExpandInv(start, passable, goal, box, current, neighbors, i, cost, heap, cost', came', heap')
    requires i < |neighbors|
    requires neighbors[i] !in passable || (neighbors[i] in cost' && cost'[neighbors[i]] <= cost'[current] + 1)
    ensures ExpandInv(start, passable, goal, box, current, neighbors, i + 1, cost, heap, cost', came', heap')
  {
  }

  /** Relaxing a passable neighbour with a better score keeps the loop invariant. */
  lemma ExpandUpdate(start: Vec3d, passable: set<Vec3d>, goal: Vec3d, box: set<Vec3d>, current: Vec3d,
                     neighbors: seq<Vec3d>, i: nat, next: Vec3d, newCost: nat, cost: map<Vec3d, nat>, heap: seq<Entry>,
                     cost': map<Vec3d, nat>, came': map<Vec3d, Option<Vec3d>>, heap': seq<Entry>)
    requires ExpandInv(start, passable, goal, box, current, neighbors, i, cost, heap, cost', came', heap')
    requires i < |neighbors| && neighbors[i] == next
    requires next in passable && next in box && Manh(current, next) == 1
    requires newCost == cost'[current] + 1 && (next !in cost' || newCost < cost'[next])
    ensures ExpandInv(start, passable, goal, box, current, neighbors, i + 1, cost, heap,
                      cost'[next := newCost], came'[next := Some(current)],
                      heap' + [Entry(newCost + Manh(next, goal), newCost, next)])
  {
    TreeRelax(start, passable, cost', came', current, next, newCost);
    RelaxStep(goal, box, cost, heap, cost', heap', next, newCost);
    ScoredSoFar(passable, neighbors, i, cost', next, newCost, cost[current] + 1);
  }

  /**
   * The entries one round of relaxation pushes: one per rescored cell among
   * the first `k` of `ns`, in their order, each `(g + h, g, cell)`.
   */
  ghost function Pushes(goal: Vec3d, cost: map<Vec3d, nat>, current: Vec3d, passable: set<Vec3d>,
                        ns: seq<Vec3d>, k: nat): seq<Entry>
    requires current in cost && k <= |ns|
  {
    if k == 0 then []
    else
      Pushes(goal, cost, current, passable, ns, k - 1)
      + (if ns[k - 1] in passable && Improves(cost, current, ns[k - 1])
         then [Entry(cost[current] + 1 + Manh(ns[k - 1], goal), cost[current] + 1, ns[k - 1])]
         else [])
  }

  /**
   * The exact state after looking at the first `i` neighbours: `done` holds
   * them, and the scores, links and frontier are the relaxation over `done`.
   */
  ghost predicate ExactSoFar(goal: Vec3d, passable: set<Vec3d>, current: Vec3d, neighbors: seq<Vec3d>, i: nat,
                             done: set<Vec3d>, cost: map<Vec3d, nat>, came: map<Vec3d, Option<Vec3d>>,
                             heap: seq<Entry>, cost': map<Vec3d, nat>, came': map<Vec3d, Option<Vec3d>>,
                             heap': seq<Entry>)
    requires current in cost && i <= |neighbors|
  {
    && (forall n :: n in done <==> exists j :: 0 <= j < i && neighbors[j] == n)
    && RelaxedOver(cost, current, done, passable, cost')
    && LinkedOver(cost, current, done, passable, came, came', Some(current))
    && heap' == heap + Pushes(goal, cost, current, passable, neighbors, i)
  }

  /** A neighbour found blocked or not improved is looked at without changing the state. */
  lemma ExactSkip(goal: Vec3d, passable: set<Vec3d>, current: Vec3d, neighbors: seq<Vec3d>, i: nat,
                  done: set<Vec3d>, cost: map<Vec3d, nat>, came: map<Vec3d, Option<Vec3d>>, heap: seq<Entry>,
                  cost': map<Vec3d, nat>, came': map<Vec3d, Option<Vec3d>>, heap': seq<Entry>)
    requires current in cost && neighbors == Neighbors(current) && i < |neighbors|
    requires ExactSoFar(goal, passable, current, neighbors, i, done, cost, came, heap, cost', came', heap')
    requires current in cost' && cost'[current] == cost[current]
    requires neighbors[i] !in passable || (neighbors[i] in cost' && cost'[neighbors[i]] <= cost'[current] + 1)
    ensures ExactSoFar(goal, passable, current, neighbors, i + 1, done + {neighbors[i]},
                       cost, came, heap, cost', came', heap')
  {
    var next := neighbors[i];
    assert next !in done;
    UntouchedCell(cost, current, done, passable, cost', next);
    RelaxSkipStep(cost, current, done, passable, cost', came, came', Some(current), next);
  }

  /** A passable neighbour with a better score is rescored, linked to `current` and pushed. */
  lemma ExactUpdate(goal: Vec3d, passable: set<Vec3d>, current: Vec3d, neighbors: seq<Vec3d>, i: nat,
                    done: set<Vec3d>, cost: map<Vec3d, nat>, came: map<Vec3d, Option<Vec3d>>, heap: seq<Entry>,
                    cost': map<Vec3d, nat>, came': map<Vec3d, Option<Vec3d>>, heap': seq<Entry>,
                    next: Vec3d, newCost: nat)
    requires current in cost && neighbors == Neighbors(current) && i < |neighbors| && neighbors[i] == next
    requires ExactSoFar(goal, passable, current, neighbors, i, done, cost, came, heap, cost', came', heap')
    requires current in cost' && cost'[current] == cost[current]
    requires next in passable && newCost == cost'[current] + 1 && (next !in cost' || newCost < cost'[next])
    ensures ExactSoFar(goal, passable, current, neighbors, i + 1, done + {next}, cost, came, heap,
                       cost'[next := newCost], came'[next := Some(current)],
                       heap' + [Entry(newCost + Manh(next, goal), newCost, next)])
  {
    assert next !in done;
    UntouchedCell(cost, current, done, passable, cost', next);
    RelaxUpdateStep(cost, current, done, passable, cost', came, came', Some(current), next, newCost);
    assert Pushes(goal, cost, current, passable, neighbors, i + 1)
        == Pushes(goal, cost, current, passable, neighbors, i) + [Entry(newCost + Manh(next, goal), newCost, next)];
  }

  /** Once every neighbour is looked at, `done` is the set of neighbours. */
  lemma AllNeighborsDone(current: Vec3d, neighbors: seq<Vec3d>, done: set<Vec3d>)
    requires neighbors == Neighbors(current)
    requires forall n :: n in done <==> exists j :: 0 <= j < |neighbors| && neighbors[j] == n
    ensures done == NeighborSet(current)
  {
    forall n ensures n in done <==> n in NeighborSet(current) {
      if n in neighbors {
        var j :| 0 <= j < |neighbors| && neighbors[j] == n;
      }
    }
  }

  /**
   * The relaxation of the neighbours of `current` (algo.py:53-64). Exactly
   * the passable neighbours change: each scores the lesser of its old cost
   * and one more than `current`, points back to `current` when that was
   * better, and is then pushed; every other cell keeps its cost and link.
   */
  method Expand(current: Vec3d, goal: Vec3d, size: Vec3d, fences: seq<Vec3d>, enemies: seq<EnemySnake>,
                ghost start: Vec3d, ghost passable: set<Vec3d>,
                cost: map<Vec3d, nat>, came: map<Vec3d, Option<Vec3d>>, heap: seq<Entry>)
    returns (cost': map<Vec3d, nat>, came': map<Vec3d, Option<Vec3d>>, heap': seq<Entry>)
    requires current in cost
    requires forall c :: c in passable <==> InBounds(c, size) && !IsObstacle(c, fences, enemies)
    requires Tree(start, passable, cost, came)
    ensures RelaxedOver(cost, current, NeighborSet(current), passable, cost')
    ensures LinkedOver(cost, current, NeighborSet(current), passable, came, came', Some(current))
    ensures heap' == heap + Pushes(goal, cost, current, passable, Neighbors(current), 6)
    ensures Tree(start, passable, cost', came')
    ensures Relaxed(goal, Box(size), cost, heap, cost', heap')
    ensures current in cost' && cost'[current] == cost[current]
    ensures Settled(cost', current, passable)
  {
    ghost var box := Box(size);
    var neighbors := Neighbors(current);
    cost', came', heap' := cost, came, heap;
    ghost var done: set<Vec3d> := {};
    for i := 0 to |neighbors|
      invariant ExpandInv(start, passable, goal, box, current, neighbors, i, cost, heap, cost', came', heap')
      invariant ExactSoFar(goal, passable, current, neighbors, i, done, cost, came, heap, cost', came', heap')
    {
      var next := neighbors[i];
      if !InBounds(next, size) {
        ExpandSkip(start, passable, goal, box, current, neighbors, i, cost, heap, cost', came', heap');
        ExactSkip(goal, passable, current, neighbors, i, done, cost, came, heap, cost', came', heap');
        done := done + {next};
        continue;
      }
      if IsObstacle(next, fences, enemies) {
        ExpandSkip(start, passable, goal, box, current, neighbors, i, cost, heap, cost', came', heap');
        ExactSkip(goal, passable, current, neighbors, i, done, cost, came, heap, cost', came', heap');
        done := done + {next};
        continue;
      }
      var newCost := cost'[current] + 1;
      if next !in cost' || newCost < cost'[next] {
        ExpandUpdate(start, passable, goal, box, current, neighbors, i, next, newCost, cost, heap, cost', came', heap');
        ExactUpdate(goal, passable, current, neighbors, i, done, cost, came, heap, cost', came', heap', next, newCost);
        cost' := cost'[next := newCost];
        came' := came'[next := Some(current)];
        heap' := heap' + [Entry(newCost + Manh(next, goal), newCost, next)];
      } else {
        ExpandSkip(start, passable, goal, box, current, neighbors, i, cost, heap, cost', came', heap');
        ExactSkip(goal, passable, current, neighbors, i, done, cost, came, heap, cost', came', heap');
      }
      done := done + {next};
    }
    AllNeighborsDone(current, neighbors, done);
  }

  /** Walking `came_from` back from the goal (algo.py:43-51). */
  method RebuildPath(start: Vec3d, goal: Vec3d, ghost passable: set<Vec3d>,
                     cost: map<Vec3d, nat>, came: map<Vec3d, Option<Vec3d>>) returns (path: seq<Vec3d>)
    requires Tree(start, passable, cost, came) && goal in came
    ensures WalkBetween(path, start, goal, passable) && |path| <= cost[goal] + 1
  {
    // The source appends and reverses at the end; prepending builds the same list.
    path := [];
    var current: Option<Vec3d> := Some(goal);
    while current.Some?
      invariant current.Some? ==> current.value in cost && |path| + cost[current.value] <= cost[goal]
      invariant current.Some? && path == [] ==> current.value == goal
      invariant current.Some? && path != [] ==> Manh(current.value, path[0]) == 1
      invariant current.Some? ==> forall i :: 0 <= i < |path| ==> path[i] in passable
      invariant current.None? ==> |path| > 0 && path[0] == start && |path| <= cost[goal] + 1
      invariant current.None? ==> forall i :: 1 <= i < |path| ==> path[i] in passable
      invariant path != [] ==> path[|path| - 1] == goal
      invariant IsWalk(path)
      decreases if current.Some? then cost[current.value] + 1 else 0
    {
      var c := current.value;
      path := [c] + path;
      current := came[c];
    }
  }

  /**
   * The search invariant: frontier entries are sound, every scored cell is
   * still queued with its exact score or is settled, and a scored goal is
   * queued.
   */
  ghost predicate SearchInv(goal: Vec3d, passable: set<Vec3d>, cost: map<Vec3d, nat>, heap: seq<Entry>)
  {
    && EntriesSound(goal, cost, heap)
    && (forall n :: n in cost ==> n in OpenCells(cost, heap, goal) || Settled(cost, n, passable))
    && (goal in cost ==> exists x :: x in heap && x.cell == goal)
  }

  /** After a pop and a relaxation round, a scored cell is still open or settled. */
  lemma OpenOrSettledStep(goal: Vec3d, passable: set<Vec3d>, box: set<Vec3d>, cost: map<Vec3d, nat>,
                          heap: seq<Entry>, e: Entry, rest: seq<Entry>, cost': map<Vec3d, nat>,
                          heap': seq<Entry>, n: Vec3d)
    requires n in cost'
    requires n in cost ==> n in OpenCells(cost, heap, goal) || Settled(cost, n, passable)
    requires multiset(heap) == multiset(rest) + multiset{e}
    requires Lowered(box, cost, cost') && Requeued(goal, cost, cost', heap')
    requires forall x :: x in rest ==> x in heap'
    requires e.cell in cost' && n == e.cell ==> Settled(cost', e.cell, passable)
    ensures n in OpenCells(cost', heap', goal) || Settled(cost', n, passable)
  {
    var x := Entry(cost'[n] + Manh(n, goal), cost'[n], n);
    if n in cost && cost'[n] == cost[n] {
      if n in OpenCells(cost, heap, goal) {
        assert x in heap;
        if x != e {
          PopKeepsOthers(heap, e, rest, x);
        }
      } else {
        SettledStaysSettled(cost, cost', n, passable);
      }
    } else {
      assert x in heap';
    }
  }

  /** Popping a non-goal entry and relaxing around its cell keeps the search invariant. */
  lemma SearchStep(goal: Vec3d, passable: set<Vec3d>, box: set<Vec3d>, cost: map<Vec3d, nat>, heap: seq<Entry>,
                   e: Entry, rest: seq<Entry>, cost': map<Vec3d, nat>, heap': seq<Entry>)
    requires SearchInv(goal, passable, cost, heap)
    requires e in heap && multiset(heap) == multiset(rest) + multiset{e} && e.cell != goal
    requires Relaxed(goal, box, cost, rest, cost', heap')
    requires e.cell in cost' && e.cell in cost && cost'[e.cell] == cost[e.cell] && Settled(cost', e.cell, passable)
    ensures SearchInv(goal, passable, cost', heap')
  {
    forall x | x in heap' ensures x.cell in cost' && cost'[x.cell] <= x.g && x.f == x.g + Manh(x.cell, goal) {
      if x in rest {
        PopRemovesOnly(heap, e, rest, x);
      }
    }
    forall n | n in cost' ensures n in OpenCells(cost', heap', goal) || Settled(cost', n, passable) {
      OpenOrSettledStep(goal, passable, box, cost, heap, e, rest, cost', heap', n);
    }
    if goal in cost {
      var x :| x in heap && x.cell == goal;
      PopKeepsOthers(heap, e, rest, x);
    }
  }

  /** The path rebuilt when the goal is popped is no longer than any passable walk. */
  lemma FoundIsShortest(start: Vec3d, goal: Vec3d, passable: set<Vec3d>, cost: map<Vec3d, nat>,
                        heap: seq<Entry>, e: Entry, path: seq<Vec3d>)
    requires start in cost && cost[start] == 0 && SearchInv(goal, passable, cost, heap)
    requires e in heap && e.cell == goal && forall x :: x in heap ==> EntryLe(e, x)
    requires WalkBetween(path, start, goal, passable) && |path| <= cost[goal] + 1
    ensures forall w :: WalkBetween(w, start, goal, passable) ==> |path| <= |w|
  {
    forall w | WalkBetween(w, start, goal, passable) ensures |path| <= |w| {
      GoalCostIsOptimal(start, goal, passable, cost, heap, e, w);
    }
  }

  /** Once the frontier is empty no passable walk reaches the goal. */
  lemma ExhaustedIsUnreachable(start: Vec3d, goal: Vec3d, passable: set<Vec3d>, cost: map<Vec3d, nat>,
                               heap: seq<Entry>)
    requires start in cost && cost[start] == 0 && SearchInv(goal, passable, cost, heap) && heap == []
    ensures !Reachable(start, goal, passable)
  {
    forall w | WalkBetween(w, start, goal, passable) ensures false {
      FrontierOnWalk(w, |w| - 1, cost, passable, OpenCells(cost, heap, goal));
    }
  }

  /**
   * `a_star`: a path from `start` to `goal` through passable cells that no
   * passable walk beats, or `None` exactly when no passable walk exists.
   */
  method AStar(start: Vec3d, goal: Vec3d, size: Vec3d, fences: seq<Vec3d>, enemies: seq<EnemySnake>)
    returns (r: Option<seq<Vec3d>>)
    ensures r.Some? ==> WalkBetween(r.value, start, goal, Passable(size, fences, enemies))
    ensures r.Some? ==> forall w :: WalkBetween(w, start, goal, Passable(size, fences, enemies)) ==> |r.value| <= |w|
    ensures r.None? ==> !Reachable(start, goal, Passable(size, fences, enemies))
    ensures start == goal ==> r == Some([start])
    ensures goal != start && (!InBounds(goal, size) || IsObstacle(goal, fences, enemies)) ==> r.None?
    ensures && (forall c :: InBounds(c, size) ==> !IsObstacle(c, fences, enemies))
            && InBounds(start, size) && InBounds(goal, size)
            ==> r.Some? && |r.value| == Manh(start, goal) + 1
  {
    ghost var passable := Passable(size, fences, enemies);
    ghost var box := Box(size);
    forall c ensures c in passable <==> InBounds(c, size) && !IsObstacle(c, fences, enemies) {
      PassableCell(c, size, fences, enemies);
    }
    var heap := [Entry(Manh(start, goal), 0, start)];
    var came: map<Vec3d, Option<Vec3d>> := map[start := None];
    var cost: map<Vec3d, nat> := map[start := 0];
    assert Entry(cost[start] + Manh(start, goal), cost[start], start) in heap;
    while |heap| > 0
      invariant Tree(start, passable, cost, came)
      invariant SearchInv(goal, passable, cost, heap)
      decreases box - cost.Keys, Pairs(cost), |heap|
    {
      var e, rest := PopMin(heap);
      var current := e.cell;
      if current == goal {
        var path := RebuildPath(start, goal, passable, cost, came);
        FoundIsShortest(start, goal, passable, cost, heap, e, path);
        ResultFacts(start, goal, size, fences, enemies, Some(path));
        return Some(path);
      }
      var cost', came', heap' := Expand(current, goal, size, fences, enemies, start, passable, cost, came, rest);
      MeasureDrops(box, cost, heap, rest, cost', heap');
      SearchStep(goal, passable, box, cost, heap, e, rest, cost', heap');
      cost, came, heap := cost', came', heap';
    }
    ExhaustedIsUnreachable(start, goal, passable, cost, heap);
    ResultFacts(start, goal, size, fences, enemies, None);
    return None;
  }

  /** The consequences of soundness, optimality and completeness the contract of `AStar` spells out. */
  lemma ResultFacts(start: Vec3d, goal: Vec3d, size: Vec3d, fences: seq<Vec3d>, enemies: seq<EnemySnake>,
                    r: Option<seq<Vec3d>>)
    requires r.Some? ==> WalkBetween(r.value, start, goal, Passable(size, fences, enemies))
    requires r.Some? ==> forall w :: WalkBetween(w, start, goal, Passable(size, fences, enemies)) ==> |r.value| <= |w|
    requires r.None? ==> !Reachable(start, goal, Passable(size, fences, enemies))
    ensures start == goal ==> r == Some([start])
    ensures goal != start && (!InBounds(goal, size) || IsObstacle(goal, fences, enemies)) ==> r.None?
    ensures && (forall c :: InBounds(c, size) ==> !IsObstacle(c, fences, enemies))
            && InBounds(start, size) && InBounds(goal, size)
            ==> r.Some? && |r.value| == Manh(start, goal) + 1
  {
    var passable := Passable(size, fences, enemies);
    if start == goal {
      assert WalkBetween([start], start, goal, passable);
      if r.Some? {
        var p := r.value;
        assert |p| == 1 && p[0] == start;
        assert p == [start];
      }
    }
    if r.Some? && goal != start {
      var p := r.value;
      assert p[|p| - 1] in passable;
      PassableCell(goal, size, fences, enemies);
    }
    if && (forall c :: InBounds(c, size) ==> !IsObstacle(c, fences, enemies))
       && InBounds(start, size) && InBounds(goal, size) {
      forall c | c in Box(size) ensures c in passable {
        PassableCell(c, size, fences, enemies);
      }
      OpenBoxWalk(start, goal, size, passable);
      var w := StraightWalk(start, goal);
      assert WalkBetween(w, start, goal, passable);
      if r.Some? {
        WalkAtLeastManh(r.value, start, goal, passable);
      }
    }
  }
}
