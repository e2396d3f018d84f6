/**
 * The typed world snapshot of gt.py and the functions that build it from the
 * server's JSON. The JSON object is modelled as a record whose required keys
 * are always present; a coordinate is a JSON list of integers. Unpacking a
 * list that does not have exactly three elements into `Vec3d` is a
 * `TypeError` in Python; here every parser then returns `None`.
 */
module Snapshot {
  import opened Wrappers
  import opened Geometry

  /** A coordinate as a JSON list (or as the tuple `tuple(coord)` builds from it). */
  type RawCoord = seq<int>

  datatype RawSnake = RawSnake(id: string, direction: RawCoord, oldDirection: RawCoord,
                               geometry: seq<RawCoord>, deathCount: int, status: string,
                               reviveRemainMs: Option<int>)

  datatype RawEnemy = RawEnemy(geometry: seq<RawCoord>, status: string, kills: int)

  datatype RawFood = RawFood(c: RawCoord, points: int)

  /** The optional `specialFood` object and its two optional keys. */
  datatype RawSpecialFood = RawSpecialFood(golden: Option<seq<RawCoord>>, suspicious: Option<seq<RawCoord>>)

  datatype RawMap = RawMap(mapSize: RawCoord, name: string, points: int, fences: seq<RawCoord>,
                           food: seq<RawFood>, specialFood: Option<RawSpecialFood>, turn: int,
                           tickRemainMs: int, reviveTimeoutSec: int, snakes: seq<RawSnake>,
                           enemies: seq<RawEnemy>)

  datatype FoodKind = Normal | Golden | Suspicious

  datatype Snake = Snake(id: string, direction: Vec3d, oldDirection: Vec3d, geometry: seq<Vec3d>,
                         deathCount: int, status: string, reviveRemainMs: Option<int>)

  /** Enemy segments stay the tuples `tuple(coord)` makes, not `Vec3d`s. */
  datatype EnemySnake = EnemySnake(geometry: seq<RawCoord>, status: string, kills: int)

  datatype Food = Food(coordinate: Vec3d, points: int, kind: FoodKind)

  /** gt.py `Map`. */
  datatype GameMap = GameMap(size: Vec3d, points: int, name: string, fences: seq<Vec3d>,
                             food: seq<Food>, golden: seq<Food>, sus: seq<Food>,
                             enemies: seq<EnemySnake>, snakes: seq<Snake>, turn: int,
                             tickRemainMs: int, timeout: int)

  /** The dictionary `{"id": ..., "direction": [...]}` sent to the server. */
  datatype MoveCommand = MoveCommand(id: string, direction: seq<int>)

  /** `list(v)`: the coordinates of a cell as a list. */
  function Coords(v: Vec3d): RawCoord
  {
    [v.x, v.y, v.z]
  }

  /** `Vec3d(*c)`: defined exactly on three-element lists, and then inverse to `Coords`. */
  function ToVec(c: RawCoord): (r: Option<Vec3d>)
    ensures r.Some? <==> |c| == 3
    ensures r.Some? ==> Coords(r.value) == c
  {
    if |c| == 3 then Some(Vec3d(c[0], c[1], c[2])) else None
  }

  lemma ToVecOfCoords(v: Vec3d)
    ensures ToVec(Coords(v)) == Some(v)
  {
  }

  /**
   * A list comprehension `[f(x) for x in xs]` whose element conversion may
   * fail: it fails when any element does, and otherwise keeps length and order.
   */
  function MapAll<A, B>(xs: seq<A>, f: A -> Option<B>): (r: Option<seq<B>>)
    ensures r.Some? <==> forall i :: 0 <= i < |xs| ==> f(xs[i]).Some?
    ensures r.Some? ==> |r.value| == |xs| && forall i :: 0 <= i < |xs| ==> f(xs[i]) == Some(r.value[i])
  {
    if xs == [] then Some([])
    else
      var head := f(xs[0]);
      var tail := MapAll(xs[1..], f);
      assert forall i :: 1 <= i < |xs| ==> xs[i] == xs[1..][i - 1];
      if head.Some? && tail.Some? then Some([head.value] + tail.value) else None
  }

  predicate CoordsOk(cs: seq<RawCoord>)
  {
    forall i :: 0 <= i < |cs| ==> |cs[i]| == 3
  }

  predicate SnakeShaped(d: RawSnake)
  {
    |d.direction| == 3 && |d.oldDirection| == 3 && CoordsOk(d.geometry)
  }

  /** `parse_snake`: every field copied; the body keeps its cells in order. */
  function ParseSnake(d: RawSnake): (r: Option<Snake>)
    ensures r.Some? <==> SnakeShaped(d)
    ensures r.Some? ==>
      && r.value.id == d.id && r.value.status == d.status
      && Coords(r.value.direction) == d.direction
      && Coords(r.value.oldDirection) == d.oldDirection
      && |r.value.geometry| == |d.geometry|
      && (forall i :: 0 <= i < |d.geometry| ==> Coords(r.value.geometry[i]) == d.geometry[i])
      && r.value.deathCount == d.deathCount
      && r.value.reviveRemainMs == d.reviveRemainMs
  {
    var direction := ToVec(d.direction);
    var oldDirection := ToVec(d.oldDirection);
    var geometry := MapAll(d.geometry, ToVec);
    if direction.Some? && oldDirection.Some? && geometry.Some? then
      Some(Snake(d.id, direction.value, oldDirection.value, geometry.value,
                 d.deathCount, d.status, d.reviveRemainMs))
    else None
  }

  /** `parse_enemy_snake`: never fails, since `tuple(coord)` accepts any list. */
  function ParseEnemySnake(d: RawEnemy): (r: EnemySnake)
    ensures r.geometry == d.geometry && r.status == d.status && r.kills == d.kills
  {
    EnemySnake(d.geometry, d.status, d.kills)
  }

  /** `parse_food`: coordinate and points copied, always of the normal kind. */
  function ParseFood(d: RawFood): (r: Option<Food>)
    ensures r.Some? <==> |d.c| == 3
    ensures r.Some? ==> Coords(r.value.coordinate) == d.c && r.value.points == d.points && r.value.kind == Normal
  {
    var c := ToVec(d.c);
    if c.Some? then Some(Food(c.value, d.points, Normal)) else None
  }

  /** `parse_special_food`: the given kind, and always zero points. */
  function ParseSpecialFood(pos: RawCoord, kind: FoodKind): (r: Option<Food>)
    ensures r.Some? <==> |pos| == 3
    ensures r.Some? ==> Coords(r.value.coordinate) == pos && r.value.points == 0 && r.value.kind == kind
  {
    var c := ToVec(pos);
    if c.Some? then Some(Food(c.value, 0, kind)) else None
  }

  function GoldenFood(pos: RawCoord): Option<Food> { ParseSpecialFood(pos, Golden) }

  function SuspiciousFood(pos: RawCoord): Option<Food> { ParseSpecialFood(pos, Suspicious) }

  /** `[parse_enemy_snake(e) for e in ...]`. */
  function ParseEnemies(es: seq<RawEnemy>): (r: seq<EnemySnake>)
    ensures |r| == |es| && forall i :: 0 <= i < |es| ==> r[i] == ParseEnemySnake(es[i])
  {
    if es == [] then [] else [ParseEnemySnake(es[0])] + ParseEnemies(es[1..])
  }

  /** `data.get("specialFood", {}).get("golden", [])`. */
  function GoldenPositions(d: RawMap): seq<RawCoord>
  {
    match d.specialFood
    case None => []
    case Some(sf) => if sf.golden.Some? then sf.golden.value else []
  }

  /** `data.get("specialFood", {}).get("suspicious", [])`. */
  function SuspiciousPositions(d: RawMap): seq<RawCoord>
  {
    match d.specialFood
    case None => []
    case Some(sf) => if sf.suspicious.Some? then sf.suspicious.value else []
  }

  /** The snapshots `parse_map` accepts: every coordinate list has three elements. */
  predicate MapShaped(d: RawMap)
  {
    && |d.mapSize| == 3
    && CoordsOk(d.fences)
    && (forall i :: 0 <= i < |d.food| ==> |d.food[i].c| == 3)
    && CoordsOk(GoldenPositions(d))
    && CoordsOk(SuspiciousPositions(d))
    && (forall i :: 0 <= i < |d.snakes| ==> SnakeShaped(d.snakes[i]))
  }

  /** A special-food list parsed from `ps`: same length, zero points, the given kind. */
  predicate SpecialsFrom(fs: seq<Food>, ps: seq<RawCoord>, kind: FoodKind)
  {
    && |fs| == |ps|
    && forall i :: 0 <= i < |ps| ==> Coords(fs[i].coordinate) == ps[i] && fs[i].points == 0 && fs[i].kind == kind
  }

  /** `parse_map`: it succeeds exactly on well-shaped snapshots and copies the scalar fields. */
  function ParseMap(d: RawMap): (r: Option<GameMap>)
    ensures r.Some? <==> MapShaped(d)
    ensures r.Some? ==>
      var m := r.value;
      && Coords(m.size) == d.mapSize
      && m.name == d.name && m.points == d.points && m.turn == d.turn
      && m.tickRemainMs == d.tickRemainMs && m.timeout == d.reviveTimeoutSec
      && |m.fences| == |d.fences| && |m.food| == |d.food| && |m.snakes| == |d.snakes|
      && |m.enemies| == |d.enemies|
  {
    var size := ToVec(d.mapSize);
    var fences := MapAll(d.fences, ToVec);
    var food := MapAll(d.food, ParseFood);
    var golden := MapAll(GoldenPositions(d), GoldenFood);
    var sus := MapAll(SuspiciousPositions(d), SuspiciousFood);
    var snakes := MapAll(d.snakes, ParseSnake);
    var enemies := ParseEnemies(d.enemies);
    if size.Some? && fences.Some? && food.Some? && golden.Some? && sus.Some? && snakes.Some? then
      Some(GameMap(size.value, d.points, d.name, fences.value, food.value, golden.value, sus.value,
                   enemies, snakes.value, d.turn, d.tickRemainMs, d.reviveTimeoutSec))
    else None
  }

  /** Every list of a parsed map is parsed element by element, in order. */
  lemma ParseMapContents(d: RawMap)
    requires ParseMap(d).Some?
    ensures var m := ParseMap(d).value;
      && (forall i :: 0 <= i < |d.fences| ==> Coords(m.fences[i]) == d.fences[i])
      && (forall i :: 0 <= i < |d.food| ==>
            Coords(m.food[i].coordinate) == d.food[i].c && m.food[i].points == d.food[i].points
            && m.food[i].kind == Normal)
      && SpecialsFrom(m.golden, GoldenPositions(d), Golden)
      && SpecialsFrom(m.sus, SuspiciousPositions(d), Suspicious)
      && (forall i :: 0 <= i < |d.snakes| ==> Some(m.snakes[i]) == ParseSnake(d.snakes[i]))
      && (forall i :: 0 <= i < |d.enemies| ==> m.enemies[i] == ParseEnemySnake(d.enemies[i]))
  {
    var m := ParseMap(d).value;
    var fences := MapAll(d.fences, ToVec);
    var food := MapAll(d.food, ParseFood);
    var golden := MapAll(GoldenPositions(d), GoldenFood);
    var sus := MapAll(SuspiciousPositions(d), SuspiciousFood);
    var snakes := MapAll(d.snakes, ParseSnake);
    assert m.fences == fences.value && m.food == food.value && m.golden == golden.value;
    assert m.sus == sus.value && m.snakes == snakes.value;
    forall i | 0 <= i < |d.fences| ensures Coords(m.fences[i]) == d.fences[i] {
      assert ToVec(d.fences[i]) == Some(m.fences[i]);
    }
    forall i | 0 <= i < |d.food| ensures Coords(m.food[i].coordinate) == d.food[i].c
                                     && m.food[i].points == d.food[i].points && m.food[i].kind == Normal {
      assert ParseFood(d.food[i]) == Some(m.food[i]);
    }
    forall i | 0 <= i < |GoldenPositions(d)| ensures Coords(m.golden[i].coordinate) == GoldenPositions(d)[i]
                                                && m.golden[i].points == 0 && m.golden[i].kind == Golden {
      assert ParseSpecialFood(GoldenPositions(d)[i], Golden) == Some(m.golden[i]);
    }
    forall i | 0 <= i < |SuspiciousPositions(d)| ensures Coords(m.sus[i].coordinate) == SuspiciousPositions(d)[i]
                                                   && m.sus[i].points == 0 && m.sus[i].kind == Suspicious {
      assert ParseSpecialFood(SuspiciousPositions(d)[i], Suspicious) == Some(m.sus[i]);
    }
  }

  /** Without a `specialFood` object, or without one of its keys, that list is empty. */
  lemma AbsentSpecialFoodIsEmpty(d: RawMap)
    requires ParseMap(d).Some?
    ensures d.specialFood.None? ==> ParseMap(d).value.golden == [] && ParseMap(d).value.sus == []
    ensures d.specialFood.Some? && d.specialFood.value.golden.None? ==> ParseMap(d).value.golden == []
    ensures d.specialFood.Some? && d.specialFood.value.suspicious.None? ==> ParseMap(d).value.sus == []
  {
  }

  /** `Snake.head`: the first body cell. */
  function Head(s: Snake): Vec3d
    requires |s.geometry| > 0
  {
    s.geometry[0]
  }

  /** `Snake.move_command`: the snake's id and the direction as a three-element list. */
  function MoveCommandOf(s: Snake, direction: Vec3d): (r: MoveCommand)
    ensures r.id == s.id && |r.direction| == 3 && ToVec(r.direction) == Some(direction)
  {
    MoveCommand(s.id, Coords(direction))
  }
}
