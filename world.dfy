/**
 * The world engine (src/world.rs): coordinates, entities and rooms as values,
 * the materialisation of a plan into a world, and the world itself as a class
 * whose operations change its room and entity tables in place.
 *
 * Foreign calls are parameters: every identifier the engine would draw
 * from the uuid generator is passed in, the random stats of a monster arrive
 * as a `MonsterStats` draw, and the monotonic clock is an integer count of
 * nanoseconds `now`.
 */
module World {

  import opened Wrappers
  import opened Primitives
  import opened Occupants
  import opened GenPlan
  import DataModel

  type Guid = DataModel.Guid
  type Direction = DataModel.Direction
  type WorldError = DataModel.WorldError

  /** Sixty seconds, in nanoseconds. */
  const AFK_THRESHOLD: int := 60_000_000_000
  const DEFAULT_MONSTER_DESCRIPTION: string := "A simple monster"
  const DEFAULT_ROOM_DESCRIPTION: string := "A room"
  const OTHER_PLAYER_DESCRIPTION: string := "Another player"
  const ALREADY_PRESENT: string := "Entity is already present in this room!"
  const PLAYER_MAX_HP: U32 := 100
  const PLAYER_DP: U32 := 10

  // ---------------------------------------------------------------------
  // Coordinates
  // ---------------------------------------------------------------------

  /** A position on the grid; each neighbour exists unless the step would overflow. */
  datatype Coords = Coords(x: ISize, y: ISize)
  {
    /** The position one step north, unless `y + 1` overflows `isize`. */
    function North(): (r: Option<Coords>)
      ensures r.None? <==> y + 1 > ISIZE_MAX
      ensures r.Some? ==> r.value.x == x && r.value.y == y + 1
    {
      if y < ISIZE_MAX then Some(Coords(x, y + 1)) else None
    }

    /** The position one step south, unless `y - 1` overflows `isize`. */
    function South(): (r: Option<Coords>)
      ensures r.None? <==> y - 1 < ISIZE_MIN
      ensures r.Some? ==> r.value.x == x && r.value.y == y - 1
    {
      if y > ISIZE_MIN then Some(Coords(x, y - 1)) else None
    }

    /** The position one step east, unless `x + 1` overflows `isize`. */
    function East(): (r: Option<Coords>)
      ensures r.None? <==> x + 1 > ISIZE_MAX
      ensures r.Some? ==> r.value.x == x + 1 && r.value.y == y
    {
      if x < ISIZE_MAX then Some(Coords(x + 1, y)) else None
    }

    /** The position one step west, unless `x - 1` overflows `isize`. */
    function West(): (r: Option<Coords>)
      ensures r.None? <==> x - 1 < ISIZE_MIN
      ensures r.Some? ==> r.value.x == x - 1 && r.value.y == y
    {
      if x > ISIZE_MIN then Some(Coords(x - 1, y)) else None
    }
  }

  /** The checked neighbour in a direction. */
  function Neighbour(c: Coords, d: Direction): Option<Coords>
  {
    match d
    case N => c.North()
    case S => c.South()
    case E => c.East()
    case W => c.West()
  }

  /** Whether the unchecked one-step update of a move stays inside `isize`. */
  predicate CanStep(c: Coords, d: Direction)
  {
    match d
    case N => c.y < ISIZE_MAX
    case S => c.y > ISIZE_MIN
    case E => c.x < ISIZE_MAX
    case W => c.x > ISIZE_MIN
  }

  /** The in-place one-step update a move applies to the mover's coordinates. */
  function Step(c: Coords, d: Direction): Coords
    requires CanStep(c, d)
  {
    match d
    case N => c.(y := c.y + 1)
    case S => c.(y := c.y - 1)
    case E => c.(x := c.x + 1)
    case W => c.(x := c.x - 1)
  }

  function Opposite(d: Direction): Direction
  {
    match d
    case N => DataModel.S
    case S => DataModel.N
    case E => DataModel.W
    case W => DataModel.E
  }

  /**
   * The step a move takes agrees with the checked neighbour, always lands
   * somewhere else, and the opposite step undoes it.
   */
  lemma StepAgreesWithNeighbour(c: Coords, d: Direction)
    ensures CanStep(c, d) <==> Neighbour(c, d).Some?
    ensures CanStep(c, d) ==> Neighbour(c, d) == Some(Step(c, d))
    ensures CanStep(c, d) ==> Step(c, d) != c
    ensures CanStep(c, d) ==> CanStep(Step(c, d), Opposite(d)) && Step(Step(c, d), Opposite(d)) == c
  {
  }

  // ---------------------------------------------------------------------
  // Entities
  // ---------------------------------------------------------------------

  datatype EntityType = Monster(description: string) | Player

  /** A monster or a player; `afkSince` is the clock reading of its last action. */
  datatype Entity = Entity(kind: EntityType, maxHp: U32, hp: U32, dp: U32, location: Coords, afkSince: int)

  /** One draw of the random number generator for a random monster. */
  datatype MonsterStats = MonsterStats(hp: U32, dp: U32)

  /** The ranges the generator draws from: hp in [30, 150) and dp in [10, 30). */
  predicate InRandomRange(s: MonsterStats)
  {
    30 <= s.hp < 150 && 10 <= s.dp < 30
  }

  /** A draw the generator can produce. */
  type Draw = s: MonsterStats | InRandomRange(s) witness MonsterStats(30, 10)

  /** A monster with random stats: full health, the default description. */
  function RandomMonster(location: Coords, draw: Draw, now: int): (e: Entity)
    ensures e.kind == Monster(DEFAULT_MONSTER_DESCRIPTION)
    ensures e.hp == e.maxHp && 30 <= e.hp < 150 && 10 <= e.dp < 30
    ensures e.location == location && e.afkSince == now
  {
    Entity(Monster(DEFAULT_MONSTER_DESCRIPTION), draw.hp, draw.hp, draw.dp, location, now)
  }

  /** A monster from its plan: full health at the planned hp, the planned dp and description. */
  function GenerateMonster(location: Coords, plan: DefinedMonsterPlan, now: int): (e: Entity)
    ensures e.kind == Monster(if plan.description.Some? then plan.description.value else DEFAULT_MONSTER_DESCRIPTION)
    ensures e.hp == e.maxHp == plan.hp && e.dp == plan.dp
    ensures e.location == location && e.afkSince == now
  {
    var description := if plan.description.Some? then plan.description.value else DEFAULT_MONSTER_DESCRIPTION;
    Entity(Monster(description), plan.hp, plan.hp, plan.dp, location, now)
  }

  /** The first `n` randomly statted monsters, one per draw, in draw order. */
  function RandomMonsters(location: Coords, draws: seq<Draw>, now: int, n: nat): (ms: seq<Entity>)
    requires n <= |draws|
    ensures |ms| == n
  {
    if n == 0 then [] else RandomMonsters(location, draws, now, n - 1) + [RandomMonster(location, draws[n - 1], now)]
  }

  /** The first `n` monsters of an explicit list, in plan order. */
  function DefinedMonsters(location: Coords, plans: seq<DefinedMonsterPlan>, now: int, n: nat): (ms: seq<Entity>)
    requires n <= |plans|
    ensures |ms| == n
  {
    if n == 0 then [] else DefinedMonsters(location, plans, now, n - 1) + [GenerateMonster(location, plans[n - 1], now)]
  }

  /** The monsters a room plan asks for, in plan order. */
  function PlannedMonsters(location: Coords, m: Option<MonstersPlan>, draws: seq<Draw>, now: int): (ms: seq<Entity>)
    requires |draws| == RandomCount(m)
    ensures |ms| == MonsterCount(m)
  {
    match m
    case None => []
    case Some(Random(count)) => RandomMonsters(location, draws, now, count)
    case Some(Defined(plans)) => DefinedMonsters(location, plans, now, |plans|)
  }

  /** Each random monster carries its own draw as full health and damage, at the room's position. */
  lemma {:induction false} RandomMonstersFacts(location: Coords, draws: seq<Draw>, now: int, n: nat)
    requires n <= |draws|
    ensures var ms := RandomMonsters(location, draws, now, n);
      forall i :: 0 <= i < n ==> ms[i] == RandomMonster(location, draws[i], now)
  {
    if n > 0 {
      RandomMonstersFacts(location, draws, now, n - 1);
    }
  }

  /** Each defined monster is generated from its own plan, at the room's position. */
  lemma {:induction false} DefinedMonstersFacts(location: Coords, plans: seq<DefinedMonsterPlan>, now: int, n: nat)
    requires n <= |plans|
    ensures var ms := DefinedMonsters(location, plans, now, n);
      forall i :: 0 <= i < n ==> ms[i] == GenerateMonster(location, plans[i], now)
  {
    if n > 0 {
      DefinedMonstersFacts(location, plans, now, n - 1);
    }
  }

  /**
   * Every planned monster stands at the room's position at full health; random
   * ones carry the drawn stats, defined ones the planned stats.
   */
  lemma PlannedMonstersFacts(location: Coords, m: Option<MonstersPlan>, draws: seq<Draw>, now: int)
    requires |draws| == RandomCount(m)
    ensures var ms := PlannedMonsters(location, m, draws, now);
      (forall i :: 0 <= i < |ms| ==>
         ms[i].location == location && ms[i].kind.Monster? && ms[i].hp == ms[i].maxHp && ms[i].afkSince == now)
      && (m.Some? && m.value.Random? ==> forall i :: 0 <= i < |ms| ==>
           ms[i].hp == draws[i].hp && ms[i].dp == draws[i].dp && ms[i].kind == Monster(DEFAULT_MONSTER_DESCRIPTION))
      && (m.Some? && m.value.Defined? ==> forall i :: 0 <= i < |ms| ==>
           ms[i].hp == m.value.monsters[i].hp && ms[i].dp == m.value.monsters[i].dp)
  {
    match m
    case None =>
    case Some(Random(count)) => RandomMonstersFacts(location, draws, now, count);
    case Some(Defined(plans)) => DefinedMonstersFacts(location, plans, now, |plans|);
  }

  /** Every planned monster stands at the room's position, at full health. */
  lemma PlannedMonstersAt(location: Coords, m: Option<MonstersPlan>, draws: seq<Draw>, now: int)
    requires |draws| == RandomCount(m)
    ensures forall e :: e in PlannedMonsters(location, m, draws, now) ==> e.location == location && e.hp <= e.maxHp
  {
    PlannedMonstersFacts(location, m, draws, now);
  }

  /** The monsters of one plan, drawn one after the other. */
  method GenerateMonsters(location: Coords, plan: MonstersPlan, draws: seq<Draw>, now: int)
    returns (monsters: seq<Entity>)
    requires |draws| == RandomCount(Some(plan))
    ensures monsters == PlannedMonsters(location, Some(plan), draws, now)
  {
    monsters := [];
    match plan
    case Random(count) =>
      for i := 0 to count
        invariant monsters == RandomMonsters(location, draws, now, i)
      {
        monsters := monsters + [RandomMonster(location, draws[i], now)];
      }
    case Defined(plans) =>
      for i := 0 to |plans|
        invariant monsters == DefinedMonsters(location, plans, now, i)
      {
        monsters := monsters + [GenerateMonster(location, plans[i], now)];
      }
  }

  // ---------------------------------------------------------------------
  // Rooms
  // ---------------------------------------------------------------------

  /** A room: its description, the identifiers of its occupants in arrival order, its healing bonus. */
  datatype Room = Room(description: string, guids: seq<Guid>, hpRegen: Option<U32>)
  {
    /** Admits an identifier at the end of the list unless it is already listed. */
    function AddGuid(guid: Guid): (r: (Room, Outcome<WorldError>))
      ensures r.1.Pass? <==> guid !in guids
      ensures r.1.Fail? ==> r.0 == this && r.1.error == DataModel.Other(ALREADY_PRESENT)
      ensures r.1.Pass? ==> r.0 == this.(guids := guids + [guid]) && Without(r.0.guids, guid) == guids
      ensures r.0.guids[|r.0.guids| - 1] == guid || guid in guids
      ensures Distinct(guids) ==> Distinct(r.0.guids)
    {
      if guid in guids then (this, Fail(DataModel.Other(ALREADY_PRESENT)))
      else
        AppendUndone(guids, guid);
        (this.(guids := guids + [guid]), Pass)
    }

    /**
     * Deletes an identifier from the list, reporting `DiffRoom` when it was not
     * listed. Every occurrence is deleted and the rest keep their order.
     */
    method RemoveGuid(guid: Guid) returns (room: Room, res: Outcome<WorldError>)
      ensures room == this.(guids := Without(guids, guid))
      ensures res.Pass? <==> guid in guids
      ensures res.Fail? ==> res.error == DataModel.DiffRoom && room == this
      ensures guid !in room.guids
      ensures forall g :: g != guid ==> multiset(room.guids)[g] == multiset(guids)[g]
      ensures Distinct(guids) ==> Distinct(room.guids)
    {
      var kept: seq<Guid> := [];
      var found := false;
      for i := 0 to |guids|
        invariant kept == Without(guids[..i], guid)
        invariant found <==> guid in guids[..i]
      {
        assert guids[..i + 1] == guids[..i] + [guids[i]];
        WithoutSnoc(guids[..i], guids[i], guid);
        if guids[i] == guid {
          found := true;
        } else {
          kept := kept + [guids[i]];
        }
      }
      assert guids[..|guids|] == guids;
      room := this.(guids := kept);
      res := if found then Pass else Fail(DataModel.DiffRoom);
      WithoutFacts(guids, guid);
    }
  }

  /**
   * The deletion loop exactly as src/world.rs writes it: it walks the indices
   * of a snapshot of the list and removes each matching index from the live
   * list, which has already shrunk if an earlier match was removed. `None`
   * stands for the panic of an out-of-bounds removal.
   */
  function StaleIndexRemoval(snapshot: seq<Guid>, live: seq<Guid>, guid: Guid, i: nat): (r: Option<seq<Guid>>)
    requires i <= |snapshot|
    ensures r.Some? ==> |r.value| + multiset(snapshot[i..])[guid] == |live|
    ensures guid !in snapshot[i..] ==> r == Some(live)
    decreases |snapshot| - i
  {
    assert i < |snapshot| ==> snapshot[i..] == [snapshot[i]] + snapshot[i + 1..];
    if i == |snapshot| then Some(live)
    else if snapshot[i] != guid then StaleIndexRemoval(snapshot, live, guid, i + 1)
    else if i < |live| then StaleIndexRemoval(snapshot, live[..i] + live[i + 1..], guid, i + 1)
    else None
  }

  /**
   * `remove_guid` as written: when it does not panic it deletes one entry per
   * listed copy of the identifier, though not necessarily the copies; a list
   * without the identifier is left as it is.
   */
  function RemoveGuidAsWritten(guids: seq<Guid>, guid: Guid): (r: Option<seq<Guid>>)
    ensures r.Some? ==> |r.value| == |guids| - multiset(guids)[guid]
    ensures guid !in guids ==> r == Some(guids)
  {
    assert guids[0..] == guids;
    StaleIndexRemoval(guids, guids, guid, 0)
  }

  /** On a list holding the identifier at most once, the loop as written deletes exactly it. */
  lemma RemoveGuidAsWrittenAgrees(guids: seq<Guid>, guid: Guid)
    requires multiset(guids)[guid] <= 1
    ensures RemoveGuidAsWritten(guids, guid) == Some(Without(guids, guid))
  {
    WithoutFacts(guids, guid);
    if guid !in guids {
      NoMatchFrom(guids, guids, guid, 0);
    } else {
      var k :| 0 <= k < |guids| && guids[k] == guid;
      forall j | 0 <= j < |guids| && j != k ensures guids[j] != guid {
        if guids[j] == guid {
          if j < k { TwoOccurrences(guids, j, k); } else { TwoOccurrences(guids, k, j); }
        }
      }
      SkipTo(guids, guids, guid, 0, k);
      NoMatchFrom(guids, guids[..k] + guids[k + 1..], guid, k + 1);
      WithoutOnly(guids, k);
    }
  }

  /** Two listed copies: the loop deletes one copy and the unrelated identifier after them. */
  lemma RemoveGuidAsWrittenMisdeletes()
    ensures RemoveGuidAsWritten(["a", "a", "b"], "a") == Some(["a"])
    ensures Without(["a", "a", "b"], "a") == ["b"]
  {
    var s: seq<Guid> := ["a", "a", "b"];
    assert s[..0] + s[1..] == ["a", "b"];
    var t: seq<Guid> := ["a", "b"];
    assert t[..1] + t[2..] == ["a"];
    assert StaleIndexRemoval(s, ["a"], "a", 2) == Some(["a"]);
    assert s[1..] == ["a", "b"] && s[1..][1..] == ["b"] && s[1..][1..][1..] == [];
  }

  /** Two listed copies at the end of the list: the loop removes past the end and panics. */
  lemma RemoveGuidAsWrittenPanics()
    ensures RemoveGuidAsWritten(["a", "a"], "a") == None
  {
    var s: seq<Guid> := ["a", "a"];
    assert s[..0] + s[1..] == ["a"];
  }

  lemma NoMatchFrom(snapshot: seq<Guid>, live: seq<Guid>, guid: Guid, i: nat)
    requires i <= |snapshot|
    requires forall j :: i <= j < |snapshot| ==> snapshot[j] != guid
    ensures StaleIndexRemoval(snapshot, live, guid, i) == Some(live)
    decreases |snapshot| - i
  {
    if i < |snapshot| {
      NoMatchFrom(snapshot, live, guid, i + 1);
    }
  }

  lemma SkipTo(snapshot: seq<Guid>, live: seq<Guid>, guid: Guid, i: nat, k: nat)
    requires i <= k <= |snapshot|
    requires forall j :: i <= j < k ==> snapshot[j] != guid
    ensures StaleIndexRemoval(snapshot, live, guid, i) == StaleIndexRemoval(snapshot, live, guid, k)
    decreases k - i
  {
    if i < k {
      SkipTo(snapshot, live, guid, i + 1, k);
    }
  }

  /** Appending an identifier that was not listed is undone by deleting it. */
  lemma AppendUndone(s: seq<Guid>, g: Guid)
    requires g !in s
    ensures Without(s + [g], g) == s
    ensures Distinct(s) ==> Distinct(s + [g])
  {
    WithoutSnoc(s, g, g);
    WithoutFacts(s, g);
    DistinctCounts(s);
    DistinctCounts(s + [g]);
  }

  /** Deleting from a list extended by one element. */
  lemma WithoutSnoc(s: seq<Guid>, x: Guid, g: Guid)
    ensures Without(s + [x], g) == Without(s, g) + (if x == g then [] else [x])
  {
    WithoutAllAppend(s, [x], {g});
    assert [x][1..] == [];
  }

  /** What deleting one identifier does to a list: its count, membership and duplicate-freedom. */
  lemma WithoutFacts(s: seq<Guid>, g: Guid)
    ensures g !in Without(s, g)
    ensures forall x :: x != g ==> multiset(Without(s, g))[x] == multiset(s)[x]
    ensures Distinct(s) ==> Distinct(Without(s, g))
    ensures g !in s ==> Without(s, g) == s
  {
    WithoutAllCounts(s, {g});
    WithoutAllMembers(s, {g});
    DistinctCounts(s);
    DistinctCounts(Without(s, g));
    if g !in s {
      WithoutAllAbsent(s, {}, {g});
      assert {} + {g} == {g};
      NothingGone(s);
    }
  }

  // ---------------------------------------------------------------------
  // Exits
  // ---------------------------------------------------------------------

  /** The order in which exits are listed. */
  const COMPASS: seq<Direction> := [DataModel.N, DataModel.S, DataModel.E, DataModel.W]

  function Rank(d: Direction): nat
  {
    match d
    case N => 0
    case S => 1
    case E => 2
    case W => 3
  }

  /** A direction is open when its checked neighbour exists and holds a room. */
  predicate Open(rooms: map<Coords, Room>, c: Coords, d: Direction)
  {
    Neighbour(c, d).Some? && Neighbour(c, d).value in rooms
  }

  function OpenAmong(rooms: map<Coords, Room>, c: Coords, ds: seq<Direction>): seq<Direction>
  {
    if ds == [] then []
    else (if Open(rooms, c, ds[0]) then [ds[0]] else []) + OpenAmong(rooms, c, ds[1..])
  }

  /** The exits of a position: the open directions, in compass order. */
  function Exits(rooms: map<Coords, Room>, c: Coords): seq<Direction>
  {
    OpenAmong(rooms, c, COMPASS)
  }

  lemma {:induction false} OpenAmongFacts(rooms: map<Coords, Room>, c: Coords, ds: seq<Direction>)
    requires forall i, j :: 0 <= i < j < |ds| ==> Rank(ds[i]) < Rank(ds[j])
    ensures forall d :: d in OpenAmong(rooms, c, ds) <==> d in ds && Open(rooms, c, d)
    ensures forall i, j :: 0 <= i < j < |OpenAmong(rooms, c, ds)| ==>
      Rank(OpenAmong(rooms, c, ds)[i]) < Rank(OpenAmong(rooms, c, ds)[j])
    ensures forall i :: 0 <= i < |OpenAmong(rooms, c, ds)| ==> OpenAmong(rooms, c, ds)[i] in ds
  {
    if ds != [] {
      OpenAmongFacts(rooms, c, ds[1..]);
      var rest := OpenAmong(rooms, c, ds[1..]);
      forall i | 0 <= i < |rest| ensures Rank(ds[0]) < Rank(rest[i]) {
        var k :| 0 <= k < |ds[1..]| && ds[1..][k] == rest[i];
        assert ds[k + 1] == rest[i];
      }
    }
  }

  /** A direction is listed exactly when it is open, and the list follows N, S, E, W without repeats. */
  lemma ExitsSpec(rooms: map<Coords, Room>, c: Coords)
    ensures forall d :: d in Exits(rooms, c) <==> Open(rooms, c, d)
    ensures forall i, j :: 0 <= i < j < |Exits(rooms, c)| ==> Rank(Exits(rooms, c)[i]) < Rank(Exits(rooms, c)[j])
  {
    OpenAmongFacts(rooms, c, COMPASS);
    forall d ensures d in COMPASS {
      assert COMPASS[Rank(d)] == d;
    }
  }

  /** The exits written out direction by direction. */
  lemma ExitsInOrder(rooms: map<Coords, Room>, c: Coords)
    ensures Exits(rooms, c)
         == (if Open(rooms, c, DataModel.N) then [DataModel.N] else [])
          + (if Open(rooms, c, DataModel.S) then [DataModel.S] else [])
          + (if Open(rooms, c, DataModel.E) then [DataModel.E] else [])
          + (if Open(rooms, c, DataModel.W) then [DataModel.W] else [])
  {
    var w := [DataModel.W];
    var ew := [DataModel.E] + w;
    var sew := [DataModel.S] + ew;
    assert COMPASS == [DataModel.N] + sew;
    assert w[1..] == [] && ew[1..] == w && sew[1..] == ew && COMPASS[1..] == sew;
    var open := OpenAmong(rooms, c, w);
    assert open == (if Open(rooms, c, DataModel.W) then [DataModel.W] else []) + OpenAmong(rooms, c, []);
    open := OpenAmong(rooms, c, ew);
    assert open == (if Open(rooms, c, DataModel.E) then [DataModel.E] else []) + OpenAmong(rooms, c, w);
    open := OpenAmong(rooms, c, sew);
    assert open == (if Open(rooms, c, DataModel.S) then [DataModel.S] else []) + OpenAmong(rooms, c, ew);
    open := OpenAmong(rooms, c, COMPASS);
    assert open == (if Open(rooms, c, DataModel.N) then [DataModel.N] else []) + OpenAmong(rooms, c, sew);
  }

  // ---------------------------------------------------------------------
  // Materialising a plan
  // ---------------------------------------------------------------------

  /** The position of a planned room: its unsigned coordinates reinterpreted as `isize`. */
  function PlanCoords(plan: RoomPlan): Coords
  {
    Coords(AsIsize(plan.x), AsIsize(plan.y))
  }

  function PlanSpawn(plan: WorldPlan): Coords
  {
    Coords(AsIsize(plan.spawnX), AsIsize(plan.spawnY))
  }

  /** The room a plan yields, occupied by the identifiers given to its monsters. */
  function PlanRoom(plan: RoomPlan, ids: seq<Guid>): (room: Room)
    ensures room.description == (if plan.description.Some? then plan.description.value else DEFAULT_ROOM_DESCRIPTION)
    ensures room.guids == ids && room.hpRegen == plan.hpRegen
  {
    Room(if plan.description.Some? then plan.description.value else DEFAULT_ROOM_DESCRIPTION, ids, plan.hpRegen)
  }

  /** The table that registers each identifier with the entity at the same index. */
  function Register(gs: seq<Guid>, es: seq<Entity>): map<Guid, Entity>
    requires |gs| == |es|
  {
    if gs == [] then map[]
    else Register(gs[..|gs| - 1], es[..|es| - 1])[gs[|gs| - 1] := es[|es| - 1]]
  }

  /** The registered keys are the identifiers; each maps to one of the entities, to its own one if they are distinct. */
  lemma {:induction false} RegisterFacts(gs: seq<Guid>, es: seq<Entity>)
    requires |gs| == |es|
    ensures Register(gs, es).Keys == set g | g in gs
    ensures forall g :: g in Register(gs, es) ==> Register(gs, es)[g] in es
    ensures Distinct(gs) ==> forall i :: 0 <= i < |gs| ==> Register(gs, es)[gs[i]] == es[i]
  {
    if gs != [] {
      var n := |gs| - 1;
      RegisterFacts(gs[..n], es[..n]);
      assert gs == gs[..n] + [gs[n]];
      forall g | g in Register(gs, es) ensures Register(gs, es)[g] in es {
        if g != gs[n] {
          assert Register(gs[..n], es[..n])[g] in es[..n];
        }
      }
      if Distinct(gs) {
        forall i | 0 <= i < |gs| ensures Register(gs, es)[gs[i]] == es[i] {
          if i < n {
            assert gs[..n][i] == gs[i];
          }
        }
      }
    }
  }

  /** One room of the plan, with its monsters registered under the given identifiers. */
  method GenerateWithCoordsAndEntities(plan: RoomPlan, ids: seq<Guid>, draws: seq<Draw>, now: int)
    returns (coords: Coords, room: Room, entities: map<Guid, Entity>)
    requires |ids| == MonsterCount(plan.monsters)
    requires |draws| == RandomCount(plan.monsters)
    ensures coords == PlanCoords(plan)
    ensures room == PlanRoom(plan, ids)
    ensures entities == Register(ids, PlannedMonsters(coords, plan.monsters, draws, now))
  {
    coords := PlanCoords(plan);
    var description := if plan.description.Some? then plan.description.value else DEFAULT_ROOM_DESCRIPTION;
    var guids: seq<Guid> := [];
    entities := map[];
    match plan.monsters {
      case Some(monstersPlan) =>
        var monsters := GenerateMonsters(coords, monstersPlan, draws, now);
        for i := 0 to |monsters|
          invariant guids == ids[..i]
          invariant entities == Register(ids[..i], monsters[..i])
        {
          var guid := ids[i];
          guids := guids + [guid];
          entities := entities[guid := monsters[i]];
          assert ids[..i + 1][..i] == ids[..i] && monsters[..i + 1][..i] == monsters[..i];
          assert ids[..i + 1] == ids[..i] + [guid];
        }
        assert ids[..|monsters|] == ids && monsters[..|monsters|] == monsters;
      case None =>
    }
    room := Room(description, guids, plan.hpRegen);
  }

  /** The identifiers room plan `i` gives its monsters: the next ones after those of the rooms before it. */
  function RoomIds(rps: seq<RoomPlan>, ids: seq<Guid>, i: nat): (r: seq<Guid>)
    requires i < |rps| && GuidsBefore(rps, i + 1) <= |ids|
    ensures |r| == MonsterCount(rps[i].monsters)
  {
    ids[GuidsBefore(rps, i)..GuidsBefore(rps, i + 1)]
  }

  /** The draws room plan `i` consumes: the next ones after those of the rooms before it. */
  function RoomDraws(rps: seq<RoomPlan>, draws: seq<Draw>, i: nat): (r: seq<Draw>)
    requires i < |rps| && StatsBefore(rps, i + 1) <= |draws|
    ensures |r| == RandomCount(rps[i].monsters)
  {
    draws[StatsBefore(rps, i)..StatsBefore(rps, i + 1)]
  }

  /** The monsters of room plan `i`, registered under its identifiers. */
  function RoomMonsters(rps: seq<RoomPlan>, ids: seq<Guid>, draws: seq<Draw>, now: int, i: nat): map<Guid, Entity>
    requires i < |rps| && GuidsBefore(rps, i + 1) <= |ids| && StatsBefore(rps, i + 1) <= |draws|
  {
    Register(RoomIds(rps, ids, i), PlannedMonsters(PlanCoords(rps[i]), rps[i].monsters, RoomDraws(rps, draws, i), now))
  }

  /**
   * The rooms the first `i` room plans yield; a later room replaces an earlier
   * one at the same position.
   */
  function PlannedRooms(rps: seq<RoomPlan>, ids: seq<Guid>, i: nat): map<Coords, Room>
    requires i <= |rps| && GuidsBefore(rps, i) <= |ids|
  {
    if i == 0 then map[]
    else PlannedRooms(rps, ids, i - 1)[PlanCoords(rps[i - 1]) := PlanRoom(rps[i - 1], RoomIds(rps, ids, i - 1))]
  }

  /** The monsters the first `i` room plans yield, keyed by their identifiers. */
  function PlannedEntities(rps: seq<RoomPlan>, ids: seq<Guid>, draws: seq<Draw>, now: int, i: nat)
    : map<Guid, Entity>
    requires i <= |rps| && GuidsBefore(rps, i) <= |ids| && StatsBefore(rps, i) <= |draws|
  {
    if i == 0 then map[]
    else PlannedEntities(rps, ids, draws, now, i - 1) + RoomMonsters(rps, ids, draws, now, i - 1)
  }

  /** The tables of one more room plan are the earlier tables with that room and its monsters added. */
  lemma PlannedTablesGrow(rps: seq<RoomPlan>, ids: seq<Guid>, draws: seq<Draw>, now: int, i: nat, j: nat)
    requires j == i + 1 && j <= |rps| && GuidsBefore(rps, j) <= |ids| && StatsBefore(rps, j) <= |draws|
    ensures GuidsBefore(rps, i) <= GuidsBefore(rps, j) && StatsBefore(rps, i) <= StatsBefore(rps, j)
    ensures PlannedRooms(rps, ids, j) == PlannedRooms(rps, ids, i)[PlanCoords(rps[i]) := PlanRoom(rps[i], RoomIds(rps, ids, i))]
    ensures PlannedEntities(rps, ids, draws, now, j) == PlannedEntities(rps, ids, draws, now, i) + RoomMonsters(rps, ids, draws, now, i)
  {
  }

  /** A room's table holds exactly its identifiers, each for a monster standing in that room at no more than full health. */
  lemma RoomMonstersFacts(rps: seq<RoomPlan>, ids: seq<Guid>, draws: seq<Draw>, now: int, i: nat)
    requires i < |rps| && GuidsBefore(rps, i + 1) <= |ids| && StatsBefore(rps, i + 1) <= |draws|
    ensures RoomMonsters(rps, ids, draws, now, i).Keys == set g | g in RoomIds(rps, ids, i)
    ensures forall g :: g in RoomMonsters(rps, ids, draws, now, i) ==>
      RoomMonsters(rps, ids, draws, now, i)[g].location == PlanCoords(rps[i])
      && RoomMonsters(rps, ids, draws, now, i)[g].hp <= RoomMonsters(rps, ids, draws, now, i)[g].maxHp
  {
    var c := PlanCoords(rps[i]);
    var ms := PlannedMonsters(c, rps[i].monsters, RoomDraws(rps, draws, i), now);
    RegisterFacts(RoomIds(rps, ids, i), ms);
    PlannedMonstersAt(c, rps[i].monsters, RoomDraws(rps, draws, i), now);
  }

  // ---------------------------------------------------------------------
  // The invariant of a world
  // ---------------------------------------------------------------------

  /** Every listed occupant is a known entity located in the room that lists it. */
  predicate OccupantsPresent(rooms: map<Coords, Room>, entities: map<Guid, Entity>)
  {
    forall c, g :: c in rooms && g in rooms[c].guids ==> g in entities && entities[g].location == c
  }

  /** Every entity stands in an existing room, whose list names it exactly once. */
  predicate EntitiesHoused(rooms: map<Coords, Room>, entities: map<Guid, Entity>)
  {
    forall g :: g in entities ==>
      entities[g].location in rooms && multiset(rooms[entities[g].location].guids)[g] == 1
  }

  predicate HpBounded(entities: map<Guid, Entity>)
  {
    forall g :: g in entities ==> entities[g].hp <= entities[g].maxHp
  }

  /** The invariant every operation of a world preserves. */
  predicate Consistent(rooms: map<Coords, Room>, entities: map<Guid, Entity>, spawn: Coords)
  {
    OccupantsPresent(rooms, entities) && EntitiesHoused(rooms, entities) && spawn in rooms && HpBounded(entities)
  }

  /** In a consistent world no room lists an identifier twice. */
  lemma ConsistentListsDistinct(rooms: map<Coords, Room>, entities: map<Guid, Entity>, spawn: Coords, c: Coords)
    requires Consistent(rooms, entities, spawn) && c in rooms
    ensures Distinct(rooms[c].guids)
  {
    forall g ensures multiset(rooms[c].guids)[g] <= 1 {
      if g in rooms[c].guids {
        assert entities[g].location == c;
      }
    }
    DistinctCounts(rooms[c].guids);
  }

  /** In a consistent world an entity is listed by the room it stands in and by no other. */
  lemma ListedOnlyAtHome(rooms: map<Coords, Room>, entities: map<Guid, Entity>, spawn: Coords, g: Guid, elsewhere: Coords)
    requires Consistent(rooms, entities, spawn) && g in entities
    ensures entities[g].location in rooms && g in rooms[entities[g].location].guids
    ensures elsewhere in rooms && elsewhere != entities[g].location ==> g !in rooms[elsewhere].guids
  {
  }

  /** Updating an entity where it stands keeps the invariant. */
  lemma UpdatePreserves(rooms: map<Coords, Room>, entities: map<Guid, Entity>, spawn: Coords, g: Guid, e: Entity)
    requires Consistent(rooms, entities, spawn) && g in entities
    requires e.location == entities[g].location && e.hp <= e.maxHp
    ensures Consistent(rooms, entities[g := e], spawn)
  {
  }

  /** Admitting a new entity to the end of its room's list keeps the invariant. */
  lemma AdmitPreserves(rooms: map<Coords, Room>, entities: map<Guid, Entity>, spawn: Coords, g: Guid, e: Entity)
    requires Consistent(rooms, entities, spawn) && g !in entities
    requires e.location in rooms && e.hp <= e.maxHp
    ensures Consistent(rooms[e.location := rooms[e.location].(guids := rooms[e.location].guids + [g])], entities[g := e], spawn)
  {
    var c := e.location;
    var rooms' := rooms[c := rooms[c].(guids := rooms[c].guids + [g])];
    var entities' := entities[g := e];
    assert g !in rooms[c].guids;
    forall c', x | c' in rooms' && x in rooms'[c'].guids ensures x in entities' && entities'[x].location == c' {
      if c' == c && x != g {
        assert x in rooms[c].guids;
      }
    }
    forall x | x in entities'
      ensures entities'[x].location in rooms' && multiset(rooms'[entities'[x].location].guids)[x] == 1
    {
      if x != g && entities[x].location == c {
        assert multiset(rooms'[c].guids)[x] == multiset(rooms[c].guids)[x];
      }
    }
  }

  /** Deleting an entity from its room's list and from the table keeps the invariant. */
  lemma EvictPreserves(rooms: map<Coords, Room>, entities: map<Guid, Entity>, spawn: Coords, g: Guid)
    requires Consistent(rooms, entities, spawn) && g in entities
    ensures var c := entities[g].location;
      Consistent(rooms[c := rooms[c].(guids := Without(rooms[c].guids, g))], entities - {g}, spawn)
  {
    var c := entities[g].location;
    WithoutAllMembers(rooms[c].guids, {g});
    WithoutFacts(rooms[c].guids, g);
    EvictedOccupied(rooms, entities, c, g);
    EvictedHoused(rooms, entities, c, g);
  }

  /** The occupancy half of `EvictPreserves`. */
  lemma EvictedOccupied(rooms: map<Coords, Room>, entities: map<Guid, Entity>, c: Coords, g: Guid)
    requires OccupantsPresent(rooms, entities) && c in rooms && g in entities && entities[g].location == c
    requires forall x :: x in Without(rooms[c].guids, g) <==> x in rooms[c].guids && x != g
    ensures OccupantsPresent(rooms[c := rooms[c].(guids := Without(rooms[c].guids, g))], entities - {g})
  {
    var rooms' := rooms[c := rooms[c].(guids := Without(rooms[c].guids, g))];
    var entities' := entities - {g};
    forall c', x | c' in rooms' && x in rooms'[c'].guids ensures x in entities' && entities'[x].location == c' {
      if c' == c {
        assert x in rooms[c].guids && x != g;
      } else {
        assert x in rooms[c'].guids;
        assert x != g;
      }
    }
  }

  /** The housing half of `EvictPreserves`. */
  lemma EvictedHoused(rooms: map<Coords, Room>, entities: map<Guid, Entity>, c: Coords, g: Guid)
    requires EntitiesHoused(rooms, entities) && c in rooms
    requires forall x :: x != g ==> multiset(Without(rooms[c].guids, g))[x] == multiset(rooms[c].guids)[x]
    ensures EntitiesHoused(rooms[c := rooms[c].(guids := Without(rooms[c].guids, g))], entities - {g})
  {
    var rooms' := rooms[c := rooms[c].(guids := Without(rooms[c].guids, g))];
    var entities' := entities - {g};
    forall x | x in entities'
      ensures entities'[x].location in rooms' && multiset(rooms'[entities'[x].location].guids)[x] == 1
    {
      assert x in entities && x != g;
    }
  }

  /** Moving an entity from its room's list to the end of another room's list keeps the invariant. */
  lemma RelocatePreserves(rooms: map<Coords, Room>, entities: map<Guid, Entity>, spawn: Coords, g: Guid, e: Entity)
    requires Consistent(rooms, entities, spawn) && g in entities
    requires e.location in rooms && e.location != entities[g].location && e.hp <= e.maxHp
    ensures var o := entities[g].location;
      var d := e.location;
      Consistent(rooms[o := rooms[o].(guids := Without(rooms[o].guids, g))][d := rooms[d].(guids := rooms[d].guids + [g])],
                 entities[g := e], spawn)
  {
    var o := entities[g].location;
    EvictPreserves(rooms, entities, spawn, g);
    var rooms' := rooms[o := rooms[o].(guids := Without(rooms[o].guids, g))];
    AdmitPreserves(rooms', entities - {g}, spawn, g, e);
    assert (entities - {g})[g := e] == entities[g := e];
  }

  // ---------------------------------------------------------------------
  // When a plan yields a consistent world
  // ---------------------------------------------------------------------

  /** No two planned rooms share a position. */
  predicate DistinctPositions(rps: seq<RoomPlan>)
  {
    forall i, j :: 0 <= i < j < |rps| ==> rps[i].x != rps[j].x || rps[i].y != rps[j].y
  }

  /** Distinct positions and a planned room at the spawn point. */
  predicate WellFormedPlan(plan: WorldPlan)
  {
    DistinctPositions(plan.rooms)
    && exists i :: 0 <= i < |plan.rooms| && plan.rooms[i].x == plan.spawnX && plan.rooms[i].y == plan.spawnY
  }

  /** Adding a room and its own monsters to a consistent pair of tables. */
  lemma AddPlannedRoom(rooms: map<Coords, Room>, entities: map<Guid, Entity>, c: Coords, room: Room,
                       monsters: map<Guid, Entity>)
    requires OccupantsPresent(rooms, entities) && EntitiesHoused(rooms, entities) && HpBounded(entities)
    requires c !in rooms
    requires forall g :: g in room.guids ==> g !in entities
    requires Distinct(room.guids) && monsters.Keys == set g | g in room.guids
    requires forall g :: g in monsters ==> monsters[g].location == c && monsters[g].hp <= monsters[g].maxHp
    ensures OccupantsPresent(rooms[c := room], entities + monsters)
    ensures EntitiesHoused(rooms[c := room], entities + monsters)
    ensures HpBounded(entities + monsters)
  {
    AddedRoomOccupied(rooms, entities, c, room, monsters);
    AddedRoomHoused(rooms, entities, c, room, monsters);
  }

  /** The occupancy half of `AddPlannedRoom`: every listed identifier, old or new, names an entity standing there. */
  lemma AddedRoomOccupied(rooms: map<Coords, Room>, entities: map<Guid, Entity>, c: Coords, room: Room,
                          monsters: map<Guid, Entity>)
    requires OccupantsPresent(rooms, entities) && c !in rooms
    requires forall g :: g in room.guids ==> g !in entities
    requires monsters.Keys == set g | g in room.guids
    requires forall g :: g in monsters ==> monsters[g].location == c
    ensures OccupantsPresent(rooms[c := room], entities + monsters)
  {
    var rooms' := rooms[c := room];
    var entities' := entities + monsters;
    forall c', x | c' in rooms' && x in rooms'[c'].guids
      ensures x in entities' && entities'[x].location == c'
    {
      if c' == c {
        assert x in monsters;
      } else {
        assert x in rooms[c'].guids;
        assert x in entities;
        assert x !in room.guids;
      }
    }
  }

  /** The housing half of `AddPlannedRoom`: every entity, old or new, is listed once where it stands. */
  lemma AddedRoomHoused(rooms: map<Coords, Room>, entities: map<Guid, Entity>, c: Coords, room: Room,
                        monsters: map<Guid, Entity>)
    requires EntitiesHoused(rooms, entities) && c !in rooms
    requires Distinct(room.guids) && monsters.Keys == set g | g in room.guids
    requires forall g :: g in monsters ==> monsters[g].location == c
    ensures EntitiesHoused(rooms[c := room], entities + monsters)
  {
    var rooms' := rooms[c := room];
    var entities' := entities + monsters;
    forall x | x in entities'
      ensures entities'[x].location in rooms' && multiset(rooms'[entities'[x].location].guids)[x] == 1
    {
      if x in monsters {
        DistinctCountOne(room.guids, x);
      } else {
        assert entities'[x] == entities[x];
      }
    }
  }

  /** The tables of a plan prefix: rooms at the prefix's positions, monsters under the identifiers used so far, consistent. */
  predicate PrefixTables(rooms: map<Coords, Room>, entities: map<Guid, Entity>, positions: set<Coords>, used: seq<Guid>)
  {
    rooms.Keys == positions && entities.Keys == (set g | g in used)
    && OccupantsPresent(rooms, entities) && EntitiesHoused(rooms, entities) && HpBounded(entities)
  }

  /** One more planned room, at a new position and with fresh identifiers, keeps the prefix tables consistent. */
  lemma PrefixStep(rooms: map<Coords, Room>, entities: map<Guid, Entity>, positions: set<Coords>, used: seq<Guid>,
                   c: Coords, room: Room, monsters: map<Guid, Entity>,
                   rooms': map<Coords, Room>, entities': map<Guid, Entity>, positions': set<Coords>, used': seq<Guid>)
    requires PrefixTables(rooms, entities, positions, used) && c !in positions
    requires Distinct(room.guids) && forall g :: g in room.guids ==> g !in used
    requires monsters.Keys == set g | g in room.guids
    requires forall g :: g in monsters ==> monsters[g].location == c && monsters[g].hp <= monsters[g].maxHp
    requires rooms' == rooms[c := room] && entities' == entities + monsters
    requires positions' == positions + {c} && used' == used + room.guids
    ensures PrefixTables(rooms', entities', positions', used')
  {
    forall g | g in room.guids
      ensures g !in entities
    {
      assert g !in used;
    }
    AddPlannedRoom(rooms, entities, c, room, monsters);
    UsedKeysGrow(entities, monsters, used, room.guids);
  }

  /** The identifiers used so far, followed by a room's, key the tables extended with that room's monsters. */
  lemma UsedKeysGrow(entities: map<Guid, Entity>, monsters: map<Guid, Entity>, used: seq<Guid>, guids: seq<Guid>)
    requires entities.Keys == (set g | g in used) && monsters.Keys == (set g | g in guids)
    ensures (entities + monsters).Keys == set g | g in used + guids
  {
    assert (set g | g in used + guids) == (set g | g in used) + (set g | g in guids);
  }

  /** Room plan `j`, followed by `i`, meets the conditions of `PrefixStep` against the tables of the rooms before it. */
  lemma PlanStepFacts(rps: seq<RoomPlan>, ids: seq<Guid>, draws: seq<Draw>, now: int, j: nat, i: nat)
    requires i == j + 1 && i <= |rps| && GuidsBefore(rps, i) <= |ids| && StatsBefore(rps, i) <= |draws|
    requires Distinct(ids) && DistinctPositions(rps)
    ensures GuidsBefore(rps, j) <= GuidsBefore(rps, i) && StatsBefore(rps, j) <= StatsBefore(rps, i)
    ensures PlanCoords(rps[j]) !in Positions(rps, j)
    ensures Positions(rps, i) == Positions(rps, j) + {PlanCoords(rps[j])}
    ensures Distinct(RoomIds(rps, ids, j))
    ensures forall g :: g in RoomIds(rps, ids, j) ==> g !in ids[..GuidsBefore(rps, j)]
    ensures ids[..GuidsBefore(rps, j)] + RoomIds(rps, ids, j) == ids[..GuidsBefore(rps, i)]
    ensures RoomMonsters(rps, ids, draws, now, j).Keys == set g | g in RoomIds(rps, ids, j)
    ensures forall g :: g in RoomMonsters(rps, ids, draws, now, j) ==>
      RoomMonsters(rps, ids, draws, now, j)[g].location == PlanCoords(rps[j])
      && RoomMonsters(rps, ids, draws, now, j)[g].hp <= RoomMonsters(rps, ids, draws, now, j)[g].maxHp
  {
    var g, h := GuidsBefore(rps, j), GuidsBefore(rps, i);
    SplitDistinct(ids, g, h);
    assert ids[..g] + ids[g..h] == ids[..h];
    RoomMonstersFacts(rps, ids, draws, now, j);
    PositionsGrow(rps, i);
  }

  /** The tables the first `i` room plans yield are consistent prefix tables. */
  predicate PlanPrefixConsistent(rps: seq<RoomPlan>, ids: seq<Guid>, draws: seq<Draw>, now: int, i: nat)
    requires i <= |rps| && GuidsBefore(rps, i) <= |ids| && StatsBefore(rps, i) <= |draws|
  {
    PrefixTables(PlannedRooms(rps, ids, i), PlannedEntities(rps, ids, draws, now, i), Positions(rps, i), ids[..GuidsBefore(rps, i)])
  }

  /** Consistent tables for the first `j` room plans extend to consistent tables for the first `i`. */
  lemma PlanPrefixStep(rps: seq<RoomPlan>, ids: seq<Guid>, draws: seq<Draw>, now: int, j: nat, i: nat)
    requires i == j + 1 && i <= |rps| && GuidsBefore(rps, i) <= |ids| && StatsBefore(rps, i) <= |draws|
    requires Distinct(ids) && DistinctPositions(rps)
    requires GuidsBefore(rps, j) <= |ids| && StatsBefore(rps, j) <= |draws|
    requires PlanPrefixConsistent(rps, ids, draws, now, j)
    ensures PlanPrefixConsistent(rps, ids, draws, now, i)
  {
    var rooms, entities, used := PlannedRooms(rps, ids, j), PlannedEntities(rps, ids, draws, now, j), ids[..GuidsBefore(rps, j)];
    var rooms', entities', used' := PlannedRooms(rps, ids, i), PlannedEntities(rps, ids, draws, now, i), ids[..GuidsBefore(rps, i)];
    var c, guids, monsters := PlanCoords(rps[j]), RoomIds(rps, ids, j), RoomMonsters(rps, ids, draws, now, j);
    PlanStepFacts(rps, ids, draws, now, j, i);
    PlannedTablesGrow(rps, ids, draws, now, j, i);
    PrefixStep(rooms, entities, Positions(rps, j), used, c, PlanRoom(rps[j], guids), monsters,
               rooms', entities', Positions(rps, i), used');
  }

  /** With distinct positions and identifiers, every prefix of a plan yields consistent tables. */
  lemma {:induction false} PlannedWorldPrefix(rps: seq<RoomPlan>, ids: seq<Guid>, draws: seq<Draw>, now: int, i: nat)
    requires i <= |rps| && GuidsBefore(rps, i) <= |ids| && StatsBefore(rps, i) <= |draws|
    requires Distinct(ids) && DistinctPositions(rps)
    ensures PlanPrefixConsistent(rps, ids, draws, now, i)
  {
    if i > 0 {
      NeedsMonotone(rps, i - 1, i);
      PlannedWorldPrefix(rps, ids, draws, now, i - 1);
      PlanPrefixStep(rps, ids, draws, now, i - 1, i);
    }
  }

  /** The positions the first `i` room plans occupy. */
  function Positions(rps: seq<RoomPlan>, i: nat): set<Coords>
    requires i <= |rps|
  {
    set j | 0 <= j < i :: PlanCoords(rps[j])
  }

  /** With distinct positions, each room plan adds a new position to those before it. */
  lemma PositionsGrow(rps: seq<RoomPlan>, i: nat)
    requires 0 < i <= |rps| && DistinctPositions(rps)
    ensures Positions(rps, i) == Positions(rps, i - 1) + {PlanCoords(rps[i - 1])}
    ensures PlanCoords(rps[i - 1]) !in Positions(rps, i - 1)
  {
  }

  /** A slice of a duplicate-free list is duplicate-free and shares nothing with what precedes it. */
  lemma SplitDistinct(ids: seq<Guid>, g: nat, h: nat)
    requires Distinct(ids) && g <= h <= |ids|
    ensures Distinct(ids[g..h])
    ensures forall x :: x in ids[g..h] ==> x !in ids[..g]
    ensures (set x | x in ids[..h]) == (set x | x in ids[..g]) + (set x | x in ids[g..h])
  {
    assert ids[..h] == ids[..g] + ids[g..h];
  }

  /** A plan with distinct positions that includes the spawn point yields a consistent world. */
  lemma PlannedWorldConsistent(plan: WorldPlan, ids: seq<Guid>, draws: seq<Draw>, now: int)
    requires GuidsNeeded(plan.rooms) <= |ids| && Distinct(ids)
    requires StatsNeeded(plan.rooms) <= |draws|
    requires WellFormedPlan(plan)
    ensures var n := |plan.rooms|;
      Consistent(PlannedRooms(plan.rooms, ids, n), PlannedEntities(plan.rooms, ids, draws, now, n), PlanSpawn(plan))
  {
    PlannedWorldPrefix(plan.rooms, ids, draws, now, |plan.rooms|);
    NeedsMonotone(plan.rooms, |plan.rooms|, |plan.rooms|);
    var i :| 0 <= i < |plan.rooms| && plan.rooms[i].x == plan.spawnX && plan.rooms[i].y == plan.spawnY;
    assert PlanCoords(plan.rooms[i]) == PlanSpawn(plan);
  }

  /** A room planned twice with one random monster each: the second replaces the first, whose monster is listed nowhere. */
  lemma DuplicatePositionOrphansMonster(rp: RoomPlan, draw: Draw)
    requires rp.monsters == Some(Random(1))
    ensures GuidsNeeded([rp, rp]) == 2 && StatsNeeded([rp, rp]) == 2
    ensures PlannedRooms([rp, rp], ["a", "b"], 2) == map[PlanCoords(rp) := PlanRoom(rp, ["b"])]
    ensures "a" in PlannedEntities([rp, rp], ["a", "b"], [draw, draw], 0, 2)
    ensures !EntitiesHoused(PlannedRooms([rp, rp], ["a", "b"], 2), PlannedEntities([rp, rp], ["a", "b"], [draw, draw], 0, 2))
  {
    var rps := [rp, rp];
    var ids: seq<Guid> := ["a", "b"];
    var draws := [draw, draw];
    var c := PlanCoords(rp);
    assert GuidsBefore(rps, 1) == 1 && StatsBefore(rps, 1) == 1;
    assert GuidsBefore(rps, 2) == 2 && StatsBefore(rps, 2) == 2;
    assert RoomIds(rps, ids, 0) == ["a"] && RoomIds(rps, ids, 1) == ["b"];
    assert RoomDraws(rps, draws, 0) == [draw];
    PlannedTablesGrow(rps, ids, draws, 0, 0, 1);
    PlannedTablesGrow(rps, ids, draws, 0, 1, 2);
    assert PlannedRooms(rps, ids, 1) == map[c := PlanRoom(rp, ["a"])];
    var ms := PlannedMonsters(c, rp.monsters, [draw], 0);
    RegisterFacts(["a"], ms);
    assert RoomMonsters(rps, ids, draws, 0, 0) == Register(["a"], ms);
    var entities := PlannedEntities(rps, ids, draws, 0, 2);
    assert "a" in entities;
    assert multiset(PlannedRooms(rps, ids, 2)[c].guids)["a"] == 0;
  }

  // ---------------------------------------------------------------------
  // Views and small computations of the operations
  // ---------------------------------------------------------------------

  /** What a caller sees of the room at `c`. */
  function View(rooms: map<Coords, Room>, c: Coords): DataModel.Room
    requires c in rooms
  {
    DataModel.Room(rooms[c].description, Exits(rooms, c), rooms[c].guids)
  }

  /** What a caller sees of an inspected entity. */
  function EntityView(e: Entity): (v: DataModel.Entity)
    ensures v.life == e.hp && v.totalLife == e.maxHp
    ensures v.kind == DataModel.Player <==> e.kind.Player?
    ensures v.description == if e.kind.Player? then OTHER_PLAYER_DESCRIPTION else e.kind.description
  {
    match e.kind
    case Player => DataModel.Entity(OTHER_PLAYER_DESCRIPTION, DataModel.Player, e.hp, e.maxHp)
    case Monster(description) => DataModel.Entity(description, DataModel.Monster, e.hp, e.maxHp)
  }

  /** A newly connected player: full health at 100, dp 10. */
  function NewPlayer(location: Coords, now: int): (p: Entity)
    ensures p.kind == Player && p.hp == p.maxHp == 100 && p.dp == 10
    ensures p.location == location && p.afkSince == now
  {
    Entity(Player, PLAYER_MAX_HP, PLAYER_MAX_HP, PLAYER_DP, location, now)
  }

  /** The hp after entering a room: healed by its bonus, if any, but never above the maximum. */
  function RegenHp(hp: U32, maxHp: U32, regen: Option<U32>): (r: U32)
    requires regen.Some? ==> hp + regen.value < U32_LIMIT
    ensures regen.None? ==> r == hp
    ensures regen.Some? ==> r <= hp + regen.value && r <= maxHp && (r == hp + regen.value || r == maxHp)
    ensures hp <= maxHp ==> hp <= r <= maxHp
  {
    match regen
    case Some(value) => if hp + value < maxHp then hp + value else maxHp
    case None => hp
  }

  /** The players whose last action is more than `threshold` before `now`. */
  function IdlePlayers(entities: map<Guid, Entity>, threshold: int, now: int): (idle: set<Guid>)
    ensures idle <= entities.Keys
    ensures forall g :: g in idle <==> g in entities && entities[g].kind.Player? && now - entities[g].afkSince > threshold
  {
    set g | g in entities && entities[g].kind.Player? && now - entities[g].afkSince > threshold
  }

  /** A player idle at one reading of the clock is idle at every later one. */
  lemma IdleGrowsWithTime(entities: map<Guid, Entity>, threshold: int, now: int, later: int)
    requires now <= later
    ensures IdlePlayers(entities, threshold, now) <= IdlePlayers(entities, threshold, later)
  {
  }

  /** An entity that has just acted is not idle, whatever the (non-negative) threshold. */
  lemma ActedNotIdle(entities: map<Guid, Entity>, g: Guid, threshold: int, now: int)
    requires g in entities && threshold >= 0
    ensures g !in IdlePlayers(entities[g := entities[g].(afkSince := now)], threshold, now)
  {
  }

  /** Every room's list with the identifiers in `gone` deleted. */
  function Purged(rooms: map<Coords, Room>, gone: set<Guid>): (r: map<Coords, Room>)
    ensures r.Keys == rooms.Keys
    ensures forall c :: c in r ==> r[c] == rooms[c].(guids := WithoutAll(rooms[c].guids, gone))
  {
    map c | c in rooms :: rooms[c].(guids := WithoutAll(rooms[c].guids, gone))
  }

  /** Purging nothing leaves every room as it was. */
  lemma NothingGoneAnywhere(rooms: map<Coords, Room>)
    ensures Purged(rooms, {}) == rooms
  {
    forall c | c in rooms
      ensures Purged(rooms, {})[c] == rooms[c]
    {
      NothingGone(rooms[c].guids);
    }
  }

  /** The identifiers of the first `k` collected (location, identifier) pairs. */
  function FirstGuids(pairs: seq<(Coords, Guid)>, k: nat): set<Guid>
    requires k <= |pairs|
  {
    set j | 0 <= j < k :: pairs[j].1
  }

  /** One more pair adds its identifier. */
  lemma FirstGuidsGrow(pairs: seq<(Coords, Guid)>, k: nat)
    requires k < |pairs|
    ensures FirstGuids(pairs, k + 1) == FirstGuids(pairs, k) + {pairs[k].1}
  {
  }

  /** Appending a pair adds its identifier to those of the whole list. */
  lemma FirstGuidsSnoc(pairs: seq<(Coords, Guid)>, p: (Coords, Guid))
    ensures FirstGuids(pairs + [p], |pairs| + 1) == FirstGuids(pairs, |pairs|) + {p.1}
  {
    var longer := pairs + [p];
    assert FirstGuids(longer, |pairs|) == FirstGuids(pairs, |pairs|) by {
      forall j | 0 <= j < |pairs|
        ensures longer[j] == pairs[j]
      {
      }
    }
    FirstGuidsGrow(longer, |pairs|);
  }

  /**
   * In a consistent world, deleting one more entity from the list of the room
   * it stands in extends a purge by that entity: no other room lists it.
   */
  lemma PurgedStep(rooms: map<Coords, Room>, entities: map<Guid, Entity>, spawn: Coords, gone: set<Guid>, g: Guid)
    requires Consistent(rooms, entities, spawn) && g in entities
    ensures var purged, c := Purged(rooms, gone), entities[g].location;
      c in purged && purged[c := purged[c].(guids := Without(purged[c].guids, g))] == Purged(rooms, gone + {g})
  {
    var purged, c := Purged(rooms, gone), entities[g].location;
    var after := Purged(rooms, gone + {g});
    forall c' | c' in rooms
      ensures purged[c := purged[c].(guids := Without(purged[c].guids, g))][c'] == after[c']
    {
      if c' == c {
        WithoutAllThenWithout(rooms[c].guids, gone, g);
      } else {
        assert g !in rooms[c'].guids;
        WithoutAllAbsent(rooms[c'].guids, gone, {g});
      }
    }
  }

  /** Who dies in an exchange that leaves the two sides with `attackerHp` and `defenderHp`. */
  function Casualties(attacker: Guid, defender: Guid, attackerHp: U32, defenderHp: U32): set<Guid>
  {
    (if attackerHp == 0 then {attacker} else {}) + (if defenderHp == 0 then {defender} else {})
  }

  /** The table after one side of an exchange: the entity takes `hp`, or leaves the table at zero. */
  function Wounded(entities: map<Guid, Entity>, g: Guid, hp: U32): map<Guid, Entity>
    requires g in entities
  {
    if hp == 0 then entities - {g} else entities[g := entities[g].(hp := hp)]
  }

  /** The rooms after one side of an exchange: at zero hp the entity leaves the list of the room at `location`. */
  function Buried(rooms: map<Coords, Room>, location: Coords, g: Guid, hp: U32): map<Coords, Room>
    requires location in rooms
  {
    if hp == 0 then rooms[location := rooms[location].(guids := Without(rooms[location].guids, g))] else rooms
  }

  /** The table after an exchange: the attacker's side first, then the defender's if it is still there. */
  function Struck(entities: map<Guid, Entity>, attacker: Guid, defender: Guid, attackerHp: U32, defenderHp: U32): map<Guid, Entity>
    requires attacker in entities && defender in entities
  {
    var hit := Wounded(entities, attacker, attackerHp);
    if defender in hit then Wounded(hit, defender, defenderHp) else hit
  }

  /**
   * An exchange that only lowers hp removes exactly the dead, changes nobody
   * but the two fighters, and changes nothing about them but their hp.
   */
  lemma StruckFacts(entities: map<Guid, Entity>, attacker: Guid, defender: Guid, attackerHp: U32, defenderHp: U32)
    requires attacker in entities && defender in entities
    requires attackerHp <= entities[attacker].hp && defenderHp <= entities[defender].hp
    requires attacker == defender ==> attackerHp == defenderHp
    ensures var after := Struck(entities, attacker, defender, attackerHp, defenderHp);
      after.Keys == entities.Keys - Casualties(attacker, defender, attackerHp, defenderHp)
      && (forall g :: g in after ==> after[g] == entities[g].(hp := after[g].hp) && after[g].hp <= entities[g].hp)
      && (forall g :: g in after && g != attacker && g != defender ==> after[g] == entities[g])
      && (attacker in after ==> after[attacker].hp == attackerHp > 0)
      && (defender in after ==> after[defender].hp == defenderHp > 0)
  {
  }

  /** One side of an exchange that only lowers hp keeps the invariant; the entity is listed where it stands. */
  lemma WoundPreserves(rooms: map<Coords, Room>, entities: map<Guid, Entity>, spawn: Coords, g: Guid, hp: U32)
    requires Consistent(rooms, entities, spawn) && g in entities && hp <= entities[g].hp
    ensures var c := entities[g].location;
      c in rooms && g in rooms[c].guids && Consistent(Buried(rooms, c, g, hp), Wounded(entities, g, hp), spawn)
  {
    var hurt := entities[g].(hp := hp);
    UpdatePreserves(rooms, entities, spawn, g, hurt);
    if hp == 0 {
      EvictPreserves(rooms, entities[g := hurt], spawn, g);
      assert entities[g := hurt] - {g} == entities - {g};
    }
  }

  /** Both sides' burials, one after the other, delete exactly the dead from the room's list. */
  lemma BuriedTwice(rooms: map<Coords, Room>, location: Coords, attacker: Guid, defender: Guid, attackerHp: U32, defenderHp: U32)
    requires location in rooms
    ensures Buried(Buried(rooms, location, attacker, attackerHp), location, defender, defenderHp)
      == rooms[location := rooms[location].(guids := WithoutAll(rooms[location].guids, Casualties(attacker, defender, attackerHp, defenderHp)))]
  {
    var guids := rooms[location].guids;
    var gone := Casualties(attacker, defender, attackerHp, defenderHp);
    if attackerHp == 0 && defenderHp == 0 {
      assert gone == {attacker} + {defender};
      WithoutAllThenWithout(guids, {attacker}, defender);
    } else if attackerHp == 0 {
      assert gone == {attacker};
    } else if defenderHp == 0 {
      assert gone == {defender};
    } else {
      assert gone == {};
      NothingGone(guids);
      assert rooms[location := rooms[location].(guids := guids)] == rooms;
    }
  }

  // ---------------------------------------------------------------------
  // The world
  // ---------------------------------------------------------------------

  /** The loop of world generation: each room plan materialised in order into the two tables. */
  method GenerateTables(rps: seq<RoomPlan>, ids: seq<Guid>, draws: seq<Draw>, now: int)
    returns (rooms: map<Coords, Room>, entities: map<Guid, Entity>)
    requires |ids| == GuidsNeeded(rps) && |draws| == StatsNeeded(rps)
    ensures rooms == PlannedRooms(rps, ids, |rps|)
    ensures entities == PlannedEntities(rps, ids, draws, now, |rps|)
  {
    rooms := map[];
    entities := map[];
    var i := 0;
    while i < |rps|
      invariant i <= |rps| && GuidsBefore(rps, i) <= |ids| && StatsBefore(rps, i) <= |draws|
      invariant rooms == PlannedRooms(rps, ids, i)
      invariant entities == PlannedEntities(rps, ids, draws, now, i)
    {
      rooms, entities := GenerateStep(rps, ids, draws, now, i, rooms, entities);
      i := i + 1;
    }
  }

  /** One round of the generation loop: room plan `i` materialised into the tables of the plans before it. */
  method GenerateStep(rps: seq<RoomPlan>, ids: seq<Guid>, draws: seq<Draw>, now: int, i: nat,
                      rooms: map<Coords, Room>, entities: map<Guid, Entity>)
    returns (rooms': map<Coords, Room>, entities': map<Guid, Entity>)
    requires i < |rps| && |ids| == GuidsNeeded(rps) && |draws| == StatsNeeded(rps)
    requires GuidsBefore(rps, i) <= |ids| && StatsBefore(rps, i) <= |draws|
    requires rooms == PlannedRooms(rps, ids, i) && entities == PlannedEntities(rps, ids, draws, now, i)
    ensures GuidsBefore(rps, i + 1) <= |ids| && StatsBefore(rps, i + 1) <= |draws|
    ensures rooms' == PlannedRooms(rps, ids, i + 1) && entities' == PlannedEntities(rps, ids, draws, now, i + 1)
  {
    NeedsMonotone(rps, i + 1, |rps|);
    PlannedTablesGrow(rps, ids, draws, now, i, i + 1);
    var coords, room, roomEntities := GenerateWithCoordsAndEntities(rps[i], RoomIds(rps, ids, i), RoomDraws(rps, draws, i), now);
    assert roomEntities == RoomMonsters(rps, ids, draws, now, i);
    rooms' := rooms[coords := room];
    entities' := entities + roomEntities;
  }

  /** The world: rooms by position, entities by identifier, the spawn point and the idleness threshold. */
  class World {
    var rooms: map<Coords, Room>
    var entities: map<Guid, Entity>
    var spawn: Coords
    var afkThreshold: int

    ghost predicate Valid()
      reads this
    {
      Consistent(rooms, entities, spawn)
    }

    /** An empty world with its spawn point at the origin and a sixty-second idleness threshold. */
    constructor ()
      ensures rooms == map[] && entities == map[] && spawn == Coords(0, 0) && afkThreshold == AFK_THRESHOLD
    {
      rooms := map[];
      entities := map[];
      spawn := Coords(0, 0);
      afkThreshold := AFK_THRESHOLD;
    }

    /**
     * The world a plan describes, its room plans materialised in order. `ids`
     * are the identifiers the monsters receive, in order, and `draws` the
     * stats of the random monsters.
     */
    static method Generate(plan: WorldPlan, ids: seq<Guid>, draws: seq<Draw>, now: int) returns (w: World)
      requires |ids| == GuidsNeeded(plan.rooms)
      requires |draws| == StatsNeeded(plan.rooms)
      ensures fresh(w)
      ensures w.rooms == PlannedRooms(plan.rooms, ids, |plan.rooms|)
      ensures w.entities == PlannedEntities(plan.rooms, ids, draws, now, |plan.rooms|)
      ensures w.spawn == PlanSpawn(plan) && w.afkThreshold == AFK_THRESHOLD
      ensures Distinct(ids) && WellFormedPlan(plan) ==> w.Valid()
    {
      var rooms, entities := GenerateTables(plan.rooms, ids, draws, now);
      w := new World();
      w.rooms, w.entities := rooms, entities;
      w.spawn := PlanSpawn(plan);
      if Distinct(ids) && WellFormedPlan(plan) {
        PlannedWorldConsistent(plan, ids, draws, now);
      }
    }

    /** The directions out of `coords` that lead to a room, in the order N, S, E, W. */
    method GetDirectionsForCoordinates(coords: Coords) returns (directions: seq<Direction>)
      ensures directions == Exits(rooms, coords)
    {
      directions := [];
      match coords.North() {
        case Some(c) => if c in rooms { directions := directions + [DataModel.N]; }
        case None =>
      }
      ghost var open := if Open(rooms, coords, DataModel.N) then [DataModel.N] else [];
      assert directions == open;
      match coords.South() {
        case Some(c) => if c in rooms { directions := directions + [DataModel.S]; }
        case None =>
      }
      open := open + if Open(rooms, coords, DataModel.S) then [DataModel.S] else [];
      assert directions == open;
      match coords.East() {
        case Some(c) => if c in rooms { directions := directions + [DataModel.E]; }
        case None =>
      }
      open := open + if Open(rooms, coords, DataModel.E) then [DataModel.E] else [];
      assert directions == open;
      match coords.West() {
        case Some(c) => if c in rooms { directions := directions + [DataModel.W]; }
        case None =>
      }
      open := open + if Open(rooms, coords, DataModel.W) then [DataModel.W] else [];
      assert directions == open;
      ExitsInOrder(rooms, coords);
    }

    /** The room the entity stands in. */
    method Look(guid: Guid) returns (r: Result<DataModel.Room, WorldError>)
      ensures guid !in entities ==> r == Failure(DataModel.EntityNotFound(guid))
      ensures guid in entities && entities[guid].location !in rooms ==> r == Failure(DataModel.Wall)
      ensures guid in entities && entities[guid].location in rooms ==> r == Success(View(rooms, entities[guid].location))
      ensures Valid() && guid in entities ==> r.Success? && guid in r.value.entities
    {
      if guid !in entities {
        return Failure(DataModel.EntityNotFound(guid));
      }
      var coords := entities[guid].location;
      if coords !in rooms {
        return Failure(DataModel.Wall);
      }
      var room := rooms[coords];
      var paths := GetDirectionsForCoordinates(coords);
      r := Success(DataModel.Room(room.description, paths, room.guids));
    }

    /** Another entity, as seen by `guid`; only entities in the same room can be inspected. */
    function LookEntity(guid: Guid, guidDest: Guid): (r: Result<DataModel.Entity, WorldError>)
      reads this
      ensures guid !in entities ==> r == Failure(DataModel.EntityNotFound(guid))
      ensures guid in entities && guidDest !in entities ==> r == Failure(DataModel.EntityNotFound(guidDest))
      ensures guid in entities && guidDest in entities ==>
        (r.Success? <==> entities[guid].location == entities[guidDest].location)
        && (r.Failure? ==> r.error == DataModel.DiffRoom)
      ensures r.Success? ==> (
        guidDest in entities
        && r.value.life == entities[guidDest].hp && r.value.totalLife == entities[guidDest].maxHp
        && (r.value.kind == DataModel.Player <==> entities[guidDest].kind.Player?)
        && r.value.description
           == (if entities[guidDest].kind.Player? then OTHER_PLAYER_DESCRIPTION else entities[guidDest].kind.description))
    {
      if guid !in entities then Failure(DataModel.EntityNotFound(guid))
      else if guidDest !in entities then Failure(DataModel.EntityNotFound(guidDest))
      else if entities[guid].location != entities[guidDest].location then Failure(DataModel.DiffRoom)
      else Success(EntityView(entities[guidDest]))
    }

    /** In a consistent world, one entity can inspect another exactly when some room lists both. */
    lemma LookEntityIffListedTogether(guid: Guid, guidDest: Guid)
      requires Valid() && guid in entities && guidDest in entities
      ensures LookEntity(guid, guidDest).Success?
          <==> exists c :: c in rooms && guid in rooms[c].guids && guidDest in rooms[c].guids
    {
      var c := entities[guid].location;
      assert guid in rooms[c].guids;
      if entities[guidDest].location == c {
        assert guidDest in rooms[c].guids;
      }
    }
  
    /** A new player in the spawn room, appended to its list, with full health. */
    method Connect(guid: Guid, now: int) returns (r: Result<DataModel.Status, WorldError>)
      modifies this
      ensures spawn == old(spawn) && afkThreshold == old(afkThreshold)
      ensures spawn !in old(rooms) ==>
        r == Failure(DataModel.Wall) && rooms == old(rooms) && entities == old(entities)
      ensures spawn in old(rooms) && guid in old(rooms)[spawn].guids ==>
        r == Failure(DataModel.Other(ALREADY_PRESENT)) && rooms == old(rooms) && entities == old(entities)
      ensures spawn in old(rooms) && guid !in old(rooms)[spawn].guids ==> (
        rooms == old(rooms)[spawn := old(rooms)[spawn].(guids := old(rooms)[spawn].guids + [guid])]
        && entities == old(entities)[guid := NewPlayer(spawn, now)]
        && r == Success(DataModel.Status(guid, PLAYER_MAX_HP, View(rooms, spawn))))
      ensures old(Valid()) && guid !in old(entities) ==> Valid() && r.Success? && guid in r.value.room.entities
    {
      var coords := spawn;
      if coords !in rooms {
        return Failure(DataModel.Wall);
      }
      var player := NewPlayer(coords, now);
      var (room, added) := rooms[coords].AddGuid(guid);
      if added.Fail? {
        return Failure(added.error);
      }
      rooms := rooms[coords := room];
      entities := entities[guid := player];
      var paths := GetDirectionsForCoordinates(coords);
      r := Success(DataModel.Status(guid, PLAYER_MAX_HP, DataModel.Room(room.description, paths, room.guids)));
      if old(Valid()) && guid !in old(entities) {
        AdmitPreserves(old(rooms), old(entities), spawn, guid, player);
      }
    }

    /** Stamps an entity's last activity with `now`. */
    method PlayerActed(guid: Guid, now: int) returns (res: Outcome<WorldError>)
      modifies this
      ensures rooms == old(rooms) && spawn == old(spawn) && afkThreshold == old(afkThreshold)
      ensures guid !in old(entities) ==> res == Fail(DataModel.EntityNotFound(guid)) && entities == old(entities)
      ensures guid in old(entities) ==> res == Pass && entities == old(entities)[guid := old(entities)[guid].(afkSince := now)]
      ensures old(Valid()) ==> Valid()
    {
      if guid !in entities {
        return Fail(DataModel.EntityNotFound(guid));
      }
      entities := entities[guid := entities[guid].(afkSince := now)];
      res := Pass;
      if old(Valid()) {
        UpdatePreserves(rooms, old(entities), spawn, guid, entities[guid]);
      }
    }

    /** Whether a move's arithmetic stays inside the machine integers. */
    predicate MoveInBounds(guid: Guid, direction: Direction)
      reads this
    {
      guid in entities ==> (
        CanStep(entities[guid].location, direction)
        && var dest := Step(entities[guid].location, direction);
           dest in rooms && rooms[dest].hpRegen.Some? ==> entities[guid].hp + rooms[dest].hpRegen.value < U32_LIMIT)
    }

    /**
     * Moves an entity one step. The entity's activity is stamped first, even
     * when the move then fails; on success it leaves its room's list, joins the
     * end of the destination's, and heals by the destination's bonus.
     */
    method Move(guid: Guid, direction: Direction, now: int) returns (r: Result<DataModel.Room, WorldError>)
      requires MoveInBounds(guid, direction)
      modifies this
      ensures spawn == old(spawn) && afkThreshold == old(afkThreshold)
      ensures guid !in old(entities) ==>
        r == Failure(DataModel.EntityNotFound(guid)) && rooms == old(rooms) && entities == old(entities)
      ensures guid in old(entities) && Step(old(entities)[guid].location, direction) !in old(rooms) ==>
        r == Failure(DataModel.Wall) && rooms == old(rooms)
        && entities == old(entities)[guid := old(entities)[guid].(afkSince := now)]
      ensures old(Valid()) && guid in old(entities) && Step(old(entities)[guid].location, direction) in old(rooms) ==> (
        var e := old(entities)[guid];
        var origin := e.location;
        var dest := Step(origin, direction);
        rooms == old(rooms)[origin := old(rooms)[origin].(guids := Without(old(rooms)[origin].guids, guid))]
                           [dest := old(rooms)[dest].(guids := old(rooms)[dest].guids + [guid])]
        && entities == old(entities)[guid := e.(afkSince := now, hp := RegenHp(e.hp, e.maxHp, old(rooms)[dest].hpRegen), location := dest)]
        && r == Success(View(rooms, dest)))
      ensures r.Failure? ==>
        r.error in {DataModel.EntityNotFound(guid), DataModel.Wall, DataModel.DiffRoom, DataModel.Other(ALREADY_PRESENT)}
      ensures old(Valid()) ==> Valid()
    {
      var acted := PlayerActed(guid, now);
      if acted.Fail? {
        return Failure(acted.error);
      }
      ghost var stamped := entities;
      var coords := entities[guid].location;
      var newCoords := Step(coords, direction);
      if newCoords !in rooms {
        return Failure(DataModel.Wall);
      }
      StepAgreesWithNeighbour(coords, direction);
      if old(Valid()) {
        ListedOnlyAtHome(rooms, entities, spawn, guid, newCoords);
      }
      var moved := Relocate(guid, coords, newCoords);
      if moved.Fail? {
        return Failure(moved.error);
      }
      var nextRoom := rooms[newCoords];
      var hp := RegenHp(entities[guid].hp, entities[guid].maxHp, nextRoom.hpRegen);
      entities := entities[guid := entities[guid].(hp := hp, location := newCoords)];
      assert entities == old(entities)[guid := old(entities)[guid].(afkSince := now, hp := hp, location := newCoords)];
      var paths := GetDirectionsForCoordinates(newCoords);
      r := Success(DataModel.Room(nextRoom.description, paths, nextRoom.guids));
      if old(Valid()) {
        assert entities == stamped[guid := entities[guid]];
        RelocatePreserves(old(rooms), stamped, spawn, guid, entities[guid]);
      }
    }

    /**
     * One exchange of blows between two entities in the same room. The
     * attacker's activity is stamped first. Each side loses the other's dp,
     * down to zero, both computed from the hp before the exchange; the
     * attacker's new hp is stored first, and each side that reaches zero is
     * taken off its room's list and out of the table. An attacker that dies
     * gets `Disappeared` instead of the fight's outcome.
     */
    method Attack(attacker: Guid, defender: Guid, now: int) returns (r: Result<DataModel.Fight, WorldError>)
      modifies this
      ensures spawn == old(spawn) && afkThreshold == old(afkThreshold)
      ensures attacker !in old(entities) ==>
        r == Failure(DataModel.EntityNotFound(attacker)) && rooms == old(rooms) && entities == old(entities)
      ensures attacker in old(entities) && defender !in old(entities) ==>
        r == Failure(DataModel.EntityNotFound(defender)) && rooms == old(rooms)
        && entities == old(entities)[attacker := old(entities)[attacker].(afkSince := now)]
      ensures (attacker in old(entities) && defender in old(entities)
               && old(entities)[attacker].location != old(entities)[defender].location) ==>
        r == Failure(DataModel.DiffRoom) && rooms == old(rooms)
        && entities == old(entities)[attacker := old(entities)[attacker].(afkSince := now)]
      ensures (old(Valid()) && attacker in old(entities) && defender in old(entities)
               && old(entities)[attacker].location == old(entities)[defender].location) ==> (
        var a, d := old(entities)[attacker], old(entities)[defender];
        var attackerHp, defenderHp := SaturatingSub(a.hp, d.dp), SaturatingSub(d.hp, a.dp);
        rooms == old(rooms)[a.location := old(rooms)[a.location].(guids :=
                   WithoutAll(old(rooms)[a.location].guids, Casualties(attacker, defender, attackerHp, defenderHp)))]
        && entities == Struck(old(entities)[attacker := a.(afkSince := now)], attacker, defender, attackerHp, defenderHp)
        && r == if attackerHp == 0 then Failure(if attacker == defender then DataModel.EntityNotFound(defender) else DataModel.Disappeared)
                else Success(DataModel.Fight(DataModel.Fighter(attacker, a.dp, attackerHp), DataModel.Fighter(defender, d.dp, defenderHp))))
      ensures r.Failure? ==> r.error in {DataModel.EntityNotFound(attacker), DataModel.EntityNotFound(defender),
                                         DataModel.DiffRoom, DataModel.Wall, DataModel.Disappeared}
      ensures old(Valid()) ==> Valid()
    {
      var acted := PlayerActed(attacker, now);
      if acted.Fail? {
        return Failure(acted.error);
      }
      ghost var stamped := entities;
      var a := entities[attacker];
      if defender !in entities {
        return Failure(DataModel.EntityNotFound(defender));
      }
      var d := entities[defender];
      if a.location != d.location {
        return Failure(DataModel.DiffRoom);
      }
      var attackerHp := SaturatingSub(a.hp, d.dp);
      var defenderHp := SaturatingSub(d.hp, a.dp);
      var dead := attackerHp == 0;
      if old(Valid()) {
        WoundPreserves(rooms, entities, spawn, attacker, attackerHp);
      }
      var wounded := Wound(attacker, attackerHp, a.location);
      if wounded.Fail? {
        return Failure(wounded.error);
      }
      if defender !in entities {
        if old(Valid()) {
          assert Casualties(attacker, defender, attackerHp, defenderHp) == {attacker};
        }
        return Failure(DataModel.EntityNotFound(defender));
      }
      if old(Valid()) {
        WoundPreserves(rooms, entities, spawn, defender, defenderHp);
      }
      wounded := Wound(defender, defenderHp, d.location);
      if wounded.Fail? {
        return Failure(wounded.error);
      }
      if old(Valid()) {
        BuriedTwice(old(rooms), a.location, attacker, defender, attackerHp, defenderHp);
      }
      if dead {
        return Failure(DataModel.Disappeared);
      }
      r := Success(DataModel.Fight(DataModel.Fighter(attacker, a.dp, attackerHp), DataModel.Fighter(defender, d.dp, defenderHp)));
    }

    /**
     * The players idle for longer than the threshold, with the positions they
     * stand at, in the order a walk over the table meets them; the walk's
     * order is left open, as the table's is.
     */
    method CollectIdle(now: int) returns (idle: seq<(Coords, Guid)>)
      ensures FirstGuids(idle, |idle|) == IdlePlayers(entities, afkThreshold, now)
      ensures forall k :: 0 <= k < |idle| ==> idle[k].1 in entities && idle[k].0 == entities[idle[k].1].location
      ensures forall i, j :: 0 <= i < j < |idle| ==> idle[i].1 != idle[j].1
    {
      var pending := entities.Keys;
      idle := [];
      while pending != {}
        invariant pending <= entities.Keys
        invariant FirstGuids(idle, |idle|) == IdlePlayers(entities, afkThreshold, now) - pending
        invariant forall k :: 0 <= k < |idle| ==>
          idle[k].1 in entities && idle[k].1 !in pending && idle[k].0 == entities[idle[k].1].location
        invariant forall i, j :: 0 <= i < j < |idle| ==> idle[i].1 != idle[j].1
        decreases pending
      {
        var guid :| guid in pending;
        pending := pending - {guid};
        var e := entities[guid];
        match e.kind {
          case Monster(_) =>
          case Player =>
            if now - e.afkSince > afkThreshold {
              FirstGuidsSnoc(idle, (e.location, guid));
              idle := idle + [(e.location, guid)];
            }
        }
      }
    }

    /**
     * Disconnects every player idle for longer than the threshold: collects
     * them first, then takes each off the list of the room it stood in and
     * out of the table, stopping at the first failure.
     */
    method DisconnectAfkPlayers(now: int) returns (res: Outcome<WorldError>)
      modifies this
      ensures spawn == old(spawn) && afkThreshold == old(afkThreshold)
      ensures res.Pass? ==> entities == old(entities) - IdlePlayers(old(entities), afkThreshold, now)
      ensures res.Pass? ==> IdlePlayers(entities, afkThreshold, now) == {}
      ensures res.Fail? ==> res.error == DataModel.Wall || res.error == DataModel.DiffRoom
      ensures old(Valid()) ==>
        res.Pass? && Valid() && rooms == Purged(old(rooms), IdlePlayers(old(entities), afkThreshold, now))
    {
      var idle := CollectIdle(now);
      res := EvictAll(idle);
    }

    /**
     * The second half of a sweep: takes each collected player off the list of
     * the room it stood in and out of the table, in order, stopping at the
     * first failure.
     */
    method EvictAll(idle: seq<(Coords, Guid)>) returns (res: Outcome<WorldError>)
      requires forall k :: 0 <= k < |idle| ==> idle[k].1 in entities && idle[k].0 == entities[idle[k].1].location
      requires forall i, j :: 0 <= i < j < |idle| ==> idle[i].1 != idle[j].1
      modifies this
      ensures spawn == old(spawn) && afkThreshold == old(afkThreshold)
      ensures res.Pass? ==> entities == old(entities) - FirstGuids(idle, |idle|)
      ensures res.Fail? ==> res.error == DataModel.Wall || res.error == DataModel.DiffRoom
      ensures Consistent(old(rooms), old(entities), old(spawn)) ==>
        res.Pass? && Consistent(rooms, entities, spawn) && rooms == Purged(old(rooms), FirstGuids(idle, |idle|))
    {
      ghost var valid := Consistent(rooms, entities, spawn);
      assert FirstGuids(idle, 0) == {};
      if valid {
        NothingGoneAnywhere(rooms);
      }
      for k := 0 to |idle|
        invariant spawn == old(spawn) && afkThreshold == old(afkThreshold)
        invariant entities == old(entities) - FirstGuids(idle, k)
        invariant valid ==> Consistent(rooms, entities, spawn) && rooms == Purged(old(rooms), FirstGuids(idle, k))
      {
        var (location, guid) := idle[k];
        assert guid !in FirstGuids(idle, k);
        if valid {
          ListedOnlyAtHome(rooms, entities, spawn, guid, location);
          EvictPreserves(rooms, entities, spawn, guid);
          PurgedStep(old(rooms), old(entities), spawn, FirstGuids(idle, k), guid);
        }
        ghost var done := FirstGuids(idle, k);
        var evicted := Evict(guid, location);
        if evicted.Fail? {
          return evicted;
        }
        FirstGuidsGrow(idle, k);
        assert (old(entities) - done) - {guid} == old(entities) - (done + {guid});
      }
      res := Pass;
    }

    /**
     * One side of an exchange: stores the entity's new hp and, at zero, takes
     * it off the list of the room at `location` and out of the table.
     */
    method Wound(guid: Guid, hp: U32, location: Coords) returns (res: Outcome<WorldError>)
      requires guid in entities
      modifies this
      ensures spawn == old(spawn) && afkThreshold == old(afkThreshold)
      ensures hp > 0 ==> res == Pass && rooms == old(rooms) && entities == Wounded(old(entities), guid, hp)
      ensures hp == 0 && location !in old(rooms) ==>
        res == Fail(DataModel.Wall) && rooms == old(rooms) && entities == old(entities)[guid := old(entities)[guid].(hp := 0)]
      ensures hp == 0 && location in old(rooms) ==> rooms == Buried(old(rooms), location, guid, hp)
      ensures hp == 0 && location in old(rooms) && guid !in old(rooms)[location].guids ==>
        res == Fail(DataModel.DiffRoom) && entities == old(entities)[guid := old(entities)[guid].(hp := 0)]
      ensures hp == 0 && location in old(rooms) && guid in old(rooms)[location].guids ==>
        res == Pass && entities == Wounded(old(entities), guid, hp)
    {
      var hurt := entities[guid].(hp := hp);
      entities := entities[guid := hurt];
      if hp > 0 {
        return Pass;
      }
      if location !in rooms {
        return Fail(DataModel.Wall);
      }
      var room, removed := rooms[location].RemoveGuid(guid);
      rooms := rooms[location := room];
      if removed.Fail? {
        return removed;
      }
      entities := entities - {guid};
      res := Pass;
      assert entities == old(entities) - {guid};
    }

    /**
     * Takes an entity off the list of the room at `origin` and puts it at the
     * end of the list of the room at `dest`; the first failing step ends it.
     */
    method Relocate(guid: Guid, origin: Coords, dest: Coords) returns (res: Outcome<WorldError>)
      requires dest in rooms
      modifies this
      ensures entities == old(entities) && spawn == old(spawn) && afkThreshold == old(afkThreshold)
      ensures rooms.Keys == old(rooms).Keys
      ensures rooms[dest].description == old(rooms)[dest].description && rooms[dest].hpRegen == old(rooms)[dest].hpRegen
      ensures origin !in old(rooms) ==> res == Fail(DataModel.Wall) && rooms == old(rooms)
      ensures origin in old(rooms) && guid !in old(rooms)[origin].guids ==> res == Fail(DataModel.DiffRoom) && rooms == old(rooms)
      ensures origin in old(rooms) && guid in old(rooms)[origin].guids ==> (
        var left := old(rooms)[origin := old(rooms)[origin].(guids := Without(old(rooms)[origin].guids, guid))];
        (guid in left[dest].guids ==> res == Fail(DataModel.Other(ALREADY_PRESENT)) && rooms == left)
        && (guid !in left[dest].guids ==> res == Pass && rooms == left[dest := left[dest].(guids := left[dest].guids + [guid])]))
    {
      if origin !in rooms {
        return Fail(DataModel.Wall);
      }
      var prevRoom, removed := rooms[origin].RemoveGuid(guid);
      if removed.Fail? {
        return removed;
      }
      rooms := rooms[origin := prevRoom];
      var (nextRoom, added) := rooms[dest].AddGuid(guid);
      if added.Fail? {
        return added;
      }
      rooms := rooms[dest := nextRoom];
      res := Pass;
    }

    /** Deletes an entity from the list of the room at `location`, then from the table. */
    method Evict(guid: Guid, location: Coords) returns (res: Outcome<WorldError>)
      modifies this
      ensures spawn == old(spawn) && afkThreshold == old(afkThreshold)
      ensures location !in old(rooms) ==> res == Fail(DataModel.Wall) && rooms == old(rooms) && entities == old(entities)
      ensures location in old(rooms) ==>
        rooms == old(rooms)[location := old(rooms)[location].(guids := Without(old(rooms)[location].guids, guid))]
      ensures location in old(rooms) && guid !in old(rooms)[location].guids ==>
        res == Fail(DataModel.DiffRoom) && entities == old(entities)
      ensures location in old(rooms) && guid in old(rooms)[location].guids ==>
        res == Pass && entities == old(entities) - {guid}
    {
      if location !in rooms {
        return Fail(DataModel.Wall);
      }
      var room, removed := rooms[location].RemoveGuid(guid);
      rooms := rooms[location := room];
      if removed.Fail? {
        return removed;
      }
      entities := entities - {guid};
      res := Pass;
    }
  }
}
