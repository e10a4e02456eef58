/**
 * The plan a world is materialised from (src/gen_plan.rs): a list of room
 * blueprints and a spawn point. The plan only carries data; the world engine
 * consumes it.
 */
module GenPlan {

  import opened Wrappers
  import opened Primitives

  /** An explicitly described monster: its stats and an optional flavour text. */
  datatype DefinedMonsterPlan = DefinedMonsterPlan(description: Option<string>, dp: U32, hp: U32)

  /** Either an explicit list of monsters or a number of randomly statted ones. */
  datatype MonstersPlan =
    | Defined(monsters: seq<DefinedMonsterPlan>)
    | Random(count: USize)

  /**
   * One room of the plan. Its coordinates are unsigned. `newMaxHp` and `newDp`
   * are carried by the plan but read by nothing in the engine.
   */
  datatype RoomPlan = RoomPlan(
    x: USize,
    y: USize,
    description: Option<string>,
    monsters: Option<MonstersPlan>,
    hpRegen: Option<U32>,
    newMaxHp: Option<U32>,
    newDp: Option<U32>)

  datatype WorldPlan = WorldPlan(rooms: seq<RoomPlan>, spawnX: USize, spawnY: USize)

  /** How many monsters a room of this plan is populated with. */
  function MonsterCount(m: Option<MonstersPlan>): (n: nat)
    ensures m.None? ==> n == 0
    ensures m.Some? && m.value.Random? ==> n == m.value.count
    ensures m.Some? && m.value.Defined? ==> n == |m.value.monsters|
  {
    match m
    case None => 0
    case Some(Random(count)) => count
    case Some(Defined(monsters)) => |monsters|
  }

  /** How many of them receive random stats. */
  function RandomCount(m: Option<MonstersPlan>): (n: nat)
    ensures n <= MonsterCount(m)
    ensures n > 0 ==> m.Some? && m.value.Random? && n == MonsterCount(m)
  {
    match m
    case Some(Random(count)) => count
    case _ => 0
  }

  /** The number of monsters, hence of fresh identifiers, the first `i` rooms need. */
  function GuidsBefore(rooms: seq<RoomPlan>, i: nat): nat
    requires i <= |rooms|
  {
    if i == 0 then 0 else GuidsBefore(rooms, i - 1) + MonsterCount(rooms[i - 1].monsters)
  }

  /** The number of random stat draws the first `i` rooms need. */
  function StatsBefore(rooms: seq<RoomPlan>, i: nat): nat
    requires i <= |rooms|
  {
    if i == 0 then 0 else StatsBefore(rooms, i - 1) + RandomCount(rooms[i - 1].monsters)
  }

  function GuidsNeeded(rooms: seq<RoomPlan>): nat
  {
    GuidsBefore(rooms, |rooms|)
  }

  function StatsNeeded(rooms: seq<RoomPlan>): nat
  {
    StatsBefore(rooms, |rooms|)
  }

  /** Fewer rooms need no more identifiers and draws. */
  lemma {:induction false} NeedsMonotone(rooms: seq<RoomPlan>, i: nat, j: nat)
    requires i <= j <= |rooms|
    ensures GuidsBefore(rooms, i) <= GuidsBefore(rooms, j)
    ensures StatsBefore(rooms, i) <= StatsBefore(rooms, j)
    decreases j - i
  {
    if i < j {
      NeedsMonotone(rooms, i, j - 1);
    }
  }
}
