# mungeon-server world engine, in Dafny

mungeon-server is a small multiplayer dungeon game served over HTTP. A world
is a grid of rooms. Each room has a description, an ordered list of the
identifiers of its occupants and an optional healing bonus. The rooms hold
monsters and players, and each monster or player has hit points (hp), a
maximum, damage points (dp), a position and the time of its last action.
Players connect at a spawn room. They look at their room or at another
entity, move one step north, south, east or west, and attack entities in
the same room. Players idle for more than sixty seconds are disconnected.
A world is generated from a plan that lists the rooms and their monsters.
Monsters are either given explicitly or drawn at random. A hex-string
seeder supplies deterministic byte streams.

This project models that engine and proves what it promises:

- wrappers.dfy: `Option`, `Result` and `Outcome` (success, or failure with an error).
- primitives.dfy: the machine integer types (`u8`, `u32`, `usize`, `isize`). It also has the `usize`-to-`isize` cast and `u32::saturating_sub`, written out.
- occupants.dfy: deleting identifiers from an occupant list, and duplicate-freedom of lists.
- gen_plan.dfy: the plan datatypes (src/gen_plan.rs), and how many identifiers and random draws a plan consumes.
- data_model.dfy: the values returned to callers and the error type (src/data_model.rs). It also has the JSON serialisation of errors.
- seed.dfy: the `Seeder` (src/seed.rs).
  - The hex seed is split into two-character chunks and each chunk is parsed.
  - The cursor walks round the byte store.
  - Draws are big-endian 32-bit words, optionally reduced into a range.
- world.dfy: the engine itself (src/world.rs).
  - Coordinates, entities and rooms are values.
  - Plan materialisation is a set of functions, with the loops that compute them.
  - The world is a class whose methods update its room and entity tables in place.

The world's invariant is `World.Consistent`. It holds four facts:

- every identifier a room lists belongs to an entity standing in that room;
- every entity stands in an existing room whose list names it exactly once;
- the spawn point holds a room;
- no entity has more hp than its maximum.

It follows that no room lists an identifier twice (`World.ConsistentListsDistinct`). How the invariant relates to each operation:

- Generation establishes it for every plan with distinct room positions and fresh identifiers whose spawn point is one of its rooms.
- Every state-changing operation the world offers its callers (connect, move, attack, disconnect), and stamping an action, states its error cases and that it preserves the invariant. Connecting, stamping an action, and the single-step helpers `Relocate`, `Wound` and `Evict` state their complete new state from any world. Move, attack and disconnect state it from a consistent world.

Foreign inputs are parameters:

- the uuid generator becomes `ids`, the sequence of identifiers to hand out;
- `fastrand` becomes `draws`, a sequence of stats within the generator's ranges;
- the monotonic clock becomes `now`, an integer number of nanoseconds.

Where the source's types do not line up, the model takes the evident reading:

- Coordinates in a plan are `usize` but world coordinates are `isize`. The model reinterprets them with the `as isize` cast.
- src/world.rs builds `EntityNotFound` and `Disappeared` errors that src/data_model.rs does not declare. The model's `WorldError` has all six variants. Only the four declared ones are serialised.

## Model

| member | source | states |
|---|---|---|
| Primitives.AsIsize | src/world.rs:100-103 | a plan coordinate up to `isize::MAX` is kept; a larger one wraps to the negative value 2^64 below it |
| Primitives.SaturatingSub | src/world.rs:438-439 | the new hp never exceeds the old; it is zero exactly when the damage is at least the hp, and otherwise exactly hp minus damage |
| GenPlan.MonsterCount | src/gen_plan.rs:12-15 | a room without a monsters plan gets no monsters; a random plan gets its count; a defined plan gets one monster per entry |
| GenPlan.RandomCount | src/world.rs:62-72 | random draws are consumed only by a random plan, one per monster |
| DataModel.ToJsonString | src/data_model.rs:12-23 | every declared error serialises to the one-line object holding its tag, when it has one, and its message |
| DataModel.DeadJson | src/data_model.rs:14 | the exact text of the `Dead` error |
| DataModel.TypeTagRoundTrip | src/data_model.rs:12-23 | reading the "type" value back out of any serialised error gives that error's tag, and an `Other` error has none |
| DataModel.ReadTaggedObject | src/data_model.rs:14-20 | a tagged error object yields its tag when read back |
| DataModel.ReadUntaggedObject | src/data_model.rs:21 | an object with only a message yields no tag whatever the message |
| DataModel.FixedErrorsDistinguishable | src/data_model.rs:14-20 | `Dead`, `Wall` and `DiffRoom` carry tags, and no two of them carry the same tag |
| DataModel.OtherEmbedsMessage | src/data_model.rs:21 | an `Other` error's message appears verbatim, unescaped, after the fixed prefix, followed by exactly the closing `" }` |
| Seed.ByteLenAscii | src/seed.rs:22 | a seed's UTF-8 byte length is at least its character count, and equal exactly when the seed is ASCII |
| Seed.ParseHexDigits | src/seed.rs:34 | a chunk of one or two hex digits parses as a byte to its hexadecimal value |
| Seed.ParseHexRejects | src/seed.rs:34 | a chunk containing a non-hex character fails to parse, except for a leading '+' before a digit |
| Seed.PairsAt | src/seed.rs:17-31 | splitting into pairs gives ceil(n/2) chunks, chunk k being characters 2k and 2k+1 (the last one alone when n is odd) |
| Seed.SplitSeed | src/seed.rs:17-31 | the splitting loop yields exactly `SeedChunks`: consecutive character pairs, with a final odd character kept only when its index equals the byte length minus one |
| Seed.DecodeChunks | src/seed.rs:33-35 | decoding succeeds exactly when every chunk parses, and then yields each chunk's value, in order |
| Seed.HexSeedChunks | src/seed.rs:17-35 | for an all-hex seed every chunk parses, to the value of its two (or last single) digits |
| Seed.BadCharacterChunk | src/seed.rs:17-35 | in an ASCII seed, a non-hex character makes the chunk containing it fail to parse |
| Seed.NonAsciiTrailingDropped | src/seed.rs:22-24 | a non-ASCII seed of odd length loses its last character silently |
| Seed.ParseSeed | src/seed.rs:10-41 | parsing a seed succeeds exactly when every chunk parses; an all-hex seed always succeeds with one byte per chunk |
| Seed.AdvanceAdd | src/seed.rs:45 | advancing the cursor by a then b is advancing it by a + b |
| Seed.AdvanceFullCycle | src/seed.rs:45 | advancing the cursor by the store's length returns it to where it was |
| Seed.StreamAt | src/seed.rs:43-48 | the i-th byte drawn is the store's byte at the cursor advanced i times |
| Seed.StreamPeriodic | src/seed.rs:43-48 | the drawn bytes repeat with the store's length as period |
| Seed.BigEndianRoundTrip | src/seed.rs:50-55 | the word built from four bytes, most significant first, splits back into the same four bytes |
| Seed.ReduceToRange | src/seed.rs:58 | the reduced draw lies between the lower and upper bound inclusive |
| Seed.Seeder.constructor | src/seed.rs:37-40 | a new seeder holds the store with its cursor at zero |
| Seed.Seeder.TryFromSeed | src/seed.rs:10-41 | a seeder is built exactly when every chunk parses, holding the parsed bytes with the cursor at zero |
| Seed.Seeder.Seed | src/seed.rs:43-48 | returns the byte at the cursor and moves the cursor one place round the store |
| Seed.Seeder.SeedU32 | src/seed.rs:50-55 | returns the big-endian word of the next four bytes and moves the cursor four places round |
| Seed.Seeder.SeedU32Bounded | src/seed.rs:57-59 | returns the next word reduced into [lower, upper] and moves the cursor four places round |
| Seed.SameStateSameDraws | src/seed.rs:57-59 | two seeders with the same store and cursor draw the same bounded value and stay in step |
| World.Coords.North | src/world.rs:169-174 | the position one step north; none exactly when `y + 1` overflows `isize` |
| World.Coords.South | src/world.rs:176-181 | the position one step south; none exactly when `y - 1` overflows `isize` |
| World.Coords.East | src/world.rs:183-188 | the position one step east; none exactly when `x + 1` overflows `isize` |
| World.Coords.West | src/world.rs:190-195 | the position one step west; none exactly when `x - 1` overflows `isize` |
| World.StepAgreesWithNeighbour | src/world.rs:355-361 | a move's in-place step succeeds exactly when the checked neighbour exists, and then lands on that neighbour; the step always changes position, and the opposite step undoes it |
| World.RandomMonster | src/world.rs:31-42 | a random monster has the default description, full health between 30 and 149, and dp between 10 and 29 |
| World.GenerateMonster | src/world.rs:44-60 | a defined monster has full health at the planned hp, the planned dp, and the planned or the default description |
| World.RandomMonstersFacts | src/world.rs:64-71 | the k-th random monster is made from the k-th draw |
| World.DefinedMonstersFacts | src/world.rs:73-84 | the k-th defined monster is made from the k-th plan entry |
| World.PlannedMonstersFacts | src/world.rs:62-86 | every planned monster stands in its room at full health; random ones carry their draws, defined ones their planned stats |
| World.GenerateMonsters | src/world.rs:62-86 | the loops produce exactly the planned monsters, in plan order |
| World.Room.AddGuid | src/world.rs:150-159 | an identifier already listed is refused with the "already present" error and the room is unchanged; otherwise it is appended at the end, deleting it again restores the list, and duplicate-freedom is kept |
| World.Room.RemoveGuid | src/world.rs:133-148 | the corrected deletion (see Findings): the identifier is deleted and the others keep their order and count; `DiffRoom` and an unchanged room exactly when it was not listed; duplicate-freedom is kept |
| World.RemoveGuidAsWritten | src/world.rs:133-148 | the loop as written: when it does not panic it deletes one entry per listed copy of the identifier, though not necessarily the copies; a list without the identifier is left unchanged |
| World.RemoveGuidAsWrittenAgrees | src/world.rs:133-148 | on a list naming the identifier at most once, the loop as written deletes exactly that identifier |
| World.RemoveGuidAsWrittenMisdeletes | src/world.rs:136-141 | the loop as written turns ["a","a","b"] into ["a"] when deleting "a" |
| World.RemoveGuidAsWrittenPanics | src/world.rs:136-141 | the loop as written removes past the end of ["a","a"] when deleting "a" |
| World.ExitsSpec | src/world.rs:387-423 | a direction is listed exactly when its neighbour exists and holds a room, and the listed directions follow N, S, E, W without repeats |
| World.ExitsInOrder | src/world.rs:387-423 | the exits are N if open, then S if open, then E if open, then W if open |
| World.PlanRoom | src/world.rs:105-128 | a planned room has the planned or the default description, the planned bonus, and its monsters' identifiers in order |
| World.RegisterFacts | src/world.rs:113-117 | the room's table is keyed by exactly its identifiers and maps each to one of the monsters; when the identifiers are distinct, each maps to the monster it was handed out with |
| World.GenerateWithCoordsAndEntities | src/world.rs:97-131 | a room plan yields its position, its room and the table registering its monsters under the identifiers given |
| World.RoomMonstersFacts | src/world.rs:109-120 | a room's table holds exactly its identifiers, each for a monster in that room with hp at most its maximum |
| World.PlannedTablesGrow | src/world.rs:219-225 | each round of generation inserts the next room at its position and adds its monsters to the table |
| World.GenerateTables | src/world.rs:219-225 | the generation loop yields the rooms and entities that the whole plan describes |
| World.GenerateStep | src/world.rs:220-224 | one round of the loop turns the tables of the plans before it into those including it |
| World.ConsistentListsDistinct | src/world.rs:150-159 | in a consistent world no room lists an identifier twice |
| World.ListedOnlyAtHome | src/world.rs:362-366 | in a consistent world an entity is listed by the room it stands in and by no other |
| World.UpdatePreserves | src/world.rs:304-308 | changing an entity's fields other than position, with hp within its maximum, keeps the invariant |
| World.AdmitPreserves | src/world.rs:286-291 | a new entity appended to its room's list and added to the table keeps the invariant |
| World.EvictPreserves | src/world.rs:263-266 | deleting an entity from its room's list and from the table keeps the invariant |
| World.RelocatePreserves | src/world.rs:362-378 | moving an entity from its room's list to the end of another's keeps the invariant |
| World.PlannedWorldPrefix | src/world.rs:219-225 | with distinct positions and identifiers, the tables after every round of generation are consistent and keyed by the positions and identifiers used so far |
| World.PlannedWorldConsistent | src/world.rs:216-231 | a plan with distinct positions, fresh identifiers and a room at the spawn point yields a consistent world |
| World.DuplicatePositionOrphansMonster | src/world.rs:223-224 | two rooms planned at one position: the second replaces the first, whose monster stays in the table but is listed by no room |
| World.EntityView | src/world.rs:332-343 | the view of an entity shows its hp and maximum, its kind, and its description ("Another player" for a player) |
| World.NewPlayer | src/world.rs:275-284 | a new player has full health at 100, dp 10, the given position, and `now` as its last action |
| World.IdlePlayers | src/world.rs:250-261 | exactly the players of the table whose last action is more than the threshold before `now` |
| World.IdleGrowsWithTime | src/world.rs:256 | a player idle at one reading of the clock is idle at every later one |
| World.ActedNotIdle | src/world.rs:304-308 | an entity that has just acted is not idle, for any non-negative threshold |
| World.RegenHp | src/world.rs:373-376 | entering a room heals by its bonus, capped at the maximum; with no bonus hp is unchanged |
| World.PurgedStep | src/world.rs:263-266 | in a consistent world, deleting one more entity from its own room's list extends the sweep's purge by that entity |
| World.StruckFacts | src/world.rs:438-459 | after an exchange the table loses exactly the dead; only the two fighters change, only in hp, and survivors keep their positive new hp |
| World.WoundPreserves | src/world.rs:441-459 | one side of an exchange that only lowers hp keeps the invariant; the entity is listed where it stands |
| World.BuriedTwice | src/world.rs:445-456 | the two burials together delete exactly the dead from the room's list |
| World.World.constructor | src/world.rs:207-214 | an empty world with spawn at the origin and a sixty-second idleness threshold |
| World.World.Generate | src/world.rs:216-231 | the world holds exactly the planned rooms and monsters and the planned spawn point; it is consistent when positions and identifiers are distinct and the spawn room is planned |
| World.World.GetDirectionsForCoordinates | src/world.rs:387-423 | the directions listed are exactly the exits of the position (see `ExitsSpec`) |
| World.World.Look | src/world.rs:310-319 | an unknown entity gives `EntityNotFound`, a position without a room gives `Wall`, otherwise the room's view; in a consistent world a known entity sees its room, and itself listed in it |
| World.World.LookEntity | src/world.rs:321-345 | `EntityNotFound` for either unknown identifier; otherwise success exactly when both stand at the same position (`DiffRoom` if not), showing the target's hp, maximum, kind and description |
| World.World.LookEntityIffListedTogether | src/world.rs:321-345 | in a consistent world, inspection succeeds exactly when some room lists both entities |
| World.World.Connect | src/world.rs:271-302 | no spawn room gives `Wall`; an identifier already listed there gives "already present"; otherwise the new player is at full health (100, dp 10) at the end of the spawn room's list; the invariant is kept |
| World.World.PlayerActed | src/world.rs:304-308 | an unknown entity gives `EntityNotFound`; otherwise only its last-action time becomes `now` |
| World.World.Move | src/world.rs:347-385 | the activity stamp comes first; an unknown mover gives `EntityNotFound`, no room at the step gives `Wall` with only the stamp changed; from a consistent world the mover otherwise leaves its room's list, joins the end of the destination's and heals by its bonus; from any world the only errors are `EntityNotFound`, `Wall`, `DiffRoom` and "already present"; the invariant is kept |
| World.World.Attack | src/world.rs:425-478 | the attacker's stamp comes first; errors for unknown fighters and `DiffRoom` change nothing else; from a consistent world each side otherwise loses the other's dp, the dead leave their room's list and the table, and a dead attacker gets `Disappeared` (`EntityNotFound` when it attacked itself); from any world the only errors are `EntityNotFound` of either fighter, `DiffRoom`, `Wall` and `Disappeared`; the invariant is kept |
| World.World.CollectIdle | src/world.rs:248-261 | collects, once each, exactly the players idle for longer than the threshold, each with its position |
| World.World.DisconnectAfkPlayers | src/world.rs:247-269 | on success exactly the idle players leave the table and none remain; in a consistent world it succeeds, deletes them from every room's list and keeps the invariant |
| World.World.EvictAll | src/world.rs:263-267 | the collected players leave the table in order; only `Wall` or `DiffRoom` can stop it; in a consistent world it succeeds, purges their identifiers from the rooms and keeps the invariant |
| World.World.Wound | src/world.rs:443-459 | stores the new hp; at zero it deletes the entity from the room's list and from the table, with `Wall` or `DiffRoom` when the room or the listing is missing |
| World.World.Relocate | src/world.rs:362-366 | `Wall` if the origin has no room and `DiffRoom` if it does not list the mover, both with the rooms unchanged; otherwise the mover leaves the origin's list, and then either is refused with "already present" when the destination still lists it (leaving it off the origin's list and still on the destination's) or joins the end of the destination's list; origin and destination may coincide |
| World.World.Evict | src/world.rs:264-265 | `Wall` if there is no room at the position; otherwise the identifier is deleted from the room's list, and from the table when it was listed (else `DiffRoom`) |

## Left out

- src/server.rs, src/main.rs and src/dump.rs (the HTTP routes, the process entry point and the world dump) are not part of this model. Neither is the Rocket `Responder` of src/data_model.rs, which sends an error's JSON with status 409.
- Serde serialisation of the view types (field renames such as "vie" and "passages") is not modelled. The view types are plain datatypes.
- The uuid generator, `fastrand` and `Instant::now()` are parameters. A sweep of `DisconnectAfkPlayers` uses a single `now` for every entity, where the source reads the clock once per entity. Likewise `World.World.Generate` stamps every monster with one `now`, where the source reads `Instant::now()` once per monster; idleness only concerns players, so no monster's idle time is observed.
- `HashMap` iteration order is left open. `CollectIdle` picks the next entity arbitrarily, so its result is proved for every order.
- World.World.Move: the unchecked `isize` step and the `u32` addition `hp + value` of the healing overflow at the edges of their types. A debug build panics there; a release build wraps around. The model makes both a precondition, `MoveInBounds`, and so promises nothing for either build in those cases.
- World.RegenHp: requires `hp + bonus` to fit in a `u32`. Past that the source's addition panics in a debug build and wraps around in a release build.
- Seed.Seeder.Seed: requires a non-empty store; the source's indexing panics on an empty one in every build. `Seed.Seeder.SeedU32` and `Seed.Seeder.SameStateSameDraws` inherit this requirement.
- Seed.Seeder.SeedU32Bounded: requires `lower <= upper` and a range narrower than 2^32. Otherwise the source's `upper - lower + 1` overflows. A debug build panics there. A release build wraps around: with `lower > upper` it reduces into a wrapped range, and for the full range the wrapped width is zero and the remainder panics. The model promises nothing for those cases.
- Seed.ReduceToRange: requires the same bounds as `SeedU32Bounded`.
- Seed.ParseIntError does not distinguish the kinds of parse failure (empty, invalid digit, overflow).
- World.World.Generate: validity is promised only for plans with distinct positions, distinct identifiers and a planned spawn room. `DuplicatePositionOrphansMonster` shows what the source does otherwise.
- DataModel.ToJsonString is defined for the four variants src/data_model.rs declares. `EntityNotFound` and `Disappeared` have no serialisation in the source.
- The plan fields `new_max_hp` and `new_dp` are carried by `GenPlan.RoomPlan` but read by nothing in the engine, so no operation of the model uses them.
- World.Room.RemoveGuid, World.World.Evict, World.World.Wound and World.World.Relocate use the corrected deletion of the Findings table, not the loop of src/world.rs:136-141 as written. The same holds for World.World.EvictAll, World.World.DisconnectAfkPlayers, World.World.Move and World.World.Attack, which are built on them. The two agree whenever the room lists the identifier at most once (`World.RemoveGuidAsWrittenAgrees`), and a consistent world guarantees that (`World.ConsistentListsDistinct`). On a list with repeated copies the model deletes all of them, whereas the source deletes the wrong entry or panics.
- World.World.Move, World.World.Attack and World.World.DisconnectAfkPlayers promise their exact success state only when the world was consistent before the call. In an inconsistent world the source's later steps can fail after earlier updates. From any world the model states which errors are possible, but not the partial state such a failure leaves.

## Findings

| source | as written | input that shows it | evidently intended | confidence | as-written member | corrected member |
|---|---|---|---|---|---|---|
| src/world.rs:133-148 | `remove_guid` walks the indices of a snapshot of the list and removes each matching index from the live list, which has already shrunk after an earlier removal | deleting "a" from ["a","a","b"] gives ["a"] (deletes "b", keeps an "a"); deleting "a" from ["a","a"] removes past the end and panics | every occurrence of the identifier deleted, the rest kept in order | not executed | World.RemoveGuidAsWritten | World.Room.RemoveGuid |
