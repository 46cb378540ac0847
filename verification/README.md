# Feed the Fish — a Dafny model

Feed the Fish is a Fabric mod for Minecraft with two callbacks. When a player
right-clicks water while holding bread, one bread is thrown onto the surface as
a named "§eFish Food" item. On every fifth server tick, each piece of fish food
attracts the living, submerged fish around it: up to six fish that notice it
(squared distance at most 49) are steered toward it. The first fish found
strictly within squared distance 0.36 eats: it is healed, particles and an
eating sound are emitted, and the food is removed.

This project models both callbacks as pure functions over immutable records
and proves their contracts.

- `constants.dfy` (`Constants`): the mod's constants.
- `entities.dfy` (`Entities`): the host objects the mod reads (fish, item
  entities, item stacks) and the two query filters.
- `tick_gate.dfy` (`TickGate`): the server-side, every-fifth-tick gate.
  Java's truncating `%` is written out.
- `matching.dfy` (`Matching`): the per-food scan `Chase`. It maps the food's
  candidate fish to a list of command tokens: `Move(i)`, `Heal(i)`,
  `Particles`, `EatSound`, `Discard`. Here `i` is the fish's index in the
  host's enumeration.
- `chase_loop.dfy` (`ChaseLoop`): the same scan written as the source's loop.
  It uses a `fishProcessed` counter, `continue` and `break`, and is proved
  equal to `Chase`.
- `chase_reference.dfy` (`ChaseReference`): a declarative description of the
  scan. Every noticing fish is steered up to the first stop position, where
  either the budget is spent or a fish eats. The eater, if any, is fed. The
  file also proves that the scan meets this description.
- `matching_properties.dfy` (`MatchingProperties`): properties of the scan.
  These cover far fish being invisible, a tight fan-out bound, a spent budget
  hiding later fish, the boundary radii and the first eater winning.
- `world_tick.dfy` (`WorldTick`): the whole tick. Every fish food item reacts
  through its own neighbourhood, and the total work is bounded per food.
- `bread_use.dfy` (`BreadUse`): the bread-use guard chain, the spawn
  placement, the spawned item's properties and the one-bread decrement.

The host's random source, raycast, fluid lookup, look vector and entity
queries are parameters. `Math.random()` becomes the `randomX`/`randomZ` fields
of a use event. Each entity query becomes a given sequence, in whatever order
the host enumerates. Each squared distance becomes a given `real`.

The code skips a fish only when `distanceSq > 49.0`, so a fish at exactly 49.0
is noticed.

## Model

| member | source | states |
|---|---|---|
| TickGate.JavaRem | FeedTheFishMod.java:98 | Java's `%` on `int` takes the sign of the dividend: the result is in [0, b) for a non-negative tick count and in (-b, 0] for a negative one, and differs from the dividend by a multiple of b |
| TickGate.JavaZeroRemainderAgrees | FeedTheFishMod.java:98 | a zero Java remainder modulo the interval is exactly a zero Euclidean remainder, for every tick count including negative ones |
| TickGate.ActiveTicksAreMultiples | FeedTheFishMod.java:93-99 | the fish behaviour runs exactly on server-side ticks that are multiples of 5, and on no other tick |
| Matching.Candidates | FeedTheFishMod.java:118-119 | a food's candidates are exactly the alive and submerged fish of its neighbourhood, each a valid index, once each and in enumeration order |
| Matching.Chase | FeedTheFishMod.java:115-152 | per food at most one fish is healed; the food is discarded exactly when a fish is healed; the fish steered, the eater included, never exceed the remaining budget of 6 |
| Matching.CommandsTargetCandidates | FeedTheFishMod.java:118-136 | every commanded fish is a candidate with squared distance at most 49; every healed fish has squared distance strictly below 0.36 |
| Matching.FoodActions | FeedTheFishMod.java:113-152 | for one food, only alive, submerged, noticing fish get commands; only eaters are healed; at most one heal; at most 6 move commands in all, the eater included |
| ChaseLoop.ChaseFood | FeedTheFishMod.java:113-152 | the loop with its `fishProcessed` counter, `continue` and `break` issues exactly the commands of the recursive scan, so at most one heal, only of an eater, and at most 6 moves |
| ChaseLoop.ChaseCandidates | FeedTheFishMod.java:115-152 | the loop over a candidate list is equal to the recursive scan started with an empty budget count |
| ChaseReference.FirstStop | FeedTheFishMod.java:121-135 | the scan's stop position: no candidate before it eats or meets a spent budget, and it is the end of the list, an eater, or a spent budget |
| ChaseReference.StopIsUnique | FeedTheFishMod.java:121-135 | the stop position is unique |
| ChaseReference.ChaseMatchesReference | FeedTheFishMod.java:115-152 | at its stop position the scan steers every noticing candidate before it, in order, and then feeds the candidate at the stop when it eats with budget left; nothing else is issued |
| ChaseReference.ChaseIsReference | FeedTheFishMod.java:115-152 | the scan equals the reference outcome at the first stop position, for every candidate list and starting count |
| MatchingProperties.FarFishAreInvisible | FeedTheFishMod.java:127-129 | deleting every fish beyond squared distance 49 from the candidates changes nothing, so far fish get no command and use no budget |
| MatchingProperties.HealEndsScan | FeedTheFishMod.java:132-148 | a heal comes right after that fish's own move command and is followed only by particles, the eating sound and the removal of the food |
| MatchingProperties.FanOutIsExact | FeedTheFishMod.java:121-151 | when every candidate notices and none eats, exactly min(candidates, remaining budget) fish are steered, none is fed and the food stays |
| MatchingProperties.SpentBudgetHidesLaterFish | FeedTheFishMod.java:121-123 | once 6 fish have been counted, any further candidates, near or far, eaters or not, change nothing |
| MatchingProperties.BoundaryFish | FeedTheFishMod.java:127-151 | a fish at exactly 49.0 or exactly 0.36 is steered and counted and is not fed |
| MatchingProperties.FirstEaterWins | FeedTheFishMod.java:135-148 | with several candidates inside the eat radius, the first is fed and the scan ends |
| WorldTick.FoodIndices | FeedTheFishMod.java:109-111 | the food query returns exactly the bread items named "§eFish Food", in enumeration order |
| WorldTick.EndWorldTick | FeedTheFishMod.java:92-154 | inactive ticks and the client side do nothing; on an active tick every fish food item reacts exactly once, in order, and only fish food reacts, each through its own neighbourhood |
| WorldTick.TickWorkIsBounded | FeedTheFishMod.java:109-152 | a tick issues at most 6 move commands and 1 heal per food item, and handles at most as many foods as there are items |
| BreadUse.UseItem | FeedTheFishMod.java:41-89 | the handler passes with the stack unchanged exactly when it is client side, the hand holds no bread, the hit is not a block, or the fluid is not water or has level 0; on success it uses exactly one bread and spawns a one-bread "§eFish Food" item with age 5100 and pickup delay 25 on the water surface, thrown with velocity (0.18 lookX, 0.12, 0.18 lookZ) |
| BreadUse.JitterStaysInBlock | FeedTheFishMod.java:65-67 | for a random draw in [0, 1) the horizontal spawn coordinate lies in [block + 0.2, block + 0.8) |
| BreadUse.SpawnLandsInHitBlock | FeedTheFishMod.java:65-67 | both horizontal coordinates of a spawned fish food lie in the middle of the hit block |
| BreadUse.SpawnedFoodIsFishFood | FeedTheFishMod.java:70-81 | the spawned item passes the tick callback's fish food filter |
| BreadUse.LastBreadEmptiesHand | FeedTheFishMod.java:86 | after a successful use the hand still holds bread exactly when it held more than one |

## Left out

- Mod registration (`onInitialize`, the `register` calls) is framework glue.
- The world-border box (FeedTheFishMod.java:101-106) and the food's bounding box expanded by 8 (:114) are host floating-point geometry. The items in the world box and the fish around each food are given sequences.
- Navigation, healing, particles, sounds and `discard` are recorded only as command tokens. The navigation speed 1.0, heal amount 1.0, particle counts, volumes and pitches are not carried by the tokens.
- The retrieve sound a successful bread use plays (:85) is not part of `UseResult`: every `Success` implies it.
- The raycast (reach 5.5), the fluid height lookup and the look vector are parameters of a use event. So are the two `Math.random()` draws; `BreadUse.JitterStaysInBlock` assumes they lie in [0, 1), as `Math.random()` guarantees.
- `double` arithmetic is modelled over exact reals. Rounding at the 49.0 and 0.36 thresholds and in the spawn arithmetic is not modelled.
- The server's 32-bit tick counter is an unbounded integer here, so its wrap-around after 2^31 ticks is not modelled.
- Stale handles are not modelled. Such handles come from a fish or food removed by the host between the query and a command. The host's command APIs absorb them. A food removed by the scan is not enumerated again within the same tick.
- Determinism across ticks needs no lemma: every member is a function of its inputs, so the same world gives the same commands.
