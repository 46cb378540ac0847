/**
  The fixed configuration of the Feed the Fish mod (FeedTheFishMod.java:22-35
  and the literals of the bread-use handler, :65-86).

  Distances are squared block distances. The source compares Java `double`
  values; this model compares exact reals, which is an idealisation.
 */
module Constants {

  /** Display name that marks a dropped bread item as fish food ("§eFish Food"). */
  const FishFoodName: string := "\U{00A7}eFish Food"

  /** The fish behaviour runs on one server tick in this many. */
  const TickInterval: int := 5

  /** At most this many fish that merely notice a piece of food are steered toward it per run. */
  const MaxFishPerFood: nat := 6

  /** A fish farther than this (squared) from the food ignores it. */
  const MaxNoticeDistanceSq: real := 49.0

  /** A fish strictly closer than this (squared) eats the food. */
  const EatDistanceSq: real := 0.36

  /** Fish food item age on spawn: 6000 - 900, i.e. 900 ticks (~45 s) before despawn. */
  const FoodAge: int := 6000 - 900

  /** Ticks before a player may pick the fish food back up. */
  const FoodPickupDelay: int := 25

  /** Horizontal spread factor applied to (random - 0.5). */
  const Spread: real := 0.6

  /** Height of the fish food above the water surface. */
  const SurfaceLift: real := 0.04

  /** Horizontal and vertical throw factors applied to the look vector. */
  const ThrowHorizontal: real := 0.18
  const ThrowVertical: real := 0.12
}
