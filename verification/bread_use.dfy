/**
  The right-click-with-bread handler (FeedTheFishMod.java:41-89): a chain of
  guards that pass the interaction on unchanged, and on success one fish food
  item spawned on the water surface and one bread taken from the hand.
 */
module BreadUse {
  import opened Constants
  import opened Entities

  /** What the player's fluid-aware raycast hit; only a block hit carries a position. */
  datatype Hit = Miss | EntityHit | BlockHit(x: int, y: int, z: int)

  /** The fluid at the hit block: whether it is water, its level, and its surface height in the block. */
  datatype FluidState = FluidState(isWater: bool, level: nat, height: real)

  /**
    One use of an item. The raycast, the fluid lookup at the hit block, the two
    `Math.random()` draws and the look vector are supplied by the host.
   */
  datatype UseEvent = UseEvent(
    isClient: bool,
    held: Stack,
    hit: Hit,
    fluid: FluidState,
    randomX: real,
    randomZ: real,
    lookX: real,
    lookZ: real)

  /** The fish food item the handler spawns. */
  datatype SpawnedFood = SpawnedFood(
    x: real, y: real, z: real,
    vx: real, vy: real, vz: real,
    stack: Stack,
    customName: Option<string>,
    nameVisible: bool,
    pickupDelay: int,
    age: int)

  /** `Pass` leaves the hand as it was; `Success` spawns the food and returns the decremented hand. */
  datatype UseResult = Pass(held: Stack) | Success(held: Stack, food: SpawnedFood)

  /** Horizontal spawn coordinate within the block for one random draw: the centre jittered by up to 0.3. */
  function Jitter(block: int, random: real): real
  {
    block as real + 0.5 + (random - 0.5) * Spread
  }

  /** The handler. */
  function UseItem(e: UseEvent): (r: UseResult)
    // every failed guard passes the interaction on and changes nothing
    ensures r.Pass? <==>
      e.isClient || e.held.HeldItem() != Bread || !e.hit.BlockHit?
      || !e.fluid.isWater || e.fluid.level == 0
    ensures r.Pass? ==> r.held == e.held
    // on success exactly one bread is used up
    ensures r.Success? ==> r.held.item == e.held.item && r.held.count + 1 == e.held.count
    // the spawned item is a one-bread stack named as fish food, with the shortened lifetime
    ensures r.Success? ==>
      && r.food.stack == Stack(Bread, 1)
      && r.food.customName == Some(FishFoodName)
      && r.food.nameVisible
      && r.food.pickupDelay == FoodPickupDelay
      && r.food.age == 5100
    // it is thrown along the player's horizontal look direction, and slightly up
    ensures r.Success? ==>
      r.food.vx == e.lookX * 0.18 && r.food.vy == 0.12 && r.food.vz == e.lookZ * 0.18
    // it lies above the hit block, on the water surface
    ensures r.Success? ==>
      && r.food.y == e.hit.y as real + e.fluid.height + SurfaceLift
      && r.food.x - (e.hit.x as real + 0.5) == (e.randomX - 0.5) * Spread
      && r.food.z - (e.hit.z as real + 0.5) == (e.randomZ - 0.5) * Spread
  {
    if e.isClient || e.held.HeldItem() != Bread then Pass(e.held)
    else if !e.hit.BlockHit? then Pass(e.held)
    else if !e.fluid.isWater || e.fluid.level == 0 then Pass(e.held)
    else
      var pos := e.hit;
      var food := SpawnedFood(
        Jitter(pos.x, e.randomX),
        pos.y as real + e.fluid.height + SurfaceLift,
        Jitter(pos.z, e.randomZ),
        e.lookX * ThrowHorizontal, ThrowVertical, e.lookZ * ThrowHorizontal,
        Stack(e.held.item, 1),
        Some(FishFoodName),
        true,
        FoodPickupDelay,
        FoodAge);
      Success(Stack(e.held.item, e.held.count - 1), food)
  }

  /**
    With `Math.random()` in [0, 1), the jittered coordinate stays in the middle
    of the block: in [block + 0.2, block + 0.8).
   */
  lemma JitterStaysInBlock(block: int, random: real)
    requires 0.0 <= random < 1.0
    ensures block as real + 0.2 <= Jitter(block, random) < block as real + 0.8
  {
  }

  /**
    Both horizontal coordinates of a successful spawn lie in the middle of the
    hit block for any random draws in [0, 1).
   */
  lemma SpawnLandsInHitBlock(e: UseEvent)
    requires 0.0 <= e.randomX < 1.0 && 0.0 <= e.randomZ < 1.0
    requires UseItem(e).Success?
    ensures var f := UseItem(e).food;
      && e.hit.x as real + 0.2 <= f.x < e.hit.x as real + 0.8
      && e.hit.z as real + 0.2 <= f.z < e.hit.z as real + 0.8
  {
    JitterStaysInBlock(e.hit.x, e.randomX);
    JitterStaysInBlock(e.hit.z, e.randomZ);
  }

  /**
    What the handler spawns is exactly what the tick callback looks for: the
    item, seen with any neighbourhood, passes the fish food filter.
   */
  lemma SpawnedFoodIsFishFood(e: UseEvent, nearby: seq<Fish>)
    requires UseItem(e).Success?
    ensures var f := UseItem(e).food;
      IsFishFood(ItemEntity(f.stack, f.customName, nearby))
  {
  }

  /** A successful use leaves the hand empty exactly when it held a single bread. */
  lemma LastBreadEmptiesHand(e: UseEvent)
    requires UseItem(e).Success?
    ensures UseItem(e).held.HeldItem() == Bread <==> e.held.count > 1
  {
  }
}
