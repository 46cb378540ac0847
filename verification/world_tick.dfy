/**
  The end-of-world-tick callback (FeedTheFishMod.java:92-154): on an active tick,
  every fish food item in the world is handled on its own by the per-food scan.
 */
module WorldTick {
  import opened Constants
  import opened Entities
  import opened TickGate
  import opened Matching

  /** The commands issued for one food item, named by its index in the host's item enumeration. */
  datatype Reaction = Reaction(food: nat, actions: seq<Action>)

  /** The food query: indices of the fish food items among the items in the world box, in order. */
  function FoodIndices(items: seq<ItemEntity>): (r: seq<nat>)
    ensures forall k :: 0 <= k < |r| ==> r[k] < |items| && IsFishFood(items[r[k]])
    ensures forall j :: 0 <= j < |items| && IsFishFood(items[j]) ==> j in r
    ensures forall k, l :: 0 <= k < l < |r| ==> r[k] < r[l]
  {
    Where(items, IsFishFood)
  }

  /**
    One server world tick. `items` are the item entities the host finds inside
    the world-border box; each carries the fish the host finds around it.
   */
  function EndWorldTick(isClient: bool, ticks: int, items: seq<ItemEntity>): (r: seq<Reaction>)
    // off-beat ticks and the client side do nothing
    ensures !IsActiveTick(isClient, ticks) ==> r == []
    // only fish food reacts, each piece by its own neighbourhood alone
    ensures forall k :: 0 <= k < |r| ==>
      r[k].food < |items| && IsFishFood(items[r[k].food])
      && r[k].actions == FoodActions(items[r[k].food].nearby)
    // on an active tick every piece of fish food is handled, once, in enumeration order
    ensures IsActiveTick(isClient, ticks) ==>
      forall j :: 0 <= j < |items| && IsFishFood(items[j]) ==> exists k :: 0 <= k < |r| && r[k].food == j
    ensures forall k, l :: 0 <= k < l < |r| ==> r[k].food < r[l].food
  {
    if !IsActiveTick(isClient, ticks) then []
    else
      var foods := FoodIndices(items);
      var r := seq(|foods|, k requires 0 <= k < |foods| => Reaction(foods[k], FoodActions(items[foods[k]].nearby)));
      assert forall j :: 0 <= j < |items| && IsFishFood(items[j]) ==> exists k :: 0 <= k < |r| && r[k].food == j by {
        forall j | 0 <= j < |items| && IsFishFood(items[j])
          ensures exists k :: 0 <= k < |r| && r[k].food == j
        {
          var k :| 0 <= k < |foods| && foods[k] == j;
          assert r[k].food == j;
        }
      }
      r
  }

  /** Move commands issued over a whole tick. */
  function TotalMoves(rs: seq<Reaction>): nat
  {
    if |rs| == 0 then 0 else MoveCount(rs[0].actions) + TotalMoves(rs[1..])
  }

  /** Fish fed over a whole tick. */
  function TotalHeals(rs: seq<Reaction>): nat
  {
    if |rs| == 0 then 0 else HealCount(rs[0].actions) + TotalHeals(rs[1..])
  }

  /**
    The per-tick cost is bounded by the number of food items, whatever the
    number of fish: at most six move commands and one fed fish per food.
   */
  lemma {:induction false} TickWorkIsBounded(isClient: bool, ticks: int, items: seq<ItemEntity>)
    ensures var r := EndWorldTick(isClient, ticks, items);
      && TotalMoves(r) <= MaxFishPerFood * |r|
      && TotalHeals(r) <= |r|
      && |r| <= |items|
  {
    var r := EndWorldTick(isClient, ticks, items);
    ReactionsBounded(r);
    if IsActiveTick(isClient, ticks) {
      assert |r| == |FoodIndices(items)|;
      StrictlyIncreasingBelow(FoodIndices(items), |items|);
    }
  }

  lemma {:induction false} ReactionsBounded(rs: seq<Reaction>)
    requires forall k :: 0 <= k < |rs| ==>
      MoveCount(rs[k].actions) <= MaxFishPerFood && HealCount(rs[k].actions) <= 1
    ensures TotalMoves(rs) <= MaxFishPerFood * |rs|
    ensures TotalHeals(rs) <= |rs|
    decreases |rs|
  {
    if |rs| > 0 {
      ReactionsBounded(rs[1..]);
    }
  }

  /** A strictly increasing sequence of indices below `n` has at most `n` elements. */
  lemma {:induction false} StrictlyIncreasingBelow(s: seq<nat>, n: nat)
    requires forall k :: 0 <= k < |s| ==> s[k] < n
    requires forall k, l :: 0 <= k < l < |s| ==> s[k] < s[l]
    ensures |s| <= n
    decreases n
  {
    if |s| > 0 {
      var front := s[..|s| - 1];
      StrictlyIncreasingBelow(front, s[|s| - 1]);
    }
  }
}
