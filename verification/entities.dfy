/**
  The host-world objects the mod reads, reduced to the attributes it looks at.
 */
module Entities {
  import opened Constants

  datatype Option<+T> = None | Some(value: T)

  /** What an item stack holds; `Air` is what Minecraft reports for an empty stack. */
  datatype ItemKind = Bread | Air | OtherItem

  /** An item stack: the item it was created with and how many units it has left. */
  datatype Stack = Stack(item: ItemKind, count: nat)
  {
    /** Minecraft's `getItem()`: an empty stack reads as air, whatever it once held. */
    function HeldItem(): ItemKind
    {
      if count == 0 then Air else item
    }
  }

  /**
    A fish as one piece of food's neighbourhood query sees it: whether it is alive,
    whether it is submerged in water, and its squared distance to that food.
   */
  datatype Fish = Fish(alive: bool, submerged: bool, distSq: real)

  /**
    A dropped item entity: its stack, its optional custom name, and the fish the
    host enumerates in the food's neighbourhood (bounding box expanded by 8 blocks),
    in the host's enumeration order.
   */
  datatype ItemEntity = ItemEntity(stack: Stack, customName: Option<string>, nearby: seq<Fish>)

  /** The fish-query predicate: only living, submerged fish are candidates. */
  predicate Eligible(f: Fish)
  {
    f.alive && f.submerged
  }

  /** The food-query predicate: a bread stack whose custom name is the fish food name. */
  predicate IsFishFood(e: ItemEntity)
  {
    e.stack.HeldItem() == Bread && e.customName.Some? && e.customName.value == FishFoodName
  }

  /** Indices of `s` whose element satisfies `p`, in increasing order: a filtered query result. */
  function Where<T>(s: seq<T>, p: T -> bool): (r: seq<nat>)
    ensures forall k :: 0 <= k < |r| ==> r[k] < |s| && p(s[r[k]])
    ensures forall i :: 0 <= i < |s| && p(s[i]) ==> i in r
    ensures forall k, l :: 0 <= k < l < |r| ==> r[k] < r[l]
    decreases |s|
  {
    if |s| == 0 then []
    else
      var front := Where(s[..|s| - 1], p);
      front + (if p(s[|s| - 1]) then [|s| - 1] else [])
  }
}
