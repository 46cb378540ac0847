/**
  The per-food scan written as the source writes it (FeedTheFishMod.java:114-152):
  a loop over the candidate fish with a `fishProcessed` counter, a `continue`
  for far fish and a `break` for a spent budget or a fed fish.
 */
module ChaseLoop {
  import opened Constants
  import opened Entities
  import opened Matching

  method ChaseFood(nearby: seq<Fish>) returns (actions: seq<Action>)
    ensures actions == FoodActions(nearby)
    ensures HealCount(actions) <= 1
    ensures MoveCount(actions) <= MaxFishPerFood
    ensures forall k :: 0 <= k < |actions| && actions[k].Heal? ==> Eats(nearby[actions[k].fish].distSq)
  {
    actions := ChaseCandidates(nearby, Candidates(nearby));
  }

  /** The loop over the candidates, with the source's counter and exits. */
  method ChaseCandidates(nearby: seq<Fish>, cands: seq<nat>) returns (actions: seq<Action>)
    requires ValidCandidates(nearby, cands)
    ensures actions == Chase(nearby, cands, 0)
  {
    actions := [];
    var fishProcessed: nat := 0;
    var rest := cands;
    while rest != []
      invariant ValidCandidates(nearby, rest)
      invariant fishProcessed <= MaxFishPerFood
      invariant actions + Chase(nearby, rest, fishProcessed) == Chase(nearby, cands, 0)
      decreases |rest|
    {
      if fishProcessed >= MaxFishPerFood {
        break;
      }
      var i := rest[0];
      var distanceSq := nearby[i].distSq;
      if distanceSq > MaxNoticeDistanceSq {
        rest := rest[1..];
        continue;
      }
      // the eater gets its move command first, then is healed and the food removed
      if distanceSq < EatDistanceSq {
        actions := actions + [Move(i), Heal(i), Particles, EatSound, Discard];
        break;
      }
      actions := actions + [Move(i)];
      fishProcessed := fishProcessed + 1;
      rest := rest[1..];
    }
  }
}
