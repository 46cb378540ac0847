/**
  The per-food chase-and-eat scan of the world-tick callback
  (FeedTheFishMod.java:113-152), as a pure function from the food's candidate
  fish to the commands the mod issues to the host.
 */
module Matching {
  import opened Constants
  import opened Entities

  /**
    A command the scan issues. `Move` and `Heal` name a fish by its index in the
    food's neighbourhood enumeration; `Particles`, `EatSound` and `Discard` act on
    the food itself.
   */
  datatype Action = Move(fish: nat) | Heal(fish: nat) | Particles | EatSound | Discard

  /** A fish close enough to notice the food (the source skips only `distSq > 49.0`). */
  predicate Notices(d: real)
  {
    !(d > MaxNoticeDistanceSq)
  }

  /** A fish close enough to eat (strictly below 0.36). */
  predicate Eats(d: real)
  {
    d < EatDistanceSq
  }

  /** What happens when fish `i` eats: it is steered, healed, then feedback and the food is removed. */
  function EatSequence(i: nat): seq<Action>
  {
    [Move(i), Heal(i), Particles, EatSound, Discard]
  }

  /** The eat sequence steers one fish and heals one fish. */
  lemma EatSequenceCounts(i: nat)
    ensures MoveCount(EatSequence(i)) == 1 && HealCount(EatSequence(i)) == 1
  {
    var r := EatSequence(i);
    var s4 := [Discard];
    var s3 := [EatSound] + s4;
    var s2 := [Particles] + s3;
    var s1 := [Heal(i)] + s2;
    assert s4[1..] == [] && s3[1..] == s4 && s2[1..] == s3 && s1[1..] == s2 && r[1..] == s1;
    assert MoveCount(s4) == 0 && HealCount(s4) == 0;
    assert MoveCount(s3) == 0 && HealCount(s3) == 0;
    assert MoveCount(s2) == 0 && HealCount(s2) == 0;
    assert MoveCount(s1) == 0 && HealCount(s1) == 1;
  }

  function MoveCount(acts: seq<Action>): nat
  {
    if |acts| == 0 then 0 else (if acts[0].Move? then 1 else 0) + MoveCount(acts[1..])
  }

  function HealCount(acts: seq<Action>): nat
  {
    if |acts| == 0 then 0 else (if acts[0].Heal? then 1 else 0) + HealCount(acts[1..])
  }

  predicate ValidCandidates(fish: seq<Fish>, cands: seq<nat>)
  {
    forall k :: 0 <= k < |cands| ==> cands[k] < |fish|
  }

  /** The candidates of a food: the indices of its living, submerged neighbours, in enumeration order. */
  function Candidates(fish: seq<Fish>): (r: seq<nat>)
    ensures ValidCandidates(fish, r)
    ensures forall k :: 0 <= k < |r| ==> Eligible(fish[r[k]])
    ensures forall i :: 0 <= i < |fish| && Eligible(fish[i]) ==> i in r
    ensures forall k, l :: 0 <= k < l < |r| ==> r[k] < r[l]
  {
    Where(fish, Eligible)
  }

  /**
    The scan over candidates `cands` with `processed` fish already counted.
    The budget test comes first, then the notice test (a far fish is skipped
    without being counted), then the move command, then the eat test (which
    ends the scan); a fish that only notices is counted.
   */
  function Chase(fish: seq<Fish>, cands: seq<nat>, processed: nat): (r: seq<Action>)
    requires ValidCandidates(fish, cands)
    requires processed <= MaxFishPerFood
    ensures HealCount(r) <= 1
    ensures Discard in r <==> HealCount(r) == 1
    // fan-out: the fish steered, the eater included, never exceed the remaining budget
    ensures MoveCount(r) <= MaxFishPerFood - processed
    decreases |cands|
  {
    if |cands| == 0 || processed >= MaxFishPerFood then []
    else
      var i := cands[0];
      var d := fish[i].distSq;
      if !Notices(d) then Chase(fish, cands[1..], processed)
      else if Eats(d) then EatSequenceCounts(i); EatSequence(i)
      else [Move(i)] + Chase(fish, cands[1..], processed + 1)
  }

  /**
    Every fish `r` commands is one of `cands` that notices the food, and every
    fish it heals is inside the eat radius.
   */
  predicate CommandsNoticingCandidates(fish: seq<Fish>, cands: seq<nat>, r: seq<Action>)
  {
    forall k :: 0 <= k < |r| && (r[k].Move? || r[k].Heal?) ==>
      r[k].fish in cands && r[k].fish < |fish| && Notices(fish[r[k].fish].distSq)
      && (r[k].Heal? ==> Eats(fish[r[k].fish].distSq))
  }

  /** Only candidates are commanded, only noticing ones are steered, only eaters are healed. */
  lemma {:induction false} CommandsTargetCandidates(fish: seq<Fish>, cands: seq<nat>, processed: nat)
    requires ValidCandidates(fish, cands)
    requires processed <= MaxFishPerFood
    ensures CommandsNoticingCandidates(fish, cands, Chase(fish, cands, processed))
    decreases |cands|
  {
    if |cands| > 0 && processed < MaxFishPerFood {
      var i := cands[0];
      var d := fish[i].distSq;
      var tail := cands[1..];
      var r := Chase(fish, cands, processed);
      if !Notices(d) {
        CommandsTargetCandidates(fish, tail, processed);
        forall k | 0 <= k < |r| && (r[k].Move? || r[k].Heal?)
          ensures r[k].fish in cands
        {
          assert r[k].fish in tail;
        }
      } else if !Eats(d) {
        CommandsTargetCandidates(fish, tail, processed + 1);
        var t := Chase(fish, tail, processed + 1);
        assert r == [Move(i)] + t;
        forall k | 0 < k < |r| && (r[k].Move? || r[k].Heal?)
          ensures r[k].fish in cands
        {
          assert r[k] == t[k - 1];
          assert t[k - 1].fish in tail;
        }
      }
    }
  }

  /** Everything the mod does for one piece of food on an active tick. */
  function FoodActions(nearby: seq<Fish>): (r: seq<Action>)
    ensures forall k :: 0 <= k < |r| && (r[k].Move? || r[k].Heal?) ==>
      r[k].fish < |nearby| && Eligible(nearby[r[k].fish]) && Notices(nearby[r[k].fish].distSq)
    ensures forall k :: 0 <= k < |r| && r[k].Heal? ==> Eats(nearby[r[k].fish].distSq)
    ensures HealCount(r) <= 1
    ensures MoveCount(r) <= MaxFishPerFood
  {
    CommandsTargetCandidates(nearby, Candidates(nearby), 0);
    Chase(nearby, Candidates(nearby), 0)
  }
}
