/**
  Properties of the per-food scan that relate several runs or whole classes of
  candidate lists (FeedTheFishMod.java:115-152).
 */
module MatchingProperties {
  import opened Constants
  import opened Entities
  import opened Matching
  import opened ChaseReference

  /** The candidates that notice the food, in order. */
  function Noticing(fish: seq<Fish>, cands: seq<nat>): (r: seq<nat>)
    requires ValidCandidates(fish, cands)
    ensures ValidCandidates(fish, r)
    ensures forall k :: 0 <= k < |r| ==> Notices(fish[r[k]].distSq)
    ensures |r| <= |cands|
    decreases |cands|
  {
    if |cands| == 0 then []
    else (if Notices(fish[cands[0]].distSq) then [cands[0]] else []) + Noticing(fish, cands[1..])
  }

  /**
    A fish beyond the notice radius is skipped as if it were not there: deleting
    every such fish from the candidates changes nothing, so far fish neither get
    a command nor use up budget.
   */
  lemma {:induction false} FarFishAreInvisible(fish: seq<Fish>, cands: seq<nat>, processed: nat)
    requires ValidCandidates(fish, cands)
    requires processed <= MaxFishPerFood
    ensures Chase(fish, cands, processed) == Chase(fish, Noticing(fish, cands), processed)
    decreases |cands|
  {
    if |cands| > 0 && processed < MaxFishPerFood {
      var c := cands[0];
      var d := fish[c].distSq;
      var rest := Noticing(fish, cands[1..]);
      assert cands == [c] + cands[1..];
      ChaseCons(fish, c, cands[1..], processed);
      if !Notices(d) {
        assert Noticing(fish, cands) == rest;
        FarFishAreInvisible(fish, cands[1..], processed);
      } else {
        assert Noticing(fish, cands) == [c] + rest;
        ChaseCons(fish, c, rest, processed);
        if !Eats(d) {
          FarFishAreInvisible(fish, cands[1..], processed + 1);
          assert Chase(fish, cands, processed) == [Move(c)] + Chase(fish, rest, processed + 1);
        }
      }
    }
  }

  /** One step of the scan on a candidate list written as a first candidate and the rest. */
  lemma ChaseCons(fish: seq<Fish>, c: nat, rest: seq<nat>, processed: nat)
    requires c < |fish| && ValidCandidates(fish, rest)
    requires processed < MaxFishPerFood
    ensures ValidCandidates(fish, [c] + rest)
    ensures var d := fish[c].distSq;
      Chase(fish, [c] + rest, processed)
        == if !Notices(d) then Chase(fish, rest, processed)
           else if Eats(d) then EatSequence(c)
           else [Move(c)] + Chase(fish, rest, processed + 1)
  {
    assert ([c] + rest)[0] == c && ([c] + rest)[1..] == rest;
  }

  /**
    A heal is preceded by that fish's own move command and followed only by the
    feedback and the removal of the food: no later candidate gets anything.
   */
  predicate HealIsLast(r: seq<Action>)
  {
    forall k :: 0 <= k < |r| && r[k].Heal? ==>
      1 <= k && r[k - 1] == Move(r[k].fish) && r[k + 1..] == [Particles, EatSound, Discard]
  }

  /** The scan never commands anything after a heal except the food's feedback and removal. */
  lemma {:induction false} HealEndsScan(fish: seq<Fish>, cands: seq<nat>, processed: nat)
    requires ValidCandidates(fish, cands)
    requires processed <= MaxFishPerFood
    ensures HealIsLast(Chase(fish, cands, processed))
    decreases |cands|
  {
    if |cands| > 0 && processed < MaxFishPerFood {
      var i := cands[0];
      var d := fish[i].distSq;
      if !Notices(d) {
        HealEndsScan(fish, cands[1..], processed);
      } else if !Eats(d) {
        HealEndsScan(fish, cands[1..], processed + 1);
        MoveBeforeHealIsLast(i, Chase(fish, cands[1..], processed + 1));
      }
    }
  }

  /** Steering one more fish in front of a list where heals come last keeps heals last. */
  lemma MoveBeforeHealIsLast(i: nat, t: seq<Action>)
    requires HealIsLast(t)
    ensures HealIsLast([Move(i)] + t)
  {
    var r := [Move(i)] + t;
    forall k | 0 <= k < |r| && r[k].Heal?
      ensures 1 <= k && r[k - 1] == Move(r[k].fish) && r[k + 1..] == [Particles, EatSound, Discard]
    {
      assert r[k] == t[k - 1];
      assert k - 1 >= 1;
      assert r[k - 1] == t[k - 2];
      assert r[k + 1..] == t[k..];
    }
  }

  /**
    The fan-out bound is tight: when every candidate notices the food and none
    eats, exactly min(candidates, remaining budget) fish are steered and none is fed.
   */
  lemma {:induction false} FanOutIsExact(fish: seq<Fish>, cands: seq<nat>, processed: nat)
    requires ValidCandidates(fish, cands)
    requires processed <= MaxFishPerFood
    requires forall k :: 0 <= k < |cands| ==> Counts(fish[cands[k]].distSq)
    ensures var r := Chase(fish, cands, processed);
      && MoveCount(r) == (if |cands| < MaxFishPerFood - processed then |cands| else MaxFishPerFood - processed)
      && HealCount(r) == 0
      && Discard !in r
    decreases |cands|
  {
    if |cands| > 0 && processed < MaxFishPerFood {
      FanOutIsExact(fish, cands[1..], processed + 1);
      var r := Chase(fish, cands[1..], processed + 1);
      assert ([Move(cands[0])] + r)[1..] == r;
    }
  }

  /**
    Once the budget is spent, nothing after that point is examined: appending
    any candidates, near or far, eaters or not, changes nothing.
   */
  lemma {:induction false} SpentBudgetHidesLaterFish(fish: seq<Fish>, pre: seq<nat>, post: seq<nat>, processed: nat)
    requires ValidCandidates(fish, pre) && ValidCandidates(fish, post)
    requires processed <= MaxFishPerFood
    requires forall k :: 0 <= k < |pre| ==> !Eats(fish[pre[k]].distSq)
    requires processed + Counted(fish, pre) >= MaxFishPerFood
    ensures Chase(fish, pre + post, processed) == Chase(fish, pre, processed)
    decreases |pre|
  {
    if |pre| > 0 && processed < MaxFishPerFood {
      assert (pre + post)[1..] == pre[1..] + post;
      var p' := if Counts(fish[pre[0]].distSq) then processed + 1 else processed;
      SpentBudgetHidesLaterFish(fish, pre[1..], post, p');
    }
  }

  /**
    Boundary cases of the two radii: a fish at exactly 49.0 is noticed and
    counted, and a fish at exactly 0.36 is steered and counted but not fed.
   */
  lemma BoundaryFish(fish: seq<Fish>, c: nat, rest: seq<nat>, processed: nat)
    requires c < |fish| && ValidCandidates(fish, rest)
    requires processed < MaxFishPerFood
    requires fish[c].distSq == MaxNoticeDistanceSq || fish[c].distSq == EatDistanceSq
    ensures Chase(fish, [c] + rest, processed) == [Move(c)] + Chase(fish, rest, processed + 1)
  {
  }

  /**
    Several fish inside the eat radius at once: the first candidate is the one
    fed, and the food is gone before the others are looked at.
   */
  lemma FirstEaterWins(fish: seq<Fish>, cands: seq<nat>, processed: nat)
    requires ValidCandidates(fish, cands)
    requires processed < MaxFishPerFood
    requires 0 < |cands| && forall k :: 0 <= k < |cands| ==> Eats(fish[cands[k]].distSq)
    ensures Chase(fish, cands, processed) == EatSequence(cands[0])
  {
  }
}
