/**
  A declarative description of the per-food scan, written without the scan's
  step-by-step control flow, and the proof that the scan meets it.

  The scan stops at the first candidate position `j` where either the budget is
  spent or the candidate eats. Up to `j` every noticing candidate is steered;
  if the scan stopped at an eater with budget left, that eater eats.
 */
module ChaseReference {
  import opened Constants
  import opened Entities
  import opened Matching

  /** Whether a candidate uses up one unit of the fan-out budget: it notices but does not eat. */
  predicate Counts(d: real)
  {
    Notices(d) && !Eats(d)
  }

  /** Number of candidates in `cands` that use up budget. */
  function Counted(fish: seq<Fish>, cands: seq<nat>): nat
    requires ValidCandidates(fish, cands)
    decreases |cands|
  {
    if |cands| == 0 then 0
    else (if Counts(fish[cands[0]].distSq) then 1 else 0) + Counted(fish, cands[1..])
  }

  /** One move command per noticing candidate, in order. */
  function NoticedMoves(fish: seq<Fish>, cands: seq<nat>): seq<Action>
    requires ValidCandidates(fish, cands)
    decreases |cands|
  {
    if |cands| == 0 then []
    else (if Notices(fish[cands[0]].distSq) then [Move(cands[0])] else []) + NoticedMoves(fish, cands[1..])
  }

  /** `j` is where the scan stops: nothing before it eats or meets a spent budget, and it does. */
  predicate IsStop(fish: seq<Fish>, cands: seq<nat>, processed: nat, j: nat)
    requires ValidCandidates(fish, cands)
  {
    && j <= |cands|
    && (forall k :: 0 <= k < j ==>
          !Eats(fish[cands[k]].distSq) && processed + Counted(fish, cands[..k]) < MaxFishPerFood)
    && (j == |cands| || Eats(fish[cands[j]].distSq) || processed + Counted(fish, cands[..j]) >= MaxFishPerFood)
  }

  /** The stop position is unique. */
  lemma StopIsUnique(fish: seq<Fish>, cands: seq<nat>, processed: nat, j1: nat, j2: nat)
    requires ValidCandidates(fish, cands)
    requires IsStop(fish, cands, processed, j1) && IsStop(fish, cands, processed, j2)
    ensures j1 == j2
  {
  }

  /** The reference outcome for a given stop position. */
  function Expected(fish: seq<Fish>, cands: seq<nat>, processed: nat, j: nat): seq<Action>
    requires ValidCandidates(fish, cands)
    requires j <= |cands|
  {
    NoticedMoves(fish, cands[..j])
      + (if j < |cands| && processed + Counted(fish, cands[..j]) < MaxFishPerFood
         then EatSequence(cands[j]) else [])
  }

  lemma CountedHead(fish: seq<Fish>, cands: seq<nat>, k: nat)
    requires ValidCandidates(fish, cands)
    requires 0 < |cands| && k < |cands|
    ensures Counted(fish, cands[..k + 1])
      == (if Counts(fish[cands[0]].distSq) then 1 else 0) + Counted(fish, cands[1..][..k])
  {
    assert cands[..k + 1][1..] == cands[1..][..k];
  }

  /** The scan produces exactly the reference outcome at its stop position. */
  lemma {:induction false} ChaseMatchesReference(fish: seq<Fish>, cands: seq<nat>, processed: nat, j: nat)
    requires ValidCandidates(fish, cands)
    requires processed <= MaxFishPerFood
    requires IsStop(fish, cands, processed, j)
    ensures Chase(fish, cands, processed) == Expected(fish, cands, processed, j)
    decreases |cands|
  {
    if j == 0 {
      assert cands[..0] == [];
    } else {
      var i := cands[0];
      var d := fish[i].distSq;
      assert !Eats(d) && processed < MaxFishPerFood by {
        assert cands[..0] == [];
      }
      var p' := if Counts(d) then processed + 1 else processed;
      StopUnshift(fish, cands, processed, j);
      ChaseMatchesReference(fish, cands[1..], p', j - 1);
      ExpectedUnshift(fish, cands, processed, j);
    }
  }

  /** Peeling the first candidate off the reference outcome, when the scan gets past it. */
  lemma ExpectedUnshift(fish: seq<Fish>, cands: seq<nat>, processed: nat, j: nat)
    requires ValidCandidates(fish, cands)
    requires 0 < j <= |cands| && !Eats(fish[cands[0]].distSq)
    ensures Expected(fish, cands, processed, j)
      == (if Notices(fish[cands[0]].distSq) then [Move(cands[0])] else [])
         + Expected(fish, cands[1..], (if Counts(fish[cands[0]].distSq) then processed + 1 else processed), j - 1)
  {
    var tail := cands[1..];
    var p' := if Counts(fish[cands[0]].distSq) then processed + 1 else processed;
    var head: seq<Action> := if Notices(fish[cands[0]].distSq) then [Move(cands[0])] else [];
    assert cands[..j][1..] == tail[..j - 1];
    assert NoticedMoves(fish, cands[..j]) == head + NoticedMoves(fish, tail[..j - 1]);
    CountedHead(fish, cands, j - 1);
    var eat: seq<Action> := if j - 1 < |tail| && p' + Counted(fish, tail[..j - 1]) < MaxFishPerFood
      then EatSequence(tail[j - 1]) else [];
    assert Expected(fish, cands, processed, j) == NoticedMoves(fish, cands[..j]) + eat;
    assert Expected(fish, tail, p', j - 1) == NoticedMoves(fish, tail[..j - 1]) + eat;
  }

  lemma StopUnshift(fish: seq<Fish>, cands: seq<nat>, processed: nat, j: nat)
    requires ValidCandidates(fish, cands)
    requires 0 < j && IsStop(fish, cands, processed, j)
    ensures !Eats(fish[cands[0]].distSq) && processed < MaxFishPerFood
    ensures IsStop(fish, cands[1..], (if Counts(fish[cands[0]].distSq) then processed + 1 else processed), j - 1)
  {
    assert cands[..0] == [];
    var p' := if Counts(fish[cands[0]].distSq) then processed + 1 else processed;
    var tail := cands[1..];
    forall k | 0 <= k < j - 1
      ensures !Eats(fish[tail[k]].distSq) && p' + Counted(fish, tail[..k]) < MaxFishPerFood
    {
      CountedHead(fish, cands, k);
      assert processed + Counted(fish, cands[..k + 1]) < MaxFishPerFood;
    }
    if j - 1 < |tail| {
      CountedHead(fish, cands, j - 1);
    }
  }

  /** The first stop position, found by walking the candidates. */
  function FirstStop(fish: seq<Fish>, cands: seq<nat>, processed: nat): (j: nat)
    requires ValidCandidates(fish, cands)
    ensures IsStop(fish, cands, processed, j)
    decreases |cands|
  {
    if |cands| == 0 || Eats(fish[cands[0]].distSq) || processed >= MaxFishPerFood then
      assert cands[..0] == [];
      0
    else
      var d := fish[cands[0]].distSq;
      var p' := if Counts(d) then processed + 1 else processed;
      var j' := FirstStop(fish, cands[1..], p');
      StopShift(fish, cands, processed, j');
      j' + 1
  }

  lemma StopShift(fish: seq<Fish>, cands: seq<nat>, processed: nat, j': nat)
    requires ValidCandidates(fish, cands)
    requires 0 < |cands| && !Eats(fish[cands[0]].distSq) && processed < MaxFishPerFood
    requires IsStop(fish, cands[1..], (if Counts(fish[cands[0]].distSq) then processed + 1 else processed), j')
    ensures IsStop(fish, cands, processed, j' + 1)
  {
    var p' := if Counts(fish[cands[0]].distSq) then processed + 1 else processed;
    forall k | 0 <= k < j' + 1
      ensures !Eats(fish[cands[k]].distSq) && processed + Counted(fish, cands[..k]) < MaxFishPerFood
    {
      if k == 0 {
        assert cands[..0] == [];
      } else {
        CountedHead(fish, cands, k - 1);
        CountedHead(fish, cands, k);
        assert cands[..k] == cands[..k - 1] + [cands[k - 1]];
      }
    }
    if j' + 1 < |cands| {
      CountedHead(fish, cands, j');
    }
  }

  /** The scan, stated against the reference with its stop position found. */
  lemma ChaseIsReference(fish: seq<Fish>, cands: seq<nat>, processed: nat)
    requires ValidCandidates(fish, cands)
    requires processed <= MaxFishPerFood
    ensures Chase(fish, cands, processed) == Expected(fish, cands, processed, FirstStop(fish, cands, processed))
  {
    ChaseMatchesReference(fish, cands, processed, FirstStop(fish, cands, processed));
  }
}
