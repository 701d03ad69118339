/** The bounded buffer between detection and bank updates (src/detection/candidate_buffer.cpp). */
module CandidateBuffer {
  import opened Vectors

  datatype Candidate = Candidate(vectors: seq<Vector>, normalcyScore: real)

  datatype Limits = Limits(maxFrames: nat, maxPatches: nat, triggerFrames: nat, triggerPatches: nat)

  function PatchCount(candidates: seq<Candidate>): nat {
    if candidates == [] then 0 else PatchCount(candidates[..|candidates| - 1]) + |candidates[|candidates| - 1].vectors|
  }

  class Buffer {
    const limits: Limits
    var candidates: seq<Candidate>
    var totalPatches: nat

    ghost predicate Valid()
      reads this
    {
      && totalPatches == PatchCount(candidates)
      && |candidates| <= limits.maxFrames && totalPatches <= limits.maxPatches
    }

    constructor (limits: Limits)
      ensures Valid() && candidates == [] && this.limits == limits
    {
      this.limits := limits;
      candidates, totalPatches := [], 0;
    }

    /** Takes the candidate unless that would exceed the frame or the patch limit. */
    method Append(candidate: Candidate) returns (taken: bool)
      requires Valid()
      modifies this
      ensures Valid()
      ensures taken <==> |old(candidates)| < limits.maxFrames && PatchCount(old(candidates)) + |candidate.vectors| <= limits.maxPatches
      ensures candidates == if taken then old(candidates) + [candidate] else old(candidates)
    {
      if |candidates| >= limits.maxFrames || totalPatches + |candidate.vectors| > limits.maxPatches {
        return false;
      }
      totalPatches := totalPatches + |candidate.vectors|;
      candidates := candidates + [candidate];
      taken := true;
    }

    method IsTriggered() returns (triggered: bool)
      requires Valid()
      ensures triggered <==> |candidates| >= limits.triggerFrames || PatchCount(candidates) >= limits.triggerPatches
    {
      triggered := |candidates| >= limits.triggerFrames || totalPatches >= limits.triggerPatches;
    }

    method DrainAll() returns (drained: seq<Candidate>)
      requires Valid()
      modifies this
      ensures Valid() && drained == old(candidates) && candidates == []
    {
      drained := candidates;
      totalPatches := 0;
      candidates := [];
    }
  }
}
