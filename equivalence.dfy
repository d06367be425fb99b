/**
 * `find_by_equivalence`: classify every read of the pileup against the target,
 * then let the realignment step decide whether a larger indel replaces it.
 */
module Equivalence {
  import opened Wrappers
  import opened Variants
  import opened Reads
  import opened Collaborators
  import opened Classification
  import opened CentreSelection
  import opened Realignment

  /**
   * `[is_target_by_equivalence(read, target) for read in pileup]`: every read
   * ends up annotated as the classifier of its own pre-state says (a read
   * listed twice is classified twice, which by idempotence is once).
   */
  method ClassifyPileup(target: Variant, pileup: seq<Read>, splitCigar: (string, int, int) -> (string, string))
    modifies set r | r in pileup
    ensures forall r :: r in pileup ==> r.Snapshot() == Classify(r, old(r.Snapshot()), target, splitCigar)
  {
    ghost var before := map r | r in pileup :: r.Snapshot();
    for i := 0 to |pileup|
      invariant forall r :: r in pileup ==>
                  r.Snapshot() == if r in pileup[..i] then Classify(r, before[r], target, splitCigar) else before[r]
    {
      var read := pileup[i];
      ghost var done := pileup[..i];
      ClassifyByEquivalence(read, target, splitCigar);
      if read in done {
        ClassifyIdempotent(read, before[read], target, splitCigar);
      }
      assert pileup[..i + 1] == done + [read];
    }
    assert pileup[..|pileup|] == pileup;
  }

  /**
   * `find_by_equivalence`: the returned pileup is the input list with every
   * read classified and carrying "is_target", and the target is what the
   * realignment step makes of the annotated pileup.
   */
  method FindByEquivalence(target: Variant, pileup: seq<Read>, scoring: Scoring, engine: Engine)
    returns (corrected: Result<Variant, Failure>, annotated: seq<Read>)
    requires forall r :: r in pileup && Classify(r, r.Snapshot(), target, engine.splitCigar).isTarget == Some(true) ==>
                         r.alnEnd != r.alnStart
    modifies set r | r in pileup
    ensures annotated == pileup
    ensures forall r :: r in pileup ==> r.Snapshot() == Classify(r, old(r.Snapshot()), target, engine.splitCigar)
    ensures Annotated(annotated) && SpansNonDegenerate(annotated)
    ensures corrected == SeekLargerGappedAln(target, annotated, scoring, engine)
  {
    ghost var before := map r | r in pileup :: r.Snapshot();
    ClassifyPileup(target, pileup, engine.splitCigar);
    ClassifiedPileupIsAnnotated(pileup, before, target, engine.splitCigar);
    annotated := pileup;
    corrected := SeekLargerGappedAln(target, annotated, scoring, engine);
  }

  /** A classified pileup carries "is_target" everywhere, and its target reads are those classification marked. */
  lemma ClassifiedPileupIsAnnotated(pileup: seq<Read>, before: map<Read, Annotation>, target: Variant,
                                    splitCigar: (string, int, int) -> (string, string))
    requires forall r :: r in pileup ==> r in before && r.Snapshot() == Classify(r, before[r], target, splitCigar)
    requires forall r :: r in pileup && Classify(r, before[r], target, splitCigar).isTarget == Some(true) ==>
                         r.alnEnd != r.alnStart
    ensures Annotated(pileup) && SpansNonDegenerate(pileup)
  {
    forall r | r in pileup
      ensures r.isTarget.Some?
    {
      ClassifyDefinesIsTarget(r, before[r], target, splitCigar);
    }
  }
}
