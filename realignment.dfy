/**
 * `seek_larger_gapped_aln`: realign the most centred target read against a
 * local reference window, take the indel of the target's type found nearest
 * the target, and let it replace the target when it starts at or before the
 * target and its indel sequence contains the target's.
 */
module Realignment {
  import opened Wrappers
  import opened Variants
  import opened Reads
  import opened Collaborators
  import opened CentreSelection

  /** The exception the source raises: `candidate["lt_ref"][-1]` on an empty string. */
  datatype Failure = EmptyLeftReference

  function Abs(x: int): nat
  {
    if x < 0 then -x else x
  }

  /** `abs(target.pos - indel["pos"])`. */
  function Distance(target: Variant, c: IndelCandidate): nat
  {
    Abs(target.pos - c.pos)
  }

  /** `min` of the distances of all extracted indels, whatever their type. */
  function Closest(target: Variant, indels: seq<IndelCandidate>): (d: nat)
    requires |indels| > 0
    ensures exists i :: 0 <= i < |indels| && d == Distance(target, indels[i])
    ensures forall i :: 0 <= i < |indels| ==> d <= Distance(target, indels[i])
  {
    if |indels| == 1 then Distance(target, indels[0])
    else
      var rest := Closest(target, indels[1..]);
      assert forall i :: 1 <= i < |indels| ==> indels[1..][i - 1] == indels[i];
      if Distance(target, indels[0]) <= rest then Distance(target, indels[0]) else rest
  }

  /** The filter of the candidate list: at distance `closest` and of the target's type. */
  predicate Qualifies(target: Variant, closest: nat, c: IndelCandidate)
  {
    Distance(target, c) == closest && c.indelType == target.VariantType()
  }

  /** The candidate list, in extraction order. */
  function Candidates(target: Variant, indels: seq<IndelCandidate>, closest: nat): (cs: seq<IndelCandidate>)
    ensures forall c :: c in cs <==> c in indels && Qualifies(target, closest, c)
    ensures cs != [] ==> exists k :: 0 <= k < |indels| && cs[0] == indels[k] && Qualifies(target, closest, indels[k]) &&
                                     forall j :: 0 <= j < k ==> !Qualifies(target, closest, indels[j])
  {
    if |indels| == 0 then []
    else
      var rest := Candidates(target, indels[1..], closest);
      assert forall j :: 1 <= j < |indels| ==> indels[1..][j - 1] == indels[j];
      if Qualifies(target, closest, indels[0]) then [indels[0]] + rest else rest
  }

  /** The (ref, alt) alleles built from a candidate's last left-reference base. */
  function CandidateAlleles(c: IndelCandidate): Result<(string, string), Failure>
  {
    if |c.ltRef| == 0 then Err(EmptyLeftReference)
    else
      var anchor := [c.ltRef[|c.ltRef| - 1]];
      if c.indelType == Ins then Ok((anchor, anchor + c.indelSeq))
      else Ok((anchor + c.delSeq, anchor))
  }

  /** `Variant(target.chrom, candidate["pos"], ref, alt, target.reference)`. */
  function CandidateVariant(target: Variant, c: IndelCandidate): Result<Variant, Failure>
  {
    match CandidateAlleles(c)
    case Err(e) => Err(e)
    case Ok(alleles) => Ok(Variant(target.chrom, c.pos, alleles.0, alleles.1, target.reference))
  }

  /**
   * The Variant built from a candidate: it fails exactly when the left
   * reference is empty; otherwise it keeps the target's chromosome and genome,
   * takes the candidate's position, anchors both alleles on the last left
   * reference base, and reads back the candidate's indel sequence (and type,
   * when that sequence is not empty).
   */
  lemma CandidateVariantReadsBack(target: Variant, c: IndelCandidate)
    ensures CandidateVariant(target, c).Err? <==> |c.ltRef| == 0
    ensures CandidateVariant(target, c).Ok? ==>
            var v := CandidateVariant(target, c).value;
            var anchor := [c.ltRef[|c.ltRef| - 1]];
            v.chrom == target.chrom && v.pos == c.pos && v.reference == target.reference &&
            (c.indelType == Ins ==> v.ref == anchor && v.alt == anchor + c.indelSeq && v.IndelSeq() == c.indelSeq) &&
            (c.indelType == Del ==> v.alt == anchor && v.ref == anchor + c.delSeq && v.IndelSeq() == c.delSeq) &&
            (c.indelType == Ins && |c.indelSeq| > 0 ==> v.VariantType() == Ins) &&
            (c.indelType == Del ==> v.VariantType() == Del)
  {
    if |c.ltRef| > 0 {
      var v := CandidateVariant(target, c).value;
      var anchor := [c.ltRef[|c.ltRef| - 1]];
      if c.indelType == Ins {
        assert (anchor + c.indelSeq)[|anchor|..] == c.indelSeq;
      } else {
        assert (anchor + c.delSeq)[|anchor|..] == c.delSeq;
      }
    }
  }

  /** The acceptance test: at or left of the target, and subsuming its indel sequence. */
  predicate Supersedes(target: Variant, candidate: Variant)
  {
    candidate.pos <= target.pos && IsSubstring(target.IndelSeq(), candidate.IndelSeq())
  }

  /**
   * An insertion of "AT" after position 1000 is superseded by an insertion of
   * "CAT" after position 999, but not by the same insertion after position 1001.
   */
  lemma SupersedesExample(g: Genome)
    ensures Supersedes(Variant("chr1", 1000, "G", "GAT", g), Variant("chr1", 999, "G", "GCAT", g))
    ensures !Supersedes(Variant("chr1", 1000, "G", "GAT", g), Variant("chr1", 1001, "G", "GCAT", g))
  {
    var larger := Variant("chr1", 999, "G", "GCAT", g);
    assert larger.IndelSeq() == "CAT";
    assert "AT" <= "CAT"[1..];
  }

  /** The merge step of `seek_larger_gapped_aln`, after `findall_indels`: the fallbacks, the candidate, the merge. */
  function MergeRule(target: Variant, indels: seq<IndelCandidate>): (r: Result<Variant, Failure>)
    ensures r.Ok? ==> r.value == target || Supersedes(target, r.value)
    ensures r.Ok? && r.value != target ==> r.value.chrom == target.chrom && r.value.reference == target.reference
  {
    if |indels| == 0 then Ok(target)
    else
      var closest := Closest(target, indels);
      var candidates := Candidates(target, indels, closest);
      if |candidates| == 0 then Ok(target)
      else
        match CandidateVariant(target, candidates[0])
        case Err(e) => Err(e)
        case Ok(candidateVar) => Ok(if Supersedes(target, candidateVar) then candidateVar else target)
  }

  /**
   * The indel the merge rule looks at, stated without the helper lists: of the
   * target's type, at the least distance over all indels, and before it no
   * indel of the target's type at that distance.
   */
  ghost predicate IsChosen(target: Variant, indels: seq<IndelCandidate>, k: int)
  {
    0 <= k < |indels| && indels[k].indelType == target.VariantType() &&
    (forall j :: 0 <= j < |indels| ==> Distance(target, indels[k]) <= Distance(target, indels[j])) &&
    (forall j :: 0 <= j < k && indels[j].indelType == target.VariantType() ==>
                 Distance(target, indels[k]) < Distance(target, indels[j]))
  }

  /** The first candidate of the filtered list is the chosen indel, and one exists iff some indel is chosen. */
  lemma FirstCandidateIsChosen(target: Variant, indels: seq<IndelCandidate>)
    requires |indels| > 0
    ensures var cs := Candidates(target, indels, Closest(target, indels));
            (cs != [] <==> exists k :: IsChosen(target, indels, k)) &&
            forall k :: IsChosen(target, indels, k) ==> cs[0] == indels[k]
  {
    var closest := Closest(target, indels);
    var cs := Candidates(target, indels, closest);
    forall k | IsChosen(target, indels, k)
      ensures cs != [] && cs[0] == indels[k]
    {
      var i :| 0 <= i < |indels| && closest == Distance(target, indels[i]);
      assert Qualifies(target, closest, indels[k]);
      assert indels[k] in cs;
      var k' :| 0 <= k' < |indels| && cs[0] == indels[k'] && Qualifies(target, closest, indels[k']) &&
                forall j :: 0 <= j < k' ==> !Qualifies(target, closest, indels[j]);
    }
    if cs != [] {
      var k' :| 0 <= k' < |indels| && cs[0] == indels[k'] && Qualifies(target, closest, indels[k']) &&
                forall j :: 0 <= j < k' ==> !Qualifies(target, closest, indels[j]);
      assert IsChosen(target, indels, k');
    }
  }

  /**
   * Fallback: with no indels, or with no indel of the target's type at the
   * overall least distance, the target comes back unchanged.
   */
  lemma MergeFallback(target: Variant, indels: seq<IndelCandidate>)
    requires forall k :: !IsChosen(target, indels, k)
    ensures MergeRule(target, indels) == Ok(target)
  {
    if |indels| > 0 {
      FirstCandidateIsChosen(target, indels);
    }
  }

  /**
   * The least distance is taken before the type filter: an indel of the other
   * type strictly nearer than every indel of the target's type blocks them all.
   */
  lemma NearerOtherTypeBlocks(target: Variant, indels: seq<IndelCandidate>, j: nat)
    requires j < |indels| && indels[j].indelType != target.VariantType()
    requires forall i :: 0 <= i < |indels| && indels[i].indelType == target.VariantType() ==>
                         Distance(target, indels[j]) < Distance(target, indels[i])
    ensures MergeRule(target, indels) == Ok(target)
  {
    MergeFallback(target, indels);
  }

  /**
   * The merge: when indel k is chosen, the result fails iff its left reference
   * is empty, and is otherwise its Variant when that Variant starts at or left
   * of the target and contains the target's indel sequence, and the target
   * itself when either condition fails.
   */
  lemma MergeChosen(target: Variant, indels: seq<IndelCandidate>, k: nat)
    requires IsChosen(target, indels, k)
    ensures CandidateVariant(target, indels[k]).Err? ==> MergeRule(target, indels) == Err(EmptyLeftReference)
    ensures CandidateVariant(target, indels[k]).Ok? ==>
            var v := CandidateVariant(target, indels[k]).value;
            MergeRule(target, indels) ==
            Ok(if v.pos <= target.pos && IsSubstring(target.IndelSeq(), v.IndelSeq()) then v else target)
  {
    FirstCandidateIsChosen(target, indels);
  }

  /**
   * Round trip: when the chosen indel reproduces the target (same position,
   * type and non-empty indel sequence), the result equals the target.
   */
  lemma MergeReproducesTarget(target: Variant, indels: seq<IndelCandidate>, k: nat)
    requires IsChosen(target, indels, k)
    requires indels[k].pos == target.pos && |indels[k].ltRef| > 0
    requires |target.IndelSeq()| > 0
    requires target.VariantType() == Ins ==> indels[k].indelSeq == target.IndelSeq()
    requires target.VariantType() == Del ==> indels[k].delSeq == target.IndelSeq()
    ensures MergeRule(target, indels).Ok? && Equivalent(MergeRule(target, indels).value, target)
  {
    MergeChosen(target, indels, k);
    CandidateVariantReadsBack(target, indels[k]);
    var v := CandidateVariant(target, indels[k]).value;
    assert target.IndelSeq() <= v.IndelSeq()[0..];
  }

  /**
   * `seek_larger_gapped_aln`: the target when no read is centred; otherwise
   * the merge rule over the indels found in the centred read's realignment,
   * anchored at genomic position target.pos + 1 - lt_len + reference_start.
   */
  function SeekLargerGappedAln(target: Variant, pileup: seq<Read>, scoring: Scoring, engine: Engine): (r: Result<Variant, Failure>)
    reads pileup
    requires Annotated(pileup) && SpansNonDegenerate(pileup)
    ensures (forall x :: x in pileup ==> !IsTargetRead(x)) ==> r == Ok(target)
    ensures r.Ok? ==> r.value == target || Supersedes(target, r.value)
    ensures r.Ok? && r.value != target ==> r.value.chrom == target.chrom && r.value.reference == target.reference
  {
    match MostCentered(target, pileup)
    case None => Ok(target)
    case Some(read) =>
      var window := engine.localReference(target, pileup, Snapshots(pileup));
      var refSeq, ltLen := window.0, window.1;
      var aln := engine.align(Aligner(refSeq, scoring.matchScore, scoring.mismatchPenalty), read.readSeq,
                              scoring.gapOpenPenalty, scoring.gapExtensionPenalty);
      var genomeAlnPos := target.pos + 1 - ltLen + aln.referenceStart;
      var indels := engine.findallIndels(aln, genomeAlnPos, refSeq, read.readSeq);
      MergeRule(target, indels)
  }
}
