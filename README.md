# indelpost indel-equivalence stage, in Dafny

This project models the equivalence stage of indelpost (`indelpost/equivalence.py`).
Given a target indel and a pileup of read records, the stage does two things:

- it marks every read that carries an indel equal to the target, and copies that indel's flanks, qualities and CIGAR halves into the read;
- it realigns the most centred supporting read against a local reference window and, if the realignment shows a larger indel that subsumes the target at or left of it, replaces the target with that indel.

Modules:

- `Wrappers`: `Option`, and `Result` for the one exception the model keeps (the others are listed under "## Left out").
- `Variants`: the `Variant` value. Equality, `Equivalent`, compares chromosome, position, type and indel sequence. `IsSubstring` is Python's `in` on strings.
- `Reads`: the read record. It is a class whose upstream fields are `const` and whose annotation fields (`isTarget`, `ltFlank`, ..., `rtCigar`) are `var`. It also defines the indel-event tuple and the `Annotation` value, which is a snapshot of the annotation fields.
- `Collaborators`: the functions the stage calls but that are not part of this model (`split_cigar`, `get_local_reference`, `align`, `findall_indels`). They are held as function values of an `Engine`, with nothing assumed about them. `make_aligner` is the `Aligner` configuration value.
- `Classification`: `is_target_by_equivalence`. It is an in-place method, proved against the specification function `Classify`.
- `CentreSelection`: `get_most_centered_read`.
- `Realignment`: `seek_larger_gapped_aln` and the merge rule.
- `Equivalence`: `find_by_equivalence`.

Three behaviours of the code are easy to misread, so the model spells them out:

- A reference read is not returned untouched. `is_target` is set to `False` (indelpost/equivalence.py:46) before the early return for reference reads (line 49).
- The event loop (line 52) never breaks, so the last matching event supplies the copied fields.
- `candidate["lt_ref"][-1]` (lines 138 and 141) raises `IndexError` when `lt_ref` is empty. The model returns `Err(EmptyLeftReference)` there, and `FindByEquivalence` returns that error after the pileup has been annotated.

## Model

| member | source | states |
|---|---|---|
| `Classification.LastMatch` | indelpost/equivalence.py:52-54 | none iff no event equals the target; otherwise an event equal to the target with no equal event after it (the loop never breaks, so the last match wins) |
| `Classification.CopyEvent` | indelpost/equivalence.py:54-71 | after one matching event, the read's annotation is exactly that event's flanks, references, qualities and indel sequence, with `is_target` true and the split CIGAR |
| `Classification.ClassifyByEquivalence` | indelpost/equivalence.py:37-73 | the read's annotation fields end up as `Classify` of their old values (the for-loop is proved against it; nothing else is written) |
| `Classification.AlreadyTargetUnchanged` | indelpost/equivalence.py:43-44 | a read already marked as target is returned with no field changed |
| `Classification.ClassifyIdempotent` | indelpost/equivalence.py:43-73 | classifying a read twice against the same target gives what classifying it once gives |
| `Classification.ClassifyDefinesIsTarget` | indelpost/equivalence.py:43-46 | after classification the read always carries `is_target` |
| `Classification.ReferenceReadNeverMatches` | indelpost/equivalence.py:45-50 | a pure-reference read not already a target ends with `is_target` false and no other field changed |
| `Classification.MatchConditionLastWins` | indelpost/equivalence.py:52-71 | for a read that is neither reference nor target: `is_target` becomes true iff some event of the target's type equals the target; the copied fields and CIGAR halves then come from the last such event; with no match only `is_target` is written (false) |
| `CentreSelection.CenterScoreIsMidpointDistance` | indelpost/equivalence.py:83-89 | the score equals the distance of the target position from the span's midpoint divided by the span's length, and is zero iff the position is the midpoint |
| `CentreSelection.TargetPileup` | indelpost/equivalence.py:80 | the filtered list is no longer than the pileup (its body is the order-keeping filter; membership and order are proved by the lemmas below) |
| `CentreSelection.TargetPileupMembers` | indelpost/equivalence.py:80 | a read is in the filtered list iff it is in the pileup and marked as target |
| `CentreSelection.Scores` | indelpost/equivalence.py:83-89 | one score per target read, in the same order |
| `CentreSelection.MinOf` | indelpost/equivalence.py:90 | `min` is an element of the list and no greater than any element |
| `CentreSelection.IndexOf` | indelpost/equivalence.py:90 | `index` is the first position holding the value |
| `CentreSelection.MostCentered` | indelpost/equivalence.py:76-92 | none iff no read is a target; otherwise a target read of the pileup whose score is no greater than that of any target read (requires every read annotated and every target read's span non-empty) |
| `CentreSelection.MostCenteredFirstOnTies` | indelpost/equivalence.py:90 | the chosen read occurs at a pileup index before which every target read scores strictly worse (ties go to the first in pileup order) |
| `CentreSelection.TargetPileupOrigin` | indelpost/equivalence.py:80 | each element of the filtered list comes from a pileup index with exactly that many targets before it (the filter keeps order) |
| `Realignment.Closest` | indelpost/equivalence.py:127 | the least distance to the target over all extracted indels, whatever their type, attained by some indel |
| `Realignment.Candidates` | indelpost/equivalence.py:128-133 | the candidates are exactly the indels at that distance and of the target's type; the first is the earliest such indel in extraction order |
| `Realignment.CandidateVariantReadsBack` | indelpost/equivalence.py:135-146 | the candidate Variant fails iff `lt_ref` is empty; otherwise it keeps the target's chromosome and genome, takes the candidate's position, and anchors both alleles on `lt_ref[-1]` (insertion: alt = ref + indel_seq; deletion: ref = alt + del_seq); its indel sequence, and for a non-empty sequence its type, are the candidate's |
| `Realignment.SupersedesExample` | indelpost/equivalence.py:148-152 | an insertion of "AT" after position 1000 is superseded by "CAT" after 999 but not after 1001 |
| `Realignment.MergeRule` | indelpost/equivalence.py:124-154 | the result is the target or a Variant that starts at or left of the target and contains its indel sequence, on the same chromosome and genome |
| `Realignment.FirstCandidateIsChosen` | indelpost/equivalence.py:127-136 | a candidate exists iff some indel of the target's type lies at the overall least distance, and the first candidate is the earliest such indel |
| `Realignment.MergeFallback` | indelpost/equivalence.py:124-135 | with no indels, or with no indel of the target's type at the overall least distance, the target is returned unchanged |
| `Realignment.NearerOtherTypeBlocks` | indelpost/equivalence.py:127-135 | an indel of the other type strictly nearer than every same-type indel makes the result the unchanged target |
| `Realignment.MergeChosen` | indelpost/equivalence.py:135-154 | for the chosen indel: an error iff its Variant cannot be built; otherwise that Variant when its position is at most the target's and the target's indel sequence is a substring of its own, and the target when either condition fails |
| `Realignment.MergeReproducesTarget` | indelpost/equivalence.py:135-154 | when the chosen indel reproduces the target's position, type and non-empty sequence, the result equals the target |
| `Realignment.SeekLargerGappedAln` | indelpost/equivalence.py:95-154 | with no target read the target is unchanged; any other result is the target or a Variant at or left of it that subsumes its indel sequence, on the same chromosome and genome (which read is realigned and which anchor is passed to `findall_indels` is in the body only) |
| `Equivalence.ClassifyPileup` | indelpost/equivalence.py:23 | every read of the pileup ends up annotated as `Classify` of its own old state, also when a read is listed twice |
| `Equivalence.FindByEquivalence` | indelpost/equivalence.py:6-34 | the returned pileup is the input list (same reads, same order), each read annotated as `Classify` of its own old state, all now carrying `is_target`; the target is `SeekLargerGappedAln` of the annotated pileup |

## Left out

- `make_aligner` and `align`, the Smith-Waterman engine: the aligner is the configuration value `Aligner(ref_seq, match, mismatch)`, and `align` is an arbitrary function of it, the read sequence and the gap penalties. Scoring, affine gaps and tie-breaking are not modelled.
- `findall_indels`: an arbitrary function returning candidate records. The model states only which alignment, genomic anchor, window and read sequence are passed to it.
- `get_local_reference` and `split_cigar`: arbitrary functions. `get_local_reference` receives the target, the reads and their current annotations.
- Variant normalisation: variant.py is not part of this model. The Variant constructor's normalisation against the reference genome is left out. The type and indel sequence are read directly off the alleles: "I" when alt is longer than ref, otherwise "D"; the sequence is the longer allele's extra suffix.
- Realignment.SeekLargerGappedAln: its genomic-anchor computation is visible in the body, but no contract relates it to genome coordinates, because the window that `get_local_reference` returns is not modelled.
- Floating point: the centring score is computed as an exact rational. Float rounding could break near-ties differently.
- `start_offset` and `end_offset` are read by the source, but their values are unused there. The model keeps them as fields and does not read them.
- Dictionary key presence: only "is_target" is modelled as possibly absent (`None`). Every other key is assumed present, as the source's unguarded lookups require; the `KeyError` they would raise otherwise is not modelled.
- Division by zero: a target read whose `aln_end` equals `aln_start` would make the source raise. This is a precondition of `MostCentered` and `SeekLargerGappedAln`. `FindByEquivalence` requires it of every read that classification will mark as target.
