/**
 * The collaborators the equivalence stage calls but that are not part of this
 * model: `split_cigar` and `get_local_reference` (the utilities module) and
 * `make_aligner`, `align` and `findall_indels` (the local-alignment module).
 * Each is a function value of an `Engine`, about which nothing is assumed.
 */
module Collaborators {
  import opened Variants
  import opened Reads

  /** The four scoring parameters the caller passes through to the aligner. */
  datatype Scoring = Scoring(matchScore: int, mismatchPenalty: int, gapOpenPenalty: int, gapExtensionPenalty: int)

  /** An aligner as `make_aligner` configures it: a reference window and a match/mismatch pair. */
  datatype Aligner = Aligner(refSeq: string, matchScore: int, mismatchPenalty: int)

  /** What the stage uses of an alignment: its 0-based start on the window; the rest is opaque. */
  datatype Alignment = Alignment(referenceStart: int, operations: string)

  /** One record of `findall_indels`: the keys "pos", "indel_type", "indel_seq", "del_seq", "lt_ref". */
  datatype IndelCandidate = IndelCandidate(pos: int, indelType: IndelType, indelSeq: string, delSeq: string, ltRef: string)

  datatype Engine = Engine(
    /** `split_cigar(cigar_string, pos, read_start)`: the CIGAR left and right of a position. */
    splitCigar: (string, int, int) -> (string, string),
    /** `get_local_reference(target, pileup)`: a reference window and its left-flank length. */
    localReference: (Variant, seq<Read>, seq<Annotation>) -> (string, int),
    /** `align(aligner, read_seq, gap_open, gap_extension)`. */
    align: (Aligner, string, int, int) -> Alignment,
    /** `findall_indels(aln, genome_aln_pos, ref_seq, read_seq)`. */
    findallIndels: (Alignment, int, string, string) -> seq<IndelCandidate>)
}
