/**
 * The Variant value that the equivalence stage receives as its target and
 * builds when it finds a larger indel. The module variant.py that defines it
 * is not part of this model: its constructor normalises the alleles against
 * the reference genome, which is left out here, so the derived type and
 * indel sequence below are read directly off the alleles.
 */
module Variants {

  /** The two indel kinds, keyed "I" and "D" in the read records. */
  datatype IndelType = Ins | Del

  /** An opaque handle on the reference genome a Variant carries. */
  datatype Genome = Genome(name: string)

  datatype Variant = Variant(chrom: string, pos: int, ref: string, alt: string, reference: Genome)
  {
    /** "I" when the alternate allele is the longer one, "D" otherwise. */
    function VariantType(): IndelType
    {
      if |ref| < |alt| then Ins else Del
    }

    /** The inserted or deleted bases: what the longer allele has beyond the shorter one. */
    function IndelSeq(): (s: string)
      ensures |s| == if |ref| < |alt| then |alt| - |ref| else |ref| - |alt|
    {
      if |ref| < |alt| then alt[|ref|..] else ref[|alt|..]
    }
  }

  /** Variant equality: the same chromosome, position, type and indel sequence. */
  predicate Equivalent(a: Variant, b: Variant)
  {
    a.chrom == b.chrom && a.pos == b.pos &&
    a.VariantType() == b.VariantType() && a.IndelSeq() == b.IndelSeq()
  }

  /** Python's `needle in hay` on strings: a contiguous occurrence somewhere in `hay`. */
  predicate IsSubstring(needle: string, hay: string)
  {
    exists i :: 0 <= i <= |hay| && needle <= hay[i..]
  }
}
