/**
 * The read record of a pileup. Upstream code builds it from an alignment;
 * the equivalence stage only reads its upstream fields and writes the
 * annotation fields.
 */
module Reads {
  import opened Wrappers
  import opened Variants

  /**
   * One entry of the read's list of indel events (`read["I"]` or `read["D"]`):
   * field k is element k of the source's tuple, and `variant` is its last element.
   */
  datatype IndelEvent = IndelEvent(
    ltFlankLen: int,
    ltFlank: string,
    indelSeq: string,
    rtFlank: string,
    ltRef: string,
    rtRef: string,
    ltQual: seq<int>,
    rtQual: seq<int>,
    variant: Variant)

  /**
   * The fields the classifier writes. `isTarget == None` is a record without
   * the "is_target" key, which `read.get("is_target", False)` reads as false.
   */
  datatype Annotation = Annotation(
    isTarget: Option<bool>,
    ltFlank: string,
    ltRef: string,
    ltQual: seq<int>,
    indelSeq: string,
    rtFlank: string,
    rtRef: string,
    rtQual: seq<int>,
    ltCigar: string,
    rtCigar: string)

  class Read {
    // Upstream fields, never written by the equivalence stage.
    const readSeq: string
    const cigarString: string
    const readStart: int
    const alnStart: int
    const alnEnd: int
    const startOffset: int
    const endOffset: int
    const isReferenceSeq: bool
    const insertions: seq<IndelEvent>
    const deletions: seq<IndelEvent>

    // Fields written by the classifier.
    var isTarget: Option<bool>
    var ltFlank: string
    var ltRef: string
    var ltQual: seq<int>
    var indelSeq: string
    var rtFlank: string
    var rtRef: string
    var rtQual: seq<int>
    var ltCigar: string
    var rtCigar: string

    constructor (readSeq: string, cigarString: string, readStart: int, alnStart: int, alnEnd: int,
                 startOffset: int, endOffset: int, isReferenceSeq: bool,
                 insertions: seq<IndelEvent>, deletions: seq<IndelEvent>, initial: Annotation)
      ensures this.readSeq == readSeq && this.cigarString == cigarString
      ensures this.readStart == readStart && this.alnStart == alnStart && this.alnEnd == alnEnd
      ensures this.startOffset == startOffset && this.endOffset == endOffset
      ensures this.isReferenceSeq == isReferenceSeq
      ensures this.insertions == insertions && this.deletions == deletions
      ensures Snapshot() == initial
    {
      this.readSeq := readSeq;
      this.cigarString := cigarString;
      this.readStart := readStart;
      this.alnStart := alnStart;
      this.alnEnd := alnEnd;
      this.startOffset := startOffset;
      this.endOffset := endOffset;
      this.isReferenceSeq := isReferenceSeq;
      this.insertions := insertions;
      this.deletions := deletions;
      isTarget := initial.isTarget;
      ltFlank := initial.ltFlank;
      ltRef := initial.ltRef;
      ltQual := initial.ltQual;
      indelSeq := initial.indelSeq;
      rtFlank := initial.rtFlank;
      rtRef := initial.rtRef;
      rtQual := initial.rtQual;
      ltCigar := initial.ltCigar;
      rtCigar := initial.rtCigar;
    }

    /** `read[t]`: the read's indel events of type `t`, in the order upstream listed them. */
    function Events(t: IndelType): seq<IndelEvent>
    {
      if t == Ins then insertions else deletions
    }

    /** The current values of the annotation fields. */
    function Snapshot(): Annotation
      reads this
    {
      Annotation(isTarget, ltFlank, ltRef, ltQual, indelSeq, rtFlank, rtRef, rtQual, ltCigar, rtCigar)
    }
  }

  /** `read["is_target"]` is present and true. */
  predicate IsTargetRead(r: Read)
    reads r
  {
    r.isTarget == Some(true)
  }

  /** Every read of the pileup carries the "is_target" key. */
  predicate Annotated(pileup: seq<Read>)
    reads pileup
  {
    forall r :: r in pileup ==> r.isTarget.Some?
  }

  /** The annotations of a pileup, read by read. */
  function Snapshots(pileup: seq<Read>): (s: seq<Annotation>)
    reads pileup
    ensures |s| == |pileup| && forall i :: 0 <= i < |pileup| ==> s[i] == pileup[i].Snapshot()
  {
    if |pileup| == 0 then [] else [pileup[0].Snapshot()] + Snapshots(pileup[1..])
  }
}
