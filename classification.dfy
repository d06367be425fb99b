/**
 * Per-read classification: `is_target_by_equivalence` decides whether a read
 * carries an indel equivalent to the target and, when it does, copies that
 * event's flanks, qualities and indel sequence into the read, together with
 * the read's CIGAR split at the target position.
 */
module Classification {
  import opened Wrappers
  import opened Variants
  import opened Reads

  /** An indel event whose Variant equals the target. */
  predicate Matches(target: Variant, e: IndelEvent)
  {
    Equivalent(target, e.variant)
  }

  /** The last index of `s` whose element satisfies `p`, if any. */
  function LastIndex<T>(s: seq<T>, p: T -> bool): (k: Option<nat>)
    ensures k.None? <==> forall i :: 0 <= i < |s| ==> !p(s[i])
    ensures k.Some? ==> k.value < |s| && p(s[k.value])
    ensures k.Some? ==> forall j :: k.value < j < |s| ==> !p(s[j])
  {
    if |s| == 0 then None
    else
      var n := |s| - 1;
      if p(s[n]) then Some(n)
      else
        var init := s[..n];
        assert forall i :: 0 <= i < n ==> init[i] == s[i];
        LastIndex(init, p)
  }

  /** The index of the last event equal to the target, if any: the loop never breaks, so the last match wins. */
  function LastMatch(events: seq<IndelEvent>, target: Variant): (k: Option<nat>)
    ensures k.None? <==> forall i :: 0 <= i < |events| ==> !Matches(target, events[i])
    ensures k.Some? ==> k.value < |events| && Matches(target, events[k.value])
    ensures k.Some? ==> forall j :: k.value < j < |events| ==> !Matches(target, events[j])
  {
    LastIndex(events, e => Matches(target, e))
  }

  /** The annotation a matching event leaves behind. */
  function Matched(e: IndelEvent, cigars: (string, string)): Annotation
  {
    Annotation(Some(true), e.ltFlank, e.ltRef, e.ltQual, e.indelSeq, e.rtFlank, e.rtRef, e.rtQual, cigars.0, cigars.1)
  }

  /** The annotation after the scan of a prefix of events, starting from `start`. */
  function Scanned(start: Annotation, events: seq<IndelEvent>, target: Variant, cigars: (string, string)): Annotation
  {
    match LastMatch(events, target)
    case None => start
    case Some(k) => Matched(events[k], cigars)
  }

  /** One more event scanned: a match replaces the annotation, anything else keeps it. */
  lemma {:induction false} ScannedStep(start: Annotation, events: seq<IndelEvent>, i: nat, target: Variant, cigars: (string, string))
    requires i < |events|
    ensures Scanned(start, events[..i + 1], target, cigars) ==
            if Matches(target, events[i]) then Matched(events[i], cigars) else Scanned(start, events[..i], target, cigars)
  {
    var prefix := events[..i + 1];
    assert prefix[i] == events[i];
    assert prefix[..i] == events[..i];
  }

  /** The annotation a read ends up with when it is classified from annotation `a`. */
  function Classify(read: Read, a: Annotation, target: Variant, splitCigar: (string, int, int) -> (string, string)): Annotation
  {
    if a.isTarget == Some(true) then a
    else if read.isReferenceSeq then a.(isTarget := Some(false))
    else
      var events := read.Events(target.VariantType());
      match LastMatch(events, target)
      case None => a.(isTarget := Some(false))
      case Some(k) => Matched(events[k], splitCigar(read.cigarString, target.pos, read.readStart))
  }

  /** The assignments of one matching event: the flag, flanks, qualities, indel sequence and CIGAR halves. */
  method CopyEvent(read: Read, indel: IndelEvent, split: (string, string))
    modifies read
    ensures read.Snapshot() == Matched(indel, split)
  {
    read.isTarget := Some(true);
    read.ltFlank := indel.ltFlank;
    read.ltRef := indel.ltRef;
    read.ltQual := indel.ltQual;
    read.indelSeq := indel.indelSeq;
    read.rtFlank := indel.rtFlank;
    read.rtRef := indel.rtRef;
    read.rtQual := indel.rtQual;
    read.ltCigar, read.rtCigar := split.0, split.1;
  }

  /** `is_target_by_equivalence(read, target)`, annotating `read` in place. */
  method ClassifyByEquivalence(read: Read, target: Variant, splitCigar: (string, int, int) -> (string, string))
    modifies read
    ensures read.Snapshot() == Classify(read, old(read.Snapshot()), target, splitCigar)
  {
    if read.isTarget == Some(true) {
      return;
    }
    read.isTarget := Some(false);
    if read.isReferenceSeq {
      return;
    }
    ghost var start := read.Snapshot();
    ghost var cigars := splitCigar(read.cigarString, target.pos, read.readStart);
    var events := read.Events(target.VariantType());
    for i := 0 to |events|
      invariant read.Snapshot() == Scanned(start, events[..i], target, cigars)
    {
      var indel := events[i];
      ScannedStep(start, events, i, target, cigars);
      if Equivalent(target, indel.variant) {
        var split := splitCigar(read.cigarString, target.pos, read.readStart);
        CopyEvent(read, indel, split);
      }
    }
    assert events[..|events|] == events;
  }

  /** A read already marked as target is left exactly as it was. */
  lemma AlreadyTargetUnchanged(read: Read, a: Annotation, target: Variant, splitCigar: (string, int, int) -> (string, string))
    requires a.isTarget == Some(true)
    ensures Classify(read, a, target, splitCigar) == a
  {
  }

  /** Classifying twice is classifying once. */
  lemma ClassifyIdempotent(read: Read, a: Annotation, target: Variant, splitCigar: (string, int, int) -> (string, string))
    ensures Classify(read, Classify(read, a, target, splitCigar), target, splitCigar) == Classify(read, a, target, splitCigar)
  {
  }

  /** After classification the "is_target" key is always present. */
  lemma ClassifyDefinesIsTarget(read: Read, a: Annotation, target: Variant, splitCigar: (string, int, int) -> (string, string))
    ensures Classify(read, a, target, splitCigar).isTarget.Some?
  {
  }

  /** A pure-reference read is never a target, and only its flag changes. */
  lemma ReferenceReadNeverMatches(read: Read, a: Annotation, target: Variant, splitCigar: (string, int, int) -> (string, string))
    requires read.isReferenceSeq && a.isTarget != Some(true)
    ensures Classify(read, a, target, splitCigar) == a.(isTarget := Some(false))
  {
  }

  /**
   * For a read neither reference nor already target: it becomes a target
   * exactly when one of its events of the target's type equals the target;
   * then every copied field comes from the last such event, and otherwise
   * only the flag changes.
   */
  lemma MatchConditionLastWins(read: Read, a: Annotation, target: Variant, splitCigar: (string, int, int) -> (string, string))
    requires !read.isReferenceSeq && a.isTarget != Some(true)
    ensures var events := read.Events(target.VariantType());
            Classify(read, a, target, splitCigar).isTarget == Some(true) <==>
            exists i :: 0 <= i < |events| && Matches(target, events[i])
    ensures var events := read.Events(target.VariantType());
            (forall i :: 0 <= i < |events| ==> !Matches(target, events[i])) ==>
            Classify(read, a, target, splitCigar) == a.(isTarget := Some(false))
    ensures var events := read.Events(target.VariantType());
            forall k :: 0 <= k < |events| && Matches(target, events[k]) &&
                        (forall j :: k < j < |events| ==> !Matches(target, events[j])) ==>
            Classify(read, a, target, splitCigar) ==
            Annotation(Some(true), events[k].ltFlank, events[k].ltRef, events[k].ltQual, events[k].indelSeq,
                       events[k].rtFlank, events[k].rtRef, events[k].rtQual,
                       splitCigar(read.cigarString, target.pos, read.readStart).0,
                       splitCigar(read.cigarString, target.pos, read.readStart).1)
  {
    var events := read.Events(target.VariantType());
    var m := LastMatch(events, target);
    if m.Some? {
      forall k | 0 <= k < |events| && Matches(target, events[k]) &&
                 (forall j :: k < j < |events| ==> !Matches(target, events[j]))
        ensures k == m.value
      {
      }
    }
  }
}
