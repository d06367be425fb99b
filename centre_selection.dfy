/**
 * Centre selection: `get_most_centered_read` picks, among the reads marked as
 * target, the one whose aligned span has the target position nearest its
 * midpoint. The score is computed in exact rational arithmetic.
 */
module CentreSelection {
  import opened Wrappers
  import opened Variants
  import opened Reads

  /** Every target read of the pileup has a non-empty aligned span (the score divides by it). */
  predicate SpansNonDegenerate(pileup: seq<Read>)
    reads pileup
  {
    forall r :: r in pileup && IsTargetRead(r) ==> r.alnEnd != r.alnStart
  }

  function AbsReal(x: real): real
  {
    if x < 0.0 then -x else x
  }

  /** |0.5 - (aln_end - pos) / (aln_end - aln_start)|. */
  function CenterScore(alnStart: int, alnEnd: int, pos: int): real
    requires alnEnd != alnStart
  {
    AbsReal(0.5 - (alnEnd - pos) as real / (alnEnd - alnStart) as real)
  }

  /** The score is the distance of `pos` from the span's midpoint, over the span's length. */
  lemma CenterScoreIsMidpointDistance(alnStart: int, alnEnd: int, pos: int)
    requires alnEnd != alnStart
    ensures CenterScore(alnStart, alnEnd, pos) ==
            AbsReal((2 * pos - alnStart - alnEnd) as real) / AbsReal((2 * (alnEnd - alnStart)) as real)
    ensures CenterScore(alnStart, alnEnd, pos) == 0.0 <==> 2 * pos == alnStart + alnEnd
  {
    var span := (alnEnd - alnStart) as real;
    var x := 0.5 - (alnEnd - pos) as real / span;
    assert x == (2 * pos - alnStart - alnEnd) as real / (2.0 * span);
    AbsQuotient((2 * pos - alnStart - alnEnd) as real, 2.0 * span);
  }

  lemma AbsQuotient(x: real, y: real)
    requires y != 0.0
    ensures AbsReal(x / y) == AbsReal(x) / AbsReal(y)
    ensures x / y == 0.0 <==> x == 0.0
  {
    if y < 0.0 {
      assert x / y == (-x) / (-y);
    }
  }

  function ReadScore(target: Variant, r: Read): real
    requires r.alnEnd != r.alnStart
  {
    CenterScore(r.alnStart, r.alnEnd, target.pos)
  }

  /** `[read for read in pileup if read["is_target"]]`. */
  function TargetPileup(pileup: seq<Read>): (tp: seq<Read>)
    reads pileup
    ensures |tp| <= |pileup|
  {
    if |pileup| == 0 then []
    else (if IsTargetRead(pileup[0]) then [pileup[0]] else []) + TargetPileup(pileup[1..])
  }

  /** The filtered list holds exactly the target reads of the pileup. */
  lemma {:induction false} TargetPileupMembers(pileup: seq<Read>)
    ensures forall r :: r in TargetPileup(pileup) <==> r in pileup && IsTargetRead(r)
  {
    if |pileup| > 0 {
      TargetPileupMembers(pileup[1..]);
      assert pileup == [pileup[0]] + pileup[1..];
    }
  }

  /** The scores of a list of reads, in order. */
  function Scores(target: Variant, rs: seq<Read>): (ds: seq<real>)
    requires forall r :: r in rs ==> r.alnEnd != r.alnStart
    ensures |ds| == |rs|
    ensures forall i :: 0 <= i < |rs| ==> ds[i] == ReadScore(target, rs[i])
  {
    if |rs| == 0 then [] else [ReadScore(target, rs[0])] + Scores(target, rs[1..])
  }

  /** Python's `min` over a non-empty list. */
  function MinOf(s: seq<real>): (m: real)
    requires |s| > 0
    ensures m in s
    ensures forall i :: 0 <= i < |s| ==> m <= s[i]
  {
    if |s| == 1 then s[0]
    else
      var rest := MinOf(s[1..]);
      if s[0] <= rest then s[0] else rest
  }

  /** Python's `list.index`: the first position holding `x`. */
  function IndexOf(s: seq<real>, x: real): (k: nat)
    requires x in s
    ensures k < |s| && s[k] == x
    ensures forall j :: 0 <= j < k ==> s[j] != x
  {
    if s[0] == x then 0 else 1 + IndexOf(s[1..], x)
  }

  /**
   * `get_most_centered_read(target, pileup)`: no read when no read is a target;
   * otherwise a target read of the pileup whose score is the least among all
   * target reads.
   */
  function MostCentered(target: Variant, pileup: seq<Read>): (r: Option<Read>)
    reads pileup
    requires Annotated(pileup) && SpansNonDegenerate(pileup)
    ensures r.None? <==> forall x :: x in pileup ==> !IsTargetRead(x)
    ensures r.Some? ==> r.value in pileup && IsTargetRead(r.value)
    ensures r.Some? ==> forall x :: x in pileup && IsTargetRead(x) ==> ReadScore(target, r.value) <= ReadScore(target, x)
  {
    var targets := TargetPileup(pileup);
    TargetPileupMembers(pileup);
    if |targets| > 0 then
      var dist2center := Scores(target, targets);
      MinScoreIsLeast(target, targets);
      Some(targets[IndexOf(dist2center, MinOf(dist2center))])
    else
      None
  }

  /** The least of the scores is no greater than the score of any read of the list. */
  lemma MinScoreIsLeast(target: Variant, rs: seq<Read>)
    requires |rs| > 0 && forall r :: r in rs ==> r.alnEnd != r.alnStart
    ensures forall x :: x in rs ==> MinOf(Scores(target, rs)) <= ReadScore(target, x)
  {
    var ds := Scores(target, rs);
    forall x | x in rs
      ensures MinOf(ds) <= ReadScore(target, x)
    {
      var i :| 0 <= i < |rs| && rs[i] == x;
      assert ds[i] == ReadScore(target, x);
    }
  }

  lemma {:induction false} TargetPileupAppend(a: seq<Read>, b: seq<Read>)
    ensures TargetPileup(a + b) == TargetPileup(a) + TargetPileup(b)
  {
    if |a| > 0 {
      assert (a + b)[1..] == a[1..] + b;
      TargetPileupAppend(a[1..], b);
    } else {
      assert a + b == b;
    }
  }

  /** The target read at pileup index i sits at index |TargetPileup(pileup[..i])| of the filtered list. */
  lemma TargetPileupPosition(pileup: seq<Read>, i: nat)
    requires i < |pileup| && IsTargetRead(pileup[i])
    ensures |TargetPileup(pileup[..i])| < |TargetPileup(pileup)|
    ensures TargetPileup(pileup)[|TargetPileup(pileup[..i])|] == pileup[i]
  {
    assert pileup == pileup[..i] + pileup[i..];
    TargetPileupAppend(pileup[..i], pileup[i..]);
    assert pileup[i..][1..] == pileup[i + 1..];
  }

  /** Every element of the filtered list comes from some pileup index with as many targets before it. */
  lemma {:induction false} TargetPileupOrigin(pileup: seq<Read>, k: nat)
    requires k < |TargetPileup(pileup)|
    ensures exists i :: 0 <= i < |pileup| && pileup[i] == TargetPileup(pileup)[k] && |TargetPileup(pileup[..i])| == k
  {
    var n := |pileup| - 1;
    var init, last := pileup[..n], pileup[n];
    assert pileup == init + [last];
    TargetPileupAppend(init, [last]);
    var tail := TargetPileup([last]);
    assert [last][1..] == [];
    assert tail == if IsTargetRead(last) then [last] else [];
    if k < |TargetPileup(init)| {
      TargetPileupOrigin(init, k);
      var i :| 0 <= i < n && init[i] == TargetPileup(init)[k] && |TargetPileup(init[..i])| == k;
      assert init[..i] == pileup[..i];
      assert pileup[i] == TargetPileup(pileup)[k];
    } else {
      assert pileup[n] == TargetPileup(pileup)[k];
      assert pileup[..n] == init;
    }
  }

  /** A target read earlier in the pileup than another has fewer targets before it. */
  lemma TargetPileupMonotone(pileup: seq<Read>, j: nat, i: nat)
    requires j < i <= |pileup| && IsTargetRead(pileup[j])
    ensures |TargetPileup(pileup[..j])| < |TargetPileup(pileup[..i])|
  {
    var pre := pileup[..i];
    assert pre == pre[..j] + pre[j..];
    TargetPileupAppend(pre[..j], pre[j..]);
    assert pre[..j] == pileup[..j];
    assert pre[j] == pileup[j];
  }

  /**
   * Ties go to the first target read in pileup order: the chosen read occurs
   * at a pileup index before which every target read scores strictly worse.
   */
  lemma MostCenteredFirstOnTies(target: Variant, pileup: seq<Read>)
    requires Annotated(pileup) && SpansNonDegenerate(pileup)
    ensures MostCentered(target, pileup).Some? ==>
            exists i :: 0 <= i < |pileup| && pileup[i] == MostCentered(target, pileup).value &&
                        forall j :: 0 <= j < i && IsTargetRead(pileup[j]) ==>
                                    ReadScore(target, pileup[j]) > ReadScore(target, pileup[i])
  {
    var targets := TargetPileup(pileup);
    TargetPileupMembers(pileup);
    if |targets| > 0 {
      var ds := Scores(target, targets);
      var m := MinOf(ds);
      var k := IndexOf(ds, m);
      assert MostCentered(target, pileup) == Some(targets[k]);
      TargetPileupOrigin(pileup, k);
      var i :| 0 <= i < |pileup| && pileup[i] == targets[k] && |TargetPileup(pileup[..i])| == k;
      forall j | 0 <= j < i && IsTargetRead(pileup[j])
        ensures ReadScore(target, pileup[j]) > ReadScore(target, pileup[i])
      {
        TargetPileupPosition(pileup, j);
        TargetPileupMonotone(pileup, j, i);
        var kj := |TargetPileup(pileup[..j])|;
        assert kj < k && targets[kj] == pileup[j];
        assert ds[kj] == ReadScore(target, pileup[j]);
        assert ds[kj] != m && m <= ds[kj];
        assert ReadScore(target, pileup[i]) == m;
      }
    }
  }
}
