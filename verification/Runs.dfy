/**
 The maximal runs of a set of byte positions. `Runs` finds them one position at a time; the lemmas say what they
 are, how they grow by a whole stretch at once, and that their lengths count the positions.
 */
module Runs {
  import opened Bytes

  type Positions = nat -> bool

  /** Add a stretch to a list of runs: lengthen the last run when it ends where the stretch starts. */
  function Extend(runs: seq<Range>, lo: nat, hi: nat): (r: seq<Range>)
    requires lo <= hi
  {
    if runs != [] && runs[|runs| - 1].offset + runs[|runs| - 1].length == lo then
      var last := runs[|runs| - 1];
      runs[..|runs| - 1] + [Range(last.offset, last.length + (hi - lo))]
    else runs + [Range(lo, hi - lo)]
  }

  /** The runs of chosen positions in [lo, hi). */
  function RunsOf(chosen: Positions, lo: nat, hi: nat): (r: seq<Range>)
    requires lo <= hi
    decreases hi
  {
    if lo == hi then []
    else
      var before := RunsOf(chosen, lo, hi - 1);
      if chosen(hi - 1) then Extend(before, hi - 1, hi) else before
  }

  // ----- what the runs are -----------------------------------------------------------------------------------

  ghost predicate Covered(runs: seq<Range>, b: int) {
    exists i :: 0 <= i < |runs| && runs[i].Covers(b)
  }

  /** Nonempty, inside [lo, hi), in order, and never touching. */
  ghost predicate Spaced(runs: seq<Range>, lo: int, hi: int) {
    && (forall i :: 0 <= i < |runs| ==> runs[i].length > 0 && lo <= runs[i].offset)
    && (forall i :: 0 <= i < |runs| ==> runs[i].offset + runs[i].length <= hi)
    && (forall i, j :: 0 <= i < j < |runs| ==> runs[i].offset + runs[i].length < runs[j].offset)
  }

  lemma CoveredAppend(runs: seq<Range>, r: Range, b: int)
    ensures Covered(runs + [r], b) <==> Covered(runs, b) || r.Covers(b)
  {
    if Covered(runs, b) {
      var i :| 0 <= i < |runs| && runs[i].Covers(b);
      assert (runs + [r])[i].Covers(b);
    }
    if r.Covers(b) { assert (runs + [r])[|runs|].Covers(b); }
  }

  lemma CoveredExtend(runs: seq<Range>, lo: nat, hi: nat, b: int)
    requires lo <= hi
    ensures Covered(Extend(runs, lo, hi), b) <==> Covered(runs, b) || lo <= b < hi
  {
    if runs != [] && runs[|runs| - 1].offset + runs[|runs| - 1].length == lo {
      var init, last := runs[..|runs| - 1], runs[|runs| - 1];
      CoveredAppend(init, last, b);
      CoveredAppend(init, Range(last.offset, last.length + (hi - lo)), b);
      assert runs == init + [last];
    } else {
      CoveredAppend(runs, Range(lo, hi - lo), b);
    }
  }

  lemma SpacedExtend(runs: seq<Range>, lo: nat, mid: nat, hi: nat)
    requires lo <= mid < hi && Spaced(runs, lo, mid)
    ensures Spaced(Extend(runs, mid, hi), lo, hi)
  {
  }

  lemma SpacedStep(runs: seq<Range>, next: seq<Range>, lo: nat, mid: nat, hi: nat)
    requires lo <= mid < hi && Spaced(runs, lo, mid)
    requires next == runs || next == Extend(runs, mid, hi)
    ensures Spaced(next, lo, hi)
  {
    if next != runs { SpacedExtend(runs, lo, mid, hi); }
  }

  lemma {:induction false} RunsAreSpaced(chosen: Positions, lo: nat, hi: nat)
    requires lo <= hi
    ensures Spaced(RunsOf(chosen, lo, hi), lo, hi)
  {
    var n, runs := lo, [];
    while n < hi
      invariant lo <= n <= hi && runs == RunsOf(chosen, lo, n) && Spaced(runs, lo, n)
    {
      var next := if chosen(n) then Extend(runs, n, n + 1) else runs;
      SpacedStep(runs, next, lo, n, n + 1);
      n, runs := n + 1, next;
    }
  }

  lemma {:induction false} RunsCover(chosen: Positions, lo: nat, hi: nat, b: nat)
    requires lo <= hi
    ensures Covered(RunsOf(chosen, lo, hi), b) <==> lo <= b < hi && chosen(b)
    decreases hi
  {
    if lo < hi {
      RunsCover(chosen, lo, hi - 1, b);
      CoveredExtend(RunsOf(chosen, lo, hi - 1), hi - 1, hi, b);
    }
  }

  /** The runs are nonempty, in order and never adjacent, and cover exactly the chosen positions: each is maximal. */
  lemma RunsAreMaximal(chosen: Positions, lo: nat, hi: nat)
    requires lo <= hi
    ensures Spaced(RunsOf(chosen, lo, hi), lo, hi)
    ensures forall b: nat :: Covered(RunsOf(chosen, lo, hi), b) <==> lo <= b < hi && chosen(b)
  {
    RunsAreSpaced(chosen, lo, hi);
    forall b: nat { RunsCover(chosen, lo, hi, b); }
  }

  lemma RunsEmptyIff(chosen: Positions, lo: nat, hi: nat)
    requires lo <= hi
    ensures RunsOf(chosen, lo, hi) == [] <==> Uniform(chosen, false, lo, hi)
  {
    RunsAreMaximal(chosen, lo, hi);
    var runs := RunsOf(chosen, lo, hi);
    if runs != [] {
      assert runs[0].Covers(runs[0].offset);
      assert Covered(runs, runs[0].offset);
    }
  }

  // ----- stepping by whole stretches -------------------------------------------------------------------------

  ghost predicate Uniform(chosen: Positions, all: bool, lo: nat, hi: nat) {
    forall b: nat :: lo <= b < hi ==> chosen(b) == all
  }

  lemma {:induction false} RunsPassOver(chosen: Positions, lo: nat, mid: nat, hi: nat)
    requires lo <= mid <= hi && Uniform(chosen, false, mid, hi)
    ensures RunsOf(chosen, lo, hi) == RunsOf(chosen, lo, mid)
    decreases hi
  {
    if mid < hi { RunsPassOver(chosen, lo, mid, hi - 1); }
  }

  lemma {:induction false} RunsTakeIn(chosen: Positions, lo: nat, mid: nat, hi: nat)
    requires lo <= mid < hi && Uniform(chosen, true, mid, hi)
    ensures RunsOf(chosen, lo, hi) == Extend(RunsOf(chosen, lo, mid), mid, hi)
    decreases hi
  {
    if mid < hi - 1 {
      RunsTakeIn(chosen, lo, mid, hi - 1);
      ExtendTwice(RunsOf(chosen, lo, mid), mid, hi - 1, hi);
    }
  }

  lemma ExtendTwice(runs: seq<Range>, lo: nat, mid: nat, hi: nat)
    requires lo <= mid <= hi
    ensures Extend(Extend(runs, lo, mid), mid, hi) == Extend(runs, lo, hi)
  {
    var once := Extend(runs, lo, mid);
    assert once[..|once| - 1] + [Range(once[|once| - 1].offset, once[|once| - 1].length + (hi - mid))]
        == Extend(runs, lo, hi);
  }

  /** A stretch that starts beyond the last run is a run of its own. */
  lemma ExtendFresh(runs: seq<Range>, lo: nat, mid: nat, hi: nat)
    requires lo <= mid < hi && Spaced(runs, lo, mid)
    requires mid == 0 || !Covered(runs, mid - 1)
    ensures Extend(runs, mid, hi) == runs + [Range(mid, hi - mid)]
  {
    if runs != [] {
      var last := runs[|runs| - 1];
      if last.offset + last.length == mid { assert last.Covers(mid - 1); }
    }
  }

  // ----- counting --------------------------------------------------------------------------------------------

  function TotalLength(runs: seq<Range>): nat {
    if runs == [] then 0 else TotalLength(runs[..|runs| - 1]) + runs[|runs| - 1].length
  }

  function Count(chosen: Positions, lo: nat, hi: nat): nat
    requires lo <= hi
    decreases hi
  {
    if lo == hi then 0 else Count(chosen, lo, hi - 1) + if chosen(hi - 1) then 1 else 0
  }

  lemma ExtendLength(runs: seq<Range>, lo: nat, hi: nat)
    requires lo <= hi
    ensures TotalLength(Extend(runs, lo, hi)) == TotalLength(runs) + (hi - lo)
  {
    var after := Extend(runs, lo, hi);
    assert after[..|after| - 1] == runs || (runs != [] && after[..|after| - 1] == runs[..|runs| - 1]);
  }

  lemma {:induction false} RunsCount(chosen: Positions, lo: nat, hi: nat)
    requires lo <= hi
    ensures TotalLength(RunsOf(chosen, lo, hi)) == Count(chosen, lo, hi)
    decreases hi
  {
    if lo < hi {
      RunsCount(chosen, lo, hi - 1);
      ExtendLength(RunsOf(chosen, lo, hi - 1), hi - 1, hi);
    }
  }

  lemma {:induction false} CountsAddUp(chosen: Positions, others: Positions, lo: nat, hi: nat)
    requires lo <= hi && forall b: nat :: lo <= b < hi ==> chosen(b) != others(b)
    ensures Count(chosen, lo, hi) + Count(others, lo, hi) == hi - lo
    decreases hi
  {
    if lo < hi {
      CountsAddUp(chosen, others, lo, hi - 1);
      assert chosen(hi - 1) != others(hi - 1);
    }
  }

  lemma {:induction false} CountUniform(chosen: Positions, all: bool, lo: nat, mid: nat, hi: nat)
    requires lo <= mid <= hi && Uniform(chosen, all, mid, hi)
    ensures Count(chosen, lo, hi) == Count(chosen, lo, mid) + if all then hi - mid else 0
    decreases hi
  {
    if mid < hi { CountUniform(chosen, all, lo, mid, hi - 1); }
  }
}
