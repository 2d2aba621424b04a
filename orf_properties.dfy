/**
 * What the ORF scans promise: every ORF begins at a start codon and runs to
 * the first stop codon in its frame (or to the end of the strand), the ORFs
 * one scan returns lie in its frame one after another without overlapping,
 * and no start codon in the frame is skipped unless it lies inside an ORF
 * already returned, so no returned ORF is nested in another.
 */
module OrfProperties {
  import opened Wrappers
  import opened Builtins
  import opened OrfScanner

  /**
   * `orf` is the open reading frame of `dna` at `p`: it begins with a start
   * codon, holds no stop codon in its own frame, and ends right before the
   * first such stop codon or at the end of the strand.
   */
  predicate IsOrf(dna: string, p: int, orf: string)
  {
    && StartAt(dna, p)
    && p + |orf| <= |dna| && dna[p..p + |orf|] == orf
    && (p + |orf| == |dna| || (|orf| % 3 == 0 && StopAt(dna, p + |orf|)))
    && (forall i :: 0 <= i < |orf| && i % 3 == 0 ==> !StopAt(dna, p + i))
  }

  /** `orf` is an open reading frame of `dna` somewhere. */
  ghost predicate IsOrfOf(dna: string, orf: string)
  {
    exists p :: IsOrf(dna, p, orf)
  }

  /** The ORF the scans cut at a start codon is the open reading frame there. */
  lemma OrfAtIsOrf(dna: string, p: nat)
    requires StartAt(dna, p)
    ensures IsOrf(dna, p, OrfAt(dna, p))
  {
    FirstStopIsFirst(dna, p);
  }

  /** There is only one open reading frame at a given start codon. */
  lemma IsOrfUnique(dna: string, p: nat, orf: string)
    requires IsOrf(dna, p, orf)
    ensures orf == OrfAt(dna, p)
  {
    FirstStopIsFirst(dna, p);
  }

  /** An open reading frame holds at least its start codon and begins with it. */
  lemma OrfBeginsWithStart(dna: string, p: int, orf: string)
    requires IsOrf(dna, p, orf)
    ensures |orf| >= 3 && orf[..3] == StartCodon
  {
    StartIsNotStop(dna, p);
    assert |orf| >= 3;
    assert orf[..3] == dna[p..p + 3];
  }

  /**
   * Where the scan resumes after the ORF at a start codon `p`: right after
   * the stop codon that ends it, a whole number of codons from `p`, or at
   * the end of the strand.
   */
  lemma ResumeAfterStop(dna: string, p: nat)
    requires StartAt(dna, p)
    ensures var r := ResumeAt(dna, p);
            p < r <= |dna| && (r == |dna| || (r == p + |OrfAt(dna, p)| + 3 && (r - p) % 3 == 0 && r >= p + 6))
  {
    OrfAtIsOrf(dna, p);
    OrfAtStart(dna, p);
  }

  lemma OrfStartsAtEnd(dna: string)
    ensures OrfStarts(dna, |dna|) == []
  {
  }

  /** Being a whole number of codons apart is transitive. */
  lemma SameFrame(x: int, y: int, z: int)
    requires (x - y) % 3 == 0 && (y - z) % 3 == 0
    ensures (x - z) % 3 == 0
  {
    assert x - z == (x - y) + (y - z);
  }

  /** One step of the reference scan from `from`, when it finds a start codon `p`. */
  lemma OrfStartsFirst(dna: string, from: nat, p: nat)
    requires from <= |dna| && NextStart(dna, from) == Some(p)
    ensures StartAt(dna, p) && from <= p && (p - from) % 3 == 0
    ensures var r := ResumeAt(dna, p);
            && from < r <= |dna|
            && OrfStarts(dna, from) == [p] + OrfStarts(dna, r)
            && (r == |dna| || (r == p + |OrfAt(dna, p)| + 3 && (r - p) % 3 == 0))
  {
    ResumeAfterStop(dna, p);
    OrfStartsStep(dna, from, p);
  }

  /** Every position the single-frame scan reports holds a start codon. */
  lemma {:induction false} OrfStartsAreStarts(dna: string, from: nat)
    requires from <= |dna|
    ensures forall k :: 0 <= k < |OrfStarts(dna, from)| ==> StartAt(dna, OrfStarts(dna, from)[k])
    decreases |dna| - from
  {
    var next := NextStart(dna, from);
    if next.Some? {
      var p := next.value;
      OrfStartsFirst(dna, from, p);
      var r := ResumeAt(dna, p);
      OrfStartsAreStarts(dna, r);
      var rest := OrfStarts(dna, r);
      var all := OrfStarts(dna, from);
      forall k | 0 <= k < |all| ensures StartAt(dna, all[k]) {
        if k > 0 {
          assert all[k] == rest[k - 1];
        }
      }
    }
  }

  /** Every position in `starts` lies a whole number of codons from `from`. */
  predicate AllInFrame(starts: seq<nat>, from: int)
  {
    forall k :: 0 <= k < |starts| ==> (starts[k] - from) % 3 == 0
  }

  /** Every position the single-frame scan reports lies a whole number of codons from where it began. */
  lemma {:induction false} OrfStartsInFrame(dna: string, from: nat)
    requires from <= |dna|
    ensures AllInFrame(OrfStarts(dna, from), from)
    decreases |dna| - from
  {
    var next := NextStart(dna, from);
    if next.Some? {
      var p := next.value;
      OrfStartsFirst(dna, from, p);
      var r := ResumeAt(dna, p);
      var rest := OrfStarts(dna, r);
      assert OrfStarts(dna, from) == [p] + rest;
      OrfStartsInFrame(dna, r);
      if r == |dna| {
        OrfStartsAtEnd(dna);
      } else {
        SameFrame(r, p, from);
      }
      ConsInFrame(p, rest, from, r);
    }
  }

  /** Positions in the frame of `r`, after a first one in the frame of `from`, with `r` in that frame too. */
  lemma ConsInFrame(p: nat, rest: seq<nat>, from: int, r: int)
    requires (p - from) % 3 == 0
    requires |rest| > 0 ==> (r - from) % 3 == 0
    requires AllInFrame(rest, r)
    ensures AllInFrame([p] + rest, from)
  {
    var all := [p] + rest;
    forall k | 0 <= k < |all| ensures (all[k] - from) % 3 == 0 {
      if k > 0 {
        assert all[k] == rest[k - 1];
        SameFrame(all[k], r, from);
      }
    }
  }

  /**
   * The ORFs of one scan come one after another: each next start lies past
   * the previous ORF and its stop codon, so no two of them overlap.
   */
  lemma {:induction false} OrfStartsSpaced(dna: string, from: nat)
    requires from <= |dna|
    ensures forall k, l :: 0 <= k < l < |OrfStarts(dna, from)| ==>
              OrfStarts(dna, from)[k] + |OrfAt(dna, OrfStarts(dna, from)[k])| + 3 <= OrfStarts(dna, from)[l]
    decreases |dna| - from
  {
    match NextStart(dna, from)
    case None =>
    case Some(p) =>
      var r := ResumeAt(dna, p);
      ResumeAfterStop(dna, p);
      var rest := OrfStarts(dna, r);
      OrfStartsSpaced(dna, r);
      if r == |dna| {
        OrfStartsAtEnd(dna);
      }
      var all := OrfStarts(dna, from);
      assert all == [p] + rest;
      forall k, l | 0 <= k < l < |all|
        ensures all[k] + |OrfAt(dna, all[k])| + 3 <= all[l]
      {
        assert all[l] == rest[l - 1];
        if k > 0 {
          assert all[k] == rest[k - 1];
        }
      }
  }

  /**
   * No start codon in the frame is skipped unless it lies inside an ORF the
   * scan returned: the ORFs the scan leaves out are the nested ones.
   */
  lemma {:induction false} OrfStartsCover(dna: string, from: nat, q: int)
    requires from <= q && (q - from) % 3 == 0 && StartAt(dna, q)
    requires from <= |dna|
    ensures InsideSomeOrf(dna, OrfStarts(dna, from), q)
    decreases |dna| - from
  {
    NextStartIsFirst(dna, from);
    var next := NextStart(dna, from);
    if next.Some? {
      var p := next.value;
      OrfStartsFirst(dna, from, p);
      var r := ResumeAt(dna, p);
      var rest := OrfStarts(dna, r);
      assert OrfStarts(dna, from) == [p] + rest;
      if q >= p + |OrfAt(dna, p)| {
        SkipsPastOrf(dna, from, p, q);
        OrfStartsCover(dna, r, q);
        InsideLaterOrf(dna, p, rest, q);
      } else {
        assert ([p] + rest)[0] == p;
      }
    }
  }

  /** `q` lies inside the ORF at one of the positions `starts`. */
  ghost predicate InsideSomeOrf(dna: string, starts: seq<nat>, q: int)
  {
    exists k :: 0 <= k < |starts| && starts[k] <= q && starts[k] <= |dna| && q < starts[k] + |OrfAt(dna, starts[k])|
  }

  /** Lying inside one of the ORFs at `rest` is lying inside one of those at `[p] + rest`. */
  lemma InsideLaterOrf(dna: string, p: nat, rest: seq<nat>, q: int)
    requires InsideSomeOrf(dna, rest, q)
    ensures InsideSomeOrf(dna, [p] + rest, q)
  {
    var k :| 0 <= k < |rest| && rest[k] <= q && rest[k] <= |dna| && q < rest[k] + |OrfAt(dna, rest[k])|;
    assert ([p] + rest)[k + 1] == rest[k];
  }

  /**
   * A start codon in the frame that lies past the ORF at `p` lies past its
   * stop codon too, so the scan resumes before it, in the same frame.
   */
  lemma SkipsPastOrf(dna: string, from: nat, p: nat, q: int)
    requires StartAt(dna, p) && StartAt(dna, q)
    requires (p - from) % 3 == 0 && (q - from) % 3 == 0
    requires q >= p + |OrfAt(dna, p)|
    ensures ResumeAt(dna, p) <= q && (q - ResumeAt(dna, p)) % 3 == 0
  {
    var orf := OrfAt(dna, p);
    OrfAtIsOrf(dna, p);
    ResumeAfterStop(dna, p);
    assert (q - p) % 3 == 0 by {
      assert q - p == (q - from) - (p - from);
    }
    if q == p + |orf| {
      StartIsNotStop(dna, q);
    }
    SameFrame(q, p, ResumeAt(dna, p) - 3);
  }

  lemma {:induction false} OrfsAtIndex(dna: string, starts: seq<nat>, k: nat)
    requires forall j :: 0 <= j < |starts| ==> starts[j] <= |dna|
    requires k < |starts|
    ensures OrfsAt(dna, starts)[k] == OrfAt(dna, starts[k])
  {
    if k > 0 {
      OrfsAtIndex(dna, starts[1..], k - 1);
    }
  }

  /**
   * `find_all_ORFs_oneframe` returns, in order, the open reading frames at
   * start codons in the strand's own frame.
   */
  lemma OneFrameOrfsAreOrfs(dna: string)
    ensures |OneFrameOrfs(dna)| == |OrfStarts(dna, 0)|
    ensures forall k :: 0 <= k < |OneFrameOrfs(dna)| ==>
              && OrfStarts(dna, 0)[k] % 3 == 0
              && IsOrf(dna, OrfStarts(dna, 0)[k], OneFrameOrfs(dna)[k])
              && OneFrameOrfs(dna)[k] == RestOfOrf(dna[OrfStarts(dna, 0)[k]..])
  {
    var starts := OrfStarts(dna, 0);
    OrfStartsAreStarts(dna, 0);
    OrfStartsInFrame(dna, 0);
    forall k | 0 <= k < |starts|
      ensures && starts[k] % 3 == 0
              && IsOrf(dna, starts[k], OneFrameOrfs(dna)[k])
              && OneFrameOrfs(dna)[k] == RestOfOrf(dna[starts[k]..])
    {
      OrfsAtIndex(dna, starts, k);
      OrfAtIsOrf(dna, starts[k]);
      RestOfOrfAt(dna, starts[k]);
    }
  }

  /** The single-frame scan finds nothing exactly when the frame holds no start codon. */
  lemma OneFrameOrfsEmpty(dna: string)
    ensures OneFrameOrfs(dna) == [] <==> forall q :: 0 <= q && q % 3 == 0 ==> !StartAt(dna, q)
  {
    OneFrameOrfsAreOrfs(dna);
    if q :| 0 <= q && q % 3 == 0 && StartAt(dna, q) {
      OrfStartsCover(dna, 0, q);
    }
    if OneFrameOrfs(dna) != [] {
      assert IsOrf(dna, OrfStarts(dna, 0)[0], OneFrameOrfs(dna)[0]);
    }
  }

  /** An ORF of `dna[c:]` at `q` is the ORF of `dna` at `c + q`. */
  lemma OrfOfSuffix(dna: string, c: nat, q: int, orf: string)
    requires c <= |dna| && IsOrf(dna[c..], q, orf)
    ensures IsOrf(dna, c + q, orf)
  {
    var s := dna[c..];
    assert dna[c + q..c + q + 3] == s[q..q + 3];
    assert dna[c + q..c + q + |orf|] == s[q..q + |orf|];
    StopAtShift(dna, c, q + |orf|);
    forall i | 0 <= i < |orf| && i % 3 == 0 ensures !StopAt(dna, c + q + i) {
      StopAtShift(dna, c, q + i);
    }
  }

  lemma OneFrameOrfsOfSuffix(dna: string, c: nat, orf: string)
    requires orf in OneFrameOrfs(Drop(dna, c))
    ensures IsOrfOf(dna, orf)
  {
    var s := Drop(dna, c);
    OneFrameOrfsAreOrfs(s);
    var k :| 0 <= k < |OneFrameOrfs(s)| && OneFrameOrfs(s)[k] == orf;
    var q := OrfStarts(s, 0)[k];
    assert IsOrf(s, q, orf);
    var d := if c <= |dna| then c else |dna|;
    assert s == dna[d..];
    OrfOfSuffix(dna, d, q, orf);
  }

  /** Everything `find_all_ORFs` returns is an open reading frame of the strand. */
  lemma AllFrameOrfsAreOrfs(dna: string)
    ensures forall orf :: orf in AllFrameOrfs(dna) ==> IsOrfOf(dna, orf)
  {
    forall orf | orf in AllFrameOrfs(dna) ensures IsOrfOf(dna, orf) {
      if orf in OneFrameOrfs(dna) {
        assert Drop(dna, 0) == dna;
        OneFrameOrfsOfSuffix(dna, 0, orf);
      } else if orf in OneFrameOrfs(Drop(dna, 1)) {
        OneFrameOrfsOfSuffix(dna, 1, orf);
      } else {
        OneFrameOrfsOfSuffix(dna, 2, orf);
      }
    }
  }
}
