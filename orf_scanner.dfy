/**
 * Open reading frames on one strand: `rest_of_ORF` and
 * `find_all_ORFs_oneframe`.
 *
 * An ORF starts at a start codon and runs up to, not including, the first
 * stop codon a whole number of codons further on, or to the end of the
 * strand when there is none.
 */
module OrfScanner {
  import opened Wrappers
  import opened Builtins
  import opened Sequences

  /** The start codon, `codons[3][0]` of the amino-acid tables. */
  const StartCodon: string := "ATG"

  /** The stop codons, `codons[10]` of the amino-acid tables. */
  const StopCodons: seq<string> := ["TAA", "TAG", "TGA"]

  predicate StartAt(s: string, p: int)
  {
    OccursAt(StartCodon, s, p)
  }

  predicate StopAt(s: string, p: int)
  {
    0 <= p && p + 3 <= |s| && s[p..p + 3] in StopCodons
  }

  /** The filter both scans apply to match positions: `lambda y: y % 3 == 0`. */
  predicate InFrame(p: nat)
  {
    p % 3 == 0
  }

  lemma StartIsNotStop(s: string, p: int)
    requires StartAt(s, p)
    ensures !StopAt(s, p)
  {
  }

  /** A three-letter codon whose last letter differs from its first cannot overlap itself. */
  lemma CodonNoSelfOverlap(c: string)
    requires |c| == 3 && c[2] != c[0] && (c[1] != c[0] || c[2] != c[1])
    ensures NoSelfOverlap(c)
  {
    assert c[1..][0] == c[1] && c[..2][0] == c[0] && c[1..][1] == c[2] && c[..2][1] == c[1];
    assert c[2..][0] != c[..1][0];
  }

  /** None of the four codons can overlap itself, so `re.finditer` reports every occurrence. */
  lemma CodonsDoNotOverlapThemselves()
    ensures NoSelfOverlap(StartCodon)
    ensures forall k :: 0 <= k < |StopCodons| ==> NoSelfOverlap(StopCodons[k])
  {
    CodonNoSelfOverlap(StartCodon);
    CodonNoSelfOverlap(StopCodons[0]);
    CodonNoSelfOverlap(StopCodons[1]);
    CodonNoSelfOverlap(StopCodons[2]);
  }

  /** The flattened match positions of each pattern in turn in `rest_of_ORF` (gene_finder.py:73 and 75). */
  function AllOccurrences(pats: seq<string>, s: string): seq<nat>
    requires forall k :: 0 <= k < |pats| ==> |pats[k]| > 0
  {
    if |pats| == 0 then [] else FindIter(pats[0], s) + AllOccurrences(pats[1..], s)
  }

  lemma {:induction false} AllOccurrencesMembership(pats: seq<string>, s: string, p: int)
    requires forall k :: 0 <= k < |pats| ==> |pats[k]| > 0 && NoSelfOverlap(pats[k])
    ensures p in AllOccurrences(pats, s) <==> exists k :: 0 <= k < |pats| && OccursAt(pats[k], s, p)
  {
    if |pats| > 0 {
      FindIterFindsAll(pats[0], s, p);
      AllOccurrencesMembership(pats[1..], s, p);
      if exists k :: 0 <= k < |pats| && OccursAt(pats[k], s, p) {
        var k :| 0 <= k < |pats| && OccursAt(pats[k], s, p);
        if k > 0 {
          assert OccursAt(pats[1..][k - 1], s, p);
        }
      }
    }
  }

  lemma StopOccurrences(dna: string, p: int)
    ensures p in AllOccurrences(StopCodons, dna) <==> StopAt(dna, p)
  {
    CodonsDoNotOverlapThemselves();
    AllOccurrencesMembership(StopCodons, dna, p);
    if StopAt(dna, p) {
      var k :| 0 <= k < 3 && dna[p..p + 3] == StopCodons[k];
      assert OccursAt(StopCodons[k], dna, p);
    }
  }

  /**
   * Positions of stop codons a whole number of codons from the start, the
   * filter in `rest_of_ORF` (gene_finder.py:77).
   */
  function AlignedStops(dna: string): seq<nat>
  {
    Filter(InFrame, AllOccurrences(StopCodons, dna))
  }

  lemma AlignedStopsAre(dna: string, p: int)
    ensures p in AlignedStops(dna) <==> StopAt(dna, p) && p % 3 == 0
  {
    StopOccurrences(dna, p);
    if p >= 0 {
      FilterMembership<nat>(InFrame, AllOccurrences(StopCodons, dna), p as nat);
    }
  }

  /**
   * `rest_of_ORF`: `dna` cut at the first in-frame stop codon. The cut is
   * the smallest aligned stop position, or the whole length when there is
   * none.
   */
  function RestOfOrf(dna: string): (orf: string)
    ensures |orf| <= |dna| && orf == dna[..|orf|]
    ensures |orf| == |dna| || (|orf| % 3 == 0 && StopAt(dna, |orf|))
    ensures forall p :: 0 <= p < |orf| && p % 3 == 0 ==> !StopAt(dna, p)
  {
    var ends := AlignedStops(dna) + [|dna|];
    var e := MinOf(ends);
    AlignedStopsAre(dna, e);
    forall p | 0 <= p < e && p % 3 == 0 ensures !StopAt(dna, p) {
      AlignedStopsAre(dna, p);
    }
    dna[..e]
  }

  /** The three properties in `RestOfOrf`'s contract fix the cut point. */
  lemma RestOfOrfUnique(dna: string, e: nat)
    requires e <= |dna|
    requires e == |dna| || (e % 3 == 0 && StopAt(dna, e))
    requires forall p :: 0 <= p < e && p % 3 == 0 ==> !StopAt(dna, p)
    ensures RestOfOrf(dna) == dna[..e]
  {
  }

  /** Every stop codon begins with `T`. */
  lemma NoStopAtOtherLetter(s: string, p: int)
    requires 0 <= p < |s| && s[p] != 'T'
    ensures !StopAt(s, p)
  {
    if p + 3 <= |s| {
      assert s[p..p + 3][0] == s[p];
    }
  }

  /** The first example in the documentation of `rest_of_ORF`: cut at `TGA`. */
  lemma RestOfOrfExampleTga(dna: string)
    requires dna == "ATGTGAA"
    ensures RestOfOrf(dna) == "ATG"
  {
    assert dna[3..6] == StopCodons[2];
    NoStopAtOtherLetter(dna, 0);
    RestOfOrfUnique(dna, 3);
  }

  /** The second example in the documentation of `rest_of_ORF`: cut at `TAG`. */
  lemma RestOfOrfExampleTag(dna: string)
    requires dna == "ATGAGATAGG"
    ensures RestOfOrf(dna) == "ATGAGA"
  {
    assert dna[6..9] == StopCodons[1];
    NoStopAtOtherLetter(dna, 0);
    NoStopAtOtherLetter(dna, 3);
    RestOfOrfUnique(dna, 6);
  }

  /** A stop codon at `i` of `dna[p..]` is a stop codon at `p + i` of `dna`. */
  lemma StopAtShift(dna: string, p: nat, i: int)
    requires p <= |dna| && 0 <= i
    ensures StopAt(dna[p..], i) <==> StopAt(dna, p + i)
  {
    if i + 3 <= |dna| - p {
      assert dna[p..][i..i + 3] == dna[p + i..p + i + 3];
    }
  }

  /**
   * A reference for the cut `rest_of_ORF` makes: codon by codon from `i`,
   * the first stop codon, or the end of the strand when none is left.
   */
  function FirstStop(dna: string, i: nat): (e: nat)
    requires i <= |dna|
    ensures i <= e <= |dna|
    decreases |dna| - i
  {
    if i + 3 > |dna| then |dna|
    else if StopAt(dna, i) then i
    else FirstStop(dna, i + 3)
  }

  /** The reference cut is the first stop codon a whole number of codons from `i`, or the end. */
  lemma {:induction false} FirstStopIsFirst(dna: string, i: nat)
    requires i <= |dna|
    ensures FirstStop(dna, i) == |dna| || ((FirstStop(dna, i) - i) % 3 == 0 && StopAt(dna, FirstStop(dna, i)))
    ensures forall j :: i <= j < FirstStop(dna, i) && (j - i) % 3 == 0 ==> !StopAt(dna, j)
    decreases |dna| - i
  {
    if i + 3 <= |dna| && !StopAt(dna, i) {
      FirstStopIsFirst(dna, i + 3);
      forall j | i <= j < FirstStop(dna, i) && (j - i) % 3 == 0 ensures !StopAt(dna, j) {
        if j != i {
          assert (j - (i + 3)) % 3 == 0;
        }
      }
    }
  }

  /** The ORF that starts at position `p` of `dna`: up to the first stop codon in its frame. */
  function OrfAt(dna: string, p: nat): string
    requires p <= |dna|
  {
    dna[p..FirstStop(dna, p)]
  }

  /** `rest_of_ORF`, with its pattern search, filter and `min`, cuts where the reference scan does. */
  lemma RestOfOrfAt(dna: string, p: nat)
    requires p <= |dna|
    ensures RestOfOrf(dna[p..]) == OrfAt(dna, p)
  {
    var s := dna[p..];
    var e := FirstStop(dna, p) - p;
    FirstStopIsFirst(dna, p);
    StopAtShift(dna, p, e);
    forall i | 0 <= i < e && i % 3 == 0 ensures !StopAt(s, i) {
      StopAtShift(dna, p, i);
    }
    RestOfOrfUnique(s, e);
    assert s[..e] == dna[p..p + e];
  }

  /** An ORF that begins at a start codon is at least that codon long and begins with it. */
  lemma OrfAtStart(dna: string, p: nat)
    requires StartAt(dna, p)
    ensures |OrfAt(dna, p)| >= 3 && OrfAt(dna, p)[..3] == StartCodon
  {
    StartIsNotStop(dna, p);
    assert OrfAt(dna, p)[..3] == dna[p..p + 3];
  }

  /**
   * A reference scan for the next start codon: codon by codon from `from`,
   * the first position a whole number of codons away that holds `ATG`.
   */
  function NextStart(dna: string, from: nat): (r: Option<nat>)
    ensures r.Some? ==> StartFound(dna, from, r.value)
    decreases |dna| - from
  {
    if from + 3 > |dna| then None
    else if dna[from..from + 3] == StartCodon then Some(from)
    else NextStart(dna, from + 3)
  }

  /** A start codon lies at `p`, in the frame of `from` and not before it. */
  predicate StartFound(dna: string, from: nat, p: nat)
  {
    from <= p && (p - from) % 3 == 0 && StartAt(dna, p)
  }

  /** No start codon lies in the frame of `from` between `from` and `to`. */
  predicate NoStartBetween(dna: string, from: nat, to: nat)
  {
    forall p :: from <= p < to && (p - from) % 3 == 0 ==> !StartAt(dna, p)
  }

  /** The reference scan skips no start codon in its frame. */
  lemma {:induction false} NextStartIsFirst(dna: string, from: nat)
    ensures NextStart(dna, from).Some? ==> NoStartBetween(dna, from, NextStart(dna, from).value)
    ensures NextStart(dna, from).None? ==> forall p :: from <= p && (p - from) % 3 == 0 ==> !StartAt(dna, p)
    decreases |dna| - from
  {
    if from + 3 <= |dna| && dna[from..from + 3] != StartCodon {
      NextStartIsFirst(dna, from + 3);
    }
  }

  /** Where the scan resumes after the ORF starting at `p`: past the ORF and its stop codon. */
  function ResumeAt(dna: string, p: nat): (q: nat)
    requires p <= |dna|
  {
    var next := p + |OrfAt(dna, p)| + 3;
    if next <= |dna| then next else |dna|
  }

  /**
   * The start positions of the ORFs the single-frame scan extracts from
   * position `from` on: the next start codon in frame, then on again from
   * the end of its ORF.
   */
  function OrfStarts(dna: string, from: nat): (starts: seq<nat>)
    requires from <= |dna|
    ensures forall k :: 0 <= k < |starts| ==> from <= starts[k] < |dna|
    decreases |dna| - from
  {
    match NextStart(dna, from)
    case None => []
    case Some(p) => [p] + OrfStarts(dna, ResumeAt(dna, p))
  }

  lemma OrfStartsStep(dna: string, pos: nat, p: nat)
    requires pos <= |dna| && NextStart(dna, pos) == Some(p)
    ensures OrfStarts(dna, pos) == [p] + OrfStarts(dna, ResumeAt(dna, p))
  {
  }

  /** The ORFs at the given start positions, in order. */
  function OrfsAt(dna: string, starts: seq<nat>): (orfs: seq<string>)
    requires forall k :: 0 <= k < |starts| ==> starts[k] <= |dna|
    ensures |orfs| == |starts|
  {
    if |starts| == 0 then [] else [OrfAt(dna, starts[0])] + OrfsAt(dna, starts[1..])
  }

  /** What `find_all_ORFs_oneframe` returns, position by position. */
  function OneFrameOrfs(dna: string): seq<string>
  {
    OrfsAt(dna, OrfStarts(dna, 0))
  }

  /**
   * The in-frame start-codon offsets the source computes for the rest of the
   * strand in `find_all_ORFs_oneframe` (gene_finder.py:103-104).
   */
  function AlignedStartOffsets(frame: string): seq<nat>
  {
    Filter(InFrame, FindIter(StartCodon, frame))
  }

  /** An offset survives the search and the filter exactly when a start codon sits there, in frame. */
  lemma AlignedStartOffsetsAre(dna: string, pos: nat, q: int)
    requires pos <= |dna|
    ensures q in AlignedStartOffsets(dna[pos..]) <==> q >= 0 && q % 3 == 0 && StartAt(dna, pos + q)
  {
    var frame := dna[pos..];
    CodonsDoNotOverlapThemselves();
    FindIterFindsAll(StartCodon, frame, q);
    if q >= 0 {
      FilterMembership<nat>(InFrame, FindIter(StartCodon, frame), q as nat);
      if q + 3 <= |frame| {
        assert frame[q..q + 3] == dna[pos + q..pos + q + 3];
      }
    }
  }

  lemma NoAlignedOffsets(dna: string, pos: nat)
    requires pos <= |dna|
    requires forall q :: pos <= q && (q - pos) % 3 == 0 ==> !StartAt(dna, q)
    ensures |AlignedStartOffsets(dna[pos..])| == 0
  {
    var valid := AlignedStartOffsets(dna[pos..]);
    if |valid| > 0 {
      AlignedStartOffsetsAre(dna, pos, valid[0]);
    }
  }

  lemma FirstAlignedStart(dna: string, pos: nat)
    requires pos <= |dna|
    ensures |AlignedStartOffsets(dna[pos..])| == 0 <==> NextStart(dna, pos).None?
    ensures |AlignedStartOffsets(dna[pos..])| > 0 ==>
              NextStart(dna, pos) == Some(pos + MinOf(AlignedStartOffsets(dna[pos..])))
  {
    if NextStart(dna, pos).None? {
      NoStartNoOffsets(dna, pos);
    } else {
      StartIsFirstOffset(dna, pos);
    }
  }

  lemma NoStartNoOffsets(dna: string, pos: nat)
    requires pos <= |dna| && NextStart(dna, pos).None?
    ensures |AlignedStartOffsets(dna[pos..])| == 0
  {
    NextStartIsFirst(dna, pos);
    NoAlignedOffsets(dna, pos);
  }

  lemma StartIsFirstOffset(dna: string, pos: nat)
    requires pos <= |dna| && NextStart(dna, pos).Some?
    ensures |AlignedStartOffsets(dna[pos..])| > 0
    ensures NextStart(dna, pos) == Some(pos + MinOf(AlignedStartOffsets(dna[pos..])))
  {
    var r := NextStart(dna, pos);
    var p := r.value;
    assert StartFound(dna, pos, p) && NoStartBetween(dna, pos, p) by {
      NextStartIsFirst(dna, pos);
    }
    MinAlignedOffset(dna, pos, p);
  }

  lemma MinAlignedOffset(dna: string, pos: nat, p: nat)
    requires pos <= |dna| && StartFound(dna, pos, p) && NoStartBetween(dna, pos, p)
    ensures |AlignedStartOffsets(dna[pos..])| > 0
    ensures MinOf(AlignedStartOffsets(dna[pos..])) == p - pos
  {
    var valid := AlignedStartOffsets(dna[pos..]);
    AlignedStartOffsetsAre(dna, pos, p - pos);
    var m := MinOf(valid);
    AlignedStartOffsetsAre(dna, pos, m);
    assert (pos + m - pos) % 3 == 0;
  }

  /**
   * One round of the scan, seen from the position `pos` it has reached in
   * `dna`: the ORF it cuts is the one at the next start codon, and what is
   * left afterwards is `dna` from where the reference scan resumes.
   */
  lemma OneFrameStep(dna: string, pos: nat, next: nat)
    requires pos <= |dna| && |AlignedStartOffsets(dna[pos..])| > 0
    requires next == MinOf(AlignedStartOffsets(dna[pos..]))
    ensures pos + next + 3 <= |dna|
    ensures OrfStarts(dna, pos) == [pos + next] + OrfStarts(dna, ResumeAt(dna, pos + next))
    ensures RestOfOrf(dna[pos..][next..]) == OrfAt(dna, pos + next)
    ensures Drop(dna[pos..][next..], |OrfAt(dna, pos + next)| + 3) == dna[ResumeAt(dna, pos + next)..]
  {
    var p := pos + next;
    assert NextStart(dna, pos) == Some(p) by {
      FirstAlignedStart(dna, pos);
    }
    assert StartFound(dna, pos, p);
    assert dna[pos..][next..] == dna[p..];
    RestOfOrfAt(dna, p);
    OrfStartsStep(dna, pos, p);
    DropPastOrf(dna, p);
  }

  /** Dropping an ORF and its stop codon from `dna[p..]` leaves `dna` from where the scan resumes. */
  lemma DropPastOrf(dna: string, p: nat)
    requires p <= |dna|
    ensures Drop(dna[p..], |OrfAt(dna, p)| + 3) == dna[ResumeAt(dna, p)..]
  {
    var k := |OrfAt(dna, p)| + 3;
    if p + k <= |dna| {
      assert dna[p..][k..] == dna[p + k..];
    }
  }

  /** When no start codon is left in frame, the reference scan has nothing more either. */
  lemma OneFrameStop(dna: string, pos: nat)
    requires pos <= |dna| && (pos == |dna| || |AlignedStartOffsets(dna[pos..])| == 0)
    ensures OrfStarts(dna, pos) == []
  {
    if pos < |dna| {
      FirstAlignedStart(dna, pos);
    }
  }

  /**
   * One round of `find_all_ORFs_oneframe` (gene_finder.py:103-114) on what is left of
   * the strand, `frame == dna[pos..]`: when the reference scan has a next
   * start codon `p`, the round finds it, cuts the ORF at `p` and leaves
   * `dna` from where the reference scan resumes; otherwise it finds nothing.
   */
  method NextOrf(frame: string, ghost dna: string, ghost pos: nat)
    returns (found: bool, orf: string, rest: string, ghost p: nat, ghost resume: nat)
    requires pos <= |dna| && frame == dna[pos..]
    ensures found <==> NextStart(dna, pos).Some?
    ensures !found ==> OrfStarts(dna, pos) == []
    ensures found ==> && NextStart(dna, pos) == Some(p) && p < |dna|
                      && resume == ResumeAt(dna, p) && rest == dna[resume..]
                      && OrfStarts(dna, pos) == [p] + OrfStarts(dna, resume)
                      && orf == OrfAt(dna, p)
  {
    var valid := AlignedStartOffsets(frame);
    FirstAlignedStart(dna, pos);
    if |valid| == 0 {
      found, orf, rest, p, resume := false, [], frame, pos, pos;
      return;
    }
    var next := MinOf(valid);
    OneFrameStep(dna, pos, next);
    p := pos + next;
    var start := frame[next..];
    orf := RestOfOrf(start);
    rest := Drop(start, |orf| + 3);
    resume := ResumeAt(dna, p);
    found := true;
  }

  /**
   * `find_all_ORFs_oneframe`: repeatedly find the first in-frame start codon
   * of what is left, cut the ORF from there with `rest_of_ORF`, and drop
   * the ORF and the stop codon after it.
   */
  method FindAllOrfsOneFrame(dna: string) returns (orfs: seq<string>)
    ensures orfs == OneFrameOrfs(dna)
  {
    var frame := dna;
    orfs := [];
    ghost var pos: nat := 0;
    while |frame| > 0
      invariant pos <= |dna| && frame == dna[pos..]
      invariant orfs + OrfsAt(dna, OrfStarts(dna, pos)) == OneFrameOrfs(dna)
      decreases |frame|
    {
      var found, orf, rest, p, resume := NextOrf(frame, dna, pos);
      if !found {
        break;
      }
      orfs := orfs + [orf];
      frame := rest;
      pos := resume;
    }
    if |frame| == 0 {
      OneFrameStop(dna, pos);
    }
  }

  /** The single-frame results on the strand with its first 0, 1 and 2 characters dropped, in that order. */
  function AllFrameOrfs(dna: string): seq<string>
  {
    OneFrameOrfs(dna) + OneFrameOrfs(Drop(dna, 1)) + OneFrameOrfs(Drop(dna, 2))
  }

  ghost function FramesBefore(dna: string, count: nat): seq<string>
  {
    if count == 0 then [] else FramesBefore(dna, count - 1) + OneFrameOrfs(Drop(dna, count - 1))
  }

  /** `find_all_ORFs`: extend the result with the single-frame scan of `dna[counter:]` for each offset. */
  method FindAllOrfs(dna: string) returns (orfs: seq<string>)
    ensures orfs == OneFrameOrfs(dna) + OneFrameOrfs(Drop(dna, 1)) + OneFrameOrfs(Drop(dna, 2))
  {
    orfs := [];
    for counter := 0 to 3
      invariant orfs == FramesBefore(dna, counter)
    {
      var frame := Drop(dna, counter);
      var found := FindAllOrfsOneFrame(frame);
      orfs := orfs + found;
    }
    assert Drop(dna, 0) == dna;
    assert FramesBefore(dna, 1) == OneFrameOrfs(dna);
    assert FramesBefore(dna, 2) == OneFrameOrfs(dna) + OneFrameOrfs(Drop(dna, 1));
  }
}
