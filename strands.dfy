/**
 * Both strands at once: `find_all_ORFs_both_strands` and `longest_ORF`.
 */
module Strands {
  import opened Wrappers
  import opened Builtins
  import opened Sequences
  import opened OrfScanner
  import opened OrfProperties

  /**
   * `find_all_ORFs_both_strands`: the three-frame ORFs of the strand, then
   * those of its reverse complement. Reverse complementing comes first, so a
   * character that is not a nucleotide makes the whole call fail.
   */
  function BothStrandOrfs(dna: string): (r: Result<seq<string>>)
    ensures r.Ok? <==> IsDnaAnyCase(dna)
    ensures r.Err? ==> r == Err(ReverseComplement(dna).error)
  {
    match ReverseComplement(dna)
    case Err(e) => Err(e)
    case Ok(rc) => Ok(AllFrameOrfs(dna) + AllFrameOrfs(rc))
  }

  /** Everything `find_all_ORFs_both_strands` returns is an ORF of the strand or of its reverse complement. */
  lemma BothStrandOrfsAreOrfs(dna: string)
    requires IsDnaAnyCase(dna)
    ensures forall orf :: orf in BothStrandOrfs(dna).value ==>
              IsOrfOf(dna, orf) || IsOrfOf(ReverseComplement(dna).value, orf)
  {
    AllFrameOrfsAreOrfs(dna);
    AllFrameOrfsAreOrfs(ReverseComplement(dna).value);
  }

  /** The strand's own ORFs come first, in the order `find_all_ORFs` returns them, then the other strand's. */
  lemma BothStrandOrfsOrder(dna: string)
    requires IsDnaAnyCase(dna)
    ensures BothStrandOrfs(dna) == Ok(AllFrameOrfs(dna) + AllFrameOrfs(ReverseComplement(dna).value))
  {
  }

  /**
   * `longest_ORF` as written: Python's `max` on the list of strings, which
   * is the greatest ORF in code-point order and not the longest one. An
   * empty list makes `max` fail.
   */
  function LexGreatestOrf(dna: string): (r: Result<string>)
    ensures r.Ok? <==> BothStrandOrfs(dna).Ok? && |BothStrandOrfs(dna).value| > 0
    ensures BothStrandOrfs(dna).Ok? && |BothStrandOrfs(dna).value| == 0 ==> r == Err(EmptyOrfList)
    ensures r.Ok? ==> r.value in BothStrandOrfs(dna).value
    ensures r.Ok? ==> forall orf :: orf in BothStrandOrfs(dna).value ==> !LexLess(r.value, orf)
  {
    match BothStrandOrfs(dna)
    case Err(e) => Err(e)
    case Ok(orfs) => if |orfs| == 0 then Err(EmptyOrfList) else Ok(MaxOf(orfs))
  }

  /** `a` comes before `b` when it is shorter, or as long and smaller in code-point order. */
  predicate ShorterOrLexLess(a: string, b: string)
  {
    |a| < |b| || (|a| == |b| && LexLess(a, b))
  }

  /**
   * The longest string of a non-empty list, ties going to the greatest in
   * code-point order: what the comment on `longest_ORF` describes.
   */
  function LongestOf(xs: seq<string>): (m: string)
    requires |xs| > 0
    ensures m in xs
    ensures forall x :: x in xs ==> |x| <= |m| && (|x| == |m| ==> !LexLess(m, x))
  {
    if |xs| == 1 then
      LexLessIrreflexive(xs[0]);
      xs[0]
    else
      var init, last := xs[..|xs| - 1], xs[|xs| - 1];
      var m := LongestOf(init);
      assert xs == init + [last];
      if ShorterOrLexLess(m, last) then
        forall x | x in xs ensures |x| <= |last| && (|x| == |last| ==> !LexLess(last, x)) {
          if x == last {
            LexLessIrreflexive(last);
          } else if |x| == |last| && LexLess(last, x) {
            LexLessTransitive(m, last, x);
          }
        }
        last
      else
        forall x | x in xs ensures |x| <= |m| && (|x| == |m| ==> !LexLess(m, x)) {
          if x == last && x != m && |x| == |m| {
            LexLessTotal(m, x);
          }
        }
        m
  }

  /** `longest_ORF` as its comment describes it: the longest ORF, ties broken by code-point order. */
  function LongestOrf(dna: string): (r: Result<string>)
    ensures r.Ok? <==> BothStrandOrfs(dna).Ok? && |BothStrandOrfs(dna).value| > 0
    ensures BothStrandOrfs(dna).Ok? && |BothStrandOrfs(dna).value| == 0 ==> r == Err(EmptyOrfList)
    ensures r.Ok? ==> r.value in BothStrandOrfs(dna).value
    ensures r.Ok? ==> forall orf :: orf in BothStrandOrfs(dna).value ==> |orf| <= |r.value|
  {
    match BothStrandOrfs(dna)
    case Err(e) => Err(e)
    case Ok(orfs) => if |orfs| == 0 then Err(EmptyOrfList) else Ok(LongestOf(orfs))
  }

  lemma ExampleStrandOrfs(dna: string)
    requires dna == "ATGAAATAAATGC"
    ensures OneFrameOrfs(dna) == ["ATGAAA", "ATGC"]
  {
    assert dna[0..3] == StartCodon;
    assert NextStart(dna, 0) == Some(0);
    assert dna[6..9] == StopCodons[0];
    NoStopAtOtherLetter(dna, 0);
    NoStopAtOtherLetter(dna, 3);
    NoStopAtOtherLetter(dna, 9);
    assert FirstStop(dna, 6) == 6;
    assert FirstStop(dna, 0) == 6;
    assert OrfAt(dna, 0) == "ATGAAA";
    assert ResumeAt(dna, 0) == 9;
    assert dna[9..12] == StartCodon;
    assert NextStart(dna, 9) == Some(9);
    assert FirstStop(dna, 9) == 13;
    assert OrfAt(dna, 9) == "ATGC";
    assert ResumeAt(dna, 9) == 13;
    assert OrfStarts(dna, 13) == [];
    assert OrfStarts(dna, 0) == [0, 9];
    assert [0, 9][1..] == [9];
    assert OrfsAt(dna, [9]) == ["ATGC"];
  }

  /** A codon other than `ATG` is not a start codon. */
  lemma NoStartAtOther(s: string, p: int)
    requires 0 <= p
    requires p + 3 > |s| || s[p] != 'A' || s[p + 1] != 'T' || s[p + 2] != 'G'
    ensures !StartAt(s, p)
  {
    if p + 3 <= |s| {
      assert s[p..p + 3][0] == s[p] && s[p..p + 3][1] == s[p + 1] && s[p..p + 3][2] == s[p + 2];
    }
  }

  /** A strand of at most 15 characters with no `ATG` at 0, 3, 6, 9 or 12 has no ORF in its frame. */
  lemma NoOrfsInFiveCodons(s: string)
    requires |s| <= 15
    requires !StartAt(s, 0) && !StartAt(s, 3) && !StartAt(s, 6) && !StartAt(s, 9) && !StartAt(s, 12)
    ensures OneFrameOrfs(s) == []
  {
    assert NextStart(s, 12) == None;
    assert NextStart(s, 0) == None;
  }

  /** The frames of the example strand and of its reverse complement that hold no start codon. */
  lemma FrameWithoutStart(s: string)
    requires || s == "TGAAATAAATGC" || s == "GAAATAAATGC"
             || s == "GCATTTATTTCAT" || s == "CATTTATTTCAT" || s == "ATTTATTTCAT"
    ensures OneFrameOrfs(s) == []
  {
    NoStartAtOther(s, 0);
    NoStartAtOther(s, 3);
    NoStartAtOther(s, 6);
    NoStartAtOther(s, 9);
    NoStartAtOther(s, 12);
    NoOrfsInFiveCodons(s);
  }

  lemma ExampleReverseComplement(dna: string, rc: string)
    requires dna == "ATGAAATAAATGC" && rc == "GCATTTATTTCAT"
    ensures ReverseComplement(dna) == Ok(rc)
  {
    forall k | 0 <= k < |dna| ensures Complement(dna[|dna| - 1 - k]) == Ok(rc[k]) {
    }
    ReverseComplementFromPoints(dna, rc);
  }

  lemma ExampleOtherFramesEmpty(dna: string, rc: string)
    requires dna == "ATGAAATAAATGC" && rc == "GCATTTATTTCAT"
    ensures OneFrameOrfs(Drop(dna, 1)) == [] && OneFrameOrfs(Drop(dna, 2)) == []
    ensures OneFrameOrfs(rc) == [] && OneFrameOrfs(Drop(rc, 1)) == [] && OneFrameOrfs(Drop(rc, 2)) == []
  {
    FrameWithoutStart(Drop(dna, 1));
    FrameWithoutStart(Drop(dna, 2));
    FrameWithoutStart(rc);
    FrameWithoutStart(Drop(rc, 1));
    FrameWithoutStart(Drop(rc, 2));
  }

  /** The strand `ATGAAATAAATGC` has the ORFs `ATGAAA` and `ATGC`; its reverse complement has none. */
  lemma ExampleBothStrands(dna: string, rc: string)
    requires dna == "ATGAAATAAATGC" && rc == "GCATTTATTTCAT"
    ensures BothStrandOrfs(dna) == Ok(["ATGAAA", "ATGC"])
  {
    ExampleReverseComplement(dna, rc);
    BothStrandOrfsOrder(dna);
    ExampleAllFrames(dna, rc);
  }

  lemma ExampleAllFrames(dna: string, rc: string)
    requires dna == "ATGAAATAAATGC" && rc == "GCATTTATTTCAT"
    ensures AllFrameOrfs(dna) + AllFrameOrfs(rc) == ["ATGAAA", "ATGC"]
  {
    ExampleStrandOrfs(dna);
    ExampleOtherFramesEmpty(dna, rc);
    var orfs := OneFrameOrfs(dna);
    assert AllFrameOrfs(dna) == orfs + [] + [];
    assert AllFrameOrfs(rc) == [];
    assert AllFrameOrfs(dna) + AllFrameOrfs(rc) == orfs;
  }

  /** Frame 0 of `ATGCATGAATGTAG` has no stop codon, so its one ORF is the whole strand. */
  lemma ExampleFrameNoStop(s: string)
    requires s == "ATGCATGAATGTAG"
    ensures OneFrameOrfs(s) == ["ATGCATGAATGTAG"]
  {
    assert s[0..3] == StartCodon;
    assert NextStart(s, 0) == Some(0);
    NoStopAtOtherLetter(s, 0);
    NoStopAtOtherLetter(s, 3);
    NoStopAtOtherLetter(s, 6);
    assert s[9..12] == "TGT";
    assert !StopAt(s, 9);
    assert FirstStop(s, 12) == 14;
    assert FirstStop(s, 6) == 14;
    assert FirstStop(s, 0) == 14;
    assert ResumeAt(s, 0) == 14;
    assert OrfStarts(s, 0) == [0];
    assert OrfAt(s, 0) == s[0..14] == s;
    assert [0][1..] == [];
  }

  /** Frame 1 of `ATGCATGAATGTAG`: one ORF from the second codon to the end. */
  lemma ExampleFrameLateStart(t: string)
    requires t == "TGCATGAATGTAG"
    ensures OneFrameOrfs(t) == ["ATGAATGTAG"]
  {
    NoStartAtOther(t, 0);
    assert t[3..6] == StartCodon;
    assert NextStart(t, 0) == Some(3);
    NoStopAtOtherLetter(t, 3);
    NoStopAtOtherLetter(t, 6);
    NoStopAtOtherLetter(t, 9);
    assert FirstStop(t, 12) == 13;
    assert FirstStop(t, 6) == 13;
    assert FirstStop(t, 3) == 13;
    assert ResumeAt(t, 3) == 13;
    assert OrfStarts(t, 0) == [3];
    assert OrfAt(t, 3) == t[3..13] == "ATGAATGTAG";
    assert [3][1..] == [];
  }

  /** Frame 2 of `ATGCATGAATGTAG`: the start codon is followed at once by `TAG`. */
  lemma ExampleFrameShortOrf(u: string)
    requires u == "GCATGAATGTAG"
    ensures OneFrameOrfs(u) == ["ATG"]
  {
    NoStartAtOther(u, 0);
    NoStartAtOther(u, 3);
    assert u[6..9] == StartCodon;
    assert NextStart(u, 6) == Some(6);
    assert NextStart(u, 3) == Some(6);
    assert NextStart(u, 0) == Some(6);
    NoStopAtOtherLetter(u, 6);
    assert u[9..12] == StopCodons[1];
    assert FirstStop(u, 6) == 9;
    assert ResumeAt(u, 6) == 12;
    assert OrfStarts(u, 0) == [6];
  }

  /** The documented example of `find_all_ORFs`: one ORF in each of the three frames. */
  lemma ExampleThreeFrames(dna: string)
    requires dna == "ATGCATGAATGTAG"
    ensures AllFrameOrfs(dna) == ["ATGCATGAATGTAG", "ATGAATGTAG", "ATG"]
  {
    ExampleFrameNoStop(dna);
    ExampleFrameLateStart(Drop(dna, 1));
    ExampleFrameShortOrf(Drop(dna, 2));
  }

  /**
   * On `ATGAAATAAATGC`, `max` picks the shorter ORF `ATGC`, while the
   * longest is `ATGAAA`.
   */
  lemma LexGreatestIsNotLongest(dna: string)
    requires dna == "ATGAAATAAATGC"
    ensures LexGreatestOrf(dna) == Ok("ATGC")
    ensures LongestOrf(dna) == Ok("ATGAAA")
  {
    ExampleBothStrands(dna, "GCATTTATTTCAT");
    assert LexLess("ATGAAA", "ATGC");
  }
}
