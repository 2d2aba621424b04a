/**
 * Translation of a coding strand into amino acids (`coding_strand_to_AA`)
 * and the last two steps of `gene_finder`: keep the ORFs longer than a
 * threshold and translate each of them.
 *
 * The codon table is a parameter: a map from three-letter codons to the
 * amino-acid text each one stands for.
 */
module Translation {
  import opened Wrappers
  import opened Strands

  type CodonTable = map<string, string>

  /**
   * The codons `coding_strand_to_AA` reads: `len(dna) // 3` consecutive
   * three-letter pieces from index 0, leaving out one or two trailing
   * characters.
   */
  function Codons(dna: string): (cs: seq<string>)
    ensures |cs| == |dna| / 3
    ensures forall k :: 0 <= k < |cs| ==> |cs[k]| == 3 && cs[k] == dna[3 * k..3 * k + 3]
  {
    seq(|dna| / 3, k requires 0 <= k < |dna| / 3 => dna[3 * k..3 * k + 3])
  }

  /** The strings of a list written one after another (`''.join`). */
  function Concat(xs: seq<string>): string
  {
    if |xs| == 0 then "" else xs[0] + Concat(xs[1..])
  }

  lemma {:induction false} ConcatAppend(xs: seq<string>, ys: seq<string>)
    ensures Concat(xs + ys) == Concat(xs) + Concat(ys)
  {
    if |xs| > 0 {
      assert (xs + ys)[0] == xs[0];
      assert (xs + ys)[1..] == xs[1..] + ys;
      ConcatAppend(xs[1..], ys);
      calc {
        Concat(xs + ys);
        xs[0] + Concat(xs[1..] + ys);
        xs[0] + (Concat(xs[1..]) + Concat(ys));
        (xs[0] + Concat(xs[1..])) + Concat(ys);
        Concat(xs) + Concat(ys);
      }
    } else {
      assert xs + ys == ys;
    }
  }

  /** Written back one after another, the codons give the strand without its trailing characters. */
  lemma {:induction false} CodonsCoverStrand(dna: string)
    ensures Concat(Codons(dna)) == dna[..3 * (|dna| / 3)]
    decreases |dna|
  {
    var n := |dna| / 3;
    if n > 0 {
      var init := dna[..3 * (n - 1)];
      CodonsCoverStrand(init);
      forall k | 0 <= k < n - 1 ensures Codons(dna)[k] == Codons(init)[k] {
        assert dna[3 * k..3 * k + 3] == init[3 * k..3 * k + 3];
      }
      assert Codons(dna) == Codons(init) + [dna[3 * (n - 1)..3 * n]];
      ConcatAppend(Codons(init), [dna[3 * (n - 1)..3 * n]]);
      assert dna[..3 * n] == init + dna[3 * (n - 1)..3 * n];
    }
  }

  /** Characters after the last whole codon play no part. */
  lemma CodonsIgnoreTail(dna: string)
    ensures Codons(dna) == Codons(dna[..3 * (|dna| / 3)])
  {
    var whole := dna[..3 * (|dna| / 3)];
    forall k | 0 <= k < |dna| / 3 ensures Codons(dna)[k] == Codons(whole)[k] {
      assert dna[3 * k..3 * k + 3] == whole[3 * k..3 * k + 3];
    }
  }

  /**
   * The list comprehension that looks each codon up in the table, joined:
   * the first codon missing from the table makes the lookup fail.
   */
  function Translate(table: CodonTable, cs: seq<string>): (r: Result<string>)
    ensures r.Ok? <==> forall k :: 0 <= k < |cs| ==> cs[k] in table
  {
    if |cs| == 0 then Ok("")
    else if cs[0] !in table then Err(UnknownCodon(cs[0]))
    else match Translate(table, cs[1..])
      case Err(e) => Err(e)
      case Ok(rest) => Ok(table[cs[0]] + rest)
  }

  /** A successful translation is the table's entries for the codons, joined. */
  lemma {:induction false} TranslateJoins(table: CodonTable, cs: seq<string>)
    requires forall k :: 0 <= k < |cs| ==> cs[k] in table
    ensures Translate(table, cs) == Ok(Concat(seq(|cs|, k requires 0 <= k < |cs| => table[cs[k]])))
  {
    if |cs| > 0 {
      TranslateJoins(table, cs[1..]);
      var aas := seq(|cs|, k requires 0 <= k < |cs| => table[cs[k]]);
      assert aas[1..] == seq(|cs| - 1, k requires 0 <= k < |cs| - 1 => table[cs[1..][k]]);
    }
  }

  /** The error names the first codon that is missing from the table. */
  lemma {:induction false} TranslateFailsAtFirstUnknown(table: CodonTable, cs: seq<string>, i: nat)
    requires i < |cs| && cs[i] !in table
    requires forall k :: 0 <= k < i ==> cs[k] in table
    ensures Translate(table, cs) == Err(UnknownCodon(cs[i]))
  {
    if i > 0 {
      TranslateFailsAtFirstUnknown(table, cs[1..], i - 1);
    }
  }

  /** With a table of one-letter amino-acid codes, the protein has one letter per codon. */
  lemma {:induction false} TranslateOneLetter(table: CodonTable, cs: seq<string>)
    requires forall c :: c in table ==> |table[c]| == 1
    requires Translate(table, cs).Ok?
    ensures |Translate(table, cs).value| == |cs|
    ensures forall k :: 0 <= k < |cs| ==> Translate(table, cs).value[k..k + 1] == table[cs[k]]
  {
    if |cs| > 0 {
      TranslateOneLetter(table, cs[1..]);
      var r := Translate(table, cs).value;
      var rest := Translate(table, cs[1..]).value;
      assert r == table[cs[0]] + rest;
      forall k | 0 <= k < |cs| ensures r[k..k + 1] == table[cs[k]] {
        if k > 0 {
          assert r[k..k + 1] == rest[k - 1..k];
          assert cs[k] == cs[1..][k - 1];
        }
      }
    }
  }

  /** Translating two codon lists one after the other is translating them joined. */
  lemma {:induction false} TranslateAppend(table: CodonTable, xs: seq<string>, ys: seq<string>)
    requires Translate(table, xs).Ok? && Translate(table, ys).Ok?
    ensures Translate(table, xs + ys) == Ok(Translate(table, xs).value + Translate(table, ys).value)
  {
    if |xs| > 0 {
      assert (xs + ys)[1..] == xs[1..] + ys;
      assert (xs + ys)[0] == xs[0] && xs[0] in table;
      TranslateAppend(table, xs[1..], ys);
      var head := table[xs[0]];
      var tail := Translate(table, xs[1..]).value;
      assert Translate(table, xs) == Ok(head + tail);
      assert Translate(table, xs + ys) == Ok(head + (tail + Translate(table, ys).value));
      assert head + (tail + Translate(table, ys).value) == (head + tail) + Translate(table, ys).value;
    } else {
      assert xs + ys == ys;
      var v := Translate(table, ys).value;
      assert Translate(table, xs).value == "";
      assert "" + v == v;
    }
  }

  /** One step of the translation: the first codon's entry, then the rest translated. */
  lemma TranslateCons(table: CodonTable, cs: seq<string>)
    requires |cs| > 0 && cs[0] in table && Translate(table, cs[1..]).Ok?
    ensures Translate(table, cs) == Ok(table[cs[0]] + Translate(table, cs[1..]).value)
  {
  }

  /** All codons are in the table exactly when every whole three-letter piece of the strand is. */
  lemma CodonsInTable(table: CodonTable, dna: string)
    ensures (forall k :: 0 <= k < |Codons(dna)| ==> Codons(dna)[k] in table) <==>
            (forall k :: 0 <= k < |dna| / 3 ==> dna[3 * k..3 * k + 3] in table)
  {
    var cs := Codons(dna);
    forall k | 0 <= k < |cs| ensures cs[k] == dna[3 * k..3 * k + 3] {
    }
    if forall k :: 0 <= k < |dna| / 3 ==> dna[3 * k..3 * k + 3] in table {
      forall k | 0 <= k < |cs| ensures cs[k] in table {
        assert dna[3 * k..3 * k + 3] in table;
      }
    }
    if forall k :: 0 <= k < |cs| ==> cs[k] in table {
      forall k | 0 <= k < |dna| / 3 ensures dna[3 * k..3 * k + 3] in table {
        assert cs[k] in table;
      }
    }
  }

  /** `coding_strand_to_AA`. */
  function CodingStrandToAa(table: CodonTable, dna: string): (r: Result<string>)
    ensures r.Ok? <==> forall k :: 0 <= k < |dna| / 3 ==> dna[3 * k..3 * k + 3] in table
  {
    CodonsInTable(table, dna);
    Translate(table, Codons(dna))
  }

  /** The doctests of `coding_strand_to_AA`, for any table with the standard entries for these codons. */
  lemma CodingStrandToAaExamples(table: CodonTable, dna1: string, dna2: string)
    requires "ATG" in table && table["ATG"] == "M"
    requires "CGA" in table && table["CGA"] == "R"
    requires "CCC" in table && table["CCC"] == "P"
    requires "GCT" in table && table["GCT"] == "A"
    requires dna1 == "ATGCGA" && dna2 == "ATGCCCGCTTT"
    ensures CodingStrandToAa(table, dna1) == Ok("MR")
    ensures CodingStrandToAa(table, dna2) == Ok("MPA")
  {
    var cs1, cs2 := Codons(dna1), Codons(dna2);
    assert cs1[0] == dna1[0..3] == "ATG" && cs1[1] == dna1[3..6] == "CGA";
    assert |cs2| == 3;
    assert cs2[0] == dna2[0..3] == "ATG";
    assert cs2[1] == dna2[3..6] == "CCC";
    assert cs2[2] == dna2[6..9] == "GCT";
    assert cs1[1..][1..] == [] && cs2[2..][1..] == [];
    assert Translate(table, []) == Ok("");
    TranslateCons(table, cs1[1..]);
    assert Translate(table, cs1[1..]) == Ok("R" + "");
    assert "R" + "" == "R";
    TranslateCons(table, cs1);
    assert Translate(table, cs1) == Ok("M" + "R");
    assert "M" + "R" == "MR";
    TranslateCons(table, cs2[2..]);
    assert Translate(table, cs2[2..]) == Ok("A" + "");
    assert "A" + "" == "A";
    assert cs2[1..][1..] == cs2[2..];
    TranslateCons(table, cs2[1..]);
    assert Translate(table, cs2[1..]) == Ok("P" + "A");
    assert "P" + "A" == "PA";
    TranslateCons(table, cs2);
    assert Translate(table, cs2) == Ok("M" + "PA");
    assert "M" + "PA" == "MPA";
  }

  /** The comprehension in `gene_finder` (gene_finder.py:212): the ORFs longer than `threshold`, in their order. */
  function KeepLongerThan(orfs: seq<string>, threshold: int): (kept: seq<string>)
    ensures |kept| <= |orfs|
    ensures forall k :: 0 <= k < |kept| ==> |kept[k]| > threshold
  {
    if |orfs| == 0 then []
    else
      var rest := KeepLongerThan(orfs[1..], threshold);
      if |orfs[0]| > threshold then [orfs[0]] + rest else rest
  }

  /** Each ORF is kept exactly as often as it occurs when it is long enough, and never otherwise. */
  lemma {:induction false} KeepLongerThanCounts(orfs: seq<string>, threshold: int, x: string)
    ensures multiset(KeepLongerThan(orfs, threshold))[x] == if |x| > threshold then multiset(orfs)[x] else 0
  {
    if |orfs| > 0 {
      KeepLongerThanCounts(orfs[1..], threshold, x);
      assert orfs == [orfs[0]] + orfs[1..];
    }
  }

  /** Filtering a list in two parts is filtering each: the kept ORFs stay in their order. */
  lemma {:induction false} KeepLongerThanAppend(xs: seq<string>, ys: seq<string>, threshold: int)
    ensures KeepLongerThan(xs + ys, threshold) == KeepLongerThan(xs, threshold) + KeepLongerThan(ys, threshold)
  {
    if |xs| > 0 {
      assert (xs + ys)[0] == xs[0];
      assert (xs + ys)[1..] == xs[1..] + ys;
      KeepLongerThanAppend(xs[1..], ys, threshold);
      var rest := KeepLongerThan(xs[1..], threshold);
      var others := KeepLongerThan(ys, threshold);
      if |xs[0]| > threshold {
        assert KeepLongerThan(xs + ys, threshold) == [xs[0]] + (rest + others);
        assert [xs[0]] + (rest + others) == ([xs[0]] + rest) + others;
      } else {
        assert KeepLongerThan(xs + ys, threshold) == rest + others;
      }
    } else {
      assert xs + ys == ys;
    }
  }

  /**
   * The list comprehension in `gene_finder` (gene_finder.py:214): every kept
   * ORF translated, failing at the first that cannot be.
   */
  function TranslateAll(table: CodonTable, orfs: seq<string>): (r: Result<seq<string>>)
    ensures r.Ok? <==> forall k :: 0 <= k < |orfs| ==> CodingStrandToAa(table, orfs[k]).Ok?
    ensures r.Ok? ==> |r.value| == |orfs|
    ensures r.Ok? ==> forall k :: 0 <= k < |orfs| ==> CodingStrandToAa(table, orfs[k]) == Ok(r.value[k])
  {
    if |orfs| == 0 then Ok([])
    else match CodingStrandToAa(table, orfs[0])
      case Err(e) => Err(e)
      case Ok(protein) =>
        match TranslateAll(table, orfs[1..])
        case Err(e) => Err(e)
        case Ok(rest) => Ok([protein] + rest)
  }

  /**
   * `gene_finder` from gene_finder.py:212 on, with the threshold given: the proteins
   * of the ORFs on both strands that are longer than `threshold`.
   */
  function GeneFinder(table: CodonTable, dna: string, threshold: int): (r: Result<seq<string>>)
    ensures BothStrandOrfs(dna).Err? ==> r == Err(BothStrandOrfs(dna).error)
    ensures BothStrandOrfs(dna).Ok? ==> r == TranslateAll(table, KeepLongerThan(BothStrandOrfs(dna).value, threshold))
  {
    match BothStrandOrfs(dna)
    case Err(e) => Err(e)
    case Ok(orfs) => TranslateAll(table, KeepLongerThan(orfs, threshold))
  }

  /** Each protein `gene_finder` reports is the translation of an ORF longer than the threshold. */
  lemma GeneFinderProteins(table: CodonTable, dna: string, threshold: int, k: nat)
    ensures GeneFinder(table, dna, threshold).Ok? && k < |GeneFinder(table, dna, threshold).value| ==>
              exists orf :: orf in BothStrandOrfs(dna).value && |orf| > threshold &&
                CodingStrandToAa(table, orf) == Ok(GeneFinder(table, dna, threshold).value[k])
  {
    if GeneFinder(table, dna, threshold).Ok? && k < |GeneFinder(table, dna, threshold).value| {
      var kept := KeepLongerThan(BothStrandOrfs(dna).value, threshold);
      var orf := kept[k];
      KeepLongerThanCounts(BothStrandOrfs(dna).value, threshold, orf);
      assert orf in multiset(kept);
    }
  }
}
