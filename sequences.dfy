/**
 * Complement and reverse complement of a nucleotide string
 * (`get_complement`, `get_reverse_complement`).
 */
module Sequences {
  import opened Wrappers
  import opened Builtins

  /** The lookup list of `get_complement`: each base's partner sits at the mirrored position. */
  const Lookup: string := "GATC"

  /** An upper-case nucleotide. */
  predicate IsBase(c: char)
  {
    c == 'A' || c == 'C' || c == 'G' || c == 'T'
  }

  /** A string of upper-case nucleotides only. */
  predicate IsDna(s: string)
  {
    forall i :: 0 <= i < |s| ==> IsBase(s[i])
  }

  /** `str.upper()` on one character, for the ASCII letters. */
  function Upper(c: char): char
  {
    if 'a' <= c <= 'z' then (c as int - 32) as char else c
  }

  /** A string every character of which is a nucleotide in either case. */
  predicate IsDnaAnyCase(s: string)
  {
    forall i :: 0 <= i < |s| ==> IsBase(Upper(s[i]))
  }

  /**
   * `get_complement`: look up the upper-cased character in the list and read
   * the list backwards from there. A and T swap, C and G swap, lower case is
   * accepted, and any other character is not found in the list.
   */
  function Complement(c: char): (r: Result<char>)
    ensures r.Ok? <==> IsBase(Upper(c))
    ensures r.Err? ==> r.error == InvalidNucleotide(c)
    ensures Upper(c) == 'A' ==> r == Ok('T')
    ensures Upper(c) == 'T' ==> r == Ok('A')
    ensures Upper(c) == 'C' ==> r == Ok('G')
    ensures Upper(c) == 'G' ==> r == Ok('C')
  {
    match IndexOf(Lookup, Upper(c))
    case None => Err(InvalidNucleotide(c))
    case Some(k) => Ok(Lookup[3 - k])
  }

  lemma UpperOfDna(s: string)
    requires IsDna(s)
    ensures IsDnaAnyCase(s)
  {
    forall i | 0 <= i < |s| ensures Upper(s[i]) == s[i] {
    }
  }

  lemma ComplementInvolution(c: char)
    requires IsBase(c)
    ensures Complement(c).Ok? && IsBase(Complement(c).value)
    ensures Complement(Complement(c).value) == Ok(c)
  {
  }

  /**
   * `get_reverse_complement`: the complements of the characters of `dna`,
   * last character first. The first failure met in that order, which is the
   * last bad character of `dna`, is the one reported.
   */
  function ReverseComplement(dna: string): (r: Result<string>)
    ensures r.Ok? <==> IsDnaAnyCase(dna)
    ensures r.Ok? ==> |r.value| == |dna| && IsDna(r.value)
    ensures r.Ok? ==> forall k :: 0 <= k < |dna| ==> Complement(dna[|dna| - 1 - k]) == Ok(r.value[k])
  {
    if |dna| == 0 then Ok("")
    else
      var n := |dna|;
      match Complement(dna[n - 1])
      case Err(e) => Err(e)
      case Ok(c) =>
        match ReverseComplement(dna[..n - 1])
        case Err(e) =>
          PrefixAnyCase(dna);
          Err(e)
        case Ok(rest) =>
          PrependComplement(dna, c, rest);
          Ok([c] + rest)
  }

  /** A strand is a nucleotide string when its prefix and last character are. */
  lemma PrefixAnyCase(dna: string)
    requires |dna| > 0
    ensures IsDnaAnyCase(dna) <==> IsDnaAnyCase(dna[..|dna| - 1]) && IsBase(Upper(dna[|dna| - 1]))
  {
    var n := |dna|;
    assert forall i :: 0 <= i < n - 1 ==> dna[..n - 1][i] == dna[i];
  }

  /** The reverse complement of `dna` is its last character's complement before that of the rest. */
  lemma PrependComplement(dna: string, c: char, rest: string)
    requires |dna| > 0 && Complement(dna[|dna| - 1]) == Ok(c)
    requires IsDnaAnyCase(dna[..|dna| - 1])
    requires |rest| == |dna| - 1 && IsDna(rest)
    requires forall k :: 0 <= k < |rest| ==> Complement(dna[..|dna| - 1][|rest| - 1 - k]) == Ok(rest[k])
    ensures IsDnaAnyCase(dna)
    ensures |[c] + rest| == |dna| && IsDna([c] + rest)
    ensures forall k :: 0 <= k < |dna| ==> Complement(dna[|dna| - 1 - k]) == Ok(([c] + rest)[k])
  {
    PrefixAnyCase(dna);
    var r := [c] + rest;
    forall k | 0 <= k < |dna| ensures Complement(dna[|dna| - 1 - k]) == Ok(r[k]) {
      if k > 0 {
        assert r[k] == rest[k - 1];
        assert dna[..|dna| - 1][|rest| - 1 - (k - 1)] == dna[|dna| - 1 - k];
      }
    }
  }

  /** Reverse complementing a strand of upper-case nucleotides twice gives it back. */
  lemma ReverseComplementInvolution(dna: string)
    requires IsDna(dna)
    ensures ReverseComplement(dna).Ok?
    ensures ReverseComplement(ReverseComplement(dna).value) == Ok(dna)
  {
    UpperOfDna(dna);
    var rc := ReverseComplement(dna).value;
    UpperOfDna(rc);
    var back := ReverseComplement(rc).value;
    ComplementsTwice(dna, rc, back);
  }

  /** Complementing last character first, twice over, gives the strand back. */
  lemma ComplementsTwice(dna: string, rc: string, back: string)
    requires IsDna(dna) && |rc| == |dna| && |back| == |dna|
    requires forall k {:trigger rc[k]} :: 0 <= k < |dna| ==> Complement(dna[|dna| - 1 - k]) == Ok(rc[k])
    requires forall k {:trigger back[k]} :: 0 <= k < |rc| ==> Complement(rc[|rc| - 1 - k]) == Ok(back[k])
    ensures back == dna
  {
    forall k | 0 <= k < |dna| ensures back[k] == dna[k] {
      ComplementsTwiceAt(dna, rc, back, k);
    }
  }

  /** One position of `ComplementsTwice`: position `k` comes back through position `|dna| - 1 - k`. */
  lemma ComplementsTwiceAt(dna: string, rc: string, back: string, k: nat)
    requires IsDna(dna) && |rc| == |dna| && |back| == |dna| && k < |dna|
    requires forall k {:trigger rc[k]} :: 0 <= k < |dna| ==> Complement(dna[|dna| - 1 - k]) == Ok(rc[k])
    requires forall k {:trigger back[k]} :: 0 <= k < |rc| ==> Complement(rc[|rc| - 1 - k]) == Ok(back[k])
    ensures back[k] == dna[k]
  {
    var j := |dna| - 1 - k;
    assert Complement(rc[j]) == Ok(back[k]);
    assert Complement(dna[|dna| - 1 - j]) == Ok(rc[j]);
    ComplementTwice(dna[k], rc[j], back[k]);
  }

  lemma ComplementTwice(c: char, d: char, e: char)
    requires IsBase(c) && Complement(c) == Ok(d) && Complement(d) == Ok(e)
    ensures e == c
  {
    ComplementInvolution(c);
  }

  /**
   * The characters are complemented last one first, so the character
   * reported for a bad strand is its last invalid one.
   */
  lemma {:induction false} ReverseComplementFailsAtLastBad(dna: string, i: nat)
    requires i < |dna| && !IsBase(Upper(dna[i])) && IsDnaAnyCase(dna[i + 1..])
    ensures ReverseComplement(dna) == Err(InvalidNucleotide(dna[i]))
  {
    var n := |dna|;
    if i < n - 1 {
      assert IsBase(Upper(dna[i + 1..][n - 2 - i]));
      var init := dna[..n - 1];
      assert init[i + 1..] == dna[i + 1..n - 1];
      ReverseComplementFailsAtLastBad(init, i);
    }
  }

  lemma AllComplementedIsDna(dna: string, rc: string)
    requires |rc| == |dna|
    requires forall k :: 0 <= k < |dna| ==> Complement(dna[|dna| - 1 - k]) == Ok(rc[k])
    ensures IsDnaAnyCase(dna)
  {
    forall i | 0 <= i < |dna| ensures IsBase(Upper(dna[i])) {
      var k := |dna| - 1 - i;
      assert Complement(dna[|dna| - 1 - k]) == Ok(rc[k]);
    }
  }

  /** A strand whose complements, read last character first, spell `rc` has reverse complement `rc`. */
  lemma ReverseComplementFromPoints(dna: string, rc: string)
    requires |rc| == |dna|
    requires forall k :: 0 <= k < |dna| ==> Complement(dna[|dna| - 1 - k]) == Ok(rc[k])
    ensures ReverseComplement(dna) == Ok(rc)
  {
    AllComplementedIsDna(dna, rc);
    ComplementsAgree(dna, ReverseComplement(dna).value, rc);
  }

  lemma ComplementsAgree(dna: string, r: string, rc: string)
    requires |r| == |dna| && |rc| == |dna|
    requires forall k :: 0 <= k < |dna| ==> Complement(dna[|dna| - 1 - k]) == Ok(r[k])
    requires forall k :: 0 <= k < |dna| ==> Complement(dna[|dna| - 1 - k]) == Ok(rc[k])
    ensures r == rc
  {
    forall k | 0 <= k < |dna| ensures r[k] == rc[k] {
      var c := dna[|dna| - 1 - k];
      assert Complement(c) == Ok(r[k]) && Complement(c) == Ok(rc[k]);
    }
  }
}
