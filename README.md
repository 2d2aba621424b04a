# Gene finder and longest common substring, modelled in Dafny

This project models two scanning routines.

The first is the ORF (open reading frame) scanner of `gene_finder.py`:
- complement and reverse complement of a nucleotide string;
- `rest_of_ORF`, which cuts an ORF at the first stop codon in its frame;
- the single-frame scan `find_all_ORFs_oneframe`, its three-frame and two-strand extensions, and `longest_ORF`;
- translation of a coding strand into amino acids (`coding_strand_to_AA`);
- the final length filter and translation of `gene_finder`.

The second is the dynamic-programming routine `longest_common_substring` of `meta_genome.py`.

The modules follow the program:
- `Wrappers`: `Option`, and `Result` with the program's error kinds.
  - `InvalidNucleotide` is the `ValueError` of `list.index`.
  - `UnknownCodon` is the `KeyError` of the codon table.
  - `EmptyOrfList` is the `ValueError` of `max` on an empty list.
- `Builtins`: the parts of Python the scanner relies on.
  - Slicing with clamped bounds, `list.index`, `filter`, `min`.
  - `max` on strings, with the code-point order of strings.
  - `re.finditer` with a literal pattern: a left-to-right scan for non-overlapping matches.
- `Sequences`: `get_complement`, `get_reverse_complement`.
- `OrfScanner`: `rest_of_ORF`, `find_all_ORFs_oneframe` and `find_all_ORFs`.
  - The two scans are methods with the source's `while` and `for` loops.
  - They are proved equal to a reference scan. The reference moves codon by codon to the next start codon (`NextStart`), cuts at the first stop codon (`FirstStop`), and resumes past it (`OrfStarts`).
- `OrfProperties`: what the scans promise.
  - Each returned string is an open reading frame (`IsOrf`).
  - The ORFs of a scan lie in its frame, in order, without overlapping.
  - The only start codons left out are those nested in an ORF already returned.
- `Strands`: `find_all_ORFs_both_strands` and `longest_ORF`, with a worked example.
- `Translation`: `coding_strand_to_AA` and the filter-and-translate step of `gene_finder`.
- `MetaGenome`: `longest_common_substring`.
  - As written, it is a method over an `array2<nat>` table with the source's nested `for` loops.
  - Its corrected version is `LongestCommonSubstrings`.

Constants and parameters:
- The start codon `ATG` and the stop codons `TAA`, `TAG`, `TGA` are constants. In the source they are `codons[3][0]` and `codons[10]` of the `amino_acids` module.
- The codon table `aa_table` is a parameter of type `map<string, string>`.
- The noise threshold of `gene_finder` is a parameter.

Where the code and its documentation differ, the model follows the code:
- `longest_ORF` uses `max` on strings.
- The table cells in row 0 and column 0 of `longest_common_substring` stay 0.
- `longest_common_substring` cuts its result from `string1` with the row index of `string2`, and the cut leaves out the last character of the run. So the documented `"asldjf"` comes out as `"sldjf"`.
- `longest_common_substring` keeps only the first run of the greatest length, because the branch that would add a tie is commented out.

All four differences are listed under Findings, each with a corrected version.

## Model

| member | source | states |
|---|---|---|
| Builtins.Drop | gene_finder.py:114 | `s[k:]` is the suffix from `k` on, and empty once `k` passes the end |
| Builtins.Slice | meta_genome.py:32 | `s[lo:hi]` is the run from `lo` up to `hi`, clamped to the length: the suffix from `lo` when `hi` passes the end, and empty when `hi` is not past `lo` or `lo` is past the end |
| Builtins.IndexOf | gene_finder.py:39 | `list.index` finds the first position holding the value, and fails exactly when the value is absent |
| Builtins.FilterMembership | gene_finder.py:77 | `filter` keeps exactly the members that satisfy the predicate |
| Builtins.MinOf | gene_finder.py:79 | `min` of a non-empty list is a member and at most every member |
| Builtins.FindIterFromMatchesInOrder | gene_finder.py:73 | the scan of `re.finditer` reports occurrences of the pattern in increasing order, none overlapping the next |
| Builtins.FindIterFromFindsAll | gene_finder.py:73 | from a position on, a pattern that cannot overlap itself is found at exactly the positions where it occurs |
| Builtins.FindIterFindsAll | gene_finder.py:73 | `re.finditer` on a pattern that cannot overlap itself reports every occurrence and nothing else |
| Builtins.LexLessIrreflexive | gene_finder.py:161 | no string is less than itself in the string order `max` uses |
| Builtins.LexLessTransitive | gene_finder.py:161 | the string order is transitive |
| Builtins.LexLessTotal | gene_finder.py:161 | any two different strings are ordered one way or the other |
| Builtins.MaxOf | gene_finder.py:161 | `max` of a non-empty list of strings is a member, and no member is greater in code-point order |
| Sequences.Complement | gene_finder.py:26-39 | succeeds exactly when the upper-cased character is a nucleotide; A and T swap, C and G swap, in either case; any other character fails with `InvalidNucleotide` naming it |
| Sequences.ComplementInvolution | gene_finder.py:37-39 | complementing a nucleotide twice gives it back |
| Sequences.ReverseComplement | gene_finder.py:42-54 | succeeds exactly when every character is a nucleotide in either case; the result is as long as the input and upper case, and its `k`-th character complements the `k`-th character from the end |
| Sequences.ReverseComplementFromPoints | gene_finder.py:54 | any string that is, character by character, the complement of the input read backwards is the reverse complement |
| Sequences.ReverseComplementInvolution | gene_finder.py:42-54 | reverse complementing an upper-case strand twice gives it back |
| Sequences.ReverseComplementFailsAtLastBad | gene_finder.py:54 | the error names the last bad character of the strand, the first one the reversed traversal meets |
| Strands.ExampleReverseComplement | gene_finder.py:54 | the reverse complement of `ATGAAATAAATGC` is `GCATTTATTTCAT` |
| OrfScanner.CodonsDoNotOverlapThemselves | gene_finder.py:73 | neither `ATG` nor any stop codon can overlap itself, so `re.finditer` finds every occurrence |
| OrfScanner.AllOccurrencesMembership | gene_finder.py:73-75 | the flattened list of match positions holds exactly the positions where one of the patterns occurs |
| OrfScanner.StopOccurrences | gene_finder.py:73-75 | the flattened positions are exactly those where a stop codon begins |
| OrfScanner.AlignedStopsAre | gene_finder.py:77 | after filtering, exactly the stop codons at positions divisible by 3 are left |
| OrfScanner.RestOfOrf | gene_finder.py:57-81 | the result is a prefix of the strand; it ends at the strand's end or right before an in-frame stop codon, and holds no in-frame stop codon |
| OrfScanner.RestOfOrfUnique | gene_finder.py:72-81 | any cut with those three properties is the one `rest_of_ORF` makes |
| OrfScanner.RestOfOrfExampleTga | gene_finder.py:65-66 | `ATGTGAA` gives `ATG` |
| OrfScanner.RestOfOrfExampleTag | gene_finder.py:67-68 | `ATGAGATAGG` gives `ATGAGA` |
| OrfScanner.StartIsNotStop | gene_finder.py:73 | a start codon is never a stop codon |
| OrfScanner.FirstStopIsFirst | gene_finder.py:79-81 | the reference cut is at the first in-frame stop codon, or at the end of the strand |
| OrfScanner.RestOfOrfAt | gene_finder.py:72-81 | on the strand from any position, `rest_of_ORF` cuts where the reference cut is |
| OrfScanner.NextStartIsFirst | gene_finder.py:103-108 | the reference scan skips no start codon in its frame, and finds none exactly when none is left |
| OrfScanner.AlignedStartOffsetsAre | gene_finder.py:103-104 | the filtered matches of `ATG` in the current frame are exactly its in-frame start codons |
| OrfScanner.FirstAlignedStart | gene_finder.py:103-108 | the filtered list is empty exactly when the reference scan finds no start codon, and otherwise its `min` is the start codon found |
| OrfScanner.OneFrameStep | gene_finder.py:108-114 | one round cuts the ORF at the next start codon and leaves the strand from where the reference scan resumes |
| OrfScanner.OneFrameStop | gene_finder.py:105-106 | once no start codon is in frame, the reference scan has nothing more either |
| OrfScanner.NextOrf | gene_finder.py:101-114 | one round of the loop finds an ORF exactly when the reference scan does; if so it returns that ORF and the remaining strand, and otherwise there is nothing left to find |
| OrfScanner.FindAllOrfsOneFrame | gene_finder.py:84-115 | the `while` loop returns the ORFs at the reference start positions, in order |
| OrfScanner.FindAllOrfs | gene_finder.py:118-136 | the `for` loop returns the ORFs of frames 0, 1 and 2, in that order |
| OrfProperties.OrfAtIsOrf | gene_finder.py:57-61 | the ORF cut at a start codon begins there and runs to the first in-frame stop codon or to the end |
| OrfProperties.IsOrfUnique | gene_finder.py:57-61 | only one open reading frame begins at a given start codon |
| OrfProperties.OrfBeginsWithStart | gene_finder.py:57-61 | an ORF holds at least its start codon and begins with `ATG` |
| OrfProperties.ResumeAfterStop | gene_finder.py:114 | the scan resumes right after the stop codon, a whole number of codons on, or at the end of the strand |
| OrfProperties.OrfStartsFirst | gene_finder.py:103-114 | one round of the reference scan finds an in-frame start codon and resumes past it |
| OrfProperties.OrfStartsAreStarts | gene_finder.py:84-88 | every reported position holds a start codon |
| OrfProperties.OrfStartsInFrame | gene_finder.py:87-88 | every reported position is a whole number of codons from where the scan began |
| OrfProperties.OrfStartsSpaced | gene_finder.py:89-90 | each reported ORF ends, with its stop codon, before the next one begins, so none overlap |
| OrfProperties.OrfStartsCover | gene_finder.py:89-90 | an in-frame start codon that is not reported lies inside a reported ORF |
| OrfProperties.OneFrameOrfsAreOrfs | gene_finder.py:84-115 | the single-frame scan returns, in order, the open reading frames at in-frame start positions, each equal to `rest_of_ORF` there |
| OrfProperties.OneFrameOrfsEmpty | gene_finder.py:105-106 | the single-frame scan returns nothing exactly when the frame holds no start codon |
| OrfProperties.OrfOfSuffix | gene_finder.py:133 | an ORF of a shifted frame is an ORF of the whole strand |
| OrfProperties.OneFrameOrfsOfSuffix | gene_finder.py:132-134 | every ORF found in a shifted frame is an ORF of the strand |
| OrfProperties.AllFrameOrfsAreOrfs | gene_finder.py:118-136 | every ORF of the three frames is an ORF of the strand |
| Strands.BothStrandOrfs | gene_finder.py:139-151 | succeeds exactly when every character is a nucleotide; otherwise it fails with the reverse complement's error |
| Strands.BothStrandOrfsAreOrfs | gene_finder.py:139-151 | every ORF returned is an ORF of the strand or of its reverse complement |
| Strands.ExampleStrandOrfs | gene_finder.py:84-115 | the frame-0 ORFs of `ATGAAATAAATGC` are `ATGAAA` and `ATGC` |
| Strands.ExampleOtherFramesEmpty | gene_finder.py:131-136 | the other five frames of that strand and its reverse complement hold no ORF |
| Strands.ExampleAllFrames | gene_finder.py:148-151 | the three-frame ORFs of the strand and of its reverse complement, joined, are `ATGAAA`, `ATGC` |
| Strands.ExampleFrameNoStop | gene_finder.py:84-115 | frame 0 of `ATGCATGAATGTAG` has no stop codon, so its only ORF is the whole strand |
| Strands.ExampleFrameLateStart | gene_finder.py:84-115 | frame 1 of that strand, `TGCATGAATGTAG`, has the one ORF `ATGAATGTAG` |
| Strands.ExampleFrameShortOrf | gene_finder.py:84-115 | frame 2, `GCATGAATGTAG`, has the one ORF `ATG`, cut at once by `TAG` |
| Strands.ExampleThreeFrames | gene_finder.py:128-129 | `find_all_ORFs("ATGCATGAATGTAG")` is `ATGCATGAATGTAG`, `ATGAATGTAG`, `ATG`, as documented |
| Strands.ExampleBothStrands | gene_finder.py:139-151 | `find_all_ORFs_both_strands("ATGAAATAAATGC")` returns `ATGAAA`, `ATGC` |
| Strands.LexGreatestOrf | gene_finder.py:154-161 | `longest_ORF` as written: fails on invalid input or an empty list; otherwise returns a returned ORF that no other exceeds in code-point order |
| Strands.LongestOf | gene_finder.py:160 | a member no other member is longer than; among equally long members, none greater in code-point order |
| Strands.LongestOrf | gene_finder.py:160-161 | `longest_ORF` as its comment describes it: the same failures, and otherwise a returned ORF that no other ORF is longer than |
| Strands.LexGreatestIsNotLongest | gene_finder.py:161 | on `ATGAAATAAATGC`, `max` returns `ATGC` while the longest ORF is `ATGAAA` |
| Translation.Codons | gene_finder.py:199 | `len(dna) // 3` codons; the `k`-th is the three characters at `3k` |
| Translation.CodonsCoverStrand | gene_finder.py:199 | the codons, joined, are the strand up to its last whole codon |
| Translation.CodonsIgnoreTail | gene_finder.py:199 | one or two trailing characters do not change the codons |
| Translation.Translate | gene_finder.py:201 | succeeds exactly when every codon is in the table |
| Translation.TranslateJoins | gene_finder.py:201 | the result is the table entries of the codons, joined in order |
| Translation.TranslateFailsAtFirstUnknown | gene_finder.py:201 | the `KeyError` names the first codon missing from the table |
| Translation.TranslateOneLetter | gene_finder.py:201 | with one-letter table entries, the protein has one letter per codon, the `k`-th being the entry of the `k`-th codon |
| Translation.TranslateAppend | gene_finder.py:201 | translating two codon lists joined is joining their translations |
| Translation.CodonsInTable | gene_finder.py:199-201 | every codon is in the table exactly when every three characters at a multiple of 3 are |
| Translation.CodingStrandToAa | gene_finder.py:184-201 | succeeds exactly when every whole codon of the strand is in the table |
| Translation.CodingStrandToAaExamples | gene_finder.py:193-196 | with the standard entries for the codons involved, `ATGCGA` gives `MR` and `ATGCCCGCTTT` gives `MPA` |
| Translation.KeepLongerThan | gene_finder.py:212 | keeps only ORFs strictly longer than the threshold |
| Translation.KeepLongerThanCounts | gene_finder.py:212 | each ORF longer than the threshold is kept as often as it occurs, and any other is dropped |
| Translation.KeepLongerThanAppend | gene_finder.py:212 | filtering two lists joined is joining the filtered lists, so order is kept |
| Translation.TranslateAll | gene_finder.py:214 | succeeds exactly when every ORF translates; the `k`-th protein is the translation of the `k`-th ORF |
| Translation.GeneFinder | gene_finder.py:212-214 | fails as `find_all_ORFs_both_strands` does; otherwise it is the translation of the ORFs longer than the threshold |
| Translation.GeneFinderProteins | gene_finder.py:212-214 | every protein reported is the translation of an ORF of either strand that is longer than the threshold |
| MetaGenome.Cell | meta_genome.py:21-25 | the table entry the code leaves: at most its row and column index, and positive only where the characters match |
| MetaGenome.CellIsCommonRun | meta_genome.py:21-25 | a cell's entry is the length of a common run ending at that row and column; the run stops at a mismatch, or where it would reach row 0 or column 0 |
| MetaGenome.Record | meta_genome.py:27-32 | a cell either leaves `max_sub` and `longest` alone, or raises `max_sub` and replaces `longest` by one string |
| MetaGenome.RecordShape | meta_genome.py:27-32 | a cell keeps `longest` to at most one string shorter than `max_sub`, non-empty exactly when `max_sub` is positive |
| MetaGenome.RecordBounds | meta_genome.py:27-28 | after a cell, `max_sub` is at least every entry visited |
| MetaGenome.RecordAttained | meta_genome.py:27-28 | after a cell, a positive `max_sub` is the entry of some visited cell |
| MetaGenome.ScanRowTracks | meta_genome.py:20-36 | across a row, `longest` keeps its shape and `max_sub` is the largest entry visited |
| MetaGenome.ScanTracks | meta_genome.py:19-36 | the same holds after every full row |
| MetaGenome.ScanResult | meta_genome.py:15-39 | as written: at most one string, shorter than `max_sub`; `max_sub` bounds every entry; nothing is returned exactly when no character after the first of `string1` matches one after the first of `string2` |
| MetaGenome.FillRow | meta_genome.py:20-36 | one row as written: the record ends as the row's cells leave it, the row's entries become the table's values, and later rows stay zero |
| MetaGenome.VisitCell | meta_genome.py:21-36 | one cell as written: the entry becomes the model's value, no other entry changes, and `max_sub` and `longest` are updated as by `Record` |
| MetaGenome.LongestCommonSubstring | meta_genome.py:5-39 | the nested loops return what the row-by-row fold of `Record` gives: at most one string, none exactly when no inner characters match |
| MetaGenome.IntendedCell | meta_genome.py:21-25 | corrected entry: positive exactly where the characters match, at most row and column index plus one |
| MetaGenome.IntendedCellIsCommonRun | meta_genome.py:21-25 | a corrected entry is the length of the longest common run ending at that row and column |
| MetaGenome.CommonRunBound | meta_genome.py:21-25 | every common substring ends at a corrected cell whose entry is at least its length |
| MetaGenome.Piece | meta_genome.py:32 | the substring a corrected cell stands for is as long as its entry |
| MetaGenome.PieceIsCommon | meta_genome.py:32 | that substring occurs in both strings |
| MetaGenome.IntendedRecord | meta_genome.py:27-34 | corrected cell: `max_sub` never decreases; on matching characters a longer run replaces the record with that run, an equal one is appended to it, and otherwise (and on a mismatch) the record is unchanged |
| MetaGenome.IntendedRecordCollects | meta_genome.py:27-34 | after a cell: every recorded string is common and `max_sub` long, `max_sub` bounds the visited entries, and each visited cell reaching it is recorded |
| MetaGenome.IntendedScanRowCollects | meta_genome.py:20-34 | the same holds across a row |
| MetaGenome.IntendedRowDone | meta_genome.py:19-20 | a finished row is everything before the next row |
| MetaGenome.IntendedScanCollects | meta_genome.py:19-34 | the same holds after every full row |
| MetaGenome.IntendedScanBounds | meta_genome.py:27-28 | at the end, `max_sub` bounds every corrected entry |
| MetaGenome.IntendedResultHasEveryLongest | meta_genome.py:5-7 | every common substring as long as a returned one is returned as well |
| MetaGenome.IntendedResultIsLongestCommon | meta_genome.py:5-7 | every returned string is a common substring, and no common substring is longer |
| MetaGenome.IntendedResultKeepsTies | meta_genome.py:33-34 | every cell whose run is as long as a returned string has its run returned too |
| MetaGenome.SharedCharacter | meta_genome.py:21 | a non-empty common substring means some character of `string1` equals one of `string2` |
| MetaGenome.IntendedResultEmpty | meta_genome.py:15-39 | the corrected procedure returns nothing exactly when the strings share no character |
| MetaGenome.IntendedVisitCell | meta_genome.py:21-36 | one corrected cell: the entry becomes the corrected value, no other entry changes, and the record is updated as by `IntendedRecord` |
| MetaGenome.LongestCommonSubstrings | meta_genome.py:5-39 | the corrected loops return only longest common substrings, and every common substring as long as a returned one; none exactly when the strings share no character |
| MetaGenome.FirstRowNeverCounts | meta_genome.py:23 | as written, `"a"` and `"a"` give no substring at all |
| MetaGenome.FirstRowIntended | meta_genome.py:23 | corrected, they give `["a"]` |
| MetaGenome.SliceMissesTheRun | meta_genome.py:32 | as written, `"ab"` and `"ab"` give `[""]` |
| MetaGenome.WholeRunIntended | meta_genome.py:32 | corrected, they give `["ab"]` |
| MetaGenome.TieIsDropped | meta_genome.py:33-34 | `"xab"` and `"yba"` give `[""]` as written, and `["b", "a"]` corrected |

## Left out

- `shuffle_string` (gene_finder.py:17-21) depends on a random source, so it is not modelled.
- `longest_ORF_noncoding` (gene_finder.py:164-181) runs random trials over shuffled strands, so it is not modelled. For the same reason, its return of the last trial's value instead of the running maximum is not modelled either.
- The threshold of `gene_finder` (gene_finder.py:210) comes from those random trials. `Translation.GeneFinder` takes it as a parameter instead.
- Translation.GeneFinder: does not model the ways line 210 of gene_finder.py can fail, because they happen inside the random trials. A shuffle meeting an invalid character fails there. A shuffle with no ORF makes `max([])` raise `ValueError` (gene_finder.py:161, reached from line 175).
- `load_seq`, `load_nitrogenase_seq` and `load_metagenome` read files, so they are not modelled. The `load` module is not part of this model.
- The `__main__` blocks and `doctest.testmod` calls are not modelled, because they only run tests and read files.
- The `print` calls of `longest_common_substring` (meta_genome.py:29-31, 37-38) are output only, so they are not modelled.
- The `amino_acids` module is not part of this model:
  - `codons[3][0]` is the constant `ATG`;
  - `codons[10]` is the constant list `TAA`, `TAG`, `TGA`;
  - `aa_table` is a parameter, so whether a codon is present is left to the caller.
- `re.finditer` is modelled only for a literal pattern, which is how the source uses it. Other regular expressions are not modelled.
- `str.upper` is modelled on the ASCII letters only. No other character upper-cases to `A`, `C`, `G` or `T`, so which characters `get_complement` accepts is unchanged.
- The imports of `load_nitrogenase_seq` and `load_metagenome` (meta_genome.py:1) are not used by the modelled function, so they are not modelled. The ranking of a whole metagenome is not part of this model.
- The `try`/`except IndexError` lines are commented out in the source, so they are not modelled.

## Findings

| source | as written | input that shows it | evidently intended | confidence | as-written member | corrected member |
|---|---|---|---|---|---|---|
| gene_finder.py:161 | `max` on the list of ORFs compares strings in code-point order | `ATGAAATAAATGC`: the ORFs are `ATGAAA` and `ATGC`, and `max` returns `ATGC` | the longest ORF, with code-point order only breaking ties in length, as the comment at line 160 says | not executed | Strands.LexGreatestIsNotLongest | Strands.LongestOrf |
| meta_genome.py:23, meta_genome.py:36 | `==` compares the cell with 1 or 0 and discards the result, so row 0 and column 0 never count | `"a"`, `"a"` returns `[]` | assign 1 to a matching edge cell and 0 to a mismatch | not executed | MetaGenome.FirstRowNeverCounts | MetaGenome.FirstRowIntended |
| meta_genome.py:32 | the run is cut from `string1` with `string2`'s row index `i`, and its end excludes the matching character | `"ab"`, `"ab"` returns `[""]` | `string1[j-max_sub+1:j+1]` | not executed | MetaGenome.SliceMissesTheRun | MetaGenome.WholeRunIntended |
| meta_genome.py:33-34 | the branch that adds a run as long as the best one is commented out, so ties are lost | `"xab"`, `"yba"` returns `[""]` instead of `["b", "a"]` | append the tied run to `longest` | not executed | MetaGenome.TieIsDropped | MetaGenome.IntendedResultKeepsTies |
