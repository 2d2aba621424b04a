/**
 * `longest_common_substring`: a dynamic-programming table with a row per
 * character of `string2` and a column per character of `string1`, filled in
 * place row by row, while the largest entry seen so far (`max_sub`) and the
 * list of substrings recorded for it (`longest`) are updated.
 *
 * `LongestCommonSubstring` is the code as written. Three slips change
 * what it computes:
 *  - the cells of row 0 and of column 0 are compared with 1 and with 0
 *    instead of being assigned, so they keep their initial 0;
 *  - the recorded substring is cut from `string1` with the row index of
 *    `string2`, and leaves out the matching character itself;
 *  - a run as long as the best one seen is never added (that branch is
 *    commented out), so at most one substring is ever reported.
 * `LongestCommonSubstrings` is the procedure with the three slips
 * corrected; it is proved to report every longest common substring.
 */
module MetaGenome {
  import opened Builtins

  /** What the procedure knows after some cells: `max_sub` and `longest`. */
  datatype Best = Best(maxSub: nat, longest: seq<string>)

  /** Cell `(i, j)` comes before cell `(r, c)` in row-by-row order. */
  predicate Before(i: int, j: int, r: int, c: int)
  {
    i < r || (i == r && j < c)
  }

  /** No character of `string1` after the first equals a character of `string2` after the first. */
  predicate NoInnerMatch(string1: string, string2: string)
  {
    forall i, j :: 1 <= i < |string2| && 1 <= j < |string1| ==> string1[j] != string2[i]
  }

  /** `s[lo:hi]` is never longer than `hi - lo`. */
  lemma SliceAtMost<T>(s: seq<T>, lo: nat, hi: nat)
    requires lo <= hi
    ensures |Slice(s, lo, hi)| <= hi - lo
  {
  }

  // ---------------------------------------------------------------------
  // The procedure as written
  // ---------------------------------------------------------------------

  /**
   * The value cell `(i, j)` holds once it has been visited, as written: only
   * cells off row 0 and column 0 whose characters agree are ever assigned.
   */
  function Cell(string1: string, string2: string, i: nat, j: nat): (c: nat)
    requires i < |string2| && j < |string1|
    ensures c <= i && c <= j
    ensures c > 0 ==> string1[j] == string2[i]
  {
    if i == 0 || j == 0 || string1[j] != string2[i] then 0
    else Cell(string1, string2, i - 1, j - 1) + 1
  }

  /**
   * A cell is the length of the longest common run of characters ending at
   * `string1[j]` and `string2[i]` that stays clear of both first characters.
   */
  lemma {:induction false} CellIsCommonRun(string1: string, string2: string, i: nat, j: nat)
    requires i < |string2| && j < |string1|
    ensures var c := Cell(string1, string2, i, j);
      string1[j + 1 - c..j + 1] == string2[i + 1 - c..i + 1] &&
      (c == i || c == j || string1[j - c] != string2[i - c])
  {
    if i > 0 && j > 0 && string1[j] == string2[i] {
      CellIsCommonRun(string1, string2, i - 1, j - 1);
      var d := Cell(string1, string2, i - 1, j - 1);
      ExtendRun(string1, string2, j - d, i - d, d);
    }
  }

  /** A common run followed by a common character is a longer common run. */
  lemma ExtendRun(string1: string, string2: string, a: nat, p: nat, n: nat)
    requires a + n < |string1| && p + n < |string2|
    requires string1[a..a + n] == string2[p..p + n] && string1[a + n] == string2[p + n]
    ensures string1[a..a + n + 1] == string2[p..p + n + 1]
  {
    assert string1[a..a + n + 1] == string1[a..a + n] + [string1[a + n]];
    assert string2[p..p + n + 1] == string2[p..p + n] + [string2[p + n]];
  }

  /**
   * The record update of `longest_common_substring` (meta_genome.py:27-32) for
   * cell `(i, j)`: a strictly larger entry replaces the record.
   */
  function Record(string1: string, string2: string, b: Best, i: nat, j: nat): (r: Best)
    requires i < |string2| && j < |string1|
    ensures r == b || (r.maxSub > b.maxSub && |r.longest| == 1 && string1[j] == string2[i])
  {
    var c := Cell(string1, string2, i, j);
    if string1[j] == string2[i] && c > b.maxSub then Best(c, [Slice(string1, i - c + 1, i)]) else b
  }

  /** The first `j` cells of row `i`, starting from `b`. */
  function ScanRow(string1: string, string2: string, b: Best, i: nat, j: nat): Best
    requires i < |string2| && j <= |string1|
  {
    if j == 0 then b else Record(string1, string2, ScanRow(string1, string2, b, i, j - 1), i, j - 1)
  }

  /** The first `i` rows, starting from `max_sub = 0` and `longest = []`. */
  function Scan(string1: string, string2: string, i: nat): Best
    requires i <= |string2|
  {
    if i == 0 then Best(0, []) else ScanRow(string1, string2, Scan(string1, string2, i - 1), i - 1, |string1|)
  }

  /** At most one string is recorded, shorter than `max_sub`, and one is recorded once `max_sub` is positive. */
  predicate Shape(b: Best)
  {
    |b.longest| <= 1 && (b.longest == [] <==> b.maxSub == 0) && (forall x :: x in b.longest ==> |x| < b.maxSub)
  }

  /** `max_sub` is at least every cell before `(i, j)`. */
  ghost predicate Bounds(string1: string, string2: string, m: nat, i: nat, j: nat)
  {
    forall r, c {:trigger Before(r, c, i, j)} :: 0 <= r < |string2| && 0 <= c < |string1| && Before(r, c, i, j) ==>
      Cell(string1, string2, r, c) <= m
  }

  /** A positive `max_sub` is held by some cell before `(i, j)`. */
  ghost predicate Attained(string1: string, string2: string, m: nat, i: nat, j: nat)
  {
    m > 0 ==> (exists r, c {:trigger Before(r, c, i, j)} :: 0 <= r < |string2| && 0 <= c < |string1| && Before(r, c, i, j) &&
                Cell(string1, string2, r, c) == m)
  }

  /** What holds once every cell before `(i, j)` is visited: `max_sub` is the largest of them. */
  ghost predicate Tracks(string1: string, string2: string, b: Best, i: nat, j: nat)
  {
    Shape(b) && Bounds(string1, string2, b.maxSub, i, j) && Attained(string1, string2, b.maxSub, i, j)
  }

  lemma RecordShape(string1: string, string2: string, b: Best, i: nat, j: nat)
    requires i < |string2| && j < |string1|
    requires Shape(b)
    ensures Shape(Record(string1, string2, b, i, j))
  {
    var c := Cell(string1, string2, i, j);
    if Record(string1, string2, b, i, j) != b {
      SliceAtMost(string1, i - c + 1, i);
    }
  }

  lemma RecordBounds(string1: string, string2: string, b: Best, i: nat, j: nat)
    requires i < |string2| && j < |string1|
    requires Bounds(string1, string2, b.maxSub, i, j)
    ensures Bounds(string1, string2, Record(string1, string2, b, i, j).maxSub, i, j + 1)
  {
    var m := Record(string1, string2, b, i, j).maxSub;
    forall r, c | 0 <= r < |string2| && 0 <= c < |string1| && Before(r, c, i, j + 1)
      ensures Cell(string1, string2, r, c) <= m
    {
      if !Before(r, c, i, j) {
        assert r == i && c == j;
      }
    }
  }

  lemma RecordAttained(string1: string, string2: string, b: Best, i: nat, j: nat)
    requires i < |string2| && j < |string1|
    requires Attained(string1, string2, b.maxSub, i, j)
    ensures Attained(string1, string2, Record(string1, string2, b, i, j).maxSub, i, j + 1)
  {
    var m := Record(string1, string2, b, i, j).maxSub;
    if m != b.maxSub {
      assert Before(i, j, i, j + 1);
    } else if m > 0 {
      var r0, c0 :| 0 <= r0 < |string2| && 0 <= c0 < |string1| && Before(r0, c0, i, j) &&
        Cell(string1, string2, r0, c0) == m;
      assert Before(r0, c0, i, j + 1);
    }
  }

  lemma {:induction false} ScanRowTracks(string1: string, string2: string, b: Best, i: nat, j: nat)
    requires i < |string2| && j <= |string1|
    requires Tracks(string1, string2, b, i, 0)
    ensures Tracks(string1, string2, ScanRow(string1, string2, b, i, j), i, j)
  {
    if j > 0 {
      ScanRowTracks(string1, string2, b, i, j - 1);
      var b' := ScanRow(string1, string2, b, i, j - 1);
      RecordShape(string1, string2, b', i, j - 1);
      RecordBounds(string1, string2, b', i, j - 1);
      RecordAttained(string1, string2, b', i, j - 1);
    }
  }

  /** Having visited a whole row is having visited everything before the next row. */
  lemma RowDone(string1: string, string2: string, b: Best, i: nat)
    requires i < |string2|
    requires Tracks(string1, string2, b, i, |string1|)
    ensures Tracks(string1, string2, b, i + 1, 0)
  {
    forall r, c | 0 <= r < |string2| && 0 <= c < |string1| && Before(r, c, i + 1, 0)
      ensures Cell(string1, string2, r, c) <= b.maxSub
    {
      assert Before(r, c, i, |string1|);
    }
    if b.maxSub > 0 {
      var r0, c0 :| 0 <= r0 < |string2| && 0 <= c0 < |string1| && Before(r0, c0, i, |string1|) &&
        Cell(string1, string2, r0, c0) == b.maxSub;
      assert Before(r0, c0, i + 1, 0);
    }
  }

  lemma {:induction false} ScanTracks(string1: string, string2: string, i: nat)
    requires i <= |string2|
    ensures Tracks(string1, string2, Scan(string1, string2, i), i, 0)
  {
    if i > 0 {
      ScanTracks(string1, string2, i - 1);
      var b := Scan(string1, string2, i - 1);
      ScanRowTracks(string1, string2, b, i - 1, |string1|);
      RowDone(string1, string2, ScanRow(string1, string2, b, i - 1, |string1|), i - 1);
    }
  }

  /**
   * What the procedure as written returns: at most one string, shorter than
   * the largest table entry; nothing at all exactly when no character of
   * `string1` after the first equals a character of `string2` after the first.
   */
  lemma ScanResult(string1: string, string2: string)
    ensures var b := Scan(string1, string2, |string2|);
      |b.longest| <= 1 &&
      (forall x :: x in b.longest ==> |x| < b.maxSub) &&
      (forall i, j :: 0 <= i < |string2| && 0 <= j < |string1| ==> Cell(string1, string2, i, j) <= b.maxSub) &&
      (b.longest == [] <==> NoInnerMatch(string1, string2))
  {
    var b := Scan(string1, string2, |string2|);
    ScanTracks(string1, string2, |string2|);
    forall i, j | 0 <= i < |string2| && 0 <= j < |string1| ensures Cell(string1, string2, i, j) <= b.maxSub {
      assert Before(i, j, |string2|, 0);
    }
    if b.longest == [] {
      forall i, j | 1 <= i < |string2| && 1 <= j < |string1| ensures string1[j] != string2[i] {
        assert Before(i, j, |string2|, 0);
      }
    } else {
      var r0, c0 :| 0 <= r0 < |string2| && 0 <= c0 < |string1| && Before(r0, c0, |string2|, 0) &&
        Cell(string1, string2, r0, c0) == b.maxSub;
      assert r0 >= 1 && c0 >= 1 && string1[c0] == string2[r0];
    }
  }

  /** `longest_common_substring` as written (without its `print` calls). */
  method LongestCommonSubstring(string1: string, string2: string) returns (longest: seq<string>)
    ensures longest == Scan(string1, string2, |string2|).longest
    ensures |longest| <= 1
    ensures longest == [] <==> NoInnerMatch(string1, string2)
  {
    var table := new nat[|string2|, |string1|]((_, _) => 0);
    var maxSub := 0;
    longest := [];
    for i := 0 to |string2|
      invariant Best(maxSub, longest) == Scan(string1, string2, i)
      invariant forall r, c :: 0 <= r < i && 0 <= c < |string1| ==> table[r, c] == Cell(string1, string2, r, c)
      invariant forall r, c :: i <= r < |string2| && 0 <= c < |string1| ==> table[r, c] == 0
    {
      maxSub, longest := FillRow(table, string1, string2, i, maxSub, longest);
    }
    ScanResult(string1, string2);
  }

  /**
   * One pass of the outer loop of `longest_common_substring`
   * (meta_genome.py:20-36) as written: row `i`, cell by cell.
   */
  method FillRow(table: array2<nat>, string1: string, string2: string, i: nat,
                 maxSub: nat, longest: seq<string>) returns (maxSub': nat, longest': seq<string>)
    requires table.Length0 == |string2| && table.Length1 == |string1|
    requires i < |string2|
    requires forall r, c :: 0 <= r < i && 0 <= c < |string1| ==> table[r, c] == Cell(string1, string2, r, c)
    requires forall r, c :: i <= r < |string2| && 0 <= c < |string1| ==> table[r, c] == 0
    modifies table
    ensures Best(maxSub', longest') == ScanRow(string1, string2, Best(maxSub, longest), i, |string1|)
    ensures forall r, c :: 0 <= r <= i && 0 <= c < |string1| ==> table[r, c] == Cell(string1, string2, r, c)
    ensures forall r, c :: i < r < |string2| && 0 <= c < |string1| ==> table[r, c] == 0
  {
    maxSub', longest' := maxSub, longest;
    for j := 0 to |string1|
      invariant Best(maxSub', longest') == ScanRow(string1, string2, Best(maxSub, longest), i, j)
      invariant forall r, c :: 0 <= r < i && 0 <= c < |string1| ==> table[r, c] == Cell(string1, string2, r, c)
      invariant forall c :: 0 <= c < j ==> table[i, c] == Cell(string1, string2, i, c)
      invariant forall c :: j <= c < |string1| ==> table[i, c] == 0
      invariant forall r, c :: i < r < |string2| && 0 <= c < |string1| ==> table[r, c] == 0
    {
      maxSub', longest' := VisitCell(table, string1, string2, i, j, maxSub', longest');
    }
  }

  /** One pass of the inner loop body of `longest_common_substring` (meta_genome.py:21-36) as written. */
  method VisitCell(table: array2<nat>, string1: string, string2: string, i: nat, j: nat,
                   maxSub: nat, longest: seq<string>) returns (maxSub': nat, longest': seq<string>)
    requires table.Length0 == |string2| && table.Length1 == |string1|
    requires i < |string2| && j < |string1|
    requires i > 0 && j > 0 ==> table[i - 1, j - 1] == Cell(string1, string2, i - 1, j - 1)
    requires table[i, j] == 0
    modifies table
    ensures table[i, j] == Cell(string1, string2, i, j)
    ensures forall r, c :: 0 <= r < |string2| && 0 <= c < |string1| && (r != i || c != j) ==>
      table[r, c] == old(table[r, c])
    ensures Best(maxSub', longest') == Record(string1, string2, Best(maxSub, longest), i, j)
  {
    maxSub', longest' := maxSub, longest;
    if string1[j] == string2[i] {
      if i == 0 || j == 0 {
        // meta_genome.py:23 compares the cell with 1 and discards the answer.
      } else {
        table[i, j] := table[i - 1, j - 1] + 1;
      }
      if table[i, j] > maxSub' {
        maxSub' := table[i, j];
        longest' := [Slice(string1, i - maxSub' + 1, i)];
      }
    }
    // Otherwise meta_genome.py:36 compares the cell with 0 and discards the answer.
  }

  // ---------------------------------------------------------------------
  // The procedure as intended
  // ---------------------------------------------------------------------

  /** Cell `(i, j)` with row 0 and column 0 assigned: the common run ending at `(i, j)`. */
  function IntendedCell(string1: string, string2: string, i: nat, j: nat): (c: nat)
    requires i < |string2| && j < |string1|
    ensures c <= i + 1 && c <= j + 1
    ensures c > 0 <==> string1[j] == string2[i]
  {
    if string1[j] != string2[i] then 0
    else if i == 0 || j == 0 then 1
    else IntendedCell(string1, string2, i - 1, j - 1) + 1
  }

  /** `string1[a..a + n]` and `string2[p..p + n]` are the same `n` characters. */
  predicate CommonAt(string1: string, string2: string, a: nat, p: nat, n: nat)
  {
    a + n <= |string1| && p + n <= |string2| && string1[a..a + n] == string2[p..p + n]
  }

  /** `x` is a substring of both strings. */
  ghost predicate IsCommon(string1: string, string2: string, x: string)
  {
    exists a: nat, p: nat :: CommonAt(string1, string2, a, p, |x|) && string1[a..a + |x|] == x
  }

  /** What cell `(i, j)` is proved to stand for: the longest common run ending there. */
  predicate IsRunAt(string1: string, string2: string, i: nat, j: nat, c: nat)
    requires i < |string2| && j < |string1| && c <= i + 1 && c <= j + 1
  {
    CommonAt(string1, string2, j + 1 - c, i + 1 - c, c) &&
    (c == i + 1 || c == j + 1 || string1[j - c] != string2[i - c])
  }

  lemma {:induction false} IntendedCellIsCommonRun(string1: string, string2: string, i: nat, j: nat)
    requires i < |string2| && j < |string1|
    ensures IsRunAt(string1, string2, i, j, IntendedCell(string1, string2, i, j))
  {
    if string1[j] == string2[i] && i > 0 && j > 0 {
      IntendedCellIsCommonRun(string1, string2, i - 1, j - 1);
      IntendedCellStep(string1, string2, i, j);
    } else {
      IntendedCellBase(string1, string2, i, j);
    }
  }

  lemma IntendedCellBase(string1: string, string2: string, i: nat, j: nat)
    requires i < |string2| && j < |string1|
    requires string1[j] != string2[i] || i == 0 || j == 0
    ensures IsRunAt(string1, string2, i, j, IntendedCell(string1, string2, i, j))
  {
    if string1[j] != string2[i] {
      assert string1[j + 1..j + 1] == [] == string2[i + 1..i + 1];
    } else {
      ExtendRun(string1, string2, j, i, 0);
    }
  }

  /** The step of the induction: a run ending one character earlier, extended by a match. */
  lemma IntendedCellStep(string1: string, string2: string, i: nat, j: nat)
    requires 0 < i < |string2| && 0 < j < |string1| && string1[j] == string2[i]
    requires IsRunAt(string1, string2, i - 1, j - 1, IntendedCell(string1, string2, i - 1, j - 1))
    ensures IsRunAt(string1, string2, i, j, IntendedCell(string1, string2, i, j))
  {
    var d := IntendedCell(string1, string2, i - 1, j - 1);
    assert IntendedCell(string1, string2, i, j) == d + 1;
    ExtendRun(string1, string2, j - d, i - d, d);
  }

  /** Every common substring ends at a cell holding at least its length. */
  lemma {:induction false} CommonRunBound(string1: string, string2: string, a: nat, p: nat, n: nat)
    requires n >= 1 && CommonAt(string1, string2, a, p, n)
    ensures IntendedCell(string1, string2, p + n - 1, a + n - 1) >= n
  {
    assert string1[a + n - 1] == string1[a..a + n][n - 1] == string2[p..p + n][n - 1] == string2[p + n - 1];
    if n > 1 {
      assert string1[a..a + n - 1] == string1[a..a + n][..n - 1];
      assert string2[p..p + n - 1] == string2[p..p + n][..n - 1];
      CommonRunBound(string1, string2, a, p, n - 1);
    }
  }

  /** The run that cell `(i, j)` stands for: `string1[j - c + 1:j + 1]`. */
  function Piece(string1: string, string2: string, i: nat, j: nat): (x: string)
    requires i < |string2| && j < |string1|
    ensures |x| == IntendedCell(string1, string2, i, j)
  {
    var c := IntendedCell(string1, string2, i, j);
    string1[j + 1 - c..j + 1]
  }

  /**
   * The record update of `longest_common_substring` (meta_genome.py:27-34) as
   * intended: a larger entry replaces the record, an equal one joins it.
   */
  function IntendedRecord(string1: string, string2: string, b: Best, i: nat, j: nat): (r: Best)
    requires i < |string2| && j < |string1|
    ensures r.maxSub >= b.maxSub
    ensures || r == b
            || (&& string1[j] == string2[i]
                && ((r.maxSub > b.maxSub && r.longest == [Piece(string1, string2, i, j)])
                    || (r.maxSub == b.maxSub && r.longest == b.longest + [Piece(string1, string2, i, j)])))
  {
    var c := IntendedCell(string1, string2, i, j);
    if string1[j] != string2[i] then b
    else if c > b.maxSub then Best(c, [Piece(string1, string2, i, j)])
    else if c == b.maxSub then Best(c, b.longest + [Piece(string1, string2, i, j)])
    else b
  }

  function IntendedScanRow(string1: string, string2: string, b: Best, i: nat, j: nat): Best
    requires i < |string2| && j <= |string1|
  {
    if j == 0 then b else IntendedRecord(string1, string2, IntendedScanRow(string1, string2, b, i, j - 1), i, j - 1)
  }

  function IntendedScan(string1: string, string2: string, i: nat): Best
    requires i <= |string2|
  {
    if i == 0 then Best(0, [])
    else IntendedScanRow(string1, string2, IntendedScan(string1, string2, i - 1), i - 1, |string1|)
  }

  /**
   * What holds once every cell before `(i, j)` is visited: every recorded
   * string is a common substring of length `max_sub`, `max_sub` bounds the
   * visited cells, and each visited cell reaching `max_sub` has its run
   * recorded.
   */
  ghost predicate Collects(string1: string, string2: string, b: Best, i: nat, j: nat)
  {
    (b.longest == [] <==> b.maxSub == 0) &&
    (forall x :: x in b.longest ==> |x| == b.maxSub && IsCommon(string1, string2, x)) &&
    (forall r, c {:trigger Before(r, c, i, j)} :: 0 <= r < |string2| && 0 <= c < |string1| && Before(r, c, i, j) ==>
       IntendedCell(string1, string2, r, c) <= b.maxSub) &&
    (forall r, c {:trigger Before(r, c, i, j)} :: 0 <= r < |string2| && 0 <= c < |string1| && Before(r, c, i, j) &&
       0 < IntendedCell(string1, string2, r, c) == b.maxSub
       ==> Piece(string1, string2, r, c) in b.longest)
  }

  lemma PieceIsCommon(string1: string, string2: string, i: nat, j: nat)
    requires i < |string2| && j < |string1|
    ensures IsCommon(string1, string2, Piece(string1, string2, i, j))
  {
    IntendedCellIsCommonRun(string1, string2, i, j);
    var c := IntendedCell(string1, string2, i, j);
    assert CommonAt(string1, string2, j + 1 - c, i + 1 - c, c);
  }

  lemma IntendedRecordCollects(string1: string, string2: string, b: Best, i: nat, j: nat)
    requires i < |string2| && j < |string1|
    requires Collects(string1, string2, b, i, j)
    ensures Collects(string1, string2, IntendedRecord(string1, string2, b, i, j), i, j + 1)
  {
    var c := IntendedCell(string1, string2, i, j);
    var r := IntendedRecord(string1, string2, b, i, j);
    PieceIsCommon(string1, string2, i, j);
    forall r0, c0 | 0 <= r0 < |string2| && 0 <= c0 < |string1| && Before(r0, c0, i, j + 1)
      ensures IntendedCell(string1, string2, r0, c0) <= r.maxSub
    {
      if !Before(r0, c0, i, j) {
        assert r0 == i && c0 == j;
      }
    }
    forall r0, c0 | 0 <= r0 < |string2| && 0 <= c0 < |string1| && Before(r0, c0, i, j + 1) &&
      0 < IntendedCell(string1, string2, r0, c0) == r.maxSub
      ensures Piece(string1, string2, r0, c0) in r.longest
    {
      if !Before(r0, c0, i, j) {
        assert r0 == i && c0 == j;
      }
    }
  }

  lemma {:induction false} IntendedScanRowCollects(string1: string, string2: string, b: Best, i: nat, j: nat)
    requires i < |string2| && j <= |string1|
    requires Collects(string1, string2, b, i, 0)
    ensures Collects(string1, string2, IntendedScanRow(string1, string2, b, i, j), i, j)
  {
    if j > 0 {
      var prev := IntendedScanRow(string1, string2, b, i, j - 1);
      assert IntendedScanRow(string1, string2, b, i, j) == IntendedRecord(string1, string2, prev, i, j - 1);
      IntendedScanRowCollects(string1, string2, b, i, j - 1);
      IntendedRecordCollects(string1, string2, prev, i, j - 1);
    }
  }

  lemma IntendedRowDone(string1: string, string2: string, b: Best, i: nat)
    requires i < |string2|
    requires Collects(string1, string2, b, i, |string1|)
    ensures Collects(string1, string2, b, i + 1, 0)
  {
    forall r, c | 0 <= r < |string2| && 0 <= c < |string1| && Before(r, c, i + 1, 0)
      ensures IntendedCell(string1, string2, r, c) <= b.maxSub
      ensures 0 < IntendedCell(string1, string2, r, c) == b.maxSub ==> Piece(string1, string2, r, c) in b.longest
    {
      assert Before(r, c, i, |string1|);
    }
  }

  lemma {:induction false} IntendedScanCollects(string1: string, string2: string, i: nat)
    requires i <= |string2|
    ensures Collects(string1, string2, IntendedScan(string1, string2, i), i, 0)
  {
    if i > 0 {
      IntendedScanCollects(string1, string2, i - 1);
      var b := IntendedScan(string1, string2, i - 1);
      IntendedScanRowCollects(string1, string2, b, i - 1, |string1|);
      IntendedRowDone(string1, string2, IntendedScanRow(string1, string2, b, i - 1, |string1|), i - 1);
    }
  }

  /** After the whole table, `max_sub` bounds every intended cell. */
  lemma IntendedScanBounds(string1: string, string2: string)
    ensures var b := IntendedScan(string1, string2, |string2|);
      forall i, j :: 0 <= i < |string2| && 0 <= j < |string1| ==> IntendedCell(string1, string2, i, j) <= b.maxSub
  {
    var b := IntendedScan(string1, string2, |string2|);
    IntendedScanCollects(string1, string2, |string2|);
    forall i, j | 0 <= i < |string2| && 0 <= j < |string1| ensures IntendedCell(string1, string2, i, j) <= b.maxSub {
      assert Before(i, j, |string2|, 0);
    }
  }

  /** Every string the intended procedure returns is a common substring no shorter than any other. */
  lemma IntendedResultIsLongestCommon(string1: string, string2: string)
    ensures var longest := IntendedScan(string1, string2, |string2|).longest;
      (forall x :: x in longest ==> IsCommon(string1, string2, x)) &&
      (forall x, a: nat, p: nat, n: nat :: x in longest && CommonAt(string1, string2, a, p, n) ==> n <= |x|)
  {
    var b := IntendedScan(string1, string2, |string2|);
    IntendedScanCollects(string1, string2, |string2|);
    IntendedScanBounds(string1, string2);
    forall x, a: nat, p: nat, n: nat | x in b.longest && CommonAt(string1, string2, a, p, n) ensures n <= |x| {
      if n >= 1 {
        CommonRunBound(string1, string2, a, p, n);
      }
    }
  }

  /** Ties are kept: every cell whose run is as long as the result's strings has its run in the result. */
  lemma IntendedResultKeepsTies(string1: string, string2: string)
    ensures var longest := IntendedScan(string1, string2, |string2|).longest;
      forall x, i, j :: x in longest && 0 <= i < |string2| && 0 <= j < |string1| &&
        IntendedCell(string1, string2, i, j) == |x|
        ==> Piece(string1, string2, i, j) in longest
  {
    var b := IntendedScan(string1, string2, |string2|);
    IntendedScanCollects(string1, string2, |string2|);
    forall x, i, j | x in b.longest && 0 <= i < |string2| && 0 <= j < |string1| &&
      IntendedCell(string1, string2, i, j) == |x|
      ensures Piece(string1, string2, i, j) in b.longest
    {
      assert Before(i, j, |string2|, 0);
    }
  }

  /** Every common substring as long as a returned one is returned too. */
  lemma IntendedResultHasEveryLongest(string1: string, string2: string)
    ensures var longest := IntendedScan(string1, string2, |string2|).longest;
      forall x, y :: y in longest && IsCommon(string1, string2, x) && |x| == |y| ==> x in longest
  {
    var b := IntendedScan(string1, string2, |string2|);
    IntendedScanCollects(string1, string2, |string2|);
    forall x, y | y in b.longest && IsCommon(string1, string2, x) && |x| == |y| ensures x in b.longest {
      var n := |x|;
      var a: nat, p: nat :| CommonAt(string1, string2, a, p, n) && string1[a..a + n] == x;
      assert n == b.maxSub > 0;
      TieAt(string1, string2, a, p, n, y);
      assert Piece(string1, string2, p + n - 1, a + n - 1) == x;
    }
  }

  /** The cell where a common substring as long as a returned one ends holds a returned run. */
  lemma TieAt(string1: string, string2: string, a: nat, p: nat, n: nat, y: string)
    requires n >= 1 && CommonAt(string1, string2, a, p, n)
    requires y in IntendedScan(string1, string2, |string2|).longest && |y| == n
    ensures Piece(string1, string2, p + n - 1, a + n - 1) in IntendedScan(string1, string2, |string2|).longest
  {
    CommonRunBound(string1, string2, a, p, n);
    IntendedResultIsLongestCommon(string1, string2);
    IntendedScanBounds(string1, string2);
    IntendedScanCollects(string1, string2, |string2|);
    assert IntendedCell(string1, string2, p + n - 1, a + n - 1) == n;
    IntendedResultKeepsTies(string1, string2);
  }

  /** A non-empty common substring gives a character the two strings share. */
  lemma SharedCharacter(string1: string, string2: string, x: string)
    requires |x| > 0 && IsCommon(string1, string2, x)
    ensures exists i, j :: 0 <= i < |string2| && 0 <= j < |string1| && string1[j] == string2[i]
  {
    var a: nat, p: nat :| CommonAt(string1, string2, a, p, |x|) && string1[a..a + |x|] == x;
    assert string1[a] == string1[a..a + |x|][0] == string2[p..p + |x|][0] == string2[p];
  }

  /** The intended procedure returns nothing exactly when the strings share no character. */
  lemma IntendedResultEmpty(string1: string, string2: string)
    ensures IntendedScan(string1, string2, |string2|).longest == [] <==>
      forall i, j :: 0 <= i < |string2| && 0 <= j < |string1| ==> string1[j] != string2[i]
  {
    var b := IntendedScan(string1, string2, |string2|);
    if b.longest != [] {
      IntendedScanCollects(string1, string2, |string2|);
      var x := b.longest[0];
      assert x in b.longest;
      SharedCharacter(string1, string2, x);
    } else {
      IntendedScanCollects(string1, string2, |string2|);
      assert b.maxSub == 0;
      IntendedScanBounds(string1, string2);
      forall i, j | 0 <= i < |string2| && 0 <= j < |string1| ensures string1[j] != string2[i] {
        assert IntendedCell(string1, string2, i, j) <= 0;
      }
    }
  }

  /** `longest_common_substring` with meta_genome.py:23, 32, 33-34 and 36 as intended. */
  method LongestCommonSubstrings(string1: string, string2: string) returns (longest: seq<string>)
    ensures longest == IntendedScan(string1, string2, |string2|).longest
    ensures forall x :: x in longest ==> IsCommon(string1, string2, x)
    ensures forall x, a: nat, p: nat, n: nat :: x in longest && CommonAt(string1, string2, a, p, n) ==> n <= |x|
    ensures forall x, y :: y in longest && IsCommon(string1, string2, x) && |x| == |y| ==> x in longest
    ensures longest == [] <==> forall i, j :: 0 <= i < |string2| && 0 <= j < |string1| ==> string1[j] != string2[i]
  {
    var table := new nat[|string2|, |string1|]((_, _) => 0);
    var maxSub := 0;
    longest := [];
    for i := 0 to |string2|
      invariant Best(maxSub, longest) == IntendedScan(string1, string2, i)
      invariant forall r, c :: 0 <= r < i && 0 <= c < |string1| ==> table[r, c] == IntendedCell(string1, string2, r, c)
    {
      for j := 0 to |string1|
        invariant Best(maxSub, longest) == IntendedScanRow(string1, string2, IntendedScan(string1, string2, i), i, j)
        invariant forall r, c :: 0 <= r < i && 0 <= c < |string1| ==> table[r, c] == IntendedCell(string1, string2, r, c)
        invariant forall c :: 0 <= c < j ==> table[i, c] == IntendedCell(string1, string2, i, c)
      {
        maxSub, longest := IntendedVisitCell(table, string1, string2, i, j, maxSub, longest);
      }
    }
    IntendedResultIsLongestCommon(string1, string2);
    IntendedResultHasEveryLongest(string1, string2);
    IntendedResultEmpty(string1, string2);
  }

  /** One pass of the inner loop body of `longest_common_substring` (meta_genome.py:21-36) as intended. */
  method IntendedVisitCell(table: array2<nat>, string1: string, string2: string, i: nat, j: nat,
                           maxSub: nat, longest: seq<string>) returns (maxSub': nat, longest': seq<string>)
    requires table.Length0 == |string2| && table.Length1 == |string1|
    requires i < |string2| && j < |string1|
    requires i > 0 && j > 0 ==> table[i - 1, j - 1] == IntendedCell(string1, string2, i - 1, j - 1)
    modifies table
    ensures table[i, j] == IntendedCell(string1, string2, i, j)
    ensures forall r, c :: 0 <= r < |string2| && 0 <= c < |string1| && (r != i || c != j) ==>
      table[r, c] == old(table[r, c])
    ensures Best(maxSub', longest') == IntendedRecord(string1, string2, Best(maxSub, longest), i, j)
  {
    maxSub', longest' := maxSub, longest;
    if string1[j] == string2[i] {
      if i == 0 || j == 0 {
        table[i, j] := 1;
      } else {
        table[i, j] := table[i - 1, j - 1] + 1;
      }
      if table[i, j] > maxSub' {
        maxSub' := table[i, j];
        longest' := [string1[j - maxSub' + 1..j + 1]];
      } else if table[i, j] == maxSub' {
        longest' := longest' + [string1[j - maxSub' + 1..j + 1]];
      }
    } else {
      table[i, j] := 0;
    }
  }

  // ---------------------------------------------------------------------
  // Inputs on which the two differ
  // ---------------------------------------------------------------------

  /** Equal one-character strings share `"a"`, yet as written nothing is found. */
  lemma FirstRowNeverCounts(string1: string, string2: string)
    requires string1 == "a" && string2 == "a"
    ensures Scan(string1, string2, |string2|).longest == []
  {
    assert Cell(string1, string2, 0, 0) == 0;
    assert ScanRow(string1, string2, Best(0, []), 0, 1) == Best(0, []);
  }

  /** As intended, `"a"` against itself finds `"a"`. */
  lemma FirstRowIntended(string1: string, string2: string)
    requires string1 == "a" && string2 == "a"
    ensures IntendedScan(string1, string2, |string2|).longest == ["a"]
  {
    assert IntendedCell(string1, string2, 0, 0) == 1;
    assert string1[0..1] == string1;
    assert Piece(string1, string2, 0, 0) == "a";
    assert IntendedScanRow(string1, string2, Best(0, []), 0, 1) == Best(1, ["a"]);
  }

  /** `"ab"` against itself: as written the empty slice `"ab"[1:1]` is recorded instead of `"ab"`. */
  lemma SliceMissesTheRun(string1: string, string2: string)
    requires string1 == "ab" && string2 == "ab"
    ensures Scan(string1, string2, |string2|).longest == [""]
  {
    var none := Best(0, []);
    assert Cell(string1, string2, 0, 0) == 0 && Cell(string1, string2, 0, 1) == 0;
    assert Cell(string1, string2, 1, 0) == 0 && Cell(string1, string2, 1, 1) == 1;
    assert ScanRow(string1, string2, none, 0, 1) == none;
    assert ScanRow(string1, string2, none, 0, 2) == none;
    assert Scan(string1, string2, 1) == none;
    assert ScanRow(string1, string2, none, 1, 1) == none;
    assert Slice(string1, 1, 1) == "";
    assert ScanRow(string1, string2, none, 1, 2) == Best(1, [""]);
  }

  /** As intended, `"ab"` against itself finds `"ab"`. */
  lemma WholeRunIntended(string1: string, string2: string)
    requires string1 == "ab" && string2 == "ab"
    ensures IntendedScan(string1, string2, |string2|).longest == ["ab"]
  {
    var none := Best(0, []);
    assert IntendedCell(string1, string2, 0, 0) == 1 && IntendedCell(string1, string2, 0, 1) == 0;
    assert IntendedCell(string1, string2, 1, 0) == 0 && IntendedCell(string1, string2, 1, 1) == 2;
    assert string1[0..1] == [string1[0]] && string1[0..2] == string1;
    assert Piece(string1, string2, 0, 0) == "a" && Piece(string1, string2, 1, 1) == "ab";
    var first := Best(1, ["a"]);
    assert IntendedScanRow(string1, string2, none, 0, 1) == first;
    assert IntendedScanRow(string1, string2, none, 0, 2) == first;
    assert IntendedScan(string1, string2, 1) == first;
    assert IntendedScanRow(string1, string2, first, 1, 1) == first;
    assert IntendedScanRow(string1, string2, first, 1, 2) == Best(2, ["ab"]);
  }

  /**
   * `"xab"` and `"yba"` share the runs `"b"` and `"a"`, both of the largest
   * length 1: as written a single empty string is recorded, as intended both.
   */
  lemma TieIsDropped(string1: string, string2: string)
    requires string1 == "xab" && string2 == "yba"
    ensures Scan(string1, string2, |string2|).longest == [""]
    ensures IntendedScan(string1, string2, |string2|).longest == ["b", "a"]
  {
    var none := Best(0, []);
    assert forall c :: 0 <= c < 3 ==> Cell(string1, string2, 0, c) == 0 && IntendedCell(string1, string2, 0, c) == 0;
    assert ScanRow(string1, string2, none, 0, 1) == none;
    assert ScanRow(string1, string2, none, 0, 2) == none;
    assert ScanRow(string1, string2, none, 0, 3) == none;
    assert Scan(string1, string2, 1) == none;
    assert IntendedScanRow(string1, string2, none, 0, 1) == none;
    assert IntendedScanRow(string1, string2, none, 0, 2) == none;
    assert IntendedScanRow(string1, string2, none, 0, 3) == none;
    assert IntendedScan(string1, string2, 1) == none;

    assert Cell(string1, string2, 1, 0) == 0 && Cell(string1, string2, 1, 1) == 0 && Cell(string1, string2, 1, 2) == 1;
    assert Slice(string1, 1, 1) == "";
    var one := Best(1, [""]);
    assert ScanRow(string1, string2, none, 1, 1) == none;
    assert ScanRow(string1, string2, none, 1, 2) == none;
    assert ScanRow(string1, string2, none, 1, 3) == one;
    assert Scan(string1, string2, 2) == one;
    assert Cell(string1, string2, 2, 0) == 0 && Cell(string1, string2, 2, 1) == 1 && Cell(string1, string2, 2, 2) == 0;
    assert ScanRow(string1, string2, one, 2, 1) == one;
    assert ScanRow(string1, string2, one, 2, 2) == one;
    assert ScanRow(string1, string2, one, 2, 3) == one;

    assert IntendedCell(string1, string2, 1, 0) == 0 && IntendedCell(string1, string2, 1, 1) == 0;
    assert IntendedCell(string1, string2, 1, 2) == 1 && Piece(string1, string2, 1, 2) == "b";
    var b := Best(1, ["b"]);
    assert IntendedScanRow(string1, string2, none, 1, 1) == none;
    assert IntendedScanRow(string1, string2, none, 1, 2) == none;
    assert IntendedScanRow(string1, string2, none, 1, 3) == b;
    assert IntendedScan(string1, string2, 2) == b;
    assert IntendedCell(string1, string2, 2, 0) == 0 && IntendedCell(string1, string2, 2, 2) == 0;
    assert IntendedCell(string1, string2, 2, 1) == 1 && Piece(string1, string2, 2, 1) == "a";
    assert IntendedScanRow(string1, string2, b, 2, 1) == b;
    assert IntendedScanRow(string1, string2, b, 2, 2) == Best(1, ["b", "a"]);
    assert IntendedScanRow(string1, string2, b, 2, 3) == Best(1, ["b", "a"]);
  }
}
