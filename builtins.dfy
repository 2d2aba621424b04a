/**
 * The few Python built-ins the gene finder leans on, written out: slicing,
 * `list.index`, `filter`, `min`, `max` with Python's string order, and
 * `re.finditer` on a literal pattern.
 */
module Builtins {
  import opened Wrappers

  /** `s[k:]` for a non-negative `k`: empty once `k` passes the end. */
  function Drop<T>(s: seq<T>, k: nat): (r: seq<T>)
    ensures k <= |s| ==> r == s[k..]
    ensures k > |s| ==> r == []
  {
    if k <= |s| then s[k..] else []
  }

  /** `s[lo:hi]` for non-negative bounds: both are clamped to the length. */
  function Slice<T>(s: seq<T>, lo: nat, hi: nat): (r: seq<T>)
    ensures |r| <= |s|
    ensures lo <= hi <= |s| ==> r == s[lo..hi]
    ensures lo <= |s| <= hi ==> r == s[lo..]
    ensures hi <= lo ==> r == []
    ensures |s| <= lo ==> r == []
  {
    var a := if lo <= |s| then lo else |s|;
    var b := if hi <= |s| then hi else |s|;
    if a <= b then s[a..b] else []
  }

  /** `xs.index(x)`: the first position holding `x`, or nothing (Python raises). */
  function IndexOf<T(==)>(xs: seq<T>, x: T): (r: Option<nat>)
    ensures r.None? <==> x !in xs
    ensures r.Some? ==> r.value < |xs| && xs[r.value] == x && x !in xs[..r.value]
  {
    if |xs| == 0 then None
    else if xs[0] == x then Some(0)
    else match IndexOf(xs[1..], x)
      case None => None
      case Some(k) =>
        assert xs[..k + 1] == [xs[0]] + xs[1..][..k];
        Some(k + 1)
  }

  /** `list(filter(keep, xs))`. */
  function Filter<T>(keep: T -> bool, xs: seq<T>): (r: seq<T>)
    ensures |r| <= |xs|
  {
    if |xs| == 0 then []
    else
      var rest := Filter(keep, xs[1..]);
      if keep(xs[0]) then [xs[0]] + rest else rest
  }

  /** `filter` keeps exactly the items that pass the test. */
  lemma {:induction false} FilterMembership<T>(keep: T -> bool, xs: seq<T>, x: T)
    ensures x in Filter(keep, xs) <==> x in xs && keep(x)
  {
    if |xs| > 0 {
      FilterMembership(keep, xs[1..], x);
      assert xs == [xs[0]] + xs[1..];
    }
  }

  /** `min(xs)` on a non-empty list: the running minimum, replaced on a strictly smaller item. */
  function MinOf(xs: seq<int>): (m: int)
    requires |xs| > 0
    ensures m in xs
    ensures forall x :: x in xs ==> m <= x
  {
    if |xs| == 1 then xs[0]
    else
      var m := MinOf(xs[..|xs| - 1]);
      assert xs == xs[..|xs| - 1] + [xs[|xs| - 1]];
      if xs[|xs| - 1] < m then xs[|xs| - 1] else m
  }

  /**
   * Python's `a < b` on strings: compared code point by code point, and a
   * proper prefix is smaller.
   */
  predicate LexLess(a: string, b: string)
  {
    if |a| == 0 then |b| > 0
    else if |b| == 0 then false
    else if a[0] != b[0] then a[0] < b[0]
    else LexLess(a[1..], b[1..])
  }

  lemma {:induction false} LexLessIrreflexive(a: string)
    ensures !LexLess(a, a)
  {
    if |a| > 0 {
      LexLessIrreflexive(a[1..]);
    }
  }

  lemma {:induction false} LexLessTransitive(a: string, b: string, c: string)
    requires LexLess(a, b) && LexLess(b, c)
    ensures LexLess(a, c)
  {
    if |a| > 0 && |b| > 0 && |c| > 0 && a[0] == b[0] && b[0] == c[0] {
      LexLessTransitive(a[1..], b[1..], c[1..]);
    }
  }

  lemma {:induction false} LexLessTotal(a: string, b: string)
    requires a != b
    ensures LexLess(a, b) || LexLess(b, a)
  {
    if |a| > 0 && |b| > 0 && a[0] == b[0] {
      assert a == [a[0]] + a[1..] && b == [b[0]] + b[1..];
      LexLessTotal(a[1..], b[1..]);
    }
  }

  /**
   * `max(xs)` on a non-empty list of strings: the running maximum, replaced
   * only when an item is strictly greater.
   */
  function MaxOf(xs: seq<string>): (m: string)
    requires |xs| > 0
    ensures m in xs
    ensures forall x :: x in xs ==> !LexLess(m, x)
  {
    if |xs| == 1 then
      LexLessIrreflexive(xs[0]);
      xs[0]
    else
      var init, last := xs[..|xs| - 1], xs[|xs| - 1];
      var m := MaxOf(init);
      assert xs == init + [last];
      if LexLess(m, last) then
        forall x | x in xs ensures !LexLess(last, x) {
          if x == last {
            LexLessIrreflexive(last);
          } else if LexLess(last, x) {
            LexLessTransitive(m, last, x);
          }
        }
        last
      else
        forall x | x in xs ensures !LexLess(m, x) {
          if x == last && x != m {
            LexLessTotal(m, x);
          }
        }
        m
  }

  /** `pat` occurs in `s` starting at position `p`. */
  predicate OccursAt<T(==)>(pat: seq<T>, s: seq<T>, p: int)
  {
    0 <= p && p + |pat| <= |s| && s[p..p + |pat|] == pat
  }

  /** No proper suffix of `pat` is also a prefix of it, so two occurrences never overlap. */
  predicate NoSelfOverlap<T(==)>(pat: seq<T>)
  {
    forall d :: 0 < d < |pat| ==> pat[d..] != pat[..|pat| - d]
  }

  /**
   * The start positions `re.finditer(pat, s)` reports when `pat` is a literal
   * with no special characters, scanning from `from`: leftmost match first,
   * and the next search resumes where that match ends.
   */
  function FindIterFrom<T(==)>(pat: seq<T>, s: seq<T>, from: nat): seq<nat>
    requires |pat| > 0 && from <= |s|
    decreases |s| - from
  {
    if from + |pat| > |s| then []
    else if s[from..from + |pat|] == pat then [from] + FindIterFrom(pat, s, from + |pat|)
    else FindIterFrom(pat, s, from + 1)
  }

  function FindIter<T(==)>(pat: seq<T>, s: seq<T>): (r: seq<nat>)
    requires |pat| > 0
  {
    FindIterFrom(pat, s, 0)
  }

  /** `r` lists matches of `pat` in `s` at or after `from`, left to right and without overlapping. */
  predicate MatchesInOrder<T(==)>(pat: seq<T>, s: seq<T>, from: nat, r: seq<nat>)
  {
    && (forall k :: 0 <= k < |r| ==> from <= r[k] && OccursAt(pat, s, r[k]))
    && (forall k, l :: 0 <= k < l < |r| ==> r[k] + |pat| <= r[l])
  }

  /** Every reported position is a match, and the matches come left to right without overlapping. */
  lemma {:induction false} FindIterFromMatchesInOrder<T>(pat: seq<T>, s: seq<T>, from: nat)
    requires |pat| > 0 && from <= |s|
    ensures MatchesInOrder(pat, s, from, FindIterFrom(pat, s, from))
    decreases |s| - from
  {
    if from + |pat| > |s| {
    } else if s[from..from + |pat|] == pat {
      var rest := FindIterFrom(pat, s, from + |pat|);
      FindIterFromMatchesInOrder(pat, s, from + |pat|);
      var r := [from] + rest;
      forall k | 0 <= k < |r| ensures from <= r[k] && OccursAt(pat, s, r[k]) {
        if k > 0 {
          assert r[k] == rest[k - 1];
        }
      }
      forall k, l | 0 <= k < l < |r| ensures r[k] + |pat| <= r[l] {
        assert r[l] == rest[l - 1];
        if k > 0 {
          assert r[k] == rest[k - 1];
        }
      }
    } else {
      FindIterFromMatchesInOrder(pat, s, from + 1);
    }
  }

  /**
   * For a pattern that cannot overlap itself, the non-overlapping scan of
   * `re.finditer` misses nothing: it reports every occurrence.
   */
  lemma {:induction false} FindIterFromFindsAll<T>(pat: seq<T>, s: seq<T>, from: nat, p: int)
    requires |pat| > 0 && from <= |s| && NoSelfOverlap(pat)
    ensures p in FindIterFrom(pat, s, from) <==> from <= p && OccursAt(pat, s, p)
    decreases |s| - from
  {
    if from + |pat| > |s| {
    } else if s[from..from + |pat|] == pat {
      FindIterFromFindsAll(pat, s, from + |pat|, p);
      assert p == from ==> OccursAt(pat, s, p);
      if from < p < from + |pat| && OccursAt(pat, s, p) {
        OverlapShift(pat, s, from, p);
      }
    } else {
      FindIterFromFindsAll(pat, s, from + 1, p);
    }
  }

  /** Two occurrences `a < b` closer than the pattern's length overlap the pattern with itself. */
  lemma OverlapShift<T>(pat: seq<T>, s: seq<T>, a: nat, b: nat)
    requires a < b < a + |pat| && OccursAt(pat, s, a) && OccursAt(pat, s, b)
    ensures pat[b - a..] == pat[..|pat| - (b - a)]
  {
    assert pat[b - a..] == s[b..a + |pat|];
    assert pat[..|pat| - (b - a)] == s[b..a + |pat|];
  }

  lemma FindIterFindsAll<T>(pat: seq<T>, s: seq<T>, p: int)
    requires |pat| > 0 && NoSelfOverlap(pat)
    ensures p in FindIter(pat, s) <==> OccursAt(pat, s, p)
  {
    FindIterFromFindsAll(pat, s, 0, p);
  }
}
