/**
 * The few operations of Go's `strings` package (and Go's built-in string
 * order) that the tool relies on, stated over `string` = `seq<char>`.
 */
module GoStrings {

  // ---------------------------------------------------------------------
  // Go's `s < t` on strings
  // ---------------------------------------------------------------------

  /** Lexicographic order: the first differing character decides, and a proper prefix comes first. */
  predicate LexLess(s: string, t: string)
  {
    if s == [] then t != []
    else if t == [] then false
    else if s[0] != t[0] then s[0] < t[0]
    else LexLess(s[1..], t[1..])
  }

  lemma {:induction false} LexLessIrreflexive(s: string)
    ensures !LexLess(s, s)
  {
    if s != [] {
      LexLessIrreflexive(s[1..]);
    }
  }

  lemma {:induction false} LexLessTransitive(s: string, t: string, u: string)
    requires LexLess(s, t) && LexLess(t, u)
    ensures LexLess(s, u)
  {
    if s != [] && t != [] && u != [] && s[0] == t[0] && t[0] == u[0] {
      LexLessTransitive(s[1..], t[1..], u[1..]);
    }
  }

  lemma {:induction false} LexLessTotal(s: string, t: string)
    requires s != t
    ensures LexLess(s, t) || LexLess(t, s)
  {
    if s != [] && t != [] && s[0] == t[0] {
      assert s == [s[0]] + s[1..] && t == [t[0]] + t[1..];
      LexLessTotal(s[1..], t[1..]);
    }
  }

  /** The three-way form Go code writes as `if x == y {0} else if x < y {-1} else {+1}`. */
  function LexCompare(s: string, t: string): int
  {
    if s == t then 0 else if LexLess(s, t) then -1 else 1
  }

  /** LexCompare is a strict total order: zero exactly on equal strings, antisymmetric, transitive. */
  lemma LexCompareIsStrictOrder(s: string, t: string, u: string)
    ensures LexCompare(s, t) == 0 <==> s == t
    ensures LexCompare(s, t) == -LexCompare(t, s)
    ensures LexCompare(s, t) < 0 && LexCompare(t, u) < 0 ==> LexCompare(s, u) < 0
  {
    if s != t {
      LexLessTotal(s, t);
      if LexLess(s, t) && LexLess(t, s) {
        LexLessTransitive(s, t, s);
        LexLessIrreflexive(s);
      }
    }
    if LexLess(s, t) && LexLess(t, u) {
      LexLessTransitive(s, t, u);
      LexLessIrreflexive(s);
    }
  }

  // ---------------------------------------------------------------------
  // strings.Split, strings.Join, strings.Repeat, strings.HasPrefix
  // ---------------------------------------------------------------------

  /** `strings.Split(s, sep)` for a one-character separator: the pieces between separators (at least one). */
  function Split(s: string, sep: char): (pieces: seq<string>)
    ensures |pieces| >= 1
  {
    if s == [] then [[]]
    else
      var rest := Split(s[1..], sep);
      if s[0] == sep then [[]] + rest
      else [[s[0]] + rest[0]] + rest[1..]
  }

  /** `strings.Join(elems, sep)`. */
  function Join(elems: seq<string>, sep: string): string
  {
    if |elems| == 0 then []
    else if |elems| == 1 then elems[0]
    else elems[0] + sep + Join(elems[1..], sep)
  }

  /** Joining the pieces of a split with the separator gives back the original string. */
  lemma {:induction false} JoinSplit(s: string, sep: char)
    ensures Join(Split(s, sep), [sep]) == s
  {
    if s != [] {
      var rest := Split(s[1..], sep);
      JoinSplit(s[1..], sep);
      assert s == [s[0]] + s[1..];
      if s[0] == sep {
        assert ([[]] + rest)[1..] == rest;
      } else if |rest| > 1 {
        assert ([[s[0]] + rest[0]] + rest[1..])[1..] == rest[1..];
      }
    }
  }

  /** Splitting is injective: different strings never split into the same pieces. */
  lemma SplitInjective(s: string, t: string, sep: char)
    requires s != t
    ensures Split(s, sep) != Split(t, sep)
  {
    JoinSplit(s, sep);
    JoinSplit(t, sep);
  }

  /** `strings.Repeat(s, count)` for a non-negative count (Go panics on a negative one). */
  function Repeat(s: string, count: nat): (r: string)
    ensures |s| == 1 ==> |r| == count && forall k :: 0 <= k < count ==> r[k] == s[0]
  {
    if count == 0 then [] else s + Repeat(s, count - 1)
  }

  /** `strings.HasPrefix(s, prefix)`. */
  predicate HasPrefix(s: string, prefix: string)
  {
    |prefix| <= |s| && s[..|prefix|] == prefix
  }

  // ---------------------------------------------------------------------
  // strings.TrimSpace
  // ---------------------------------------------------------------------

  /** Go's `unicode.IsSpace`: the Latin-1 spaces plus the Unicode White_Space property. */
  predicate IsSpace(c: char)
  {
    var n := c as int;
    (9 <= n <= 13) || n == 0x20 || n == 0x85 || n == 0xA0 || n == 0x1680
    || (0x2000 <= n <= 0x200A) || n == 0x2028 || n == 0x2029 || n == 0x202F
    || n == 0x205F || n == 0x3000
  }

  /** s[lo..hi] is all white space. */
  predicate SpaceIn(s: string, lo: nat, hi: nat)
    requires lo <= hi <= |s|
  {
    forall k :: lo <= k < hi ==> IsSpace(s[k])
  }

  /** Neither the first nor the last character is white space. */
  predicate Trimmed(s: string)
  {
    s == [] || (!IsSpace(s[0]) && !IsSpace(s[|s| - 1]))
  }

  /** The first index at or after `lo` that does not hold white space (|s| if none does). */
  function SkipSpace(s: string, lo: nat): (i: nat)
    requires lo <= |s|
    ensures lo <= i <= |s| && SpaceIn(s, lo, i)
    ensures i < |s| ==> !IsSpace(s[i])
    decreases |s| - lo
  {
    if lo < |s| && IsSpace(s[lo]) then SkipSpace(s, lo + 1) else lo
  }

  /** The last index down to `lo` that follows no white space: s[j..hi] is the white space that ends s[..hi]. */
  function SkipSpaceBack(s: string, lo: nat, hi: nat): (j: nat)
    requires lo <= hi <= |s|
    ensures lo <= j <= hi && SpaceIn(s, j, hi)
    ensures lo < j ==> !IsSpace(s[j - 1])
  {
    if lo < hi && IsSpace(s[hi - 1]) then SkipSpaceBack(s, lo, hi - 1) else hi
  }

  /**
   * `strings.TrimSpace(s)`: s without its leading and trailing white space. The
   * result is the stretch s[i..i + |r|] after the i leading white-space
   * characters, everything after it is white space too, and it neither starts
   * nor ends with white space.
   */
  function TrimSpace(s: string): (r: string)
    ensures Trimmed(r)
    ensures var i := SkipSpace(s, 0);
      && i + |r| <= |s|
      && r == s[i..i + |r|]
      && SpaceIn(s, 0, i)
      && SpaceIn(s, i + |r|, |s|)
  {
    var i := SkipSpace(s, 0);
    s[i..SkipSpaceBack(s, i, |s|)]
  }
}
