/**
 * The string operations the city query relies on: the white-space test of
 * `char.IsWhiteSpace`, `string.IsNullOrWhiteSpace`, `string.Trim`, ordinal
 * substring search (`string.Contains`) and the ordinal (code-point) order that
 * the database's binary collation uses for `ORDER BY`.
 */
module Text {
  import opened Wrappers

  /** `char.IsWhiteSpace`: the Unicode separators plus U+0009..U+000D and U+0085. */
  predicate IsWhiteSpace(c: char) {
    || ('\U{0009}' <= c <= '\U{000D}')
    || c == '\U{0020}' || c == '\U{0085}' || c == '\U{00A0}' || c == '\U{1680}'
    || ('\U{2000}' <= c <= '\U{200A}')
    || c == '\U{2028}' || c == '\U{2029}' || c == '\U{202F}' || c == '\U{205F}'
    || c == '\U{3000}'
  }

  predicate AllWhiteSpace(s: string) {
    forall i :: 0 <= i < |s| ==> IsWhiteSpace(s[i])
  }

  /** `string.IsNullOrWhiteSpace`. */
  predicate IsNullOrWhiteSpace(s: Option<string>) {
    s.None? || AllWhiteSpace(s.value)
  }

  /** `string.TrimStart()`: drops the longest all-white-space prefix. */
  function TrimStart(s: string): (r: string)
    ensures |r| <= |s| && r == s[|s| - |r|..]
    ensures AllWhiteSpace(s[..|s| - |r|])
    ensures r == [] || !IsWhiteSpace(r[0])
    decreases |s|
  {
    if |s| > 0 && IsWhiteSpace(s[0]) then
      var r := TrimStart(s[1..]);
      assert s[..|s| - |r|] == [s[0]] + s[1..][..|s| - 1 - |r|];
      r
    else
      s
  }

  /** `string.TrimEnd()`: drops the longest all-white-space suffix. */
  function TrimEnd(s: string): (r: string)
    ensures |r| <= |s| && r == s[..|r|]
    ensures AllWhiteSpace(s[|r|..])
    ensures r == [] || !IsWhiteSpace(r[|r| - 1])
    decreases |s|
  {
    if |s| > 0 && IsWhiteSpace(s[|s| - 1]) then
      var r := TrimEnd(s[..|s| - 1]);
      assert s[|r|..] == s[..|s| - 1][|r|..] + [s[|s| - 1]];
      r
    else
      s
  }

  /** `t` sits at offset `k` of `s` with only white space around it. */
  predicate PaddedAt(s: string, t: string, k: int) {
    && 0 <= k <= |s| - |t|
    && s[k..k + |t|] == t
    && AllWhiteSpace(s[..k])
    && AllWhiteSpace(s[k + |t|..])
  }

  /** `string.Trim()`: the result is the input with its white-space padding
      removed on both sides, and it neither starts nor ends with white space. */
  function Trim(s: string): (r: string)
    ensures |r| <= |s|
    ensures exists k :: PaddedAt(s, r, k)
    ensures r == [] <==> AllWhiteSpace(s)
    ensures r != [] ==> !IsWhiteSpace(r[0]) && !IsWhiteSpace(r[|r| - 1])
  {
    TrimBothSides(s);
    TrimEnd(TrimStart(s))
  }

  lemma {:induction false} TrimBothSides(s: string)
    ensures var r := TrimEnd(TrimStart(s));
      && PaddedAt(s, r, |s| - |TrimStart(s)|)
      && (r == [] <==> AllWhiteSpace(s))
      && (r != [] ==> !IsWhiteSpace(r[0]))
  {
    TrimIsPadded(s);
    TrimIsEmptyOnlyWhenBlank(s);
    TrimStartsWithNonWhiteSpace(s);
  }

  lemma {:induction false} TrimIsPadded(s: string)
    ensures PaddedAt(s, TrimEnd(TrimStart(s)), |s| - |TrimStart(s)|)
  {
    var t := TrimStart(s);
    PaddedFromParts(s, t, TrimEnd(t), |s| - |t|);
  }

  /** A prefix `r` of a suffix `t == s[k..]`, with white space before `t` and
      after `r`, sits padded at offset `k` of `s`. */
  lemma {:induction false} PaddedFromParts(s: string, t: string, r: string, k: int)
    requires 0 <= k <= |s| && t == s[k..] && AllWhiteSpace(s[..k])
    requires |r| <= |t| && r == t[..|r|] && AllWhiteSpace(t[|r|..])
    ensures PaddedAt(s, r, k)
  {
    SliceOfSuffix(s, k, |r|);
  }

  lemma {:induction false} TrimIsEmptyOnlyWhenBlank(s: string)
    ensures TrimEnd(TrimStart(s)) == [] <==> AllWhiteSpace(s)
  {
    var t := TrimStart(s);
    var k := |s| - |t|;
    AllWhiteSpaceSplit(s, k);
    if TrimEnd(t) == [] {
      assert t[0..] == t;
    } else if t != [] {
      assert s[k..][0] == t[0];
    }
  }

  lemma {:induction false} TrimStartsWithNonWhiteSpace(s: string)
    ensures var r := TrimEnd(TrimStart(s)); r != [] ==> !IsWhiteSpace(r[0])
  {
    var t := TrimStart(s);
    var r := TrimEnd(t);
    if r != [] {
      assert r[0] == t[0];
    }
  }

  /** Slicing the suffix `s[k..]` is slicing `s` shifted by `k`. */
  lemma {:induction false} SliceOfSuffix(s: string, k: int, n: int)
    requires 0 <= k <= |s| && 0 <= n <= |s| - k
    ensures s[k..][..n] == s[k..k + n]
    ensures s[k..][n..] == s[k + n..]
  {
  }

  lemma {:induction false} AllWhiteSpaceSplit(s: string, k: int)
    requires 0 <= k <= |s|
    ensures AllWhiteSpace(s) <==> AllWhiteSpace(s[..k]) && AllWhiteSpace(s[k..])
  {
    if AllWhiteSpace(s[..k]) && AllWhiteSpace(s[k..]) {
      forall i | 0 <= i < |s| ensures IsWhiteSpace(s[i]) {
        if i >= k {
          assert s[i] == s[k..][i - k];
        } else {
          assert s[i] == s[..k][i];
        }
      }
    }
  }

  /** `sub` occurs in `s` starting at index `k`. */
  predicate OccursAt(s: string, sub: string, k: int) {
    0 <= k <= |s| - |sub| && s[k..k + |sub|] == sub
  }

  /** Ordinal `string.Contains`: some occurrence of `sub` in `s`. */
  function Contains(s: string, sub: string): (r: bool)
    ensures r <==> exists k :: OccursAt(s, sub, k)
    decreases |s|
  {
    if |sub| <= |s| && s[..|sub|] == sub then
      assert OccursAt(s, sub, 0);
      true
    else if |s| <= |sub| then
      assert forall k :: !OccursAt(s, sub, k);
      false
    else
      var rest := Contains(s[1..], sub);
      assert rest ==> exists k :: OccursAt(s, sub, k) by {
        if rest {
          var k :| OccursAt(s[1..], sub, k);
          assert s[k + 1..k + 1 + |sub|] == s[1..][k..k + |sub|];
          assert OccursAt(s, sub, k + 1);
        }
      }
      assert (exists k :: OccursAt(s, sub, k)) ==> rest by {
        if exists k :: OccursAt(s, sub, k) {
          var k :| OccursAt(s, sub, k);
          assert s[0..|sub|] == s[..|sub|];
          assert k != 0;
          assert s[k..k + |sub|] == s[1..][k - 1..k - 1 + |sub|];
          assert OccursAt(s[1..], sub, k - 1);
        }
      }
      rest
  }

  /** Ordinal order on strings: lexicographic on code points, a proper prefix
      coming first. On UTF-8 text this is the database's binary collation. */
  predicate OrdinalLessOrEqual(a: string, b: string)
    decreases |a|
  {
    || |a| == 0
    || (|b| > 0 && (a[0] < b[0] || (a[0] == b[0] && OrdinalLessOrEqual(a[1..], b[1..]))))
  }

  lemma {:induction false} OrdinalTotal(a: string, b: string)
    ensures OrdinalLessOrEqual(a, b) || OrdinalLessOrEqual(b, a)
    decreases |a|
  {
    if |a| > 0 && |b| > 0 && a[0] == b[0] {
      OrdinalTotal(a[1..], b[1..]);
    }
  }

  lemma {:induction false} OrdinalTransitive(a: string, b: string, c: string)
    requires OrdinalLessOrEqual(a, b) && OrdinalLessOrEqual(b, c)
    ensures OrdinalLessOrEqual(a, c)
    decreases |a|
  {
    if |a| > 0 && a[0] == b[0] && b[0] == c[0] {
      OrdinalTransitive(a[1..], b[1..], c[1..]);
    }
  }
}
