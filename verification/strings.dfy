/**
 The few `java.lang.String` operations the assembler relies on, stated over
 `string == seq<char>`: prefix/suffix tests, first/last occurrence of a
 character (Java's `indexOf`/`lastIndexOf`, with -1 for "absent"), `trim`
 and `isBlank`.
 */
module Strings {

  predicate StartsWith(s: string, prefix: string) {
    |prefix| <= |s| && s[..|prefix|] == prefix
  }

  predicate EndsWith(s: string, suffix: string) {
    |suffix| <= |s| && s[|s| - |suffix|..] == suffix
  }

  /** Java `s.indexOf(c)`: the first position of `c`, or -1 when `c` does not occur. */
  function IndexOf(s: string, c: char): (r: int)
    ensures -1 <= r < |s|
    ensures r == -1 <==> c !in s
    ensures 0 <= r ==> s[r] == c && c !in s[..r]
  {
    if |s| == 0 then -1
    else if s[0] == c then 0
    else
      var k := IndexOf(s[1..], c);
      assert s[1..][..if k < 0 then 0 else k] == s[1..1 + if k < 0 then 0 else k];
      if k == -1 then -1 else k + 1
  }

  /** The first `c` of `a + [c] + b` is the one after `a` when `a` has none. */
  lemma IndexOfAfter(a: string, c: char, b: string)
    requires c !in a
    ensures IndexOf(a + [c] + b, c) == |a|
  {
    var s := a + [c] + b;
    assert s[|a|] == c && s[..|a|] == a;
  }

  /** Concatenation is associative (a step the solver does not always find on its own when the
      three parts are large terms). */
  lemma ConcatAssociative<T>(a: seq<T>, b: seq<T>, c: seq<T>)
    ensures a + (b + c) == (a + b) + c
  {
  }

  /** Java `s.lastIndexOf(c)`: the last position of `c`, or -1 when `c` does not occur. */
  function LastIndexOf(s: string, c: char): (r: int)
    ensures -1 <= r < |s|
    ensures r == -1 <==> c !in s
    ensures 0 <= r ==> s[r] == c && c !in s[r + 1..]
  {
    if |s| == 0 then -1
    else if s[|s| - 1] == c then |s| - 1
    else
      var k := LastIndexOf(s[..|s| - 1], c);
      LastIndexOfStep(s, c, k);
      k
  }

  /** When the last character of `s` is not `c`, the last `c` of `s` is the last `c` of `s`
      without its last character. */
  lemma LastIndexOfStep(s: string, c: char, k: int)
    requires |s| > 0 && s[|s| - 1] != c && -1 <= k < |s| - 1
    requires k == -1 <==> c !in s[..|s| - 1]
    requires 0 <= k ==> s[..|s| - 1][k] == c && c !in s[..|s| - 1][k + 1..]
    ensures k == -1 <==> c !in s
    ensures 0 <= k ==> s[k] == c && c !in s[k + 1..]
  {
    InPrefix(s, c);
    if k >= 0 {
      SuffixPastPrefix(s, k);
    }
  }

  /** A character other than the last one occurs in `s` exactly when it occurs in the rest. */
  lemma InPrefix(s: string, c: char)
    requires |s| > 0 && s[|s| - 1] != c
    ensures c in s <==> c in s[..|s| - 1]
  {
    assert s == s[..|s| - 1] + [s[|s| - 1]];
  }

  /** A suffix that starts before the last character is the matching suffix of the rest, with
      the last character put back. */
  lemma SuffixPastPrefix(s: string, k: int)
    requires 0 <= k < |s| - 1
    ensures s[k] == s[..|s| - 1][k] && s[k + 1..] == s[..|s| - 1][k + 1..] + [s[|s| - 1]]
  {
  }

  /** The characters `String.trim` removes: every code point up to U+0020. */
  predicate IsTrimmable(c: char) {
    c <= ' '
  }

  predicate AllTrimmable(s: string) {
    forall i :: 0 <= i < |s| ==> IsTrimmable(s[i])
  }

  /** Neither end of `s` carries a character that `trim` would remove. */
  predicate IsTrimmed(s: string) {
    |s| == 0 || (!IsTrimmable(s[0]) && !IsTrimmable(s[|s| - 1]))
  }

  /** Drops the leading trimmable characters: the result is the suffix of `s` that follows them. */
  function TrimStart(s: string): (r: string)
    ensures |r| <= |s| && r == s[|s| - |r|..]
    ensures AllTrimmable(s[..|s| - |r|])
    ensures |r| == 0 || !IsTrimmable(r[0])
  {
    if |s| > 0 && IsTrimmable(s[0]) then
      var r := TrimStart(s[1..]);
      var k := |s| - |r|;
      assert s[1..][k - 1..] == s[k..];
      assert AllTrimmable(s[..k]) by {
        forall i | 0 <= i < k ensures IsTrimmable(s[..k][i]) {
          if i > 0 {
            assert s[..k][i] == s[1..][..k - 1][i - 1];
          }
        }
      }
      r
    else s
  }

  /** Drops the trailing trimmable characters: the result is the prefix of `s` that precedes them. */
  function TrimEnd(s: string): (r: string)
    ensures |r| <= |s| && r == s[..|r|]
    ensures AllTrimmable(s[|r|..])
    ensures |r| == 0 || !IsTrimmable(r[|r| - 1])
  {
    if |s| > 0 && IsTrimmable(s[|s| - 1]) then
      var r := TrimEnd(s[..|s| - 1]);
      assert s[|r|..] == s[..|s| - 1][|r|..] + [s[|s| - 1]];
      r
    else s
  }

  /** Java `s.trim()`. */
  function Trim(s: string): (r: string)
    ensures IsTrimmed(r)
    ensures |r| <= |s|
  {
    TrimEnd(TrimStart(s))
  }

  /** What `trim` returns: the trimmed infix of `s` left once the trimmable characters at both
      ends are removed. */
  lemma TrimIsInfix(s: string)
    ensures var r := Trim(s);
      && IsTrimmed(r)
      && exists k :: IsTrimmedInfix(s, r, k)
  {
    var t := TrimStart(s);
    var r := TrimEnd(t);
    var k := |s| - |t|;
    assert t == s[k..] && r == t[..|r|];
    assert r == s[k..k + |r|];
    assert s[k + |r|..] == t[|r|..];
    assert IsTrimmedInfix(s, r, k);
  }

  /** `r` sits at offset `k` in `s`, and everything around it is trimmable. */
  predicate IsTrimmedInfix(s: string, r: string, k: int) {
    && 0 <= k && k + |r| <= |s| && r == s[k..k + |r|]
    && AllTrimmable(s[..k]) && AllTrimmable(s[k + |r|..])
  }

  /** `trim` leaves a string alone exactly when neither of its ends is trimmable. */
  lemma TrimFixesTrimmed(s: string)
    ensures Trim(s) == s <==> IsTrimmed(s)
  {
    if IsTrimmed(s) && |s| > 0 {
      assert TrimStart(s) == s;
      assert TrimEnd(s) == s;
    }
  }

  /** `trim` is idempotent. */
  lemma TrimIdempotent(s: string)
    ensures Trim(Trim(s)) == Trim(s)
  {
    TrimFixesTrimmed(Trim(s));
  }

  /** Java `Character.isWhitespace`: the Unicode space, line and paragraph separators other than
      the three no-break spaces, plus the control characters U+0009 to U+000D and U+001C to U+001F. */
  predicate IsWhitespace(c: char) {
    || ('\t' <= c <= '\r')
    || ('\U{1C}' <= c <= ' ')
    || c == '\U{1680}'
    || ('\U{2000}' <= c <= '\U{2006}')
    || ('\U{2008}' <= c <= '\U{200A}')
    || c == '\U{2028}' || c == '\U{2029}'
    || c == '\U{205F}' || c == '\U{3000}'
  }

  /** Java `s.isBlank()`: empty, or whitespace only. */
  predicate IsBlank(s: string) {
    forall i :: 0 <= i < |s| ==> IsWhitespace(s[i])
  }

  /** Every `from` replaced by `to`, as Java's `s.replace(from, to)` on characters. The
      assembler never calls it: it serves to state the symmetry of the computation table between
      the mnemonics naming `A` and those naming `M`. */
  function Replace(s: string, from: char, to: char): (r: string)
    ensures |r| == |s|
    ensures forall i :: 0 <= i < |s| ==> r[i] == (if s[i] == from then to else s[i])
  {
    seq(|s|, i requires 0 <= i < |s| => if s[i] == from then to else s[i])
  }
}
