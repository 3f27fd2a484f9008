/**
 * The JavaScript string operations the user layer relies on, over `seq<char>`:
 * `lastIndexOf`, `substring`, `charAt(0).toUpperCase() + slice(1)`, `trim`,
 * and the e-mail pattern `/.+\@.+\..+/`.
 */
module JsString {

  /** `pat` occurs in `s` starting at index `i`. */
  predicate OccursAt(s: string, pat: string, i: int) {
    0 <= i && i + |pat| <= |s| && s[i..i + |pat|] == pat
  }

  /** `pat` occurs nowhere in `s`. */
  ghost predicate Free(s: string, pat: string) {
    forall i :: !OccursAt(s, pat, i)
  }

  /** The search behind `lastIndexOf`: the last occurrence at or before index `i`, or -1. */
  function LastIndexFrom(s: string, pat: string, i: int): (r: int)
    requires i <= |s| - |pat|
    ensures r == -1 || (0 <= r <= i && OccursAt(s, pat, r))
    ensures forall j :: r < j <= i ==> !OccursAt(s, pat, j)
    decreases i + 1
  {
    if i < 0 then -1
    else if OccursAt(s, pat, i) then i
    else LastIndexFrom(s, pat, i - 1)
  }

  /** `s.lastIndexOf(pat)`: the index of the last occurrence of `pat` in `s`, or -1 when there is none. */
  function LastIndexOf(s: string, pat: string): (r: int)
    ensures r == -1 || OccursAt(s, pat, r)
    ensures forall j :: r < j ==> !OccursAt(s, pat, j)
  {
    LastIndexFrom(s, pat, |s| - |pat|)
  }

  /** `lastIndexOf` is -1 exactly when the pattern does not occur. */
  lemma LastIndexOfMissing(s: string, pat: string)
    ensures LastIndexOf(s, pat) == -1 <==> Free(s, pat)
  {
    if LastIndexOf(s, pat) != -1 {
      assert OccursAt(s, pat, LastIndexOf(s, pat));
    }
  }

  /** An occurrence with none after it is the one `lastIndexOf` finds. */
  lemma LastIndexOfIs(s: string, pat: string, k: int)
    requires OccursAt(s, pat, k)
    requires forall j :: k < j ==> !OccursAt(s, pat, j)
    ensures LastIndexOf(s, pat) == k
  {
  }

  /** A two-character pattern occurs where its two characters stand side by side. */
  lemma OccursAtPair(s: string, pat: string, i: int)
    requires |pat| == 2
    ensures OccursAt(s, pat, i) <==> 0 <= i && i + 2 <= |s| && s[i] == pat[0] && s[i + 1] == pat[1]
  {
    if 0 <= i && i + 2 <= |s| && s[i] == pat[0] && s[i + 1] == pat[1] {
      assert s[i..i + 2] == pat;
    }
  }

  /** A pattern none of whose characters at position `k` appears in `s` occurs nowhere in `s`. */
  lemma {:induction false} FreeWhenCharAbsent(s: string, pat: string, k: nat)
    requires k < |pat| && pat[k] !in s
    ensures Free(s, pat)
  {
  }

  /** A two-character pattern absent from both halves and not straddling the join is absent from the whole. */
  lemma FreeJoin(a: string, b: string, pat: string)
    requires |pat| == 2 && Free(a, pat) && Free(b, pat)
    requires a == [] || b == [] || a[|a| - 1] != pat[0] || b[0] != pat[1]
    ensures Free(a + b, pat)
  {
    var s := a + b;
    forall i | 0 <= i
      ensures !OccursAt(s, pat, i)
    {
      OccursAtPair(s, pat, i);
      if i + 1 < |a| {
        OccursAtPair(a, pat, i);
      } else if |a| <= i && i + 2 <= |s| {
        assert s[i] == b[i - |a|] && s[i + 1] == b[i + 1 - |a|];
        OccursAtPair(b, pat, i - |a|);
      }
    }
  }

  /** One bound of `substring` after `ToIntegerOrInfinity` and clamping to `[0, len]`. */
  function Clamp(x: int, len: nat): (r: nat)
    ensures r <= len
    ensures 0 <= x <= len ==> r == x
  {
    if x < 0 then 0 else if x > len then len else x
  }

  /**
   * `s.substring(start, end)`: both bounds are clamped to `[0, |s|]` and
   * swapped when the first is larger, so a negative bound reads as 0.
   */
  function Substring(s: string, start: int, end: int): (r: string)
    ensures |r| == if Clamp(start, |s|) <= Clamp(end, |s|) then Clamp(end, |s|) - Clamp(start, |s|)
                   else Clamp(start, |s|) - Clamp(end, |s|)
    ensures 0 <= start <= end <= |s| ==> r == s[start..end]
    ensures 0 <= end <= start <= |s| ==> r == s[end..start]
  {
    var a, b := Clamp(start, |s|), Clamp(end, |s|);
    if a <= b then s[a..b] else s[b..a]
  }

  /** `substring` does not care about the order of its bounds. */
  lemma SubstringSymmetric(s: string, start: int, end: int)
    ensures Substring(s, start, end) == Substring(s, end, start)
  {
  }

  /** `toUpperCase` on one character: ASCII lower-case letters map to upper case, everything else stays. */
  function ToUpperCase(c: char): (r: char)
    ensures 'a' <= c <= 'z' ==> 'A' <= r <= 'Z' && r as int == c as int - 32
    ensures !('a' <= c <= 'z') ==> r == c
  {
    if 'a' <= c <= 'z' then (c as int - 32) as char else c
  }

  /** `f.charAt(0).toUpperCase() + f.slice(1)`: only the first character changes. */
  function CapitalizeFirst(f: string): (r: string)
    ensures |r| == |f|
    ensures |f| > 0 ==> r[0] == ToUpperCase(f[0])
    ensures forall i | 0 < i < |f| :: r[i] == f[i]
  {
    if f == [] then [] else [ToUpperCase(f[0])] + f[1..]
  }

  /** The characters `String.prototype.trim` removes: ECMAScript WhiteSpace and LineTerminator. */
  predicate IsWhiteSpace(c: char) {
    c == '\t' || c == '\n' || c == '\U{000B}' || c == '\U{000C}' || c == '\r' || c == ' ' ||
    c == '\U{00A0}' || c == '\U{1680}' || ('\U{2000}' <= c <= '\U{200A}') ||
    c == '\U{2028}' || c == '\U{2029}' || c == '\U{202F}' || c == '\U{205F}' ||
    c == '\U{3000}' || c == '\U{FEFF}'
  }

  /** The characters `.` does not match in a regular expression without the `s` flag. */
  predicate IsLineTerminator(c: char) {
    c == '\n' || c == '\r' || c == '\U{2028}' || c == '\U{2029}'
  }

  /** The index of the first character at or after `i` that is not white space, or |s|. */
  function LeadingWhiteSpaceFrom(s: string, i: nat): (k: nat)
    requires i <= |s|
    ensures i <= k <= |s|
    ensures forall j | i <= j < k :: IsWhiteSpace(s[j])
    ensures k == |s| || !IsWhiteSpace(s[k])
    decreases |s| - i
  {
    if i == |s| || !IsWhiteSpace(s[i]) then i else LeadingWhiteSpaceFrom(s, i + 1)
  }

  /** The index just past the last character before `hi` that is not white space, or `lo`. */
  function TrailingWhiteSpaceFrom(s: string, lo: nat, hi: nat): (k: nat)
    requires lo <= hi <= |s|
    ensures lo <= k <= hi
    ensures forall j | k <= j < hi :: IsWhiteSpace(s[j])
    ensures k == lo || !IsWhiteSpace(s[k - 1])
  {
    if hi == lo || !IsWhiteSpace(s[hi - 1]) then hi else TrailingWhiteSpaceFrom(s, lo, hi - 1)
  }

  /** Where `trim` starts: the number of white-space characters it cuts from the front. */
  function TrimStartIndex(s: string): nat {
    LeadingWhiteSpaceFrom(s, 0)
  }

  /** Where `trim` ends: everything from here on is white space. */
  function TrimEndIndex(s: string): nat
    requires TrimStartIndex(s) <= |s|
  {
    TrailingWhiteSpaceFrom(s, TrimStartIndex(s), |s|)
  }

  /** `s.trim()`: the text neither starts nor ends with white space. */
  function Trim(s: string): (r: string)
    ensures r == [] || (!IsWhiteSpace(r[0]) && !IsWhiteSpace(r[|r| - 1]))
  {
    var lo := LeadingWhiteSpaceFrom(s, 0);
    var hi := TrailingWhiteSpaceFrom(s, lo, |s|);
    s[lo..hi]
  }

  /**
   * `trim` cuts only white space, from both ends: the result is the slice
   * between the two trim indices, and everything outside it is white space.
   */
  lemma TrimCutsWhiteSpace(s: string)
    ensures TrimStartIndex(s) <= TrimEndIndex(s) <= |s|
    ensures Trim(s) == s[TrimStartIndex(s)..TrimEndIndex(s)]
    ensures forall i | 0 <= i < TrimStartIndex(s) :: IsWhiteSpace(s[i])
    ensures forall i | TrimEndIndex(s) <= i < |s| :: IsWhiteSpace(s[i])
  {
  }

  /** Trimming twice is trimming once. */
  lemma {:induction false} TrimIdempotent(s: string)
    ensures Trim(Trim(s)) == Trim(s)
  {
    var r := Trim(s);
    assert LeadingWhiteSpaceFrom(r, 0) == 0;
    assert TrailingWhiteSpaceFrom(r, 0, |r|) == |r|;
    assert r[0..|r|] == r;
  }

  /**
   * `/.+\@.+\..+/.test(s)`: some '@' has a non-terminator character before
   * it, and some later '.' is reached from it over at least one
   * non-terminator character and is followed by one.
   */
  function MatchesEmailPattern(s: string): (b: bool)
    ensures b ==> |s| >= 5
  {
    exists at, dot | 0 < at < |s| && at + 1 < dot < |s| - 1 ::
      s[at] == '@' && s[dot] == '.' &&
      !IsLineTerminator(s[at - 1]) && !IsLineTerminator(s[dot + 1]) && NoLineTerminator(s, at + 1, dot)
  }

  /** No character of `s[lo..hi]` is a line terminator. */
  predicate NoLineTerminator(s: string, lo: int, hi: int)
    requires 0 <= lo <= hi <= |s|
  {
    forall k | lo <= k < hi :: !IsLineTerminator(s[k])
  }

  /** Every address the pattern accepts has an '@' followed later by a '.', and at least five characters. */
  lemma EmailPatternShape(s: string)
    requires MatchesEmailPattern(s)
    ensures |s| >= 5
    ensures exists at, dot | 0 < at < dot < |s| - 1 :: s[at] == '@' && s[dot] == '.'
  {
  }
}
