/**
 * The few `java.lang.String` operations the core relies on, over `seq<char>`.
 * Each one is stated by what it means (an occurrence, the first occurrence,
 * a removal) rather than by how Java computes it.
 */
module Text {

  /** `s.startsWith(p)`. */
  predicate StartsWith(s: string, p: string) {
    |p| <= |s| && s[..|p|] == p
  }

  /** `p` occurs in `s` starting at index `i`. */
  predicate OccursAt(s: string, p: string, i: int) {
    0 <= i && i + |p| <= |s| && s[i..i + |p|] == p
  }

  /** `s.contains(p)`. */
  predicate Contains(s: string, p: string) {
    exists i | 0 <= i <= |s| - |p| :: OccursAt(s, p, i)
  }

  /** `s.indexOf(p, from)`: the first occurrence at or after `from`, or -1. */
  function IndexOfFrom(s: string, p: string, from: nat): (i: int)
    decreases |s| - from
    ensures i == -1 || (from <= i && OccursAt(s, p, i))
    ensures i == -1 ==> forall k :: from <= k ==> !OccursAt(s, p, k)
    ensures i != -1 ==> forall k :: from <= k < i ==> !OccursAt(s, p, k)
  {
    if from + |p| > |s| then -1
    else if s[from..from + |p|] == p then from
    else IndexOfFrom(s, p, from + 1)
  }

  /** `s.lastIndexOf(p)` restricted to starts `<= upto`: the last such occurrence, or -1. */
  function LastIndexOfUpTo(s: string, p: string, upto: int): (i: int)
    decreases upto + 1
    ensures i == -1 || (i <= upto && OccursAt(s, p, i))
    ensures forall k :: i < k <= upto ==> !OccursAt(s, p, k)
  {
    if upto < 0 then -1
    else if OccursAt(s, p, upto) then upto
    else LastIndexOfUpTo(s, p, upto - 1)
  }

  /** `s.indexOf(c)`: the first index of `c`, or -1 when `c` does not occur. */
  function IndexOfChar(s: string, c: char): (i: int)
    ensures i == -1 <==> c !in s
    ensures i != -1 ==> 0 <= i < |s| && s[i] == c && c !in s[..i]
  {
    if s == [] then -1
    else if s[0] == c then 0
    else var j := IndexOfChar(s[1..], c); if j == -1 then -1 else j + 1
  }

  /**
   * `s.replace(t, "")`: every occurrence of `t`, scanning left to right
   * without overlap, is removed. Removing the empty string changes nothing.
   */
  function RemoveAll(s: string, t: string): (r: string)
    decreases |s|
    ensures |r| <= |s|
  {
    if t == [] || |s| < |t| then s
    else if s[..|t|] == t then RemoveAll(s[|t|..], t)
    else [s[0]] + RemoveAll(s[1..], t)
  }

  /** A string in which `t` never occurs is left alone by `RemoveAll`. */
  lemma {:induction false} RemoveAllAbsent(s: string, t: string)
    requires !Contains(s, t)
    ensures RemoveAll(s, t) == s
    decreases |s|
  {
    if t != [] && |s| >= |t| {
      assert !OccursAt(s, t, 0);
      assert !Contains(s[1..], t) by {
        forall i | 0 <= i <= |s[1..]| - |t| ensures !OccursAt(s[1..], t, i) {
          assert s[1..][i..i + |t|] == s[i + 1..i + 1 + |t|];
          assert !OccursAt(s, t, i + 1);
        }
      }
      RemoveAllAbsent(s[1..], t);
      assert s == [s[0]] + s[1..];
    }
  }

  /** A leading occurrence is dropped and the rest is processed on its own. */
  lemma RemoveAllLeading(s: string, t: string)
    requires t != [] && StartsWith(s, t)
    ensures RemoveAll(s, t) == RemoveAll(s[|t|..], t)
  {
  }

  /** The characters of regex class `\s` (without UNICODE_CHARACTER_CLASS). */
  predicate IsRegexSpace(c: char) {
    c == ' ' || c == '\t' || c == '\n' || c == '\U{B}' || c == '\U{C}' || c == '\r'
  }

  /** `Character.isWhitespace`, which `String.isBlank` uses. */
  predicate IsJavaWhitespace(c: char) {
    || c == '\t' || c == '\n' || c == '\U{B}' || c == '\U{C}' || c == '\r'
    || ('\U{1C}' <= c <= '\U{1F}')
    || c == ' ' || c == '\U{1680}'
    || ('\U{2000}' <= c <= '\U{2006}') || ('\U{2008}' <= c <= '\U{200A}')
    || c == '\U{2028}' || c == '\U{2029}' || c == '\U{205F}' || c == '\U{3000}'
  }

  /** `s.isBlank()`. */
  predicate IsBlank(s: string) {
    forall i | 0 <= i < |s| :: IsJavaWhitespace(s[i])
  }

  /**
   * `Character.toLowerCase` on the letters that matter here: Latin A-Z,
   * Cyrillic А-Я and Ѐ-Џ. Every other character is returned unchanged.
   */
  function LowerChar(c: char): (d: char)
    ensures 'A' <= c <= 'Z' ==> 'a' <= d <= 'z'
    ensures '\U{410}' <= c <= '\U{42F}' ==> '\U{430}' <= d <= '\U{44F}'
    ensures '\U{430}' <= c <= '\U{44F}' ==> d == c
  {
    if 'A' <= c <= 'Z' then (c as int + 32) as char
    else if '\U{410}' <= c <= '\U{42F}' then (c as int + 32) as char
    else if '\U{400}' <= c <= '\U{40F}' then (c as int + 80) as char
    else c
  }

  /** `s.toLowerCase(Locale.ROOT)`, character by character. */
  function ToLower(s: string): (r: string)
    ensures |r| == |s|
    ensures forall i | 0 <= i < |s| :: r[i] == LowerChar(s[i])
  {
    seq(|s|, i requires 0 <= i < |s| => LowerChar(s[i]))
  }

  /** `s.trim()`: drops every leading and trailing character `<= ' '`. */
  function Trim(s: string): (r: string)
    ensures r == [] || (r[0] > ' ' && r[|r| - 1] > ' ')
    ensures exists a, b | 0 <= a <= b <= |s| ::
              r == s[a..b] && (forall i | 0 <= i < a :: s[i] <= ' ') && (forall i | b <= i < |s| :: s[i] <= ' ')
  {
    var a := SkipLeading(s, 0);
    var b := SkipTrailing(s, |s|, a);
    assert s[a..b] == s[a..b] && (forall i | 0 <= i < a :: s[i] <= ' ') && (forall i | b <= i < |s| :: s[i] <= ' ');
    s[a..b]
  }

  function SkipLeading(s: string, i: nat): (a: nat)
    requires i <= |s|
    decreases |s| - i
    ensures i <= a <= |s| && (a < |s| ==> s[a] > ' ')
    ensures forall k | i <= k < a :: s[k] <= ' '
  {
    if i < |s| && s[i] <= ' ' then SkipLeading(s, i + 1) else i
  }

  function SkipTrailing(s: string, j: nat, a: nat): (b: nat)
    requires a <= j <= |s| && (a < |s| ==> s[a] > ' ')
    decreases j
    ensures a <= b <= j
    ensures a < b ==> s[b - 1] > ' '
    ensures forall k | b <= k < j :: s[k] <= ' '
  {
    if j > a && s[j - 1] <= ' ' then SkipTrailing(s, j - 1, a) else j
  }
}
