/**
 * What `Lemmatizer` and `LemmaFinder` share: how a text is normalised and
 * split into words, which analyses of the morphology library survive the
 * part-of-speech stop list, how a lemma is read off an analysis, and how
 * the counts accumulate. The library itself (`getMorphInfo`) is a foreign
 * call, so it is a parameter: a function from a word to its analyses.
 */
module Morphology {
  import opened Text

  /** The morphology library: a word to its analyses, each written "lemma|tags". */
  type Oracle = string -> seq<string>

  /** PARTS_OF_SPEECH: an analysis mentioning any of these tags is discarded. */
  const StopTags: seq<string> := ["СОЮЗ", "ПРЕДЛ", "МС", "КР_ПРИЛ", "МЕЖД", "ДЕЕПРИЧАСТИЕ", "L С"]

  /** The regex class `[А-Яа-я]`: U+0410 to U+044F (so Ё and ё are not in it). */
  predicate IsCyrillic(c: char) {
    '\U{410}' <= c <= '\U{44F}'
  }

  /** A lower-case letter of `[а-я]`. */
  predicate IsLowerCyrillic(c: char) {
    '\U{430}' <= c <= '\U{44F}'
  }

  /** `replaceAll("[^А-Яа-я\\s]", "")`: every other character is removed. */
  function KeepLettersAndSpaces(text: string): (r: string)
    ensures forall i | 0 <= i < |r| :: IsCyrillic(r[i]) || IsRegexSpace(r[i])
  {
    if text == [] then []
    else
      (if IsCyrillic(text[0]) || IsRegexSpace(text[0]) then [text[0]] else [])
      + KeepLettersAndSpaces(text[1..])
  }

  /** The normalised text: filtered, lower-cased (`Locale.ROOT`) and trimmed. */
  function Normalize(text: string): string {
    Trim(ToLower(KeepLettersAndSpaces(text)))
  }

  /** The maximal runs of non-space characters of `s`, in order. */
  function Tokens(s: string): (r: seq<string>)
    decreases |s|
    ensures forall w | w in r :: w != [] && forall c | c in w :: c in s && !IsRegexSpace(c)
  {
    if s == [] then []
    else if IsRegexSpace(s[0]) then Tokens(s[1..])
    else
      var n := RunLength(s, 1);
      [s[..n]] + Tokens(s[n..])
  }

  /** The length of the run of non-space characters that starts `s`. */
  function RunLength(s: string, n: nat): (m: nat)
    requires 0 < n <= |s| && forall i | 0 <= i < n :: !IsRegexSpace(s[i])
    decreases |s| - n
    ensures n <= m <= |s| && forall i | 0 <= i < m :: !IsRegexSpace(s[i])
    ensures m == |s| || IsRegexSpace(s[m])
  {
    if n < |s| && !IsRegexSpace(s[n]) then RunLength(s, n + 1) else n
  }

  /** The filter works character by character: filtering a concatenation concatenates the results. */
  lemma {:induction false} KeepLettersAndSpacesAppend(a: string, b: string)
    ensures KeepLettersAndSpaces(a + b) == KeepLettersAndSpaces(a) + KeepLettersAndSpaces(b)
    decreases |a|
  {
    if a != [] {
      var h := if IsCyrillic(a[0]) || IsRegexSpace(a[0]) then [a[0]] else [];
      assert (a + b)[0] == a[0] && (a + b)[1..] == a[1..] + b;
      assert KeepLettersAndSpaces(a + b) == h + KeepLettersAndSpaces(a[1..] + b);
      KeepLettersAndSpacesAppend(a[1..], b);
      var x, y := KeepLettersAndSpaces(a[1..]), KeepLettersAndSpaces(b);
      assert KeepLettersAndSpaces(a) == h + x;
      assert h + (x + y) == (h + x) + y;
    } else {
      assert a + b == b;
    }
  }

  /** Appending one character appends it to the result exactly when the filter keeps it. */
  lemma KeepLettersAndSpacesSnoc(a: string, c: char)
    ensures KeepLettersAndSpaces(a + [c])
            == KeepLettersAndSpaces(a) + (if IsCyrillic(c) || IsRegexSpace(c) then [c] else [])
  {
    KeepLettersAndSpacesAppend(a, [c]);
    assert [c][1..] == [];
  }

  /** A text made only of kept characters passes the filter unchanged, so filtering twice is filtering once. */
  lemma {:induction false} KeepLettersAndSpacesKeepsKept(s: string)
    requires forall i | 0 <= i < |s| :: IsCyrillic(s[i]) || IsRegexSpace(s[i])
    ensures KeepLettersAndSpaces(s) == s
    ensures KeepLettersAndSpaces(KeepLettersAndSpaces(s)) == KeepLettersAndSpaces(s)
    decreases |s|
  {
    if s != [] {
      KeepLettersAndSpacesKeepsKept(s[1..]);
      assert KeepLettersAndSpaces(s) == [s[0]] + KeepLettersAndSpaces(s[1..]);
      assert s == [s[0]] + s[1..];
    }
  }

  /** `s[i..j]` is a maximal run of non-space characters: non-empty, and bounded by whitespace or the ends of `s`. */
  predicate IsRun(s: string, i: int, j: int) {
    0 <= i < j <= |s|
    && (i == 0 || IsRegexSpace(s[i - 1]))
    && (j == |s| || IsRegexSpace(s[j]))
    && forall k | i <= k < j :: !IsRegexSpace(s[k])
  }

  /** A run of the suffix `s[d..]` is a run of `s`, unless it starts the suffix right after a non-space. */
  lemma RunShift(s: string, d: nat, i: int, j: int)
    requires d <= |s| && IsRun(s[d..], i, j)
    requires i > 0 || d == 0 || IsRegexSpace(s[d - 1])
    ensures IsRun(s, d + i, d + j)
  {
    assert forall k | d + i <= k < d + j :: s[k] == s[d..][k - d];
  }

  /** A run of `s` that starts at `d` or later is a run of `s[d..]`, moved by `d`. */
  lemma RunUnshift(s: string, d: nat, i: int, j: int)
    requires IsRun(s, i, j) && d <= i
    ensures IsRun(s[d..], i - d, j - d) && s[d..][i - d..j - d] == s[i..j]
  {
    assert forall k | i - d <= k < j - d :: s[d..][k] == s[k + d];
    assert forall k | 0 <= k < j - i :: s[d..][i - d..j - d][k] == s[i..j][k];
  }

  /** Every word of `Tokens(s)` is a maximal run of non-space characters of `s`. */
  lemma {:induction false} TokensAreRuns(s: string)
    ensures forall w | w in Tokens(s) :: exists i, j | IsRun(s, i, j) :: w == s[i..j]
    decreases |s|
  {
    if s != [] {
      var d := if IsRegexSpace(s[0]) then 1 else RunLength(s, 1);
      TokensAreRuns(s[d..]);
      forall w | w in Tokens(s) ensures exists i, j | IsRun(s, i, j) :: w == s[i..j] {
        if !IsRegexSpace(s[0]) && w == s[..d] {
          assert IsRun(s, 0, d) && w == s[0..d];
        } else {
          assert w in Tokens(s[d..]);
          var i, j :| IsRun(s[d..], i, j) && w == s[d..][i..j];
          RunOfSuffix(s, d, i, j);
        }
      }
    }
  }

  /** A run of the rest of the text after its first word (or its first space) is a run of the text. */
  lemma RunOfSuffix(s: string, d: nat, i: int, j: int)
    requires 0 < d <= |s| && IsRun(s[d..], i, j)
    requires IsRegexSpace(s[d - 1]) || d == |s| || IsRegexSpace(s[d])
    ensures IsRun(s, d + i, d + j) && s[d..][i..j] == s[d + i..d + j]
  {
    if !IsRegexSpace(s[d - 1]) {
      assert i > 0 by {
        if i == 0 {
          assert s[d..][0] == s[d];
        }
      }
    }
    RunShift(s, d, i, j);
  }

  /** Every maximal run of non-space characters of `s` is a word of `Tokens(s)`. */
  lemma {:induction false} RunsAreTokens(s: string)
    ensures forall i, j | IsRun(s, i, j) :: s[i..j] in Tokens(s)
    decreases |s|
  {
    if s != [] {
      if IsRegexSpace(s[0]) {
        RunsAreTokens(s[1..]);
        forall i, j | IsRun(s, i, j) ensures s[i..j] in Tokens(s) {
          RunUnshift(s, 1, i, j);
        }
      } else {
        var n := RunLength(s, 1);
        RunsAreTokens(s[n..]);
        forall i, j | IsRun(s, i, j) ensures s[i..j] in Tokens(s) {
          if i == 0 {
            assert j == n;
          } else {
            assert n < i;
            RunUnshift(s, n, i, j);
          }
        }
      }
    }
  }

  /** The non-space characters of `s`, in order. */
  function NonSpace(s: string): (r: string)
    ensures |r| <= |s|
  {
    if s == [] then []
    else (if IsRegexSpace(s[0]) then [] else [s[0]]) + NonSpace(s[1..])
  }

  /** The words one after the other. */
  function Concat(ws: seq<string>): (r: string)
    ensures forall w | w in ws :: |w| <= |r|
  {
    if ws == [] then [] else ws[0] + Concat(ws[1..])
  }

  /** A leading run of non-space characters is kept whole by `NonSpace`. */
  lemma {:induction false} NonSpaceRun(s: string, n: nat)
    requires n <= |s| && forall i | 0 <= i < n :: !IsRegexSpace(s[i])
    ensures NonSpace(s) == s[..n] + NonSpace(s[n..])
    decreases n
  {
    if n > 0 {
      NonSpaceRun(s[1..], n - 1);
      assert s[1..][n - 1..] == s[n..];
      assert s[..n] == [s[0]] + s[1..][..n - 1];
    }
  }

  /**
   * The words, one after the other, are exactly the non-space characters of
   * `s` in order: every non-space character belongs to exactly one word, and
   * the words come in the order of the text.
   */
  lemma {:induction false} TokensCoverText(s: string)
    ensures Concat(Tokens(s)) == NonSpace(s)
    decreases |s|
  {
    if s != [] {
      if IsRegexSpace(s[0]) {
        TokensCoverText(s[1..]);
      } else {
        var n := RunLength(s, 1);
        TokensCoverText(s[n..]);
        NonSpaceRun(s, n);
        assert ([s[..n]] + Tokens(s[n..]))[1..] == Tokens(s[n..]);
      }
    }
  }

  /**
   * The words handed to the library: `split("\\s+")` of the normalised text.
   * The normalised text is trimmed, so the split yields its runs of
   * non-space characters, except that Java splits the empty string into
   * one empty word.
   */
  function Words(text: string): seq<string> {
    var t := Normalize(text);
    if t == [] then [""] else Tokens(t)
  }

  /** An analysis survives `morphFilter` when it contains no stop tag. */
  predicate Kept(analysis: string) {
    forall t | t in StopTags :: !Contains(analysis, t)
  }

  /** Every surviving analysis the library can return has the "lemma|tags" shape. */
  ghost predicate WellFormed(morph: Oracle) {
    forall w: string, a: string | a in morph(w) && Kept(a) :: '|' in a
  }

  /** `morph.substring(0, morph.indexOf("|"))`. */
  function LemmaOf(analysis: string): (r: string)
    requires '|' in analysis
    ensures '|' !in r && |r| < |analysis|
    ensures analysis[..|r|] == r && analysis[|r|] == '|'
  {
    analysis[..IndexOfChar(analysis, '|')]
  }

  /** The lemmas of the surviving analyses of one word, in the library's order. */
  function KeptOf(infos: seq<string>): (r: seq<string>)
    requires forall a | a in infos && Kept(a) :: '|' in a
  {
    if infos == [] then []
    else
      var a := infos[|infos| - 1];
      KeptOf(infos[..|infos| - 1]) + (if Kept(a) then [LemmaOf(a)] else [])
  }

  /** The lemmas of the surviving analyses of all `words`, word by word. */
  function KeptLemmas(words: seq<string>, morph: Oracle): seq<string>
    requires WellFormed(morph)
  {
    if words == [] then []
    else KeptLemmas(words[..|words| - 1], morph) + KeptOf(morph(words[|words| - 1]))
  }

  /** `map.getOrDefault(k, 0)`. */
  function Get(m: map<string, int>, k: string): int {
    if k in m then m[k] else 0
  }

  /** `result.put(lemma, result.getOrDefault(lemma, 0) + 1)`. */
  function Inc(m: map<string, int>, k: string): map<string, int> {
    m[k := Get(m, k) + 1]
  }

  /** The counts after adding each lemma of `lemmas`, in order, to `m`. */
  function Tally(m: map<string, int>, lemmas: seq<string>): map<string, int> {
    if lemmas == [] then m
    else Inc(Tally(m, lemmas[..|lemmas| - 1]), lemmas[|lemmas| - 1])
  }

  /** Each lemma adds exactly one to its own count and nothing to any other. */
  lemma {:induction false} TallyCounts(m: map<string, int>, lemmas: seq<string>)
    ensures forall k :: Get(Tally(m, lemmas), k) == Get(m, k) + multiset(lemmas)[k]
    ensures Tally(m, lemmas).Keys == m.Keys + set l | l in lemmas
  {
    if lemmas != [] {
      var n := |lemmas| - 1;
      TallyCounts(m, lemmas[..n]);
      assert lemmas == lemmas[..n] + [lemmas[n]];
      assert multiset(lemmas) == multiset(lemmas[..n]) + multiset{lemmas[n]};
      assert (set l | l in lemmas) == (set l | l in lemmas[..n]) + {lemmas[n]};
    }
  }

  /** Counting never produces a count below one from counts that are all at least one. */
  lemma {:induction false} TallyPositive(m: map<string, int>, lemmas: seq<string>)
    requires forall k | k in m :: m[k] >= 1
    ensures forall k | k in Tally(m, lemmas) :: Tally(m, lemmas)[k] >= 1
  {
    if lemmas != [] {
      TallyPositive(m, lemmas[..|lemmas| - 1]);
    }
  }

  /** One more analysis: its lemma is appended exactly when it survives. */
  lemma KeptOfStep(infos: seq<string>, j: nat)
    requires j < |infos| && forall a | a in infos && Kept(a) :: '|' in a
    ensures KeptOf(infos[..j + 1])
         == KeptOf(infos[..j]) + (if Kept(infos[j]) then [LemmaOf(infos[j])] else [])
  {
    assert infos[..j + 1][..j] == infos[..j];
  }

  /** One more word: the lemmas of its surviving analyses are appended. */
  lemma KeptLemmasStep(words: seq<string>, i: nat, morph: Oracle)
    requires i < |words| && WellFormed(morph)
    ensures KeptLemmas(words[..i + 1], morph) == KeptLemmas(words[..i], morph) + KeptOf(morph(words[i]))
  {
    assert words[..i + 1][..i] == words[..i];
  }

  /** Counting one more lemma is one `Inc`. */
  lemma TallySnoc(m: map<string, int>, lemmas: seq<string>, x: string)
    ensures Tally(m, lemmas + [x]) == Inc(Tally(m, lemmas), x)
  {
    assert (lemmas + [x])[..|lemmas|] == lemmas;
  }

  /** Counting two runs of lemmas is counting the first, then the second. */
  lemma {:induction false} TallyAppend(m: map<string, int>, a: seq<string>, b: seq<string>)
    ensures Tally(m, a + b) == Tally(Tally(m, a), b)
  {
    if b == [] {
      assert a + b == a;
    } else {
      var n := |b| - 1;
      TallyAppend(m, a, b[..n]);
      assert (a + b)[..|a + b| - 1] == a + b[..n];
      assert (a + b)[|a + b| - 1] == b[n];
      assert Tally(m, a + b) == Inc(Tally(m, a + b[..n]), b[n]);
    }
  }

  /** A deterministic choice of key, so that `Total` is a function. */
  ghost function Pick(m: map<string, int>): string
    requires m != map[]
  {
    var k :| k in m; k
  }

  /** The sum of the values of `m`. */
  ghost function Total(m: map<string, int>): int
    decreases |m|
  {
    if m == map[] then 0
    else
      var k := Pick(m);
      assert |m - {k}| < |m| by { assert (m - {k}).Keys == m.Keys - {k}; }
      m[k] + Total(m - {k})
  }

  /** The sum does not depend on which key is taken out first. */
  lemma {:induction false} TotalRemove(m: map<string, int>, k: string)
    requires k in m
    ensures Total(m) == m[k] + Total(m - {k})
    decreases |m|
  {
    var j := Pick(m);
    if j != k {
      assert (m - {j}).Keys == m.Keys - {j};
      assert (m - {k}).Keys == m.Keys - {k};
      TotalRemove(m - {j}, k);
      TotalRemove(m - {k}, j);
      assert m - {j} - {k} == m - {k} - {j};
    }
  }

  /** Adding one to a count adds one to the sum. */
  lemma TotalInc(m: map<string, int>, k: string)
    ensures Total(Inc(m, k)) == Total(m) + 1
  {
    var m' := Inc(m, k);
    TotalRemove(m', k);
    if k in m {
      TotalRemove(m, k);
      assert m' - {k} == m - {k};
    } else {
      assert m' - {k} == m;
    }
  }

  /** The counts grow by exactly the number of lemmas added. */
  lemma {:induction false} TallyTotal(m: map<string, int>, lemmas: seq<string>)
    ensures Total(Tally(m, lemmas)) == Total(m) + |lemmas|
  {
    if lemmas != [] {
      var n := |lemmas| - 1;
      TallyTotal(m, lemmas[..n]);
      TotalInc(Tally(m, lemmas[..n]), lemmas[n]);
    }
  }

  /** A surviving analysis of a word contributes its lemma to that word's lemmas. */
  lemma {:induction false} KeptOfHas(infos: seq<string>, a: string)
    requires forall x | x in infos && Kept(x) :: '|' in x
    requires a in infos && Kept(a)
    ensures LemmaOf(a) in KeptOf(infos)
  {
    var n := |infos| - 1;
    if infos[n] != a {
      assert a in infos[..n];
      KeptOfHas(infos[..n], a);
    }
  }

  /** A surviving analysis of any word contributes its lemma. */
  lemma {:induction false} KeptLemmasHas(words: seq<string>, morph: Oracle, w: string, a: string)
    requires WellFormed(morph)
    requires w in words && a in morph(w) && Kept(a)
    ensures LemmaOf(a) in KeptLemmas(words, morph)
  {
    var n := |words| - 1;
    if words[n] == w {
      KeptOfHas(morph(w), a);
    } else {
      assert w in words[..n];
      KeptLemmasHas(words[..n], morph, w, a);
    }
  }

  /**
   * The counts of a text started from an empty map: each count is the
   * number of surviving analyses with that lemma, so every count is at
   * least one, the counts add up to the number of surviving analyses, and
   * every lemma of every surviving analysis of every word has a count.
   */
  lemma CountsOfText(text: string, morph: Oracle)
    requires WellFormed(morph)
    ensures var lemmas := KeptLemmas(Words(text), morph);
            var c := Tally(map[], lemmas);
            && (forall k :: Get(c, k) == multiset(lemmas)[k])
            && (forall k | k in c :: c[k] >= 1)
            && Total(c) == |lemmas|
            && (forall w, a | w in Words(text) && a in morph(w) && Kept(a) :: LemmaOf(a) in c)
  {
    var lemmas := KeptLemmas(Words(text), morph);
    TallyCounts(map[], lemmas);
    TallyPositive(map[], lemmas);
    TallyTotal(map[], lemmas);
    assert Total(map[]) == 0;
    forall w, a | w in Words(text) && a in morph(w) && Kept(a)
      ensures LemmaOf(a) in Tally(map[], lemmas)
    {
      KeptLemmasHas(Words(text), morph, w, a);
    }
  }

  /** Lower-casing keeps Cyrillic letters Cyrillic and leaves spaces alone. */
  lemma LowerKeepsAlphabet(s: string)
    requires forall i | 0 <= i < |s| :: IsCyrillic(s[i]) || IsRegexSpace(s[i])
    ensures forall i | 0 <= i < |s| :: IsLowerCyrillic(ToLower(s)[i]) || IsRegexSpace(ToLower(s)[i])
  {
  }

  /**
   * Every word handed to the library is made of lower-case letters `а-я`;
   * either the text had no letters and the one word is empty, or no word is
   * empty.
   */
  lemma WordsShape(text: string)
    ensures forall w, c | w in Words(text) && c in w :: IsLowerCyrillic(c)
    ensures Words(text) == [""] || forall w | w in Words(text) :: w != []
  {
    NormalizedAlphabet(text);
  }

  /** The normalised text holds only lower-case letters `а-я` and whitespace. */
  lemma NormalizedAlphabet(text: string)
    ensures forall c | c in Normalize(text) :: IsLowerCyrillic(c) || IsRegexSpace(c)
  {
    var f := KeepLettersAndSpaces(text);
    LowerKeepsAlphabet(f);
    var l := ToLower(f);
    var a, b :| 0 <= a <= b <= |l| && Trim(l) == l[a..b];
    assert forall k | a <= k < b :: IsLowerCyrillic(l[k]) || IsRegexSpace(l[k]);
  }

  /** `morphFilter`: false as soon as one stop tag occurs in the analysis. */
  method MorphFilter(analysis: string) returns (keep: bool)
    ensures keep == Kept(analysis)
  {
    var i := 0;
    while i < |StopTags|
      invariant 0 <= i <= |StopTags|
      invariant forall k | 0 <= k < i :: !Contains(analysis, StopTags[k])
    {
      if Contains(analysis, StopTags[i]) {
        return false;
      }
      i := i + 1;
    }
    return true;
  }
}
