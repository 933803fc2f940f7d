/**
 * `Lemmatizer`: an object that owns the morphology library and a count map
 * (`result`) that every call to `lemmatize` adds to and then hands back.
 */
module Lemmatizer {
  import opened Morphology

  class Lemmatizer {
    /** The `result` field: lemma to count, kept across calls. */
    var result: map<string, int>
    /** The morphology library this instance consults. */
    const morph: Oracle

    constructor (morph: Oracle)
      ensures result == map[] && this.morph == morph
    {
      result := map[];
      this.morph := morph;
    }

    /**
     * `lemmatize`: adds one to the count of the lemma of every surviving
     * analysis of every word of `text`, and returns the field itself, so a
     * second call returns the old counts plus the new ones.
     */
    method Lemmatize(text: string) returns (counts: map<string, int>)
      requires WellFormed(morph)
      modifies this
      ensures result == Tally(old(result), KeptLemmas(Words(text), morph))
      ensures counts == result
    {
      var words := Words(text);
      var i := 0;
      while i < |words|
        invariant 0 <= i <= |words|
        invariant result == Tally(old(result), KeptLemmas(words[..i], morph))
      {
        CountWord(words[i]);
        KeptLemmasStep(words, i, morph);
        TallyAppend(old(result), KeptLemmas(words[..i], morph), KeptOf(morph(words[i])));
        i := i + 1;
      }
      assert words == words[..i];
      counts := result;
    }

    /** The inner loop of `lemmatize`: one `put` per surviving analysis of `word`. */
    method CountWord(word: string)
      requires WellFormed(morph)
      modifies this
      ensures result == Tally(old(result), KeptOf(morph(word)))
    {
      var infos := morph(word);
      var j := 0;
      while j < |infos|
        invariant 0 <= j <= |infos|
        invariant result == Tally(old(result), KeptOf(infos[..j]))
      {
        var keep := MorphFilter(infos[j]);
        ghost var counted := KeptOf(infos[..j]);
        KeptOfStep(infos, j);
        if keep {
          var form := LemmaOf(infos[j]);
          TallySnoc(old(result), counted, form);
          result := Inc(result, form);
          assert KeptOf(infos[..j + 1]) == counted + [form];
        } else {
          assert KeptOf(infos[..j + 1]) == counted;
        }
        j := j + 1;
      }
      assert infos == infos[..j];
    }
  }

  /** Two calls on one instance: the counts of both texts add up. */
  lemma TwoCallsAccumulate(m: map<string, int>, t1: string, t2: string, morph: Oracle, k: string)
    requires WellFormed(morph)
    ensures var l1 := KeptLemmas(Words(t1), morph);
            var l2 := KeptLemmas(Words(t2), morph);
            Get(Tally(Tally(m, l1), l2), k) == Get(m, k) + multiset(l1)[k] + multiset(l2)[k]
  {
    var l1 := KeptLemmas(Words(t1), morph);
    var l2 := KeptLemmas(Words(t2), morph);
    TallyCounts(m, l1);
    TallyCounts(Tally(m, l1), l2);
  }
}
