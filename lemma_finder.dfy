/**
 * `LemmaFinder.findLemma`: the same counting as `Lemmatizer.lemmatize`, but
 * every call starts from its own empty map, so the result depends on the
 * text (and the library) alone.
 */
module LemmaFinder {
  import opened Morphology

  method FindLemma(text: string, morph: Oracle) returns (result: map<string, int>)
    requires WellFormed(morph)
    ensures result == Tally(map[], KeptLemmas(Words(text), morph))
  {
    result := map[];
    var words := Words(text);
    var i := 0;
    while i < |words|
      invariant 0 <= i <= |words|
      invariant result == Tally(map[], KeptLemmas(words[..i], morph))
    {
      result := CountWord(result, morph(words[i]));
      KeptLemmasStep(words, i, morph);
      TallyAppend(map[], KeptLemmas(words[..i], morph), KeptOf(morph(words[i])));
      i := i + 1;
    }
    assert words == words[..i];
  }

  /** The inner loop of `findLemma`: one `put` per surviving analysis of one word. */
  method CountWord(m: map<string, int>, infos: seq<string>) returns (result: map<string, int>)
    requires forall a | a in infos && Kept(a) :: '|' in a
    ensures result == Tally(m, KeptOf(infos))
  {
    result := m;
    var j := 0;
    while j < |infos|
      invariant 0 <= j <= |infos|
      invariant result == Tally(m, KeptOf(infos[..j]))
    {
      var keep := MorphFilter(infos[j]);
      ghost var counted := KeptOf(infos[..j]);
      KeptOfStep(infos, j);
      if keep {
        var form := LemmaOf(infos[j]);
        TallySnoc(m, counted, form);
        result := Inc(result, form);
        assert KeptOf(infos[..j + 1]) == counted + [form];
      } else {
        assert KeptOf(infos[..j + 1]) == counted;
      }
      j := j + 1;
    }
    assert infos == infos[..j];
  }
}
