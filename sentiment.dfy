/** `get_tweet_sentiment`: the polarity of the cleaned text against a fixed cutoff. */
module Sentiment {
  import opened Chars
  import opened Cleaner

  /** The two collaborators the classifier relies on and this model does not
      contain: Python's Unicode word class and TextBlob's polarity score. Both are
      functions, so the same text always gets the same score. */
  datatype Analyzer = Analyzer(word: WordOracle, polarity: string -> real)

  /** The labels `'positive'` and `'negative'`. */
  datatype Label = Positive | Negative

  /** A text is positive exactly when its cleaned form has polarity at least zero,
      so polarity zero is positive; otherwise it is negative. */
  function Classify(an: Analyzer, text: string): (r: Label)
    ensures r == Positive <==> an.polarity(Clean(an.word, text)) >= 0.0
    ensures r == Negative <==> an.polarity(Clean(an.word, text)) < 0.0
  {
    if an.polarity(Clean(an.word, text)) >= 0.0 then Positive else Negative
  }

  /** Classifying the cleaned text gives the same label as classifying the raw
      text, and two texts with the same cleaned form get the same label. */
  lemma ClassifyCleaned(an: Analyzer, text: string, other: string)
    ensures Classify(an, Clean(an.word, text)) == Classify(an, text)
    ensures Clean(an.word, other) == Clean(an.word, text) ==> Classify(an, other) == Classify(an, text)
  {
    CleanIdempotent(an.word, text);
  }
}
