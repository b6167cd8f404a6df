/** `detect_sentiment`: keyword substrings decide the sentiment, negative
    words first. */
module SentimentDetector {
  import opened Text
  import opened Config

  datatype Sentiment = Negative | Positive | Neutral

  /** `any(word in text for word in words)`. */
  function AnyOccurs(text: string, words: seq<string>): (r: bool)
    ensures r <==> exists k :: 0 <= k < |words| && Contains(text, words[k])
  {
    if words == [] then false
    else
      var rest := AnyOccurs(text, words[1..]);
      assert rest <==> exists k :: 1 <= k < |words| && Contains(text, words[k]) by {
        forall k | 1 <= k < |words| ensures words[1..][k - 1] == words[k] {}
        if rest {
          var j :| 0 <= j < |words[1..]| && Contains(text, words[1..][j]);
          assert Contains(text, words[j + 1]);
        }
      }
      Contains(text, words[0]) || rest
  }

  /** `detect_sentiment`: lower-case the text, then "negative" if any negative
      word occurs, else "positive" if any positive word occurs, else "neutral". */
  function DetectSentiment(text: string): (s: Sentiment)
    ensures s == Negative <==>
      exists k :: 0 <= k < |NegativeWords| && Contains(ToLower(text), NegativeWords[k])
    ensures s == Positive <==>
      (forall k :: 0 <= k < |NegativeWords| ==> !Contains(ToLower(text), NegativeWords[k])) &&
      (exists k :: 0 <= k < |PositiveWords| && Contains(ToLower(text), PositiveWords[k]))
  {
    var lowered := ToLower(text);
    if AnyOccurs(lowered, NegativeWords) then Negative
    else if AnyOccurs(lowered, PositiveWords) then Positive
    else Neutral
  }

  /** Lower-casing the input first changes nothing. */
  lemma SentimentIgnoresCase(text: string)
    ensures DetectSentiment(ToLower(text)) == DetectSentiment(text)
  {
    ToLowerIdempotent(text);
  }

  /** Text shorter than every sentiment word is neutral. */
  lemma ShortTextNeutral(text: string)
    requires |text| < 3
    ensures DetectSentiment(text) == Neutral
  {
    var lowered := ToLower(text);
    assert |lowered| == |text|;
    forall k | 0 <= k < |NegativeWords| ensures !Contains(lowered, NegativeWords[k]) {
      assert |NegativeWords[k]| >= 3;
    }
    forall k | 0 <= k < |PositiveWords| ensures !Contains(lowered, PositiveWords[k]) {
      assert |PositiveWords[k]| >= 4;
    }
  }

  /** A negative word wins over a positive word in the same message. */
  lemma NegativeDominates(text: string)
    requires text == "this is the worst, but thanks"
    ensures DetectSentiment(text) == Negative
    ensures AnyOccurs(ToLower(text), PositiveWords)
  {
    MixedLowered(text);
    MixedWords(text, "worst", "thanks");
    assert NegativeWords[3] == "worst";
    assert PositiveWords[1] == "thanks";
  }

  // Literals passed as parameters and fixed by `requires` keep the solver from unfolding them.
  lemma MixedLowered(text: string)
    requires text == "this is the worst, but thanks"
    ensures ToLower(text) == text
  {
  }

  // Literals passed as parameters and fixed by `requires` keep the solver from unfolding them.
  lemma MixedWords(text: string, worst: string, thanks: string)
    requires text == "this is the worst, but thanks"
    requires worst == "worst" && thanks == "thanks"
    ensures Contains(text, worst) && Contains(text, thanks)
  {
    ContainsAt(text, worst, 12);
    ContainsAt(text, thanks, 23);
  }
}
