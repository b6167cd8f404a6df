/** `predict_intent`: an exact smalltalk lookup, then the classifier's label,
    trusted only when some training example is similar enough. */
module Predictor {
  import opened Text
  import opened Config
  import opened Normalizer

  /** The trained classifier (vectoriser, naive Bayes model and label
      decoder together): it maps preprocessed text to one of the labels
      it was trained on. */
  type Classifier = f: string -> Intent | forall t :: IsTrainingLabel(f(t))
    witness (t: string) => Complaint

  /** `fuzz.ratio`: a similarity score between 0 and 100. */
  type Similarity = f: (string, string) -> int | forall a, b :: 0 <= f(a, b) <= 100
    witness (a: string, b: string) => 0

  /** Score above which the classifier's label is trusted. */
  const Threshold := 70

  /** Each text as `preprocess_text` leaves it. */
  function PreprocessAll(texts: seq<string>): (r: seq<string>)
    ensures |r| == |texts|
  {
    seq(|texts|, k requires 0 <= k < |texts| => Preprocess(texts[k]))
  }

  /** The highest similarity of `query` to the `candidates`, starting from 0. */
  function BestScore(query: string, candidates: seq<string>, ratio: Similarity): (best: int)
    ensures 0 <= best <= 100
    ensures forall k :: 0 <= k < |candidates| ==> ratio(query, candidates[k]) <= best
    ensures best == 0 || exists k :: 0 <= k < |candidates| && ratio(query, candidates[k]) == best
    decreases |candidates|
  {
    if candidates == [] then 0
    else
      var n := |candidates| - 1;
      var rest := BestScore(query, candidates[..n], ratio);
      var score := ratio(query, candidates[n]);
      assert forall k :: 0 <= k < n ==> candidates[..n][k] == candidates[k];
      if score > rest then score else rest
  }

  /** Scoring one more candidate keeps the larger of the two scores. */
  lemma BestScoreSnoc(query: string, candidates: seq<string>, c: string, ratio: Similarity)
    ensures BestScore(query, candidates + [c], ratio) ==
      if ratio(query, c) > BestScore(query, candidates, ratio) then ratio(query, c)
      else BestScore(query, candidates, ratio)
  {
    assert (candidates + [c])[..|candidates|] == candidates;
  }

  lemma TakeOneMore(s: seq<string>, n: int)
    requires 0 <= n < |s|
    ensures s[..n + 1] == s[..n] + [s[n]]
  {
  }

  /** Candidate `k` is the first of `candidates[..n]` to reach their best
      score, and that score is positive. */
  ghost predicate FirstBest(query: string, ratio: Similarity, candidates: seq<string>, k: int, n: int) {
    0 <= k < n <= |candidates|
    && ratio(query, candidates[k]) == BestScore(query, candidates[..n], ratio) > 0
    && forall j :: 0 <= j < k ==> ratio(query, candidates[j]) < ratio(query, candidates[k])
  }

  /** A candidate that beats every earlier score becomes the first best. */
  lemma ScanRaises(query: string, ratio: Similarity, candidates: seq<string>, n: int)
    requires 0 <= n < |candidates|
    requires ratio(query, candidates[n]) > BestScore(query, candidates[..n], ratio)
    ensures BestScore(query, candidates[..n + 1], ratio) == ratio(query, candidates[n])
    ensures FirstBest(query, ratio, candidates, n, n + 1)
  {
    var before, after := candidates[..n], candidates[..n + 1];
    TakeOneMore(candidates, n);
    BestScoreSnoc(query, before, candidates[n], ratio);
    forall j | 0 <= j < n ensures ratio(query, candidates[j]) < ratio(query, candidates[n]) {
      assert before[j] == candidates[j];
    }
  }

  /** A candidate that does not beat the best so far changes nothing. */
  lemma ScanKeeps(query: string, ratio: Similarity, candidates: seq<string>, n: int, k: int)
    requires 0 <= n < |candidates|
    requires ratio(query, candidates[n]) <= BestScore(query, candidates[..n], ratio)
    ensures BestScore(query, candidates[..n + 1], ratio) == BestScore(query, candidates[..n], ratio)
    ensures FirstBest(query, ratio, candidates, k, n) ==> FirstBest(query, ratio, candidates, k, n + 1)
  {
    TakeOneMore(candidates, n);
    BestScoreSnoc(query, candidates[..n], candidates[n], ratio);
  }

  /** The scoring loop of `predict_intent` over `examples`: a strict `>`
      keeps the first example that reaches the highest score; no example is
      recorded while every score is 0. */
  method BestMatch(query: string, examples: seq<string>, ratio: Similarity)
    returns (highestScore: int, matchedExample: Option<string>)
    ensures highestScore == BestScore(query, PreprocessAll(examples), ratio)
    ensures matchedExample == None <==> highestScore == 0
    ensures matchedExample.Some? ==>
      exists k :: FirstBest(query, ratio, PreprocessAll(examples), k, |examples|)
        && examples[k] == matchedExample.value
  {
    ghost var candidates := PreprocessAll(examples);
    highestScore, matchedExample := 0, None;
    ghost var at := -1;
    for n := 0 to |examples|
      invariant highestScore == BestScore(query, candidates[..n], ratio)
      invariant matchedExample == None <==> highestScore == 0
      invariant matchedExample.Some? ==>
        FirstBest(query, ratio, candidates, at, n) && examples[at] == matchedExample.value
    {
      var example := examples[n];
      var preprocessed := PreprocessText(example);
      var score := ratio(query, preprocessed);
      if score > highestScore {
        ScanRaises(query, ratio, candidates, n);
        highestScore, matchedExample := score, Some(example);
        at := n;
      } else {
        ScanKeeps(query, ratio, candidates, n, at);
      }
    }
    assert candidates[..|examples|] == candidates;
  }

  /** What `predict_intent` returns: the intent and, for smalltalk, the
      canned reply. */
  function Predict(userText: string, classify: Classifier, ratio: Similarity): (r: (Intent, Option<string>))
    ensures r.0 == Smalltalk <==> Preprocess(userText) in SmalltalkResponses
    ensures r.1.Some? <==> r.0 == Smalltalk
    ensures r.0 == Smalltalk ==> r.1.value == SmalltalkResponses[Preprocess(userText)]
    ensures r.0 != Smalltalk ==>
      (r.0 == Unknown <==> BestScore(Preprocess(userText), PreprocessAll(Examples), ratio) <= Threshold)
    ensures r.0 != Smalltalk && r.0 != Unknown ==> r.0 == classify(Preprocess(userText))
    ensures IsTrainingLabel(r.0) || r.0 == Smalltalk || r.0 == Unknown
  {
    ConfigWellFormed();
    var preprocessed := Preprocess(userText);
    if preprocessed in SmalltalkResponses then
      (Smalltalk, Some(SmalltalkResponses[preprocessed]))
    else if BestScore(preprocessed, PreprocessAll(Examples), ratio) > Threshold then
      (classify(preprocessed), None)
    else
      (Unknown, None)
  }

  /** `predict_intent`: preprocess, look up smalltalk, otherwise classify and
      gate the label on the best example similarity. */
  method PredictIntent(userText: string, classify: Classifier, ratio: Similarity)
    returns (intent: Intent, reply: Option<string>)
    ensures (intent, reply) == Predict(userText, classify, ratio)
  {
    var preprocessed := PreprocessText(userText);
    if preprocessed in SmalltalkResponses {
      return Smalltalk, Some(SmalltalkResponses[preprocessed]);
    }
    var predicted := classify(preprocessed);
    var highestScore, matchedExample := BestMatch(preprocessed, Examples, ratio);
    if highestScore > Threshold {
      intent, reply := predicted, None;
    } else {
      intent, reply := Unknown, None;
    }
  }

  /** Outside smalltalk, the classifier's label is used exactly when some
      training example scores above the threshold. */
  lemma TrustedIffSimilarExample(userText: string, classify: Classifier, ratio: Similarity)
    requires Preprocess(userText) !in SmalltalkResponses
    ensures Predict(userText, classify, ratio).0 != Unknown <==>
      exists k :: 0 <= k < |Examples| && ratio(Preprocess(userText), Preprocess(Examples[k])) > Threshold
    ensures Predict(userText, classify, ratio).0 != Unknown ==>
      Predict(userText, classify, ratio).0 == classify(Preprocess(userText))
  {
    var query := Preprocess(userText);
    assert Predict(userText, classify, ratio).0 != Unknown <==>
      BestScore(query, PreprocessAll(Examples), ratio) > Threshold;
    ExampleAbove(query, Examples, ratio);
  }

  /** Some example's preprocessed form scores above the threshold exactly
      when the best score does. */
  lemma ExampleAbove(query: string, examples: seq<string>, ratio: Similarity)
    ensures BestScore(query, PreprocessAll(examples), ratio) > Threshold <==>
      exists k :: 0 <= k < |examples| && ratio(query, Preprocess(examples[k])) > Threshold
  {
    var candidates := PreprocessAll(examples);
    BestAbove(query, candidates, ratio, Threshold);
    if exists k :: 0 <= k < |candidates| && ratio(query, candidates[k]) > Threshold {
      var k :| 0 <= k < |candidates| && ratio(query, candidates[k]) > Threshold;
      assert ratio(query, Preprocess(examples[k])) > Threshold;
    } else {
      forall k | 0 <= k < |examples| ensures ratio(query, Preprocess(examples[k])) <= Threshold {
        assert candidates[k] == Preprocess(examples[k]);
      }
    }
  }

  /** The best score exceeds a bound exactly when some candidate's score does. */
  lemma BestAbove(query: string, candidates: seq<string>, ratio: Similarity, bound: int)
    requires bound >= 0
    ensures BestScore(query, candidates, ratio) > bound <==>
      exists k :: 0 <= k < |candidates| && ratio(query, candidates[k]) > bound
  {
  }

  /** A smalltalk phrase is answered without consulting the classifier or
      the similarity measure. */
  lemma SmalltalkIgnoresModels(userText: string, c1: Classifier, r1: Similarity, c2: Classifier, r2: Similarity)
    requires Preprocess(userText) in SmalltalkResponses
    ensures Predict(userText, c1, r1) == Predict(userText, c2, r2)
  {
  }

  /** The message "thank you" is a smalltalk phrase, so it never reaches the
      classifier and is never given the `thanks` label of the training
      example with the same text. */
  lemma ThankYouIsSmalltalk(userText: string, classify: Classifier, ratio: Similarity)
    requires userText == "thank you"
    ensures Predict(userText, classify, ratio)
         == (Smalltalk, Some("You're very welcome! Always happy to help. 🙏"))
  {
    ThankYouPreprocessed(userText);
    ThankYouReply(userText);
  }

  // Literals passed as parameters and fixed by `requires` keep the solver from unfolding them.
  lemma ThankYouReply(key: string)
    requires key == "thank you"
    ensures key in SmalltalkResponses
    ensures SmalltalkResponses[key] == "You're very welcome! Always happy to help. 🙏"
  {
  }

  // Literals passed as parameters and fixed by `requires` keep the solver from unfolding them.
  lemma ThankYouPreprocessed(text: string)
    requires text == "thank you"
    ensures Preprocess(text) == text
  {
    ThankYouClean(text);
    NoKeyFromLetters(text);
    PreprocessFixesCleanText(text);
  }

  // Literals passed as parameters and fixed by `requires` keep the solver from unfolding them.
  lemma ThankYouClean(text: string)
    requires text == "thank you"
    ensures 'p' !in text && 'c' !in text && 'f' !in text && 'd' !in text && 'm' !in text
    ensures ToLower(text) == text && SingleSpaced(text)
  {
  }

  /** The reply stored under "what's your name" is never returned. */
  lemma NameReplyUnreachable(userText: string, classify: Classifier, ratio: Similarity)
    ensures Predict(userText, classify, ratio).1 != Some(SmalltalkResponses["what's your name"])
  {
    var name := "what's your name";
    ApostropheKeyUnreachable(userText);
    var r := Predict(userText, classify, ratio);
    if r.1.Some? {
      NameReplyDistinct(Preprocess(userText), name);
    }
  }

  /** No other smalltalk phrase shares the reply stored under "what's your name". */
  // Literals passed as parameters and fixed by `requires` keep the solver from unfolding them.
  lemma NameReplyDistinct(key: string, name: string)
    requires name == "what's your name"
    requires key in SmalltalkResponses && key != name
    ensures name in SmalltalkResponses && SmalltalkResponses[key] != SmalltalkResponses[name]
  {
  }
}
