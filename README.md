# E-Shop support chatbot: intent resolution

This project models the message-handling core of the E-Shop support chatbot
(`nm_chatbot_gui.py`). For each user message the chatbot:

- rewrites synonym phrases and lower-cases the text (`normalize_text`);
- cleans it further: runs of whitespace collapse to one space, non-word
  characters become spaces, and the ends are stripped (`preprocess_text`);
- reads the sentiment from keyword lists (`detect_sentiment`);
- resolves an intent (`predict_intent`). An exact smalltalk phrase comes
  first. Otherwise the classifier's label is used, but only when some
  training example scores above 70 on the fuzzy similarity measure.
  When none does, the intent is `unknown`;
- chooses the reply (`chatbot_response`). A negative message always gets
  the apology. The digit shortcuts "1" to "7" skip prediction. Every other
  message gets one canned reply per intent, with follow-up suggestions
  (`dynamic_suggestions`), or falls back to a seven-item menu;
- remembers the intent in `memory['last_intent']`.

Modules:

- `Text`: the string primitives: `in`, `str.replace`, `str.lower`, and the
  ASCII classes behind `\s` and `\w`.
- `Config`: the intent labels and the constant tables.
- `Normalizer`: `normalize_text` and `preprocess_text`.
- `SentimentDetector`: `detect_sentiment`.
- `Predictor`: `predict_intent` and its similarity loop.
- `Responder`: `dynamic_suggestions` and `chatbot_response`. The mutable
  memory is the class `Session`.

The trained classifier and `fuzz.ratio` are parameters:

- `Classifier` is any function that returns one of the training labels.
- `Similarity` is any function with values from 0 to 100.

Every property below holds for all such models.

Two consequences of the code as written are proved as plain properties:

- The smalltalk key "what's your name" can never match. Preprocessing
  turns the apostrophe into a space (`Predictor.NameReplyUnreachable`).
- The message "thank you" is answered by smalltalk. It never reaches the
  classifier, so it is never given the `thanks` label that its training
  example carries (`Responder.ThankYouAnswered`). The example itself is
  still used to train the classifier and is scored by the similarity loop.

## Model

| member | source | states |
|---|---|---|
| Config.LabelInjective | nm_chatbot_gui.py:113-127 | Distinct intents carry distinct label strings, so matching on the datatype is matching on the label. |
| Config.ConfigWellFormed | nm_chatbot_gui.py:12-34 | No synonym key is empty. There are 13 examples paired with 13 labels. No word is both positive and negative. `smalltalk` and `unknown` are not training labels. |
| Text.ContainsIff | nm_chatbot_gui.py:56-58 | `Text.Contains`, the model of Python's `word in text`, holds exactly when the word occurs at some position. |
| Text.ReplaceAbsent | nm_chatbot_gui.py:44 | `Text.ReplaceAll` models `str.replace`: a left-to-right scan that replaces non-overlapping occurrences. Replacing a pattern that does not occur returns the text unchanged. |
| Text.ReplaceAtFront | nm_chatbot_gui.py:44 | `str.replace` rewrites a pattern at the front of the text and carries on after it. |
| Text.ReplaceSkipsPrefix | nm_chatbot_gui.py:44 | `str.replace` copies unchanged a prefix that lacks the pattern's first character. |
| Text.ToLower | nm_chatbot_gui.py:45 | `str.lower` on ASCII: the length is kept, no upper-case letter remains, an upper-case letter becomes its lower-case form (code point + 32), and every other character is kept. |
| Text.ToLowerIdempotent | nm_chatbot_gui.py:55 | Lower-casing twice is the same as lower-casing once. |
| Normalizer.NormalizeText | nm_chatbot_gui.py:42-45 | The loop applies the synonyms one after another, in table order, each to the previous result, then lower-cases. |
| Normalizer.ApplyUntouched | nm_chatbot_gui.py:43-44 | A text holding no key passes through every replacement unchanged. |
| Normalizer.NormalizeUntouched | nm_chatbot_gui.py:42-45 | A text holding no synonym key is only lower-cased. |
| Normalizer.NormalizeEmpty | nm_chatbot_gui.py:42-45 | The empty text normalises to the empty text. |
| Normalizer.NoKeyFromLetters | nm_chatbot_gui.py:12-23 | No synonym key occurs in a text that lacks 'p', 'c', 'f' and 'd' and one of 'n' and 'm'. |
| Normalizer.NormalizeIsCaseSensitive | nm_chatbot_gui.py:43-45 | Keys are matched before lower-casing, so "Mobile Number" escapes its synonym and becomes "mobile number". |
| Normalizer.NormalizeCascades | nm_chatbot_gui.py:13-16 | The replacements cascade. Entry 1 turns "mobile number" into "phone_number", and entry 4 then rewrites the "number" inside it, giving "phone_phone_number". |
| Normalizer.NormalizeCascadeExample | nm_chatbot_gui.py:42-45 | "What is your mobile number?" normalises to "what is your phone_phone_number?". |
| Normalizer.ApplyTail | nm_chatbot_gui.py:43-44 | Once no later key occurs in the text, the remaining replacements leave it unchanged. |
| Normalizer.CollapseWhitespace | nm_chatbot_gui.py:49 | Whitespace left in the result is a single space, never two adjacent. The result starts with whitespace exactly when the input does. Non-whitespace characters are kept in order. The text never grows, and it is empty exactly when the input is. |
| Normalizer.CollapseKeepsEnds | nm_chatbot_gui.py:49 | The collapsed text ends with whitespace exactly when the input does. |
| Normalizer.CollapseKeepsWords | nm_chatbot_gui.py:49 | Collapsing keeps the list of words, the maximal runs of non-whitespace. Each whitespace run leaves one space, so no words are merged or split. |
| Normalizer.ReplaceNonWord | nm_chatbot_gui.py:50 | The length is kept, word characters are kept, and every non-word character becomes a space. |
| Normalizer.Strip | nm_chatbot_gui.py:51 | The result is the slice between the leading and the trailing whitespace. It is empty or starts and ends with a non-whitespace character. It is empty only when the text is all whitespace. |
| Normalizer.PreprocessText | nm_chatbot_gui.py:47-52 | Normalise, collapse whitespace, blank out non-word characters, then strip, in that order. |
| Normalizer.PreprocessShape | nm_chatbot_gui.py:47-52 | Preprocessed text holds only word characters and spaces, starts and ends with a word character, and is no longer than the normalised text. |
| Normalizer.PreprocessKeepsSpaceRuns | nm_chatbot_gui.py:49-50 | The whitespace collapse runs before punctuation becomes spaces, so "a ? b" comes out as "a   b" with three spaces. |
| Normalizer.ApostropheKeyUnreachable | nm_chatbot_gui.py:47-52 | No input preprocesses to "what's your name". |
| Normalizer.PreprocessFixesCleanText | nm_chatbot_gui.py:47-52 | Lower-case, single-spaced word text that holds no synonym key is a fixed point of preprocessing. |
| SentimentDetector.AnyOccurs | nm_chatbot_gui.py:56-58 | `any(word in text ...)` holds exactly when some listed word occurs in the text. |
| SentimentDetector.DetectSentiment | nm_chatbot_gui.py:54-61 | The result is negative exactly when a negative word occurs in the lower-cased text. It is positive exactly when no negative word occurs and some positive word does. Otherwise it is neutral. |
| SentimentDetector.SentimentIgnoresCase | nm_chatbot_gui.py:55 | Lower-casing the message first does not change the sentiment. |
| SentimentDetector.ShortTextNeutral | nm_chatbot_gui.py:54-61 | A message shorter than three characters is neutral. |
| SentimentDetector.NegativeDominates | nm_chatbot_gui.py:56-59 | "this is the worst, but thanks" holds a positive word and is still negative. |
| Predictor.BestScore | nm_chatbot_gui.py:72-78 | The best score lies between 0 and 100. It is at least every candidate's score, and it is either 0 or some candidate's score. |
| Predictor.BestScoreSnoc | nm_chatbot_gui.py:76-77 | Scoring one more candidate keeps the larger of the old best and the new score. |
| Predictor.BestMatch | nm_chatbot_gui.py:72-78 | The loop's highest score is the best score over the preprocessed examples. An example is recorded exactly when that score is positive. The recorded example is the first one to reach the score, because the comparison is a strict `>`. |
| Predictor.Predict | nm_chatbot_gui.py:63-83 | The result is smalltalk, with its stored reply, exactly when the preprocessed text is a smalltalk key. Otherwise it is unknown exactly when the best example score is at most 70, and the classifier's label when the score is above 70. The result is always a training label, smalltalk or unknown. |
| Predictor.PredictIntent | nm_chatbot_gui.py:63-83 | The imperative `predict_intent` returns what `Predict` specifies. |
| Predictor.TrustedIffSimilarExample | nm_chatbot_gui.py:72-83 | Outside smalltalk, the classifier's label is used exactly when some preprocessed training example scores above 70. |
| Predictor.ExampleAbove | nm_chatbot_gui.py:74-80 | The best score exceeds 70 exactly when some example's score does. |
| Predictor.SmalltalkIgnoresModels | nm_chatbot_gui.py:64-66 | A smalltalk phrase gets the same answer whatever the classifier and the similarity measure. |
| Predictor.ThankYouIsSmalltalk | nm_chatbot_gui.py:63-66 | "thank you" resolves to smalltalk with its stored reply. |
| Predictor.NameReplyUnreachable | nm_chatbot_gui.py:63-66 | The reply stored under "what's your name" is never returned. |
| Responder.DynamicSuggestions | nm_chatbot_gui.py:85-93 | Suggestions are non-empty exactly for the five account intents. |
| Responder.Dispatch | nm_chatbot_gui.py:162-204 | A negative sentiment gives the apology with no suggestions. An intent without its own reply gives the fallback text and the menu. Smalltalk gets its stored reply and no suggestions. Every other handled intent gets its fixed reply (`Responder.CannedResponse`, lines 164-193) and its dynamic suggestions. |
| Responder.ShortcutsHandled | nm_chatbot_gui.py:144-152 | Every shortcut key is one character and maps to an intent with a canned reply. |
| Responder.ShortcutSkipsPrediction | nm_chatbot_gui.py:139-193 | A digit shortcut gets the same reply whatever the models. It is never negative, and it gets the mapped intent's canned reply and suggestions. |
| Responder.CannedDistinct | nm_chatbot_gui.py:162-195 | No intent's canned reply is the apology or the fallback text. |
| Responder.SmalltalkDistinct | nm_chatbot_gui.py:162-195 | No smalltalk reply is empty, the apology or the fallback text. |
| Responder.ApologyIffNegative | nm_chatbot_gui.py:140-163 | The apology is returned exactly when the message is negative, and then without suggestions. |
| Responder.ReplyDistinct | nm_chatbot_gui.py:162-195 | Outside the negative override, the reply is the fallback text exactly when the intent has no reply of its own. |
| Responder.MenuIffUnhandled | nm_chatbot_gui.py:194-204 | Outside the negative override, the menu is offered exactly when the intent is a complaint or unknown. |
| Responder.SuggestionsOnlyForAccountIntents | nm_chatbot_gui.py:162-204 | Any suggestions mean the message was not negative and its intent is an account intent, a complaint or unknown. |
| Responder.SmalltalkAnswered | nm_chatbot_gui.py:139-187 | A non-negative smalltalk message gets the stored reply for its preprocessed text, with no suggestions. That reply is never empty. |
| Responder.SmalltalkPredicted | nm_chatbot_gui.py:144-157 | Only prediction produces smalltalk, and it always brings the stored reply with it. |
| Responder.ThankYouAnswered | nm_chatbot_gui.py:139-207 | The message "thank you" gets the smalltalk reply, not the `thanks` intent's reply, and is remembered as smalltalk. |
| Responder.Session.constructor | nm_chatbot_gui.py:36-38 | The memory starts with no last intent. |
| Responder.Session.ChatbotResponse | nm_chatbot_gui.py:139-207 | The reply is `Resolve` of the message. `Resolve` passes three things to `Dispatch`: the sentiment of the raw input; the intent, taken from the shortcut table for "1" to "7" and from prediction otherwise (`ResolvedIntent`, lines 154-157); and the smalltalk reply, which only prediction supplies (`ResolvedCustom`). The resolved intent is stored as the last intent, negative messages included (line 206). |

## Left out

- The Tk user interface (lines 211-289) is not part of this model: the
  window, the entry box, the buttons and the rendering of replies.
- Training the classifier (lines 129-135) is not modelled: the count
  vectoriser, naive Bayes and the label encoder. The trained pipeline is
  the `Classifier` parameter, and its one assumption is that it returns a
  training label.
- `fuzz.ratio` is the `Similarity` parameter, bounded to 0..100. Its edit
  distance computation is not modelled.
- Character classes are ASCII only: `\s`, `\W`, `str.strip` and
  `str.lower` ignore Unicode whitespace, Unicode letters and non-ASCII
  case mappings.
- The `random` import is unused in the core and is left out.
- Predictor.BestMatch: records the matched example, which `predict_intent`
  assigns but never returns or reads.
- Predictor.BestMatch takes the example list as a parameter;
  `PredictIntent` passes the training examples.
- Responder.Dispatch: for the smalltalk intent with no stored reply it
  returns "" where Python would return `None`. That case is unreachable
  (`Responder.SmalltalkPredicted`).
- The dictionary `memory` is modelled only for its one key,
  `last_intent`, as the field `Session.lastIntent`.
