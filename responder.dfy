/** `chatbot_response`: sentiment first, then the digit shortcuts or the
    predicted intent, then one canned reply per intent; the last intent is
    remembered. */
module Responder {
  import opened Text
  import opened Config
  import opened SentimentDetector
  import opened Normalizer
  import opened Predictor

  /** What the chatbot answers: the reply text and the suggestion buttons. */
  datatype Reply = Reply(response: string, suggestions: seq<string>)

  /** `dynamic_suggestions`: follow-up buttons for the account intents, none otherwise. */
  function DynamicSuggestions(intent: Intent): (r: seq<string>)
    ensures r != [] <==> intent in {OrderDetails, RefundProcess, ManageOrders, ChangeAddress, ChangePhoneNumber}
  {
    match intent
    case OrderDetails => ["Track your order", "Change delivery address"]
    case RefundProcess => ["Check refund status", "Contact refund team"]
    case ManageOrders => ["Cancel an order", "Edit your order"]
    case ChangeAddress => ["Track updated address order"]
    case ChangePhoneNumber => ["Verify new number"]
    case _ => []
  }

  /** The menu shortcuts: typing a digit selects an intent directly. */
  const IntentMap: map<string, Intent> := map[
    "1" := OrderDetails, "2" := RefundProcess, "3" := ManageOrders, "4" := ChangeAddress,
    "5" := ChangePhoneNumber, "6" := Help, "7" := Exit
  ]

  const Apology := "😥 I'm sorry to hear that. We will try to improve your experience!"
  const NotUnderstood := "🤔 I'm not sure I understood that. Please choose from the menu:"
  const MainMenu: seq<string> := [
    "Order Details 📦",
    "Refund Process 💸",
    "Manage Orders 🛒",
    "Change Delivery Address 🏡",
    "Update Phone Number 📱",
    "Talk to Support Agent 🧑‍💻",
    "Exit Chat 🚪"
  ]

  /** The intents that have a reply of their own; every other intent
      (`Complaint`, `Unknown`) falls through to the menu. */
  predicate Handled(intent: Intent) {
    intent !in {Complaint, Unknown}
  }

  /** The canned reply of a handled intent other than smalltalk. */
  function CannedResponse(intent: Intent): string
    requires Handled(intent) && intent != Smalltalk
  {
    match intent
    case AskForPhone => "📞 You can reach us at 1800-123-4567. 📞"
    case Greeting => "👋 Hello again! How can I assist you further?"
    case Help => "💬 Connecting you to a support agent... Please wait..."
    case RefundProcess => "💸 Your refund request is being processed. You will hear from us soon!"
    case OrderDetails => "📦 Your order is on its way! Expected delivery: 2-3 days."
    case ChangeAddress => "🏡 You can change your delivery address under 'My Profile > Address Book'."
    case ChangePhoneNumber => "📱 To update your phone number, visit 'My Profile' > 'Edit Phone Number'."
    case ManageOrders => "🛒 Go to 'My Orders' section to manage or cancel your orders."
    case Thanks => "🙏 Always happy to help! Have a great day! 🌟"
    case Identity => "🤖 I am E-Shop Bot, here to support you anytime!"
    case Exit => "👋 Thank you for visiting! We hope to see you again soon. 🌟"
  }

  /** The reply chosen from the sentiment, the intent and the smalltalk
      reply, in the order `chatbot_response` tests them. */
  function Dispatch(sentiment: Sentiment, intent: Intent, customReply: Option<string>): (r: Reply)
    ensures sentiment == Negative ==> r == Reply(Apology, [])
    ensures sentiment != Negative && !Handled(intent) ==> r == Reply(NotUnderstood, MainMenu)
    ensures sentiment != Negative && Handled(intent) ==> r.suggestions == DynamicSuggestions(intent)
    ensures sentiment != Negative && intent == Smalltalk && customReply.Some? ==> r.response == customReply.value
    ensures sentiment != Negative && Handled(intent) && intent != Smalltalk ==>
      r == Reply(CannedResponse(intent), DynamicSuggestions(intent))
  {
    if sentiment == Negative then Reply(Apology, [])
    else if !Handled(intent) then Reply(NotUnderstood, MainMenu)
    else if intent == Smalltalk then
      // `predict_intent` always pairs `smalltalk` with a reply; "" stands for the absent one.
      Reply(if customReply.Some? then customReply.value else "", [])
    else Reply(CannedResponse(intent), DynamicSuggestions(intent))
  }

  /** The intent `chatbot_response` records for `userInput`. */
  function ResolvedIntent(userInput: string, classify: Classifier, ratio: Similarity): Intent {
    if userInput in IntentMap then IntentMap[userInput] else Predict(userInput, classify, ratio).0
  }

  /** The smalltalk reply `predict_intent` hands back; a shortcut has none. */
  function ResolvedCustom(userInput: string, classify: Classifier, ratio: Similarity): Option<string> {
    if userInput in IntentMap then None else Predict(userInput, classify, ratio).1
  }

  /** What `chatbot_response` returns for `userInput`. */
  function Resolve(userInput: string, classify: Classifier, ratio: Similarity): Reply {
    Dispatch(DetectSentiment(userInput), ResolvedIntent(userInput, classify, ratio),
             ResolvedCustom(userInput, classify, ratio))
  }

  /** Every shortcut names an intent with a canned reply of its own. */
  lemma ShortcutsHandled(key: string)
    ensures key in IntentMap ==> |key| == 1
    ensures key in IntentMap ==> Handled(IntentMap[key]) && IntentMap[key] != Smalltalk
  {
  }

  /** A digit shortcut bypasses prediction: the reply depends on neither
      model, is never the apology, and is the mapped intent's canned reply
      with its suggestions. */
  lemma ShortcutSkipsPrediction(userInput: string, c1: Classifier, r1: Similarity, c2: Classifier, r2: Similarity)
    requires userInput in IntentMap
    ensures Resolve(userInput, c1, r1) == Resolve(userInput, c2, r2)
    ensures Handled(IntentMap[userInput]) && IntentMap[userInput] != Smalltalk
      && Resolve(userInput, c1, r1)
         == Reply(CannedResponse(IntentMap[userInput]), DynamicSuggestions(IntentMap[userInput]))
    ensures ResolvedIntent(userInput, c1, r1) == IntentMap[userInput]
  {
    ShortcutsHandled(userInput);
    ShortTextNeutral(userInput);
  }

  /** No reply of a handled intent is the apology or the fallback text. */
  lemma CannedDistinct(intent: Intent)
    requires Handled(intent) && intent != Smalltalk
    ensures CannedResponse(intent) != Apology && CannedResponse(intent) != NotUnderstood
  {
    assert |Apology| == 65 && |NotUnderstood| == 62;
    match intent {
      case AskForPhone =>
      case Greeting =>
      case Help =>
      case RefundProcess =>
      case OrderDetails =>
      case ChangeAddress =>
      case ChangePhoneNumber =>
      case ManageOrders =>
      case Thanks =>
      case Identity =>
      case Exit =>
    }
  }

  /** No smalltalk reply is empty, the apology or the fallback text. */
  lemma SmalltalkDistinct(key: string)
    requires key in SmalltalkResponses
    ensures SmalltalkResponses[key] != []
    ensures SmalltalkResponses[key] != Apology && SmalltalkResponses[key] != NotUnderstood
  {
    assert |Apology| == 65 && |NotUnderstood| == 62;
    var r := SmalltalkResponses[key];
    if key == "how are you" {
      GreatReplyDistinct(r, Apology);
    } else {
      assert |r| != 65 && |r| != 62 && |r| != 0;
    }
  }

  // Literals passed as parameters and fixed by `requires` keep the solver from unfolding them.
  lemma GreatReplyDistinct(r: string, apology: string)
    requires r == "I'm doing great! Thanks for asking. How can I assist you today? 😊"
    requires apology == Apology
    ensures r != apology
  {
    assert r[64] == '😊' && apology[64] == '!';
  }

  /** The apology is given exactly when the message is negative, whatever
      intent it resolves to. */
  lemma ApologyIffNegative(userInput: string, classify: Classifier, ratio: Similarity)
    ensures Resolve(userInput, classify, ratio).response == Apology <==> DetectSentiment(userInput) == Negative
    ensures DetectSentiment(userInput) == Negative ==> Resolve(userInput, classify, ratio).suggestions == []
  {
    ReplyDistinct(userInput, classify, ratio);
  }

  /** Outside the negative override, the reply text tells the fallback apart
      from the apology and from every intent's own reply. */
  lemma ReplyDistinct(userInput: string, classify: Classifier, ratio: Similarity)
    ensures DetectSentiment(userInput) != Negative ==>
      Resolve(userInput, classify, ratio).response != Apology &&
      (Resolve(userInput, classify, ratio).response == NotUnderstood <==> !Handled(ResolvedIntent(userInput, classify, ratio)))
  {
    var intent := ResolvedIntent(userInput, classify, ratio);
    if DetectSentiment(userInput) != Negative && Handled(intent) {
      if intent == Smalltalk {
        ShortcutsHandled(userInput);
        SmalltalkDistinct(Preprocess(userInput));
      } else {
        CannedDistinct(intent);
      }
    }
  }

  /** Outside the negative override, the seven-item menu is offered exactly
      when the intent has no reply of its own (a complaint, or a label the
      similarity gate rejected). */
  lemma MenuIffUnhandled(userInput: string, classify: Classifier, ratio: Similarity)
    requires DetectSentiment(userInput) != Negative
    ensures Resolve(userInput, classify, ratio).suggestions == MainMenu <==>
      !Handled(ResolvedIntent(userInput, classify, ratio))
  {
    DispatchMenu(DetectSentiment(userInput), ResolvedIntent(userInput, classify, ratio),
                 ResolvedCustom(userInput, classify, ratio));
  }

  lemma DispatchMenu(sentiment: Sentiment, intent: Intent, customReply: Option<string>)
    requires sentiment != Negative
    ensures Dispatch(sentiment, intent, customReply).suggestions == MainMenu <==> !Handled(intent)
  {
    assert |MainMenu| == 7;
    SuggestionsShort(intent);
  }

  lemma SuggestionsShort(intent: Intent)
    ensures |DynamicSuggestions(intent)| <= 2
  {
  }

  /** Suggestions appear only for the five account intents, or as the menu. */
  lemma SuggestionsOnlyForAccountIntents(userInput: string, classify: Classifier, ratio: Similarity)
    requires Resolve(userInput, classify, ratio).suggestions != []
    ensures DetectSentiment(userInput) != Negative
    ensures ResolvedIntent(userInput, classify, ratio)
      in {OrderDetails, RefundProcess, ManageOrders, ChangeAddress, ChangePhoneNumber, Complaint, Unknown}
  {
  }

  /** A smalltalk intent is always answered with the stored reply for the
      preprocessed message, never with an empty text. */
  lemma SmalltalkAnswered(userInput: string, classify: Classifier, ratio: Similarity)
    requires DetectSentiment(userInput) != Negative
    requires ResolvedIntent(userInput, classify, ratio) == Smalltalk
    ensures Preprocess(userInput) in SmalltalkResponses
    ensures Resolve(userInput, classify, ratio) == Reply(SmalltalkResponses[Preprocess(userInput)], [])
    ensures Resolve(userInput, classify, ratio).response != []
  {
    SmalltalkPredicted(userInput, classify, ratio);
    var reply := SmalltalkResponses[Preprocess(userInput)];
    DispatchSmalltalk(DetectSentiment(userInput), reply);
    SmalltalkDistinct(Preprocess(userInput));
  }

  lemma DispatchSmalltalk(sentiment: Sentiment, reply: string)
    requires sentiment != Negative
    ensures Dispatch(sentiment, Smalltalk, Some(reply)) == Reply(reply, [])
  {
  }

  /** Only prediction yields smalltalk, and then with the stored reply. */
  lemma SmalltalkPredicted(userInput: string, classify: Classifier, ratio: Similarity)
    requires ResolvedIntent(userInput, classify, ratio) == Smalltalk
    ensures userInput !in IntentMap
    ensures Preprocess(userInput) in SmalltalkResponses
    ensures ResolvedCustom(userInput, classify, ratio) == Some(SmalltalkResponses[Preprocess(userInput)])
  {
    ShortcutsHandled(userInput);
  }

  /** "thank you" is not negative, so it gets the smalltalk reply rather
      than the `thanks` intent's reply. */
  lemma ThankYouAnswered(userInput: string, classify: Classifier, ratio: Similarity)
    requires userInput == "thank you"
    ensures Resolve(userInput, classify, ratio)
         == Reply("You're very welcome! Always happy to help. 🙏", [])
    ensures ResolvedIntent(userInput, classify, ratio) == Smalltalk
  {
    ThankYouNotNegative(userInput);
    ThankYouIsSmalltalk(userInput, classify, ratio);
    ShortcutsHandled(userInput);
    assert ResolvedIntent(userInput, classify, ratio) == Smalltalk;
    SmalltalkAnswered(userInput, classify, ratio);
    ThankYouPreprocessed(userInput);
    ThankYouReply(userInput);
  }

  // Literals passed as parameters and fixed by `requires` keep the solver from unfolding them.
  lemma ThankYouNotNegative(text: string)
    requires text == "thank you"
    ensures DetectSentiment(text) != Negative
  {
    ThankYouClean(text);
    assert 'b' !in text && 'g' !in text && 'w' !in text && 'e' !in text;
    NoNegativeWord(ToLower(text));
  }

  /** A text lacking these six letters holds no negative word. */
  lemma NoNegativeWord(s: string)
    requires 'b' !in s && 'g' !in s && 'p' !in s && 'w' !in s && 'd' !in s && 'e' !in s
    ensures forall k :: 0 <= k < |NegativeWords| ==> !Contains(s, NegativeWords[k])
  {
    AbsentChar(s, NegativeWords[0], 0);
    AbsentChar(s, NegativeWords[1], 2);
    AbsentChar(s, NegativeWords[2], 1);
    AbsentChar(s, NegativeWords[3], 0);
    AbsentChar(s, NegativeWords[4], 0);
    AbsentChar(s, NegativeWords[5], 3);
  }


  /** The chatbot's conversation memory. */
  class Session {
    /** `memory['last_intent']`: the intent of the latest message, if any. */
    var lastIntent: Option<Intent>

    constructor ()
      ensures lastIntent == None
    {
      lastIntent := None;
    }

    /** `chatbot_response`: answer one message and remember its intent,
        whatever the sentiment. */
    method ChatbotResponse(userInput: string, classify: Classifier, ratio: Similarity)
      returns (response: string, suggestions: seq<string>)
      modifies this
      ensures Reply(response, suggestions) == Resolve(userInput, classify, ratio)
      ensures lastIntent == Some(ResolvedIntent(userInput, classify, ratio))
    {
      var sentiment := DetectSentiment(userInput);
      var intent: Intent;
      var customReply: Option<string> := None;
      if userInput in IntentMap {
        intent := IntentMap[userInput];
      } else {
        intent, customReply := PredictIntent(userInput, classify, ratio);
      }
      var reply := Dispatch(sentiment, intent, customReply);
      lastIntent := Some(intent);
      response, suggestions := reply.response, reply.suggestions;
    }
  }
}
