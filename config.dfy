/** The chatbot's static configuration: intent labels, the synonym table,
    the smalltalk replies, the sentiment word lists and the training set. */
module Config {

  datatype Option<T> = None | Some(value: T)

  /** Every intent label the resolver can see: the training labels, plus
      `Smalltalk` (an exact smalltalk hit) and `Unknown` (the gate rejected
      the classifier). */
  datatype Intent =
    | AskForPhone | Greeting | Help | Exit | RefundProcess | OrderDetails
    | ChangeAddress | ChangePhoneNumber | ManageOrders | Complaint | Thanks
    | Identity | Smalltalk | Unknown

  /** The label string the program uses for each intent. */
  function Label(i: Intent): string {
    match i
    case AskForPhone => "ask_for_phone"
    case Greeting => "greeting"
    case Help => "help"
    case Exit => "exit"
    case RefundProcess => "refund_process"
    case OrderDetails => "order_details"
    case ChangeAddress => "change_address"
    case ChangePhoneNumber => "change_phone_number"
    case ManageOrders => "manage_orders"
    case Complaint => "complaint"
    case Thanks => "thanks"
    case Identity => "identity"
    case Smalltalk => "smalltalk"
    case Unknown => "unknown"
  }

  /** Distinct intents carry distinct labels, so matching on `Intent` is
      matching on the label string. */
  lemma LabelInjective(i: Intent, j: Intent)
    requires Label(i) == Label(j)
    ensures i == j
  {
  }

  /** Surface phrase and its replacement, in the order they are applied. */
  const Synonyms: seq<(string, string)> := [
    ("mobile number", "phone_number"),
    ("phone number", "phone_number"),
    ("contact number", "phone_number"),
    ("number", "phone_number"),
    ("refund", "refund_process"),
    ("order", "order_details"),
    ("delivery address", "change_address"),
    ("address", "change_address"),
    ("phone no", "change_phone_number"),
    ("manage", "manage_orders")
  ]

  /** Exact preprocessed phrase and its canned reply. */
  const SmalltalkResponses: map<string, string> := map[
    "how are you" := "I'm doing great! Thanks for asking. How can I assist you today? 😊",
    "thank you" := "You're very welcome! Always happy to help. 🙏",
    "thanks" := "My pleasure! If you need anything else, just ask! 🙌",
    "who are you" := "I am your E-Shop Support Assistant 🤖, available 24/7 to assist you!",
    "what's your name" := "You can call me E-Shop Bot 🤖!"
  ]

  const PositiveWords: seq<string> := ["thank", "thanks", "great", "awesome", "good", "amazing"]
  const NegativeWords: seq<string> := ["bad", "angry", "upset", "worst", "disappointed", "hate"]

  /** The training texts, paired index by index with `Intents`. */
  const Examples: seq<string> := [
    "I want your phone number",
    "Can I get your mobile number?",
    "Hi, how are you?",
    "I need help",
    "Exit chat",
    "I want a refund",
    "Where is my order?",
    "Change my delivery address",
    "Update my phone no",
    "Manage my orders",
    "bad service",
    "thank you",
    "who are you"
  ]

  const Intents: seq<Intent> := [
    AskForPhone, AskForPhone, Greeting, Help, Exit, RefundProcess, OrderDetails,
    ChangeAddress, ChangePhoneNumber, ManageOrders, Complaint, Thanks, Identity
  ]

  /** A label the classifier can be trained to predict. */
  predicate IsTrainingLabel(i: Intent) {
    i in Intents
  }

  /** The tables are well formed: no empty synonym key, one label per example,
      and the two sentiment lists share no word. */
  lemma ConfigWellFormed()
    ensures forall k :: 0 <= k < |Synonyms| ==> Synonyms[k].0 != []
    ensures |Examples| == |Intents| == 13
    ensures forall w :: w in PositiveWords ==> w !in NegativeWords
    ensures !IsTrainingLabel(Smalltalk) && !IsTrainingLabel(Unknown)
    ensures IsTrainingLabel(Complaint) && IsTrainingLabel(Greeting)
  {
  }
}
