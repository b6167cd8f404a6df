/** The two text-cleaning stages: `normalize_text` (synonym substitution,
    then lower-casing) and `preprocess_text` (whitespace collapse, non-word
    characters to spaces, strip). */
module Normalizer {
  import opened Text
  import opened Config

  /** Every key of a replacement table is non-empty. */
  predicate KeysNonEmpty(table: seq<(string, string)>) {
    forall k :: 0 <= k < |table| ==> table[k].0 != []
  }

  lemma SynonymKeysNonEmpty()
    ensures KeysNonEmpty(Synonyms)
  {
  }

  /** The text after applying the replacements of `table` one after another,
      each to the result of the previous one. */
  function ApplySynonyms(text: string, table: seq<(string, string)>): string
    requires KeysNonEmpty(table)
    decreases |table|
  {
    if table == [] then text
    else
      var last := table[|table| - 1];
      ReplaceAll(ApplySynonyms(text, table[..|table| - 1]), last.0, last.1)
  }

  /** What `normalize_text` returns. */
  function Normalize(text: string): string {
    SynonymKeysNonEmpty();
    ToLower(ApplySynonyms(text, Synonyms))
  }

  /** `normalize_text`: rewrite `text` once per synonym, in table order, then lower-case. */
  method NormalizeText(text: string) returns (r: string)
    ensures r == Normalize(text)
  {
    SynonymKeysNonEmpty();
    r := text;
    for k := 0 to |Synonyms|
      invariant r == ApplySynonyms(text, Synonyms[..k])
    {
      assert Synonyms[..k + 1][..k] == Synonyms[..k];
      r := ReplaceAll(r, Synonyms[k].0, Synonyms[k].1);
    }
    assert Synonyms[..|Synonyms|] == Synonyms;
    r := ToLower(r);
  }

  /** A text in which no key occurs passes through every replacement unchanged. */
  lemma {:induction false} ApplyUntouched(text: string, table: seq<(string, string)>)
    requires KeysNonEmpty(table)
    requires forall k :: 0 <= k < |table| ==> !Contains(text, table[k].0)
    ensures ApplySynonyms(text, table) == text
    decreases |table|
  {
    if table != [] {
      var n := |table| - 1;
      ApplyUntouched(text, table[..n]);
      ReplaceAbsent(text, table[n].0, table[n].1);
    }
  }

  /** Input that contains no synonym key (keys are matched case-sensitively)
      is only lower-cased. */
  lemma NormalizeUntouched(text: string)
    requires forall k :: 0 <= k < |Synonyms| ==> !Contains(text, Synonyms[k].0)
    ensures Normalize(text) == ToLower(text)
  {
    SynonymKeysNonEmpty();
    ApplyUntouched(text, Synonyms);
  }

  /** Empty input normalises to empty output. */
  lemma NormalizeEmpty()
    ensures Normalize("") == ""
  {
    NormalizeUntouched("");
  }

  /** No synonym key occurs in a text that lacks the letters 'p', 'c', 'f'
      and 'd' and one of 'n' and 'm'. */
  lemma NoKeyFromLetters(text: string)
    requires 'p' !in text && 'c' !in text && 'f' !in text && 'd' !in text
    requires 'n' !in text || 'm' !in text
    ensures forall k :: 0 <= k < |Synonyms| ==> !Contains(text, Synonyms[k].0)
  {
    forall k | 0 <= k < |Synonyms| ensures !Contains(text, Synonyms[k].0) {
      var key := Synonyms[k].0;
      if k in {1, 2, 6, 8} {
        AbsentChar(text, key, 0);             // 'p', 'c', 'd'
      } else if k in {4, 5} {
        AbsentChar(text, key, 2);             // 'f', 'd'
      } else if k == 7 {
        AbsentChar(text, key, 1);             // 'd'
      } else if 'n' !in text {
        AbsentChar(text, key, if k == 0 then 7 else if k == 3 then 0 else 2);
      } else {
        AbsentChar(text, key, if k == 3 then 2 else 0);
      }
    }
  }

  /** Keys are matched before lower-casing, so a capitalised phrase escapes
      its synonym: "Mobile Number" is only lower-cased. */
  lemma NormalizeIsCaseSensitive(text: string)
    requires text == "Mobile Number"
    ensures Normalize(text) == "mobile number"
  {
    assert 'p' !in text && 'c' !in text && 'f' !in text && 'd' !in text && 'n' !in text by {
      CapitalsLowered(text, "mobile number");
    }
    NoKeyFromLetters(text);
    NormalizeUntouched(text);
    CapitalsLowered(text, "mobile number");
  }

  // Literals passed as parameters and fixed by `requires` keep the solver from unfolding them.
  lemma CapitalsLowered(text: string, lowered: string)
    requires text == "Mobile Number" && lowered == "mobile number"
    ensures ToLower(text) == lowered
    ensures 'p' !in text && 'c' !in text && 'f' !in text && 'd' !in text && 'n' !in text
  {
  }

  /** Text around a phrase that no synonym key can reach into: it lacks
      every letter used below to rule a key out. */
  predicate Inert(s: string) {
    'm' !in s && 'n' !in s && 'p' !in s && 'c' !in s && 'f' !in s && 'd' !in s && 'g' !in s
  }

  /** The replacements cascade: entry 1 turns "mobile number" into
      "phone_number", and entry 4 ("number") then fires inside that result,
      so the phrase ends up as "phone_phone_number". */
  lemma {:induction false} NormalizeCascades(front: string, tail: string)
    requires Inert(front) && Inert(tail)
    ensures Normalize(front + "mobile number" + tail)
         == ToLower(front) + "phone_phone_number" + ToLower(tail)
  {
    SynonymKeysNonEmpty();
    var text := front + "mobile number" + tail;
    var s4 := front + "phone_phone_number" + tail;
    CascadeFirstFour(front, tail);
    CascadeLastEntries(front, tail);
    ApplyTail(text, s4, 4);
    LowerConcat(front, "phone_phone_number", tail);
  }

  /** Entries 1 to 4 turn "mobile number" into "phone_phone_number". */
  lemma CascadeFirstFour(front: string, tail: string)
    requires Inert(front) && Inert(tail)
    ensures KeysNonEmpty(Synonyms)
    ensures ApplySynonyms(front + "mobile number" + tail, Synonyms[..4])
         == front + "phone_phone_number" + tail
  {
    CascadeFirstEntries(front, tail);
    CascadeFourthEntry(front, tail);
    assert Synonyms[..4][..3] == Synonyms[..3];
  }

  /** Entry 1 rewrites "mobile number"; entries 2 and 3 then find nothing. */
  lemma CascadeFirstEntries(front: string, tail: string)
    requires Inert(front) && Inert(tail)
    ensures KeysNonEmpty(Synonyms)
    ensures ApplySynonyms(front + "mobile number" + tail, Synonyms[..3])
         == front + "phone_number" + tail
  {
    SynonymKeysNonEmpty();
    var text, s1 := front + "mobile number" + tail, front + "phone_number" + tail;
    assert Synonyms[..1][..0] == [];
    assert Synonyms[0] == ("mobile number", "phone_number");
    MobileReplaced(front, tail, "mobile number", "phone_number");
    assert ApplySynonyms(text, Synonyms[..1]) == s1;
    PhoneContactAbsent(front, tail, Synonyms[1].0, Synonyms[2].0);
    ReplaceAbsent(s1, Synonyms[1].0, Synonyms[1].1);
    ReplaceAbsent(s1, Synonyms[2].0, Synonyms[2].1);
    assert Synonyms[..2][..1] == Synonyms[..1] && Synonyms[..3][..2] == Synonyms[..2];
  }

  // Literals passed as parameters and fixed by `requires` keep the solver from unfolding them.
  lemma MobileReplaced(front: string, tail: string, mobile: string, phone: string)
    requires Inert(front) && Inert(tail)
    requires mobile == "mobile number" && phone == "phone_number"
    ensures ReplaceAll(front + mobile + tail, mobile, phone) == front + phone + tail
  {
    assert front + mobile + tail == front + (mobile + tail);
    ReplaceSkipsPrefix(front, mobile + tail, mobile, phone);
    ReplaceAtFront(mobile, tail, phone);
    AbsentChar(tail, mobile, 0);
    ReplaceAbsent(tail, mobile, phone);
  }

  // Literals passed as parameters and fixed by `requires` keep the solver from unfolding them.
  lemma PhoneContactAbsent(front: string, tail: string, phoneKey: string, contactKey: string)
    requires Inert(front) && Inert(tail)
    requires phoneKey == "phone number" && contactKey == "contact number"
    ensures !Contains(front + "phone_number" + tail, phoneKey)
    ensures !Contains(front + "phone_number" + tail, contactKey)
  {
    var s1 := front + "phone_number" + tail;
    assert s1 == front + ("phone_" + ("number" + tail));
    AbsentChar("number" + tail, phoneKey, 0);
    PhoneUnderscoreAbsent("number" + tail, phoneKey);
    AbsentSplit(front, "phone_" + ("number" + tail), phoneKey);
    AbsentChar(s1, contactKey, 0);
  }

  /** Entry 4 rewrites the "number" inside "phone_number". */
  lemma CascadeFourthEntry(front: string, tail: string)
    requires Inert(front) && Inert(tail)
    ensures ReplaceAll(front + "phone_number" + tail, Synonyms[3].0, Synonyms[3].1)
         == front + "phone_phone_number" + tail
  {
    assert Synonyms[3] == ("number", "phone_number");
    NumberReplaced(front, tail, "number", "phone_number");
  }

  // Literals passed as parameters and fixed by `requires` keep the solver from unfolding them.
  lemma NumberReplaced(front: string, tail: string, number: string, phone: string)
    requires Inert(front) && Inert(tail)
    requires number == "number" && phone == "phone_number"
    ensures ReplaceAll(front + phone + tail, number, phone) == front + "phone_phone_number" + tail
  {
    var pho, ne := "pho", "ne_";
    assert phone == pho + ne + number;
    Regroup(front, pho, ne, number, tail);
    ReplaceSkipsPrefix(front + pho, ne + (number + tail), number, phone);
    NumberAfterPho(tail, number, phone);
    assert "phone_phone_number" == pho + ne + phone;
    Regroup(front, pho, ne, phone, tail);
  }

  /** Concatenation regrouped around a split middle part. */
  lemma Regroup(a: string, b: string, c: string, d: string, e: string)
    ensures a + (b + c + d) + e == (a + b) + (c + (d + e))
  {
  }

  // Literals passed as parameters and fixed by `requires` keep the solver from unfolding them.
  lemma NumberAfterPho(tail: string, number: string, phone: string)
    requires Inert(tail)
    requires number == "number" && phone == "phone_number"
    ensures ReplaceAll("ne_" + (number + tail), number, phone) == "ne_" + (phone + tail)
  {
    var ne := "ne_" + (number + tail);
    SplitNe(number + tail);
    SplitNe(phone + tail);
    ReplaceMisstart(ne, number, phone, 1);
    ReplaceSkipsPrefix("e_", number + tail, number, phone);
    ReplaceAtFront(number, tail, phone);
    AbsentChar(tail, number, 0);
    ReplaceAbsent(tail, number, phone);
  }

  lemma SplitNe(x: string)
    ensures ("ne_" + x)[0] == 'n' && ("ne_" + x)[1..] == "e_" + x
    ensures "ne_" + x == ['n'] + ("e_" + x)
  {
    assert "ne_" == ['n'] + "e_";
  }

  /** Entries 5 to 10 find nothing in the rewritten text. */
  lemma CascadeLastEntries(front: string, tail: string)
    requires Inert(front) && Inert(tail)
    ensures forall k :: 4 <= k < |Synonyms| ==>
      !Contains(front + "phone_phone_number" + tail, Synonyms[k].0)
  {
    var s4 := front + "phone_phone_number" + tail;
    forall k | 4 <= k < |Synonyms| ensures !Contains(s4, Synonyms[k].0) {
      var key := Synonyms[k].0;
      if k in {4, 5} {
        AbsentChar(s4, key, 2);               // 'f', 'd'
      } else if k in {6, 7} {
        AbsentChar(s4, key, k - 6);           // 'd'
      } else if k == 8 {
        PhoneNoAbsent(front, tail);
      } else {
        AbsentChar(s4, key, 4);               // 'g'
      }
    }
  }

  /** Entry 9 ("phone no") finds nothing in the rewritten text. */
  lemma PhoneNoAbsent(front: string, tail: string)
    requires Inert(front) && Inert(tail)
    ensures !Contains(front + "phone_phone_number" + tail, Synonyms[8].0)
  {
    assert Synonyms[8].0 == "phone no";
    PhoneNoAbsentFrom(front, tail, "phone no", "phone_", "number");
  }

  // Literals passed as parameters and fixed by `requires` keep the solver from unfolding them.
  lemma PhoneNoAbsentFrom(front: string, tail: string, key: string, ph: string, number: string)
    requires Inert(front) && Inert(tail)
    requires key == "phone no" && ph == "phone_" && number == "number"
    ensures !Contains(front + "phone_phone_number" + tail, key)
  {
    var post := number + tail;
    AbsentChar(post, key, 0);
    PhoneUnderscoreAbsent(post, key);
    PhoneUnderscoreAbsent(ph + post, key);
    AbsentSplit(front, ph + (ph + post), key);
    assert "phone_phone_number" == ph + ph + number;
    RegroupRight(front, ph, ph, number, tail);
  }

  /** Concatenation regrouped to the right. */
  lemma RegroupRight(a: string, b: string, c: string, d: string, e: string)
    ensures a + (b + c + d) + e == a + (b + (c + (d + e)))
  {
  }

  /** Lower-casing distributes over concatenation. */
  // Literals passed as parameters and fixed by `requires` keep the solver from unfolding them.
  lemma LowerConcat(a: string, b: string, c: string)
    requires b == "phone_phone_number"
    ensures ToLower(a + b + c) == ToLower(a) + b + ToLower(c)
  {
    assert forall i :: 0 <= i < |b| ==> !IsUpper(b[i]);
  }

  /** The cascade on the question "What is your mobile number?": the result
      holds "phone_number" and no longer holds "mobile number". */
  lemma NormalizeCascadeExample(text: string, result: string)
    requires text == "What is your mobile number?" && result == Normalize(text)
    ensures result == "what is your phone_phone_number?"
    ensures Contains(result, "phone_number") && !Contains(result, "mobile number")
  {
    QuestionParts(text, "What is your ", "mobile number", "?");
    QuestionInert("What is your ", "?");
    QuestionLowered("What is your ", "?");
    NormalizeCascades("What is your ", "?");
    QuestionResult(result, "phone_number", "mobile number");
  }

  /** How the example question splits around its synonym phrase. */
  // Literals passed as parameters and fixed by `requires` keep the solver from unfolding them.
  lemma QuestionParts(text: string, front: string, mid: string, tail: string)
    requires text == "What is your mobile number?"
    requires front == "What is your " && mid == "mobile number" && tail == "?"
    ensures text == front + mid + tail
  {
  }

  // Literals passed as parameters and fixed by `requires` keep the solver from unfolding them.
  lemma QuestionInert(front: string, tail: string)
    requires front == "What is your " && tail == "?"
    ensures Inert(front) && Inert(tail)
  {
  }

  // Literals passed as parameters and fixed by `requires` keep the solver from unfolding them.
  lemma QuestionResult(result: string, phone: string, mobile: string)
    requires result == "what is your phone_phone_number?"
    requires phone == "phone_number" && mobile == "mobile number"
    ensures Contains(result, phone) && !Contains(result, mobile)
  {
    assert result[19..31] == phone;
    ContainsAt(result, phone, 19);
    AbsentChar(result, mobile, 4);   // 'l'
  }

  // Literals passed as parameters and fixed by `requires` keep the solver from unfolding them.
  lemma QuestionLowered(front: string, tail: string)
    requires front == "What is your " && tail == "?"
    ensures ToLower(front) + "phone_phone_number" + ToLower(tail) == "what is your phone_phone_number?"
  {
  }

  /** Once the text before entry `n` is `mid` and no later key occurs in it,
      the remaining entries leave it unchanged. */
  lemma {:induction false} ApplyTail(text: string, mid: string, n: nat)
    requires n <= |Synonyms|
    requires KeysNonEmpty(Synonyms)
    requires ApplySynonyms(text, Synonyms[..n]) == mid
    requires forall k :: n <= k < |Synonyms| ==> !Contains(mid, Synonyms[k].0)
    ensures ApplySynonyms(text, Synonyms) == mid
    decreases |Synonyms| - n
  {
    if n < |Synonyms| {
      assert Synonyms[..n + 1][..n] == Synonyms[..n];
      ReplaceAbsent(mid, Synonyms[n].0, Synonyms[n].1);
      ApplyTail(text, mid, n + 1);
    } else {
      assert Synonyms[..n] == Synonyms;
    }
  }

  /** A word beginning "phone " does not occur in `"phone_" + post` when it
      does not occur in `post`. */
  lemma PhoneUnderscoreAbsent(post: string, w: string)
    requires |w| > 6 && w[..6] == "phone "
    requires !Contains(post, w)
    ensures !Contains("phone_" + post, w)
  {
    var s := "phone_" + post;
    assert w[0] == 'p' && w[5] == ' ';
    assert s[1..] == "hone_" + post;
    AbsentSplit("hone_", post, w);
    AbsentMisstart(s, w, 5);
  }

  // ---------- preprocess_text ---------- //

  /** The characters of `s` that are not whitespace, in order. */
  function NonSpace(s: string): string {
    if s == [] then []
    else if IsSpace(s[0]) then NonSpace(s[1..])
    else [s[0]] + NonSpace(s[1..])
  }

  /** `s` without its leading run of whitespace. */
  function DropSpaces(s: string): (r: string)
    ensures |r| <= |s| && r == s[|s| - |r|..]
    ensures forall i :: 0 <= i < |s| - |r| ==> IsSpace(s[i])
    ensures r == [] || !IsSpace(r[0])
    ensures NonSpace(r) == NonSpace(s)
  {
    if s != [] && IsSpace(s[0]) then
      var r := DropSpaces(s[1..]);
      assert forall i :: 1 <= i < |s| - |r| ==> s[i] == s[1..][i - 1];
      r
    else s
  }

  /** `re.sub(r'\s+', ' ', s)`: each maximal run of whitespace becomes one space. */
  function CollapseWhitespace(s: string): (r: string)
    ensures |r| <= |s|
    ensures r == [] <==> s == []
    ensures r != [] ==> (IsSpace(r[0]) <==> IsSpace(s[0]))
    ensures forall i :: 0 <= i < |r| && IsSpace(r[i]) ==> r[i] == ' '
    ensures forall i :: 0 <= i < |r| - 1 ==> !(IsSpace(r[i]) && IsSpace(r[i + 1]))
    ensures NonSpace(r) == NonSpace(s)
    decreases |s|
  {
    if s == [] then []
    else if IsSpace(s[0]) then [' '] + CollapseWhitespace(DropSpaces(s[1..]))
    else [s[0]] + CollapseWhitespace(s[1..])
  }

  /** The collapsed text ends in whitespace exactly when the input does. */
  lemma {:induction false} CollapseKeepsEnds(s: string)
    ensures CollapseWhitespace(s) != [] ==>
      (IsSpace(CollapseWhitespace(s)[|CollapseWhitespace(s)| - 1]) <==> IsSpace(s[|s| - 1]))
    decreases |s|
  {
    if s != [] {
      if IsSpace(s[0]) {
        var d := DropSpaces(s[1..]);
        CollapseKeepsEnds(d);
        assert d != [] ==> d[|d| - 1] == s[|s| - 1];
      } else {
        var t := s[1..];
        CollapseKeepsEnds(t);
        assert t != [] ==> t[|t| - 1] == s[|s| - 1];
      }
    }
  }

  /** The longest prefix of `s` holding no whitespace. */
  function WordPrefix(s: string): (w: string)
    ensures |w| <= |s| && w == s[..|w|]
    ensures forall i :: 0 <= i < |w| ==> !IsSpace(w[i])
    ensures |w| < |s| ==> IsSpace(s[|w|])
  {
    if s == [] || IsSpace(s[0]) then [] else [s[0]] + WordPrefix(s[1..])
  }

  /** The maximal runs of non-whitespace characters of `s`, in order. */
  function Words(s: string): seq<string>
    decreases |s|
  {
    if s == [] then []
    else if IsSpace(s[0]) then Words(s[1..])
    else
      var w := WordPrefix(s);
      [w] + Words(s[|w|..])
  }

  /** Leading whitespace separates no words. */
  lemma {:induction false} WordsDropSpaces(s: string)
    ensures Words(DropSpaces(s)) == Words(s)
    decreases |s|
  {
    if s != [] && IsSpace(s[0]) {
      WordsDropSpaces(s[1..]);
    }
  }

  /** A non-whitespace character in front of `t` starts a new word when `t`
      starts with whitespace or is empty, and otherwise joins `t`'s first word. */
  lemma WordsCons(c: char, t: string)
    requires !IsSpace(c)
    ensures t == [] || IsSpace(t[0]) ==> Words([c] + t) == [[c]] + Words(t)
    ensures t != [] && !IsSpace(t[0]) ==>
      Words(t) != [] && Words([c] + t) == [[c] + Words(t)[0]] + Words(t)[1..]
  {
    var s := [c] + t;
    assert s[1..] == t;
    var w := WordPrefix(t);
    assert WordPrefix(s) == [c] + w;
    assert s[|[c] + w|..] == t[|w|..];
  }

  /** Collapsing whitespace keeps the words: every whitespace run still
      separates the same two words, so none are merged or split. */
  lemma {:induction false} CollapseKeepsWords(s: string)
    ensures Words(CollapseWhitespace(s)) == Words(s)
    decreases |s|
  {
    if s == [] {
    } else if IsSpace(s[0]) {
      var d := DropSpaces(s[1..]);
      CollapseKeepsWords(d);
      WordsDropSpaces(s[1..]);
      var r := CollapseWhitespace(s);
      assert r[1..] == CollapseWhitespace(d);
    } else {
      var t := s[1..];
      CollapseKeepsWords(t);
      assert s == [s[0]] + t;
      WordsCons(s[0], t);
      WordsCons(s[0], CollapseWhitespace(t));
    }
  }

  /** `re.sub(r'\W', ' ', s)`: every non-word character becomes a space. */
  function ReplaceNonWord(s: string): (r: string)
    ensures |r| == |s|
    ensures forall i :: 0 <= i < |s| ==> IsWordChar(r[i]) || r[i] == ' '
    ensures forall i :: 0 <= i < |s| && IsWordChar(s[i]) ==> r[i] == s[i]
    ensures forall i :: 0 <= i < |s| && !IsWordChar(s[i]) ==> r[i] == ' '
  {
    if s == [] then []
    else [if IsWordChar(s[0]) then s[0] else ' '] + ReplaceNonWord(s[1..])
  }

  /** Number of whitespace characters at the front of `s`. */
  function LeadingSpaces(s: string): (n: nat)
    ensures n <= |s|
    ensures forall i :: 0 <= i < n ==> IsSpace(s[i])
    ensures n < |s| ==> !IsSpace(s[n])
  {
    if s != [] && IsSpace(s[0]) then 1 + LeadingSpaces(s[1..]) else 0
  }

  /** Number of whitespace characters at the back of `s`. */
  function TrailingSpaces(s: string): (n: nat)
    ensures n <= |s|
    ensures forall i :: |s| - n <= i < |s| ==> IsSpace(s[i])
    ensures n < |s| ==> !IsSpace(s[|s| - n - 1])
  {
    if s != [] && IsSpace(s[|s| - 1]) then 1 + TrailingSpaces(s[..|s| - 1]) else 0
  }

  /** `s.strip()`: the slice of `s` left after removing whitespace at both ends. */
  function Strip(s: string): (r: string)
    ensures |r| <= |s|
    ensures r == [] || (!IsSpace(r[0]) && !IsSpace(r[|r| - 1]))
    ensures r == [] ==> forall i :: 0 <= i < |s| ==> IsSpace(s[i])
    ensures r != [] ==>
      LeadingSpaces(s) + |r| + TrailingSpaces(s) == |s| &&
      r == s[LeadingSpaces(s)..LeadingSpaces(s) + |r|]
  {
    var lead, trail := LeadingSpaces(s), TrailingSpaces(s);
    if lead == |s| then []
    else
      assert lead < |s| - trail;
      s[lead..|s| - trail]
  }

  /** What `preprocess_text` returns. */
  function Preprocess(text: string): string {
    Strip(ReplaceNonWord(CollapseWhitespace(Normalize(text))))
  }

  /** `preprocess_text`: normalise, collapse whitespace, blank out non-word
      characters, strip. The loops of `predict_intent` call this method form;
      proofs use `Preprocess`. */
  method PreprocessText(text: string) returns (r: string)
    ensures r == Preprocess(text)
  {
    r := NormalizeText(text);
    r := CollapseWhitespace(r);
    r := ReplaceNonWord(r);
    r := Strip(r);
  }

  /** Preprocessed text holds only word characters and spaces, begins and
      ends with a word character, and is never longer than the normalised text. */
  lemma PreprocessShape(text: string)
    ensures forall i :: 0 <= i < |Preprocess(text)| ==>
      IsWordChar(Preprocess(text)[i]) || Preprocess(text)[i] == ' '
    ensures Preprocess(text) != [] ==>
      IsWordChar(Preprocess(text)[0]) && IsWordChar(Preprocess(text)[|Preprocess(text)| - 1])
    ensures |Preprocess(text)| <= |Normalize(text)|
  {
    var n := Normalize(text);
    var c := CollapseWhitespace(n);
    var w := ReplaceNonWord(c);
    assert |w| == |c| <= |n|;
    StripShape(w);
    assert Preprocess(text) == Strip(w);
  }

  /** Stripping a text of word characters and spaces leaves word characters
      and spaces, with a word character at each end. */
  lemma StripShape(w: string)
    requires forall i :: 0 <= i < |w| ==> IsWordChar(w[i]) || w[i] == ' '
    ensures forall i :: 0 <= i < |Strip(w)| ==> IsWordChar(Strip(w)[i]) || Strip(w)[i] == ' '
    ensures Strip(w) != [] ==> IsWordChar(Strip(w)[0]) && IsWordChar(Strip(w)[|Strip(w)| - 1])
  {
    var p := Strip(w);
    if p != [] {
      var lead := LeadingSpaces(w);
      forall i | 0 <= i < |p| ensures IsWordChar(p[i]) || p[i] == ' ' {
        assert p[i] == w[lead + i];
      }
    }
  }

  /** Because the collapse runs before non-word characters become spaces,
      punctuation between spaces leaves a run of several spaces. */
  lemma PreprocessKeepsSpaceRuns(text: string)
    requires text == "a ? b"
    ensures Preprocess(text) == "a   b"
  {
    NoKeyFromLetters(text);
    NormalizeUntouched(text);
    SpaceRunSteps(text, ToLower(text), CollapseWhitespace(text), ReplaceNonWord(text));
  }

  // Literals passed as parameters and fixed by `requires` keep the solver from unfolding them.
  lemma SpaceRunSteps(text: string, lowered: string, collapsed: string, blanked: string)
    requires text == "a ? b" && lowered == ToLower(text)
    requires collapsed == CollapseWhitespace(text) && blanked == ReplaceNonWord(text)
    ensures lowered == text && collapsed == text && blanked == "a   b" && Strip(blanked) == blanked
  {
    SpaceRunLowered(text);
    SpaceRunCollapse(text);
    SpaceRunBlanked(text, "a   b");
  }

  // Literals passed as parameters and fixed by `requires` keep the solver from unfolding them.
  lemma SpaceRunLowered(text: string)
    requires text == "a ? b"
    ensures ToLower(text) == text
  {
    assert forall i :: 0 <= i < |text| ==> !IsUpper(text[i]);
  }

  // Literals passed as parameters and fixed by `requires` keep the solver from unfolding them.
  lemma SpaceRunCollapse(text: string)
    requires text == "a ? b"
    ensures CollapseWhitespace(text) == text
  {
    CollapseKeepsSingleSpaces(text);
  }

  // Literals passed as parameters and fixed by `requires` keep the solver from unfolding them.
  lemma SpaceRunBlanked(text: string, blanked: string)
    requires text == "a ? b" && blanked == "a   b"
    ensures ReplaceNonWord(text) == blanked && Strip(blanked) == blanked
  {
    assert ReplaceNonWord("b") == "b";
    assert ReplaceNonWord(" b") == " b";
    assert ReplaceNonWord("? b") == "  b";
    assert ReplaceNonWord(" ? b") == "   b";
    assert LeadingSpaces(blanked) == 0 && TrailingSpaces(blanked) == 0;
  }

  /** The smalltalk key "what's your name" can never be produced: the
      apostrophe is a non-word character and becomes a space. */
  lemma ApostropheKeyUnreachable(text: string)
    ensures Preprocess(text) != "what's your name"
  {
    PreprocessShape(text);
    var key := "what's your name";
    assert !IsWordChar(key[4]) && key[4] != ' ';
  }

  /** Text in the shape `preprocess_text` produces: word characters and
      single spaces, with a word character at each end. */
  predicate SingleSpaced(s: string) {
    (forall i :: 0 <= i < |s| ==> IsWordChar(s[i]) || s[i] == ' ')
    && (forall i :: 0 <= i < |s| - 1 ==> s[i] != ' ' || s[i + 1] != ' ')
    && (s != [] ==> s[0] != ' ' && s[|s| - 1] != ' ')
  }

  /** Lower-case, single-spaced text holding no synonym key comes out of
      `preprocess_text` unchanged. */
  lemma PreprocessFixesCleanText(text: string)
    requires forall k :: 0 <= k < |Synonyms| ==> !Contains(text, Synonyms[k].0)
    requires ToLower(text) == text
    requires SingleSpaced(text)
    ensures Preprocess(text) == text
  {
    NormalizeUntouched(text);
    CleaningKeepsSingleSpaced(text);
  }

  lemma CleaningKeepsSingleSpaced(s: string)
    requires SingleSpaced(s)
    ensures Strip(ReplaceNonWord(CollapseWhitespace(s))) == s
  {
    CollapseKeepsSingleSpaces(s);
    ReplaceNonWordKeeps(s);
    StripKeepsTrimmed(s);
  }

  lemma StripKeepsTrimmed(s: string)
    requires SingleSpaced(s)
    ensures Strip(s) == s
  {
    if s != [] {
      assert LeadingSpaces(s) == 0 && TrailingSpaces(s) == 0;
      assert s[0..|s|] == s;
    }
  }

  lemma {:induction false} CollapseKeepsSingleSpaces(s: string)
    requires forall i :: 0 <= i < |s| && IsSpace(s[i]) ==> s[i] == ' '
    requires forall i :: 0 <= i < |s| - 1 ==> !(IsSpace(s[i]) && IsSpace(s[i + 1]))
    ensures CollapseWhitespace(s) == s
    decreases |s|
  {
    if s != [] {
      var t := s[1..];
      assert forall i :: 0 <= i < |t| ==> t[i] == s[i + 1];
      CollapseKeepsSingleSpaces(t);
      if IsSpace(s[0]) {
        assert DropSpaces(t) == t;
      }
    }
  }

  lemma {:induction false} ReplaceNonWordKeeps(s: string)
    requires forall i :: 0 <= i < |s| ==> IsWordChar(s[i]) || s[i] == ' '
    ensures ReplaceNonWord(s) == s
    decreases |s|
  {
    if s != [] {
      var t := s[1..];
      assert forall i :: 0 <= i < |t| ==> t[i] == s[i + 1];
      ReplaceNonWordKeeps(t);
    }
  }
}
