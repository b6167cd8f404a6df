/** Character classes and the string primitives the chatbot relies on:
    substring search (`in`), non-overlapping replace-all (`str.replace`),
    ASCII lower-casing (`str.lower`). */
module Text {

  /** Whitespace as Python's `\s` and `str.strip` see it, restricted to ASCII. */
  predicate IsSpace(c: char) {
    c == ' ' || c == '\t' || c == '\n' || c == '\r' || c == '\U{B}' || c == '\U{C}'
    || ('\U{1C}' <= c <= '\U{1F}')
  }

  /** A regular-expression word character (`\w`), restricted to ASCII. */
  predicate IsWordChar(c: char) {
    ('a' <= c <= 'z') || ('A' <= c <= 'Z') || ('0' <= c <= '9') || c == '_'
  }

  predicate IsUpper(c: char) {
    'A' <= c <= 'Z'
  }

  function LowerChar(c: char): (r: char)
    ensures !IsUpper(r)
    ensures IsUpper(c) ==> r != c && r == (c as int + 32) as char
    ensures !IsUpper(c) ==> r == c
  {
    if IsUpper(c) then (c as int + 32) as char else c
  }

  /** `s.lower()` for ASCII letters; every other character is kept. */
  function ToLower(s: string): (r: string)
    ensures |r| == |s|
    ensures forall i :: 0 <= i < |s| ==> !IsUpper(r[i])
    ensures forall i :: 0 <= i < |s| && !IsUpper(s[i]) ==> r[i] == s[i]
    ensures forall i :: 0 <= i < |s| && IsUpper(s[i]) ==> r[i] as int == s[i] as int + 32
  {
    seq(|s|, i requires 0 <= i < |s| => LowerChar(s[i]))
  }

  /** `w` occurs in `s` starting at position `i`. */
  predicate OccursAt(s: string, w: string, i: nat) {
    i + |w| <= |s| && s[i..i + |w|] == w
  }

  /** Python's `w in s` for strings. */
  predicate Contains(s: string, w: string)
    decreases |s|
  {
    if |w| > |s| then false
    else s[..|w|] == w || (s != [] && Contains(s[1..], w))
  }

  /** `Contains` holds exactly when the word occurs at some position. */
  lemma {:induction false} ContainsIff(s: string, w: string)
    ensures Contains(s, w) <==> exists i: nat :: OccursAt(s, w, i)
    decreases |s|
  {
    if |w| > |s| {
      forall i: nat ensures !OccursAt(s, w, i) {}
    } else if s[..|w|] == w {
      assert OccursAt(s, w, 0);
    } else {
      assert s != [];
      ContainsIff(s[1..], w);
      if Contains(s[1..], w) {
        var i: nat :| OccursAt(s[1..], w, i);
        assert s[i + 1..i + 1 + |w|] == s[1..][i..i + |w|];
        assert OccursAt(s, w, i + 1);
      } else {
        forall i: nat | OccursAt(s, w, i) ensures false {
          if i > 0 {
            assert s[1..][i - 1..i - 1 + |w|] == s[i..i + |w|];
            assert OccursAt(s[1..], w, i - 1);
          }
        }
      }
    }
  }

  /** A witness position is enough to establish `Contains`. */
  lemma ContainsAt(s: string, w: string, i: nat)
    requires OccursAt(s, w, i)
    ensures Contains(s, w)
  {
    ContainsIff(s, w);
  }

  /** `s.replace(pat, rep)`: every non-overlapping occurrence of `pat`,
      scanning left to right, is replaced by `rep`. */
  function ReplaceAll(s: string, pat: string, rep: string): (r: string)
    requires pat != []
    decreases |s|
  {
    if |s| < |pat| then s
    else if s[..|pat|] == pat then rep + ReplaceAll(s[|pat|..], pat, rep)
    else [s[0]] + ReplaceAll(s[1..], pat, rep)
  }

  /** Replacing a pattern that does not occur leaves the text unchanged. */
  lemma {:induction false} ReplaceAbsent(s: string, pat: string, rep: string)
    requires pat != []
    requires !Contains(s, pat)
    ensures ReplaceAll(s, pat, rep) == s
    decreases |s|
  {
    if |s| >= |pat| {
      assert s[..|pat|] != pat;
      ReplaceAbsent(s[1..], pat, rep);
    }
  }

  /** A text that already starts with the pattern has it replaced in front. */
  lemma ReplaceAtFront(pat: string, rest: string, rep: string)
    requires pat != []
    ensures ReplaceAll(pat + rest, pat, rep) == rep + ReplaceAll(rest, pat, rep)
  {
    assert (pat + rest)[..|pat|] == pat;
    assert (pat + rest)[|pat|..] == rest;
  }

  /** A prefix that does not hold the pattern's first character is copied unchanged. */
  lemma {:induction false} ReplaceSkipsPrefix(pre: string, rest: string, pat: string, rep: string)
    requires pat != []
    requires pat[0] !in pre
    ensures ReplaceAll(pre + rest, pat, rep) == pre + ReplaceAll(rest, pat, rep)
    decreases |pre|
  {
    if pre == [] {
      assert pre + rest == rest;
    } else {
      var s, t := pre + rest, pre[1..] + rest;
      assert s[1..] == t;
      assert pre[0] == s[0];
      ReplaceSkipsPrefix(pre[1..], rest, pat, rep);
      if |s| >= |pat| {
        assert s[..|pat|][0] != pat[0];
        calc {
          ReplaceAll(s, pat, rep);
          [s[0]] + ReplaceAll(t, pat, rep);
          [pre[0]] + (pre[1..] + ReplaceAll(rest, pat, rep));
          { assert [pre[0]] + pre[1..] == pre; }
          pre + ReplaceAll(rest, pat, rep);
        }
      } else {
        assert ReplaceAll(rest, pat, rep) == rest;
      }
    }
  }

  /** A text whose first window differs from the pattern at position `k`
      keeps its first character. */
  lemma ReplaceMisstart(s: string, pat: string, rep: string, k: nat)
    requires pat != [] && k < |pat| <= |s| && s[k] != pat[k]
    ensures ReplaceAll(s, pat, rep) == [s[0]] + ReplaceAll(s[1..], pat, rep)
  {
    assert s[..|pat|][k] != pat[k];
  }

  /** A word holding a character that the text lacks does not occur in it. */
  lemma AbsentChar(s: string, w: string, j: nat)
    requires j < |w| && w[j] !in s
    ensures !Contains(s, w)
  {
    ContainsIff(s, w);
  }

  /** A word that cannot start in `a` and does not occur in `b` does not occur in `a + b`. */
  lemma AbsentSplit(a: string, b: string, w: string)
    requires w != [] && w[0] !in a && !Contains(b, w)
    ensures !Contains(a + b, w)
  {
    ContainsIff(a + b, w);
    ContainsIff(b, w);
    if i: nat :| OccursAt(a + b, w, i) {
      if i >= |a| {
        assert (a + b)[i..i + |w|] == b[i - |a|..i - |a| + |w|];
        assert OccursAt(b, w, i - |a|);
      }
    }
  }

  /** A word that differs from the text's first window at position `k` and
      does not occur after the first character does not occur at all. */
  lemma AbsentMisstart(s: string, w: string, k: nat)
    requires s != [] && k < |w| && (k >= |s| || s[k] != w[k])
    requires !Contains(s[1..], w)
    ensures !Contains(s, w)
  {
    if |w| <= |s| {
      assert s[..|w|][k] != w[k];
    }
  }

  /** Lower-casing twice is lower-casing once. */
  lemma ToLowerIdempotent(s: string)
    ensures ToLower(ToLower(s)) == ToLower(s)
  {
  }
}
