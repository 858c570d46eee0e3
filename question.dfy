/**
 * Question detection (`is_question`): an ordered cascade of tests on the
 * lower-cased, stripped message; the first test that decides wins.
 */
module Question {
  import opened Strings

  /** Lead words and phrases; `bot.py` lists "does" twice. */
  const QuestionStarts: seq<string> := [
    "how", "what", "where", "when", "why", "can", "could", "would", "is", "are", "does",
    "tell me", "explain", "do", "did", "does", "will", "should", "which", "who", "whom",
    "how come", "what if", "why not", "could you"
  ]

  /** Bare interrogative fragments that are rejected on their own. */
  const BareFragments: seq<string> := ["how come", "what if", "why not"]

  /** Request phrases that make a message a question wherever they occur. */
  const ModdingPatterns: seq<string> := [
    "difference between", "vs", "versus", "compare", "tell me about", "explain",
    "how to", "how can", "mod", "modding", "hack", "game crash", "cheat", "unban", "file editing"
  ]

  function Normalize(message: string): string {
    Strip(Lower(message))
  }

  /** A character matched by `\w` (the message is already lower-cased). */
  predicate WordChar(c: char) {
    'a' <= c <= 'z' || 'A' <= c <= 'Z' || '0' <= c <= '9' || c == '_'
  }

  /** `\bw\b` matches at index `i`. */
  predicate WordAt(s: string, w: string, i: int) {
    OccursAt(s, w, i)
    && (i == 0 || !WordChar(s[i - 1]))
    && (i + |w| == |s| || !WordChar(s[i + |w|]))
  }

  /** `\ba\b.*\bb\b`: word `a`, then word `b` later on the same line (`.` does not match a newline). */
  predicate PairOnLine(s: string, a: string, b: string) {
    exists i, j :: 0 <= i && i + |a| <= j <= |s| && WordAt(s, a, i) && WordAt(s, b, j)
                   && '\n' !in s[i + |a|..j]
  }

  /** The alternation searched for by the split-interrogative regular expression. */
  predicate SplitInterrogative(m: string) {
    PairOnLine(m, "how", "come") || PairOnLine(m, "what", "about") || PairOnLine(m, "why", "not")
    || PairOnLine(m, "where", "to") || PairOnLine(m, "who", "else")
  }

  predicate HasLeadWord(m: string) {
    exists w :: w in QuestionStarts && StartsWith(m, w)
  }

  predicate HasRequestPattern(m: string) {
    exists p :: p in ModdingPatterns && Contains(m, p)
  }

  /** `is_question(message)`. */
  predicate IsQuestion(message: string) {
    var m := Normalize(message);
    if '?' in m then true
    else if m in BareFragments then false
    else if HasLeadWord(m) && |Words(m)| > 2 then true
    else if HasRequestPattern(m) then true
    else if SplitInterrogative(m) then true
    else false
  }

  /** A literal `?` anywhere makes a question, ahead of every other test. */
  lemma QuestionMarkWins(message: string)
    requires '?' in message
    ensures IsQuestion(message)
  {
    LowerKeeps(message, '?');
    var i :| 0 <= i < |Lower(message)| && Lower(message)[i] == '?';
    assert !IsSpace(Lower(message)[i]);
  }

  /** A message that normalises to a bare fragment is not a question. */
  lemma BareFragmentsRejected(message: string)
    requires Normalize(message) in BareFragments
    ensures !IsQuestion(message)
  {
  }

  /** Two whitespace-free words separated by one space. */
  lemma {:induction false} TwoWords(a: string, b: string)
    requires a != [] && NoSpace(a) && b != [] && NoSpace(b)
    ensures |Words(a + " " + b)| == 2
  {
    assert a + " " + b == a + (" " + b);
    WordsCons(a, " " + b);
    assert (" " + b)[1..] == b;
    assert b + "" == b;
    WordsCons(b, "");
  }

  /** Each bare fragment has exactly two whitespace-separated tokens. */
  lemma BareFragmentWords(m: string)
    requires m in BareFragments
    ensures |Words(m)| == 2
  {
    if m == "how come" {
      assert m == "how" + " " + "come";
      TwoWords("how", "come");
    } else if m == "what if" {
      assert m == "what" + " " + "if";
      TwoWords("what", "if");
    } else {
      assert m == "why" + " " + "not";
      TwoWords("why", "not");
    }
  }

  /** A lead word (as a raw prefix) and more than two tokens make a question. */
  lemma LeadWordRule(message: string)
    requires HasLeadWord(Normalize(message))
    requires |Words(Normalize(message))| > 2
    ensures IsQuestion(message)
  {
    var m := Normalize(message);
    if m in BareFragments {
      BareFragmentWords(m);
    }
  }

  /** A pattern with a character the message lacks does not occur in it. */
  lemma AbsentChar(m: string, p: string, c: char)
    requires c in p && c !in m
    ensures !Contains(m, p)
  {
    forall i | 0 <= i <= |m| - |p|
      ensures !OccursAt(m, p, i)
    {
      var w := m[i..i + |p|];
      assert forall j :: 0 <= j < |w| ==> w[j] == m[i + j];
      assert c !in w;
    }
  }

  /** No request pattern occurs in "how come": each has a letter out of d, v, a, t, x, g, u, f. */
  lemma NoPatternInHowCome(m: string, p: string)
    requires m == "how come" && p in ModdingPatterns
    ensures !Contains(m, p)
  {
    var c := if 'd' in p then 'd' else if 'v' in p then 'v' else if 'a' in p then 'a'
             else if 't' in p then 't' else if 'x' in p then 'x' else if 'g' in p then 'g'
             else if 'u' in p then 'u' else 'f';
    AbsentChar(m, p, c);
  }

  /** No request pattern occurs in "what if": each has a letter out of d, v, c, l, x, o, u. */
  lemma NoPatternInWhatIf(m: string, p: string)
    requires m == "what if" && p in ModdingPatterns
    ensures !Contains(m, p)
  {
    var c := if 'd' in p then 'd' else if 'v' in p then 'v' else if 'c' in p then 'c'
             else if 'l' in p then 'l' else if 'x' in p then 'x' else if 'o' in p then 'o'
             else 'u';
    AbsentChar(m, p, c);
  }

  /** No request pattern occurs in "why not": "how to" is ruled out position by position,
      every other pattern has a letter out of d, v, c, e, u. */
  lemma NoPatternInWhyNot(m: string, p: string)
    requires m == "why not" && p in ModdingPatterns
    ensures !Contains(m, p)
  {
    if p == "how to" {
      assert !OccursAt(m, p, 0) by { assert m[0..6][0] != p[0]; }
      assert !OccursAt(m, p, 1) by { assert m[1..7][1] != p[1]; }
    } else {
      var c := if 'd' in p then 'd' else if 'v' in p then 'v' else if 'c' in p then 'c'
               else if 'e' in p then 'e' else 'u';
      AbsentChar(m, p, c);
    }
  }

  /** No bare fragment contains a request pattern. */
  lemma BareFragmentsHaveNoPattern(m: string)
    requires m in BareFragments
    ensures !HasRequestPattern(m)
  {
    forall p | p in ModdingPatterns
      ensures !Contains(m, p)
    {
      if m == "how come" {
        NoPatternInHowCome(m, p);
      } else if m == "what if" {
        NoPatternInWhatIf(m, p);
      } else {
        NoPatternInWhyNot(m, p);
      }
    }
  }

  /** A request pattern anywhere in the message makes a question. */
  lemma RequestPatternRule(message: string)
    requires HasRequestPattern(Normalize(message))
    ensures IsQuestion(message)
  {
    var m := Normalize(message);
    if m in BareFragments {
      BareFragmentsHaveNoPattern(m);
    }
  }

  /** The split-interrogative search decides only what the earlier tests left open. */
  lemma SplitInterrogativeRule(message: string)
    requires SplitInterrogative(Normalize(message))
    requires Normalize(message) !in BareFragments
    ensures IsQuestion(message)
  {
  }

  /** The converse: a question passed one of the four positive tests, and was not a bare fragment. */
  lemma QuestionHasReason(message: string)
    requires IsQuestion(message)
    ensures '?' in message
            || (Normalize(message) !in BareFragments
                && ((HasLeadWord(Normalize(message)) && |Words(Normalize(message))| > 2)
                    || HasRequestPattern(Normalize(message))
                    || SplitInterrogative(Normalize(message))))
  {
    if '?' in Normalize(message) {
      LowerKeeps(message, '?');
    }
  }

  /** A lower-case message without edge whitespace is its own normal form. */
  lemma NormalizeUnchanged(m: string)
    requires forall i :: 0 <= i < |m| ==> !IsUpper(m[i])
    requires m == [] || (!IsSpace(m[0]) && !IsSpace(m[|m| - 1]))
    ensures Normalize(m) == m
  {
    LowerOfLower(m);
    StripUnchanged(m);
  }

  /** "how come" is rejected by the bare-fragment guard although the regular expression matches it;
      with a question mark it is a question. */
  lemma HowComeExample(m: string, marked: string)
    requires m == "how come" && marked == "how come?"
    ensures SplitInterrogative(m) && !IsQuestion(m)
    ensures IsQuestion(marked)
  {
    HowComeMatchesRegex(m);
    NormalizeUnchanged(m);
    BareFragmentsRejected(m);
    QuestionMarkWins(marked);
  }

  lemma HowComeMatchesRegex(m: string)
    requires m == "how come"
    ensures PairOnLine(m, "how", "come")
  {
    assert WordAt(m, "how", 0);
    assert WordAt(m, "come", 4);
    assert m[3..4] == " ";
  }

  /** A lead word followed by more words is a question. */
  lemma LeadWordExample(message: string)
    requires message == "how do I fix this crash"
    ensures IsQuestion(message)
  {
    LeadWordExampleFacts(message);
    LeadWordRule(message);
  }

  lemma LeadWordExampleFacts(message: string)
    requires message == "how do I fix this crash"
    ensures HasLeadWord(Normalize(message)) && |Words(Normalize(message))| > 2
  {
    var m := LeadWordExampleLower(message);
    LeadWordExampleWords(m);
  }

  lemma LeadWordExampleLower(message: string) returns (m: string)
    requires message == "how do I fix this crash"
    ensures m == "how do i fix this crash" && Normalize(message) == m
  {
    m := "how do i fix this crash";
    assert Lower(message) == m;
    StripUnchanged(m);
  }

  lemma LeadWordExampleWords(m: string)
    requires m == "how do i fix this crash"
    ensures HasLeadWord(m) && |Words(m)| > 2
  {
    assert "how" in QuestionStarts && StartsWith(m, "how");
    LeadWordExampleCount(m);
  }

  lemma LeadWordExampleCount(m: string)
    requires m == "how do i fix this crash"
    ensures |Words(m)| >= 3
  {
    SpacedWords3(m, "how", "do", "i", " fix this crash");
  }

  /** The lead-word test is a raw prefix test, so "isolated" passes through "is". */
  lemma PrefixNotWordExample(m: string)
    requires m == "isolated x y"
    ensures IsQuestion(m)
  {
    NormalizeUnchanged(m);
    PrefixNotWordFacts(m);
    LeadWordRule(m);
  }

  lemma PrefixNotWordFacts(m: string)
    requires m == "isolated x y"
    ensures HasLeadWord(m) && |Words(m)| > 2
  {
    assert "is" in QuestionStarts && StartsWith(m, "is");
    PrefixNotWordCount(m);
  }

  lemma PrefixNotWordCount(m: string)
    requires m == "isolated x y"
    ensures |Words(m)| == 3
  {
    SpacedWords3(m, "isolated", "x", "y", "");
  }

  /** A request pattern counts wherever it occurs, without a lead word. */
  lemma PatternExample(m: string)
    requires m == "mod support is broken"
    ensures IsQuestion(m)
  {
    NormalizeUnchanged(m);
    PatternExampleFacts(m);
    RequestPatternRule(m);
  }

  lemma PatternExampleFacts(m: string)
    requires m == "mod support is broken"
    ensures HasRequestPattern(m)
  {
    assert OccursAt(m, "mod", 0);
    assert "mod" in ModdingPatterns && Contains(m, "mod");
  }

  /** A short message with no question cue is not a question. */
  lemma ShortMessageExample(m: string)
    requires m == "ok"
    ensures !IsQuestion(m)
  {
    NormalizeUnchanged(m);
    ShortMessageFacts(m);
  }

  lemma ShortMessageFacts(m: string)
    requires m == "ok"
    ensures '?' !in m && m !in BareFragments && !HasLeadWord(m) && !HasRequestPattern(m)
    ensures !SplitInterrogative(m)
  {
    forall w | w in QuestionStarts
      ensures !StartsWith(m, w)
    {
      assert w[0] != m[0];
    }
    forall p | p in ModdingPatterns
      ensures !Contains(m, p)
    {
      if p == "vs" {
        AbsentChar(m, p, 'v');
      }
    }
  }
}
