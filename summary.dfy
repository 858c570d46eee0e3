/**
 * The digest of matched knowledge that is placed in the model prompt: one
 * line per string fact, each fact cut to its first 100 characters and
 * marked with "...", the lines joined by newlines.
 */
module Summary {
  import opened Strings
  import opened Knowledge

  /** Facts are cut to this many characters. */
  const TruncateLength: nat := 100

  /** `t[:100]`. */
  function Truncate(t: string): (r: string)
    ensures |r| == if |t| < TruncateLength then |t| else TruncateLength
    ensures StartsWith(t, r)
  {
    if |t| < TruncateLength then t else t[..TruncateLength]
  }

  /** `f"{name}: {t[:100]}..."`. */
  function Line(name: string, t: string): (r: string)
    ensures StartsWith(r, name + ": ")
    ensures |r| <= |name| + 2 + TruncateLength + 3
    ensures r != []
  {
    name + ": " + Truncate(t) + "..."
  }

  /** Lines for the string values of one nested category, in order; other values are skipped. */
  function SectionLines(subs: seq<(string, Leaf)>): (r: seq<string>)
    ensures forall k :: 0 <= k < |r| ==> r[k] != []
    decreases |subs|
  {
    if subs == [] then []
    else
      var n := |subs| - 1;
      var (sub, info) := subs[n];
      SectionLines(subs[..n]) + (if info.Text? then [Line(sub, info.text)] else [])
  }

  /** Lines for one top-level entry. */
  function EntryLines(category: string, content: Entry): (r: seq<string>)
    ensures forall k :: 0 <= k < |r| ==> r[k] != []
  {
    match content
    case Fact(fact) => [Line(category, fact)]
    case Section(subs) => SectionLines(subs)
  }

  /** All lines of the digest, entry by entry, in the order of the knowledge. */
  function SummaryLines(knowledge: KnowledgeBase): (r: seq<string>)
    ensures forall k :: 0 <= k < |r| ==> r[k] != []
    decreases |knowledge|
  {
    if knowledge == [] then []
    else
      var n := |knowledge| - 1;
      SummaryLines(knowledge[..n]) + EntryLines(knowledge[n].0, knowledge[n].1)
  }

  /** The digest string built from the knowledge, as `"\n".join(summary)`. */
  method Summarize(knowledge: KnowledgeBase) returns (summary: string)
    ensures summary == Join(SummaryLines(knowledge), "\n")
  {
    var lines: seq<string> := [];
    for i := 0 to |knowledge|
      invariant lines == SummaryLines(knowledge[..i])
    {
      var (category, content) := knowledge[i];
      assert knowledge[..i + 1][..i] == knowledge[..i];
      if content.Section? {
        ghost var before := lines;
        var subs := content.subs;
        for j := 0 to |subs|
          invariant lines == before + SectionLines(subs[..j])
        {
          assert subs[..j + 1][..j] == subs[..j];
          var (sub, info) := subs[j];
          if info.Text? {
            lines := lines + [Line(sub, info.text)];
          }
        }
        assert subs[..|subs|] == subs;
      } else {
        lines := lines + [Line(category, content.fact)];
      }
    }
    assert knowledge[..|knowledge|] == knowledge;
    summary := Join(lines, "\n");
  }

  /** The digest of the concatenation of two knowledge bases lists the first one's lines first. */
  lemma {:induction false} SummaryLinesAppend(a: KnowledgeBase, b: KnowledgeBase)
    ensures SummaryLines(a + b) == SummaryLines(a) + SummaryLines(b)
    decreases |b|
  {
    if b == [] {
      assert a + b == a;
    } else {
      var n := |b| - 1;
      var ab := a + b;
      assert ab[..|ab| - 1] == a + b[..n] by {
        assert b == b[..n] + [b[n]];
      }
      var e := EntryLines(b[n].0, b[n].1);
      assert SummaryLines(ab) == SummaryLines(a + b[..n]) + e;
      SummaryLinesAppend(a, b[..n]);
      Associate(SummaryLines(a), SummaryLines(b[..n]), e);
    }
  }

  /** Regrouping a concatenation of line sequences; a separate lemma keeps this step out of the larger proof context. */
  lemma Associate(x: seq<string>, y: seq<string>, z: seq<string>)
    ensures (x + y) + z == x + (y + z)
  {
  }

  /** A nested category contributes exactly one line per string value, and one per pair of the sequence at most. */
  lemma {:induction false} SectionLinesCount(subs: seq<(string, Leaf)>)
    ensures |SectionLines(subs)| == |set j | 0 <= j < |subs| && subs[j].1.Text?|
    ensures |SectionLines(subs)| <= |subs|
    decreases |subs|
  {
    if subs != [] {
      var n := |subs| - 1;
      SectionLinesCount(subs[..n]);
      var before := set j | 0 <= j < n && subs[..n][j].1.Text?;
      var after := set j | 0 <= j < |subs| && subs[j].1.Text?;
      if subs[n].1.Text? {
        assert after == before + {n};
      } else {
        assert after == before;
      }
    }
  }

  /** A string value of a nested category has its line in the digest of that category. */
  lemma {:induction false} SectionLineOf(subs: seq<(string, Leaf)>, j: nat)
    requires j < |subs| && subs[j].1.Text?
    ensures Line(subs[j].0, subs[j].1.text) in SectionLines(subs)
    decreases |subs|
  {
    var n := |subs| - 1;
    if j < n {
      SectionLineOf(subs[..n], j);
    }
  }

  /** Every line of a nested category's digest comes from one of its string values. */
  lemma {:induction false} SectionLineFrom(subs: seq<(string, Leaf)>, line: string)
    requires line in SectionLines(subs)
    ensures exists j :: 0 <= j < |subs| && subs[j].1.Text? && line == Line(subs[j].0, subs[j].1.text)
    decreases |subs|
  {
    var n := |subs| - 1;
    if line in SectionLines(subs[..n]) {
      SectionLineFrom(subs[..n], line);
      var j :| 0 <= j < n && subs[..n][j].1.Text? && line == Line(subs[..n][j].0, subs[..n][j].1.text);
      assert subs[..n][j] == subs[j];
    } else {
      assert subs[n].1.Text? && line == Line(subs[n].0, subs[n].1.text);
    }
  }

  /** The digest is empty exactly when the knowledge has no flat fact and no nested string value. */
  lemma {:induction false} EmptySummaryIff(knowledge: KnowledgeBase)
    ensures Join(SummaryLines(knowledge), "\n") == "" <==>
      forall i :: 0 <= i < |knowledge| ==> knowledge[i].1.Section? && SectionLines(knowledge[i].1.subs) == []
  {
    var lines := SummaryLines(knowledge);
    JoinEmptyIff(lines);
    NoLinesIff(knowledge);
  }

  lemma {:induction false} NoLinesIff(knowledge: KnowledgeBase)
    ensures SummaryLines(knowledge) == [] <==>
      forall i :: 0 <= i < |knowledge| ==> knowledge[i].1.Section? && SectionLines(knowledge[i].1.subs) == []
    decreases |knowledge|
  {
    if knowledge != [] {
      var n := |knowledge| - 1;
      var front := knowledge[..n];
      assert knowledge == front + [knowledge[n]];
      NoLinesIff(front);
      assert SummaryLines(knowledge) == SummaryLines(front) + EntryLines(knowledge[n].0, knowledge[n].1);
      assert forall i :: 0 <= i < n ==> front[i] == knowledge[i];
      assert EntryLines(knowledge[n].0, knowledge[n].1) == [] <==>
        knowledge[n].1.Section? && SectionLines(knowledge[n].1.subs) == [];
    }
  }

  /** Non-empty lines joined by newlines give the empty string only when there are no lines. */
  lemma JoinEmptyIff(lines: seq<string>)
    requires forall k :: 0 <= k < |lines| ==> lines[k] != []
    ensures Join(lines, "\n") == "" <==> lines == []
  {
    if |lines| > 1 {
      assert |Join(lines, "\n")| >= |lines[0]|;
    }
  }

  /** No newline survives in a line built from newline-free text. */
  lemma LineNoNewline(name: string, t: string)
    requires '\n' !in name && '\n' !in t
    ensures '\n' !in Line(name, t)
  {
    var r := Truncate(t);
    assert forall c :: c in r ==> c in t;
  }

  /** Knowledge whose keys and string values hold no newline. */
  predicate SingleLineText(knowledge: KnowledgeBase) {
    forall i :: 0 <= i < |knowledge| ==>
      '\n' !in knowledge[i].0 &&
      match knowledge[i].1
      case Fact(fact) => '\n' !in fact
      case Section(subs) => forall j :: 0 <= j < |subs| ==>
        '\n' !in subs[j].0 && (subs[j].1.Text? ==> '\n' !in subs[j].1.text)
  }

  lemma {:induction false} SectionLinesNoNewline(subs: seq<(string, Leaf)>)
    requires forall j :: 0 <= j < |subs| ==> '\n' !in subs[j].0 && (subs[j].1.Text? ==> '\n' !in subs[j].1.text)
    ensures forall k :: 0 <= k < |SectionLines(subs)| ==> '\n' !in SectionLines(subs)[k]
    decreases |subs|
  {
    if subs != [] {
      var n := |subs| - 1;
      assert forall j :: 0 <= j < n ==> subs[..n][j] == subs[j];
      SectionLinesNoNewline(subs[..n]);
      if subs[n].1.Text? {
        LineNoNewline(subs[n].0, subs[n].1.text);
      }
    }
  }

  lemma {:induction false} SummaryLinesNoNewline(knowledge: KnowledgeBase)
    requires SingleLineText(knowledge)
    ensures forall k :: 0 <= k < |SummaryLines(knowledge)| ==> '\n' !in SummaryLines(knowledge)[k]
    decreases |knowledge|
  {
    if knowledge != [] {
      var n := |knowledge| - 1;
      assert forall i :: 0 <= i < n ==> knowledge[..n][i] == knowledge[i];
      SummaryLinesNoNewline(knowledge[..n]);
      match knowledge[n].1
      case Fact(fact) => LineNoNewline(knowledge[n].0, fact);
      case Section(subs) => SectionLinesNoNewline(subs);
    }
  }

  /**
   * When no key or string value holds a newline, splitting a non-empty
   * digest on newlines gives back its lines, one per fact, in order.
   */
  lemma SummarySplitsIntoLines(knowledge: KnowledgeBase)
    requires SingleLineText(knowledge)
    requires SummaryLines(knowledge) != []
    ensures SplitOn(Join(SummaryLines(knowledge), "\n"), '\n') == SummaryLines(knowledge)
  {
    SummaryLinesNoNewline(knowledge);
    SplitOnJoin(SummaryLines(knowledge), '\n');
  }
}
