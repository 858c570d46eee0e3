/**
 * The knowledge base and the matcher (`find_relevant_knowledge`).
 *
 * Python dictionaries keep insertion order, and that order decides the order
 * of the match result and of the summary lines, so every dictionary here is
 * an ordered sequence of (key, value) pairs with distinct keys.
 */
module Knowledge {
  import opened Wrappers
  import opened Strings

  /** The value stored under a subcategory: a fact string, or any other JSON value. */
  datatype Leaf = Text(text: string) | NonText

  /** The value stored under a category: a flat fact, or a nested dictionary of subcategories. */
  datatype Entry = Fact(fact: string) | Section(subs: seq<(string, Leaf)>)

  /** The knowledge base and every match result: category -> entry, in insertion order. */
  type KnowledgeBase = seq<(string, Entry)>

  /** Dictionary keys are distinct. */
  predicate DistinctKeys<V>(d: seq<(string, V)>) {
    forall i, j :: 0 <= i < j < |d| ==> d[i].0 != d[j].0
  }

  /** What a JSON object loaded as a dictionary guarantees: distinct keys at both levels. */
  predicate WellFormed(kb: KnowledgeBase) {
    DistinctKeys(kb) && forall i :: 0 <= i < |kb| && kb[i].1.Section? ==> DistinctKeys(kb[i].1.subs)
  }

  /** `d.get(k)`. */
  function Get<V>(d: seq<(string, V)>, k: string): Option<V> {
    if d == [] then None else if d[0].0 == k then Some(d[0].1) else Get(d[1..], k)
  }

  /** `d[k] = v`: an existing key keeps its position, a new key goes last. */
  function Put<V>(d: seq<(string, V)>, k: string, v: V): seq<(string, V)> {
    if d == [] then [(k, v)]
    else if d[0].0 == k then [(k, v)] + d[1..]
    else [d[0]] + Put(d[1..], k, v)
  }

  /** A key is absent exactly when no pair carries it. */
  lemma {:induction false} GetNone<V>(d: seq<(string, V)>, k: string)
    ensures Get(d, k) == None <==> forall i :: 0 <= i < |d| ==> d[i].0 != k
  {
    if d != [] && d[0].0 != k {
      GetNone(d[1..], k);
      assert forall i :: 1 <= i < |d| ==> d[i] == d[1..][i - 1];
    }
  }

  /** With distinct keys, each pair is what its key looks up. */
  lemma {:induction false} GetDistinct<V>(d: seq<(string, V)>, i: nat)
    requires DistinctKeys(d) && i < |d|
    ensures Get(d, d[i].0) == Some(d[i].1)
  {
    if i > 0 {
      GetDistinct(d[1..], i - 1);
    }
  }

  /** Looking up in a concatenation looks in the first part first. */
  lemma {:induction false} GetAppend<V>(a: seq<(string, V)>, b: seq<(string, V)>, k: string)
    ensures Get(a + b, k) == if Get(a, k).Some? then Get(a, k) else Get(b, k)
  {
    if a != [] {
      assert (a + b)[1..] == a[1..] + b;
      GetAppend(a[1..], b, k);
    } else {
      assert a + b == b;
    }
  }

  /** Assignment and lookup: the assigned key reads back the new value, every other key is untouched. */
  lemma {:induction false} GetPut<V>(d: seq<(string, V)>, k: string, v: V, k': string)
    ensures Get(Put(d, k, v), k') == if k' == k then Some(v) else Get(d, k')
  {
    if d != [] && d[0].0 != k {
      GetPut(d[1..], k, v, k');
    }
  }

  /** Assigning a new key appends it. */
  lemma {:induction false} PutAbsent<V>(d: seq<(string, V)>, k: string, v: V)
    requires Get(d, k) == None
    ensures Put(d, k, v) == d + [(k, v)]
  {
    if d != [] {
      PutAbsent(d[1..], k, v);
    }
  }

  /** Re-assigning the value a key already has changes nothing. */
  lemma {:induction false} PutSame<V>(d: seq<(string, V)>, k: string, v: V)
    requires Get(d, k) == Some(v)
    ensures Put(d, k, v) == d
  {
    if d[0].0 != k {
      PutSame(d[1..], k, v);
    }
  }

  /** Re-assigning the key of the last pair replaces that pair in place. */
  lemma {:induction false} PutLast<V>(d: seq<(string, V)>, k: string, v0: V, v: V)
    requires Get(d, k) == None
    ensures Put(d + [(k, v0)], k, v) == d + [(k, v)]
  {
    if d == [] {
      assert d + [(k, v0)] == [(k, v0)];
    } else {
      assert (d + [(k, v0)])[1..] == d[1..] + [(k, v0)];
      PutLast(d[1..], k, v0, v);
    }
  }

  /** In a dictionary with distinct keys, no key occurs before its own position. */
  lemma DistinctPrefix<V>(d: seq<(string, V)>, i: nat)
    requires DistinctKeys(d) && i < |d|
    ensures Get(d[..i], d[i].0) == None
  {
    GetNone(d[..i], d[i].0);
  }

  /** `set(question.lower().strip().split())`. */
  function QueryWords(question: string): set<string> {
    set w | w in Words(Strip(Lower(question)))
  }

  /** `set(name.lower().split('_'))`. */
  function NameTerms(name: string): set<string> {
    set t | t in SplitOn(Lower(name), '_')
  }

  /** `set(info.lower().split())` for a string, the empty set for any other value. */
  function ContentWords(info: Leaf): set<string> {
    match info
    case Text(t) => set w | w in Words(Lower(t))
    case NonText => {}
  }

  /** `words & terms` is non-empty. */
  predicate Hits(words: set<string>, terms: set<string>) {
    words * terms != {}
  }

  /** A subcategory is relevant when the query meets its name terms or else its content words. */
  predicate SubcategoryRelevant(words: set<string>, sub: string, info: Leaf) {
    Hits(words, NameTerms(sub)) || Hits(words, ContentWords(info))
  }

  /** The relevant subcategories of a section, in their order. */
  function RelevantSubs(words: set<string>, subs: seq<(string, Leaf)>): seq<(string, Leaf)>
    decreases |subs|
  {
    if subs == [] then []
    else
      var n := |subs| - 1;
      RelevantSubs(words, subs[..n])
      + (if SubcategoryRelevant(words, subs[n].0, subs[n].1) then [subs[n]] else [])
  }

  /** What a category contributes to the match result, if anything. */
  function RelevantEntry(words: set<string>, category: string, content: Entry): Option<Entry> {
    match content
    case Fact(_) => if Hits(words, NameTerms(category)) then Some(content) else None
    case Section(subs) =>
      var kept := RelevantSubs(words, subs);
      if kept == [] then None else Some(Section(kept))
  }

  /** The match result the matcher must produce: the knowledge base filtered, in its order. */
  function Relevant(kb: KnowledgeBase, words: set<string>): KnowledgeBase
    decreases |kb|
  {
    if kb == [] then []
    else
      var n := |kb| - 1;
      Relevant(kb[..n], words) + Contribution(words, kb[n].0, kb[n].1)
  }

  /** The pairs one category adds to the match result: none, or itself with its relevant part. */
  function Contribution(words: set<string>, category: string, content: Entry): KnowledgeBase {
    match RelevantEntry(words, category, content)
    case None => []
    case Some(e) => [(category, e)]
  }

  /** Words that mark a comparison question. */
  const ComparisonMarkers: set<string> := {"difference", "compare", "vs", "versus"}

  /** `result.setdefault(category, {})[sub] = info`. */
  function SetDefaultPut(result: KnowledgeBase, category: string, sub: string, info: Leaf): KnowledgeBase {
    var found: Option<Entry> := Get(result, category);
    var inner: seq<(string, Leaf)> := match found
      case Some(Section(subs)) => subs
      case _ => [];
    Put(result, category, Section(Put(inner, sub, info)))
  }

  /** The section being built for a category while its subcategories are scanned. */
  function Pending(category: string, kept: seq<(string, Leaf)>): KnowledgeBase {
    if kept == [] then [] else [(category, Section(kept))]
  }

  /**
   * `find_relevant_knowledge(question)` over the knowledge base `kb`.
   * The comparison pass re-inserts only subcategories the first pass has
   * already inserted, so the result is the filtered knowledge base whether or
   * not the query holds a comparison marker.
   */
  method FindRelevantKnowledge(kb: KnowledgeBase, question: string) returns (relevant: KnowledgeBase)
    requires WellFormed(kb)
    ensures relevant == Relevant(kb, QueryWords(question))
  {
    var words := QueryWords(question);
    relevant := FirstPass(kb, words);
    if ComparisonMarkers * words != {} {
      relevant := ComparisonPass(kb, words, relevant);
    }
  }

  /** Name and content matching: every category in order, and within a section every subcategory in order. */
  method FirstPass(kb: KnowledgeBase, words: set<string>) returns (relevant: KnowledgeBase)
    requires WellFormed(kb)
    ensures relevant == Relevant(kb, words)
  {
    relevant := [];
    for i := 0 to |kb|
      invariant relevant == Relevant(kb[..i], words)
    {
      var category := kb[i].0;
      ghost var before := relevant;
      PrefixStep(kb, words, i);
      if kb[i].1.Section? {
        var subs := kb[i].1.subs;
        for j := 0 to |subs|
          invariant relevant == before + Pending(category, RelevantSubs(words, subs[..j]))
        {
          var subcategory := subs[j].0;
          var info := subs[j].1;
          SubsStep(words, subs, j);
          if Hits(words, NameTerms(subcategory)) {
            // a name match wins and the content is not looked at
            SectionStep(kb, words, i, j);
            relevant := SetDefaultPut(relevant, category, subcategory, info);
          } else if Hits(words, ContentWords(info)) {
            SectionStep(kb, words, i, j);
            relevant := SetDefaultPut(relevant, category, subcategory, info);
          } else {
            assert RelevantSubs(words, subs[..j + 1]) == RelevantSubs(words, subs[..j]);
          }
        }
        assert subs[..|subs|] == subs;
      } else {
        if Hits(words, NameTerms(category)) {
          RelevantPrefixAbsent(kb, words, i);
          PutAbsent(relevant, category, kb[i].1);
          relevant := Put(relevant, category, kb[i].1);
        }
      }
    }
    assert kb[..|kb|] == kb;
  }

  /**
   * The pass run for comparison queries: every subcategory whose name
   * terms meet the query words is written again, with its own value.
   */
  method ComparisonPass(kb: KnowledgeBase, words: set<string>, first: KnowledgeBase) returns (relevant: KnowledgeBase)
    requires WellFormed(kb) && first == Relevant(kb, words)
    ensures relevant == first
  {
    relevant := first;
    for i := 0 to |kb|
      invariant relevant == Relevant(kb, words)
    {
      if kb[i].1.Section? {
        var subs := kb[i].1.subs;
        for j := 0 to |subs|
          invariant relevant == Relevant(kb, words)
        {
          if Hits(words, NameTerms(subs[j].0)) {
            ComparisonStep(kb, words, i, j);
            relevant := SetDefaultPut(relevant, kb[i].0, subs[j].0, subs[j].1);
          }
        }
      }
    }
  }

  // ---- proof steps of the matcher ----

  lemma SubsStep(words: set<string>, subs: seq<(string, Leaf)>, j: nat)
    requires j < |subs|
    ensures RelevantSubs(words, subs[..j + 1])
            == RelevantSubs(words, subs[..j])
               + (if SubcategoryRelevant(words, subs[j].0, subs[j].1) then [subs[j]] else [])
  {
    assert subs[..j + 1][..j] == subs[..j];
  }

  lemma PrefixStep(kb: KnowledgeBase, words: set<string>, i: nat)
    requires i < |kb|
    ensures Relevant(kb[..i + 1], words)
            == Relevant(kb[..i], words) + Contribution(words, kb[i].0, kb[i].1)
  {
    assert kb[..i + 1][..i] == kb[..i];
  }

  /** Every key of the relevant subcategories is a key of the section. */
  lemma {:induction false} RelevantSubsAbsent(words: set<string>, subs: seq<(string, Leaf)>, k: string)
    requires Get(subs, k) == None
    ensures Get(RelevantSubs(words, subs), k) == None
    decreases |subs|
  {
    if subs != [] {
      var n := |subs| - 1;
      GetNone(subs, k);
      GetNone(subs[..n], k);
      RelevantSubsAbsent(words, subs[..n], k);
      GetAppend(RelevantSubs(words, subs[..n]), if SubcategoryRelevant(words, subs[n].0, subs[n].1) then [subs[n]] else [], k);
    }
  }

  /** Every category of the match result is a category of the knowledge base. */
  lemma {:induction false} RelevantAbsent(kb: KnowledgeBase, words: set<string>, k: string)
    requires Get(kb, k) == None
    ensures Get(Relevant(kb, words), k) == None
    decreases |kb|
  {
    if kb != [] {
      var n := |kb| - 1;
      GetNone(kb, k);
      GetNone(kb[..n], k);
      RelevantAbsent(kb[..n], words, k);
      GetAppend(Relevant(kb[..n], words), Contribution(words, kb[n].0, kb[n].1), k);
    }
  }

  lemma RelevantPrefixAbsent(kb: KnowledgeBase, words: set<string>, i: nat)
    requires DistinctKeys(kb) && i < |kb|
    ensures Get(Relevant(kb[..i], words), kb[i].0) == None
  {
    DistinctPrefix(kb, i);
    RelevantAbsent(kb[..i], words, kb[i].0);
  }

  /** One relevant subcategory added by the first pass extends the pending section. */
  lemma SectionStep(kb: KnowledgeBase, words: set<string>, i: nat, j: nat)
    requires WellFormed(kb) && i < |kb| && kb[i].1.Section? && j < |kb[i].1.subs|
    requires SubcategoryRelevant(words, kb[i].1.subs[j].0, kb[i].1.subs[j].1)
    ensures var subs := kb[i].1.subs;
            SetDefaultPut(Relevant(kb[..i], words) + Pending(kb[i].0, RelevantSubs(words, subs[..j])),
                          kb[i].0, subs[j].0, subs[j].1)
            == Relevant(kb[..i], words) + Pending(kb[i].0, RelevantSubs(words, subs[..j + 1]))
  {
    var category := kb[i].0;
    var subs := kb[i].1.subs;
    var sub := subs[j].0;
    var info := subs[j].1;
    var before := Relevant(kb[..i], words);
    var kept := RelevantSubs(words, subs[..j]);
    SubsStep(words, subs, j);
    RelevantPrefixAbsent(kb, words, i);
    DistinctPrefix(subs, j);
    RelevantSubsAbsent(words, subs[..j], sub);
    if kept == [] {
      assert before + Pending(category, kept) == before;
      assert RelevantSubs(words, subs[..j + 1]) == [(sub, info)];
      assert Put([], sub, info) == [(sub, info)];
      PutAbsent(before, category, Section([(sub, info)]));
    } else {
      GetAppend(before, [(category, Section(kept))], category);
      PutAbsent(kept, sub, info);
      PutLast(before, category, Section(kept), Section(kept + [(sub, info)]));
    }
  }

  /** The comparison pass re-inserts a subcategory the first pass already holds, with its value. */
  lemma ComparisonStep(kb: KnowledgeBase, words: set<string>, i: nat, j: nat)
    requires WellFormed(kb) && i < |kb| && kb[i].1.Section? && j < |kb[i].1.subs|
    requires Hits(words, NameTerms(kb[i].1.subs[j].0))
    ensures SetDefaultPut(Relevant(kb, words), kb[i].0, kb[i].1.subs[j].0, kb[i].1.subs[j].1)
            == Relevant(kb, words)
  {
    var subs := kb[i].1.subs;
    GetRelevant(kb, words, i);
    GetRelevantSubs(words, subs, j);
    var kept := RelevantSubs(words, subs);
    PutSame(kept, subs[j].0, subs[j].1);
    PutSame(Relevant(kb, words), kb[i].0, Section(kept));
  }

  /** Looking a subcategory up in the relevant part of a section. */
  lemma {:induction false} GetRelevantSubs(words: set<string>, subs: seq<(string, Leaf)>, j: nat)
    requires DistinctKeys(subs) && j < |subs|
    ensures Get(RelevantSubs(words, subs), subs[j].0)
            == if SubcategoryRelevant(words, subs[j].0, subs[j].1) then Some(subs[j].1) else None
    decreases |subs|
  {
    var n := |subs| - 1;
    var last := if SubcategoryRelevant(words, subs[n].0, subs[n].1) then [subs[n]] else [];
    assert RelevantSubs(words, subs) == RelevantSubs(words, subs[..n]) + last;
    GetAppend(RelevantSubs(words, subs[..n]), last, subs[j].0);
    if j == n {
      DistinctPrefix(subs, n);
      RelevantSubsAbsent(words, subs[..n], subs[n].0);
    } else {
      assert subs[..n][j] == subs[j];
      GetRelevantSubs(words, subs[..n], j);
    }
  }

  /** Looking a category up in the match result. */
  lemma {:induction false} GetRelevant(kb: KnowledgeBase, words: set<string>, i: nat)
    requires WellFormed(kb) && i < |kb|
    ensures Get(Relevant(kb, words), kb[i].0) == RelevantEntry(words, kb[i].0, kb[i].1)
    decreases |kb|
  {
    var n := |kb| - 1;
    GetAppend(Relevant(kb[..n], words), Contribution(words, kb[n].0, kb[n].1), kb[i].0);
    if i == n {
      RelevantPrefixAbsent(kb, words, n);
    } else {
      assert kb[..n][i] == kb[i];
      WellFormedPrefix(kb, n);
      GetRelevant(kb[..n], words, i);
    }
  }

  lemma WellFormedPrefix(kb: KnowledgeBase, n: nat)
    requires WellFormed(kb) && n <= |kb|
    ensures WellFormed(kb[..n])
  {
    assert forall i :: 0 <= i < n ==> kb[..n][i] == kb[i];
  }

  // ---- properties of the match result ----

  /** Looking a subcategory up in a match result. */
  function LookupSub(result: KnowledgeBase, category: string, sub: string): Option<Leaf> {
    var found: Option<Entry> := Get(result, category);
    match found
    case Some(Section(subs)) => Get(subs, sub)
    case _ => None
  }

  /**
   * Looking a category up in the match result is looking it up in the
   * knowledge base and keeping its relevant part: nothing that is not in the
   * knowledge base appears, and what appears is taken from it.
   */
  lemma RelevantLookup(kb: KnowledgeBase, words: set<string>, category: string)
    requires WellFormed(kb)
    ensures Get(Relevant(kb, words), category)
            == match Get(kb, category)
               case None => None
               case Some(content) => RelevantEntry(words, category, content)
  {
    GetNone(kb, category);
    if Get(kb, category) == None {
      RelevantAbsent(kb, words, category);
    } else {
      var i :| 0 <= i < |kb| && kb[i].0 == category;
      GetDistinct(kb, i);
      GetRelevant(kb, words, i);
    }
  }

  /** A flat category is in the result, unchanged, exactly when the query meets its name terms. */
  lemma FlatIncludedIff(kb: KnowledgeBase, words: set<string>, i: nat)
    requires WellFormed(kb) && i < |kb| && kb[i].1.Fact?
    ensures Get(Relevant(kb, words), kb[i].0)
            == if Hits(words, NameTerms(kb[i].0)) then Some(kb[i].1) else None
  {
    GetRelevant(kb, words, i);
  }

  /**
   * A nested subcategory is in the result, with its value unchanged, exactly
   * when the query meets its name terms or its content words.
   */
  lemma SubcategoryIncludedIff(kb: KnowledgeBase, words: set<string>, i: nat, j: nat)
    requires WellFormed(kb) && i < |kb| && kb[i].1.Section? && j < |kb[i].1.subs|
    ensures var sub := kb[i].1.subs[j];
            LookupSub(Relevant(kb, words), kb[i].0, sub.0)
            == if SubcategoryRelevant(words, sub.0, sub.1) then Some(sub.1) else None
  {
    var subs := kb[i].1.subs;
    GetRelevant(kb, words, i);
    GetRelevantSubs(words, subs, j);
  }

  /** The relevant part of a section holds exactly its relevant pairs, copied unchanged. */
  lemma {:induction false} RelevantSubsMembers(words: set<string>, subs: seq<(string, Leaf)>, p: (string, Leaf))
    ensures p in RelevantSubs(words, subs) <==> p in subs && SubcategoryRelevant(words, p.0, p.1)
    decreases |subs|
  {
    if subs != [] {
      var n := |subs| - 1;
      RelevantSubsMembers(words, subs[..n], p);
      assert subs == subs[..n] + [subs[n]];
    }
  }

  /** The match result is empty exactly when no category contributes anything. */
  lemma {:induction false} NoMatchIff(kb: KnowledgeBase, words: set<string>)
    ensures Relevant(kb, words) == []
            <==> forall i :: 0 <= i < |kb| ==> RelevantEntry(words, kb[i].0, kb[i].1) == None
    decreases |kb|
  {
    if kb != [] {
      var n := |kb| - 1;
      var c := Contribution(words, kb[n].0, kb[n].1);
      assert Relevant(kb, words) == Relevant(kb[..n], words) + c;
      assert c == [] <==> RelevantEntry(words, kb[n].0, kb[n].1) == None;
      NoMatchIff(kb[..n], words);
      assert forall i :: 0 <= i < n ==> kb[..n][i] == kb[i];
    }
  }

  /** A section contributes nothing exactly when none of its subcategories is relevant. */
  lemma SectionContributesNothingIff(words: set<string>, category: string, subs: seq<(string, Leaf)>)
    ensures RelevantEntry(words, category, Section(subs)) == None
            <==> forall j :: 0 <= j < |subs| ==> !SubcategoryRelevant(words, subs[j].0, subs[j].1)
  {
    var kept := RelevantSubs(words, subs);
    if kept != [] {
      RelevantSubsMembers(words, subs, kept[0]);
    }
    forall j | 0 <= j < |subs| && SubcategoryRelevant(words, subs[j].0, subs[j].1)
      ensures kept != []
    {
      RelevantSubsMembers(words, subs, subs[j]);
    }
  }

  /** Query words are never empty, so an empty name term (from "a__b" or a trailing "_") never matches. */
  lemma EmptyTermNeverMatches(question: string)
    ensures "" !in QueryWords(question)
  {
    var ws := Words(Strip(Lower(question)));
    assert forall k :: 0 <= k < |ws| ==> ws[k] != "";
  }

  // ---- worked examples ----

  /** A query word that is one of the underscore-separated parts of a subcategory name selects it. */
  lemma OutOfMemoryExample(kb: KnowledgeBase, question: string)
    requires kb == [("crash_fixes", Section([("out_of_memory", Text("increase virtual memory"))]))]
    requires question == "why out of memory"
    ensures Relevant(kb, QueryWords(question)) == kb
  {
    var words := QueryWords(question);
    var section := kb[0].1.subs[0];
    OutOfMemoryQuery(question);
    OutOfMemoryName(section.0);
    assert "out" in words * NameTerms(section.0);
    SingleSection(words, kb[0].0, section.0, section.1);
  }

  lemma OutOfMemoryQuery(question: string)
    requires question == "why out of memory"
    ensures "out" in QueryWords(question)
  {
    LowerOfLower(question);
    StripUnchanged(question);
    PlainQuery(question);
    OutOfMemoryWords(question);
  }

  lemma OutOfMemoryWords(m: string)
    requires m == "why out of memory"
    ensures "out" in Words(m)
  {
    SpacedWords3(m, "why", "out", "of", " memory");
  }

  /** A query already in lower case and without surrounding whitespace is split as it stands. */
  lemma PlainQuery(question: string)
    requires Lower(question) == question
    requires Strip(question) == question
    ensures QueryWords(question) == set w | w in Words(question)
  {
  }

  lemma OutOfMemoryName(name: string)
    requires name == "out_of_memory"
    ensures "out" in NameTerms(name)
  {
    LowerOfLower(name);
    assert name == "out" + "_of_memory";
    PieceLenOf("out", "_of_memory", '_');
    assert SplitOn(name, '_')[0] == "out";
  }

  /** A knowledge base of one section with one relevant subcategory is matched whole. */
  lemma SingleSection(words: set<string>, category: string, sub: string, info: Leaf)
    requires SubcategoryRelevant(words, sub, info)
    ensures Relevant([(category, Section([(sub, info)]))], words) == [(category, Section([(sub, info)]))]
  {
    var subs := [(sub, info)];
    assert subs[..0] == [];
    assert RelevantSubs(words, subs) == subs;
    var kb := [(category, Section(subs))];
    assert kb[..0] == [];
  }

  /**
   * A comparison between two underscore-named subcategories does not select
   * them by name: the query token "mod_a" is not split on underscores, so it
   * never meets the name terms {"mod", "a"}, although the comparison pass runs.
   */
  lemma UnderscoreComparisonExample(question: string, name: string, right: string, fact: string)
    requires question == "mod_a vs mod_b"
    requires name == "mod_" + right && (right == "a" || right == "b")
    requires fact == "first" || fact == "second"
    ensures ComparisonMarkers * QueryWords(question) != {}
    ensures !SubcategoryRelevant(QueryWords(question), name, Text(fact))
  {
    UnderscoreMarker(question);
    UnderscoreNotRelevant(question, name, right, fact);
  }

  /** A query token holding an underscore never equals a name term, since names are split on underscores. */
  lemma UnderscoreTokenMissesNames(w: string, name: string)
    requires '_' in w
    ensures w !in NameTerms(name)
  {
    var parts := SplitOn(Lower(name), '_');
    assert forall k :: 0 <= k < |parts| ==> '_' !in parts[k];
  }

  lemma UnderscoreMarker(question: string)
    requires question == "mod_a vs mod_b"
    ensures "vs" in ComparisonMarkers * QueryWords(question)
  {
    var ws := UnderscoreQueryWords(question);
    assert "vs" in ws;
  }

  lemma UnderscoreNotRelevant(question: string, name: string, right: string, fact: string)
    requires question == "mod_a vs mod_b"
    requires name == "mod_" + right && (right == "a" || right == "b")
    requires fact == "first" || fact == "second"
    ensures !SubcategoryRelevant(QueryWords(question), name, Text(fact))
  {
    var ws := UnderscoreQueryWords(question);
    UnderscoreNameTerms(name, "mod", right);
    FactWords(fact);
  }

  lemma UnderscoreQueryWords(question: string) returns (ws: seq<string>)
    requires question == "mod_a vs mod_b"
    ensures ws == ["mod_a", "vs", "mod_b"]
    ensures QueryWords(question) == set w | w in ws
  {
    ws := ["mod_a", "vs", "mod_b"];
    LowerOfLower(question);
    StripUnchanged(question);
    PlainQuery(question);
    UnderscoreWords(question);
  }

  lemma UnderscoreWords(m: string)
    requires m == "mod_a vs mod_b"
    ensures Words(m) == ["mod_a", "vs", "mod_b"]
  {
    SpacedWords3(m, "mod_a", "vs", "mod_b", "");
  }

  lemma UnderscoreNameTerms(name: string, left: string, right: string)
    requires name == left + "_" + right && left == "mod" && (right == "a" || right == "b")
    ensures NameTerms(name) == {left, right}
  {
    LowerOfLower(name);
    assert name == left + ("_" + right);
    PieceLenOf(left, "_" + right, '_');
    assert name[|left| + 1..] == right;
    assert right == right + "";
    PieceLenOf(right, "", '_');
    assert SplitOn(name, '_') == [left, right];
  }

  lemma FactWords(fact: string)
    requires fact == "first" || fact == "second"
    ensures ContentWords(Text(fact)) == {fact}
  {
    LowerOfLower(fact);
    assert fact == fact + "";
    WordsCons(fact, "");
  }
}
