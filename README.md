# Discord modding help bot — question gate, knowledge matcher, rate limiter, answer pipeline

This project is a Dafny model of the deterministic core of `bot.py`. The bot answers
modding questions in a Discord channel. It works in five steps:

1. **Question detection** (`is_question`). An ordered cascade runs on the lower-cased,
   stripped message:
   - a `?` anywhere makes it a question;
   - the bare fragments "how come", "what if" and "why not" are not questions;
   - a lead-word prefix followed by more than two tokens makes a question;
   - a request phrase anywhere makes a question;
   - a split-interrogative word pair makes a question.
2. **Per-user cooldown** (`is_rate_limited`). The table maps each user to the time of
   their last accepted message. Inside a 20-second window a message is refused.
3. **Knowledge matching** (`find_relevant_knowledge`). The query words are matched by set
   intersection against a two-level knowledge base:
   - name terms are the parts of a key split on `_`;
   - content words are the whitespace-split words of a string fact;
   - a name match wins over a content match;
   - comparison queries trigger a second pass.
4. **Digest** (`summarize_knowledge`). Each matched string fact becomes one line
   `name: <first 100 characters>...`, and the lines are joined with newlines.
5. **Answer decisions** (`generate_response`):
   - when nothing matched, there is no answer and the model is not called;
   - otherwise the trimmed completion is the answer, unless it is the sentinel
     `none` in any letter case.

Modules:

- `wrappers.dfy` (`Wrappers`): `Option`, standing for Python's `None`.
- `strings.dfy` (`Strings`): the `str` operations the bot uses: `lower`, `strip`,
  `split()`, `split('_')`, `"\n".join`, `startswith` and `in`.
- `question.dfy` (`Question`): `IsQuestion` and its rules.
- `knowledge.dfy` (`Knowledge`): the knowledge base and the specification function
  `Relevant`. It also holds the imperative matcher `FindRelevantKnowledge`, whose loops
  are proved to compute `Relevant`, and the inclusion rules proved about `Relevant`.
- `summary.dfy` (`Summary`): the digest, as a loop method `Summarize` proved against
  `SummaryLines`.
- `ratelimit.dfy` (`RateLimit`): the class `RateLimiter`, whose map field is updated in
  place, and the function `Check` that specifies one call. It also states properties of
  call sequences.
- `response.dfy` (`Response`): the prompt, the model request, the sentinel rule, and the
  method `GenerateResponse` that composes the steps.

The knowledge base is an ordered sequence of `(key, Entry)` pairs with distinct keys, where
`Entry = Fact(string) | Section(seq<(string, Leaf)>)` and `Leaf = Text(string) | NonText`.
The order is Python's dict insertion order. It fixes both the order of the match result
and the order of the digest lines. The clock reading and the language model are
parameters.

Behaviour of the code that is easy to miss:

- **Refused messages can add a key.** The rate table is a `defaultdict(float)`. Reading
  an unknown user stores `0.0` for that user, even when the message is refused. A refused
  message therefore keeps every user's recorded time, but it can add a key.
  `RateLimit.Check` states both facts.
- **The comparison pass adds nothing.** It re-inserts only subcategories whose name terms
  meet the query words, and the first pass has already inserted all of them with the same
  value. So the result does not depend on whether a comparison marker is present.
- **Compared entities with compound names are not pulled in.** Query tokens are not split
  on `_`. So "mod_a vs mod_b" does not select the subcategories `mod_a` and `mod_b`
  through their names: their name terms are {"mod", "a"} and {"mod", "b"}. It selects
  them only if their fact text shares a word with the query.
- **Non-string nested values are matched but not summarized.** A nested value that is not
  a string can still be matched by its name. The digest skips it.

## Model

| member | source | states |
|---|---|---|
| Strings.Strip | bot.py:102 | `strip()` returns a slice that neither starts nor ends with whitespace, keeps every non-whitespace character, and adds no character |
| Strings.StripIdempotent | bot.py:235 | trimming an already trimmed text changes nothing |
| Strings.StripPadded | bot.py:235 | `strip()` removes exactly the whitespace padding around a text |
| Strings.Words | bot.py:103 | `split()` yields only non-empty, whitespace-free words |
| Strings.WordsJoin | bot.py:103 | splitting a single-space join of non-empty, whitespace-free words gives back exactly those words, in order |
| Strings.WordsKeepText | bot.py:103 | `split()` drops only whitespace: its words, concatenated in order, are exactly the non-whitespace characters of the text |
| Strings.SplitOn | bot.py:109 | `split('_')` yields at least one piece, and no piece holds the separator |
| Strings.JoinSplitOn | bot.py:109 | joining the pieces of a split with the separator gives back the original string |
| Strings.SplitOnJoin | bot.py:197 | splitting a join of separator-free parts gives back the parts |
| Strings.LowerKeeps | bot.py:140-143 | lower-casing keeps and creates no character other than a letter, such as `?` |
| Question.QuestionMarkWins | bot.py:140-144 | any message containing `?` is a question, before every other test |
| Question.BareFragmentsRejected | bot.py:153-155 | a message that normalises to "how come", "what if" or "why not" is not a question |
| Question.BareFragmentWords | bot.py:154-161 | each bare fragment has exactly two tokens, so the lead-word rule never accepts it |
| Question.LeadWordRule | bot.py:147-161 | a normalised message that starts with a lead word and has more than two tokens is a question |
| Question.BareFragmentsHaveNoPattern | bot.py:154-170 | no request phrase occurs in a bare fragment, so the fragment guard cannot hide a request |
| Question.RequestPatternRule | bot.py:163-170 | a message containing a request phrase anywhere is a question |
| Question.SplitInterrogativeRule | bot.py:172-175 | a message, not a bare fragment, with a word pair such as `how … come` on one line is a question |
| Question.QuestionHasReason | bot.py:140-177 | converse: every question has a `?`, or is not a bare fragment and passes the lead-word, request-phrase or word-pair test |
| Question.NormalizeUnchanged | bot.py:140 | a lower-case message without edge whitespace is its own normal form |
| Question.HowComeExample | bot.py:143-175 | "how come" matches the word-pair search but is rejected as a bare fragment, while "how come?" is a question |
| Question.HowComeMatchesRegex | bot.py:173 | "how come" matches the `how … come` alternative |
| Question.LeadWordExample | bot.py:158-161 | "how do I fix this crash" is a question through its lead word |
| Question.PrefixNotWordExample | bot.py:158-161 | the lead-word test is a raw prefix test: "isolated x y" is a question through "is" |
| Question.PatternExample | bot.py:164-170 | "mod support is broken" is a question through the phrase "mod" |
| Question.ShortMessageExample | bot.py:140-177 | "ok" passes no test and is not a question |
| Knowledge.FindRelevantKnowledge | bot.py:94-136 | the match result equals `Relevant(kb, words)` for the question's word set, which is the knowledge base filtered in order |
| Knowledge.FirstPass | bot.py:105-124 | the two nested loops, with `setdefault(...)[sub] = info` and flat assignment, build exactly `Relevant` |
| Knowledge.ComparisonPass | bot.py:126-133 | the comparison pass leaves the first pass's result unchanged |
| Knowledge.ComparisonStep | bot.py:130-133 | re-inserting a subcategory whose name terms meet the query words changes nothing |
| Knowledge.RelevantLookup | bot.py:106-124 | looking a category up in the result finds nothing when it is not in the base, and otherwise its filtered entry, copied unchanged |
| Knowledge.FlatIncludedIff | bot.py:121-124 | a flat category is in the result, with its unchanged value, exactly when the query words meet its `_`-split lower-case name |
| Knowledge.SubcategoryIncludedIff | bot.py:108-119 | a subcategory is in the result, with its unchanged value, exactly when the query words meet its name terms or its content words |
| Knowledge.RelevantSubsMembers | bot.py:108-119 | the kept part of a section holds exactly the section's relevant pairs |
| Knowledge.NoMatchIff | bot.py:105-124 | the result is empty exactly when no category contributes |
| Knowledge.SectionContributesNothingIff | bot.py:107-119 | a section contributes nothing exactly when none of its subcategories is relevant |
| Knowledge.EmptyTermNeverMatches | bot.py:103-109 | query words are never empty, so the empty name term from `a__b` or a trailing `_` never matches |
| Knowledge.UnderscoreTokenMissesNames | bot.py:103-132 | a query token holding `_` never equals a name term |
| Knowledge.OutOfMemoryExample | bot.py:102-115 | "why out of memory" selects the subcategory `out_of_memory` through its name term "out" |
| Knowledge.UnderscoreComparisonExample | bot.py:103-133 | "mod_a vs mod_b" triggers the comparison pass, yet the subcategories `mod_a` and `mod_b`, with unrelated facts, are not relevant |
| Knowledge.SingleSection | bot.py:106-115 | a one-section base with a relevant subcategory is matched whole |
| Knowledge.GetPut | bot.py:114-124 | assigning a key changes the lookup of that key only |
| Summary.Truncate | bot.py:194-196 | `t[:100]` is a prefix of `t` of length `min(100, len(t))` |
| Summary.Line | bot.py:194-196 | a line starts with `name + ": "` and is at most `len(name) + 105` characters long |
| Summary.Summarize | bot.py:187-197 | the loop builds `"\n".join` of `SummaryLines`: one line per string nested value and per flat fact, in order |
| Summary.SummaryLinesAppend | bot.py:190-196 | lines follow the order of the knowledge: the lines of `a + b` are those of `a`, then those of `b` |
| Summary.SectionLinesCount | bot.py:191-194 | a section gives exactly one line per string value, so non-string values are skipped |
| Summary.SectionLineOf | bot.py:191-194 | every string value of a section has its line in the digest |
| Summary.SectionLineFrom | bot.py:191-194 | every line of a section's digest comes from one of its string values |
| Summary.EmptySummaryIff | bot.py:189-197 | the digest is `""` exactly when there is no flat fact and no nested string value |
| Summary.SummarySplitsIntoLines | bot.py:197 | with newline-free keys and facts, splitting a non-empty digest on `\n` gives back its lines |
| RateLimit.Check | bot.py:179-185 | refused exactly when `now - last < 20`. A refusal keeps the user's recorded time. An acceptance records `now`. The keys gain the user, because of the `defaultdict` read |
| RateLimit.RateLimiter.constructor | bot.py:70 | the table starts empty |
| RateLimit.RateLimiter.IsRateLimited | bot.py:179-185 | the in-place update matches `Check`. When limited, every recorded time is kept. When accepted, the table is the old one with `user := now` |
| RateLimit.StepLastSeen | bot.py:181-185 | only an accepted message of a user moves that user's recorded time |
| RateLimit.OthersUntouched | bot.py:181-185 | a call leaves every other user's entry as it was |
| RateLimit.LastSeenNonDecreasing | bot.py:181-185 | over any sequence of calls, a user's recorded time never decreases |
| RateLimit.Spacing | bot.py:181-185 | two accepted messages of the same user are at least 20 seconds apart, whatever the clock readings |
| RateLimit.RefusalChangesNothing | bot.py:182-183 | a refused call keeps every user's recorded time |
| RateLimit.CooldownScenario | bot.py:179-185 | fixed clock: accepted at `t`, refused at `t + 5` without moving the time, accepted again at `t + 20` |
| RateLimit.NewUserAccepted | bot.py:179-185 | an unseen user is accepted once the clock reads at least 20 |
| Response.Prompt | bot.py:214-216 | the prompt holds the digest and then the question, each verbatim at a fixed position |
| Response.ModelRequest | bot.py:226-233 | the model is asked for at most 200 tokens at temperature 0.3, stopping at "Question:" or a blank line, with echo off |
| Response.Answer | bot.py:235-236 | the answer is absent exactly when the trimmed completion lower-cases to "none". Otherwise it is the trimmed completion, which is trimmed, not the sentinel, and keeps every non-space character |
| Response.GenerateResponse | bot.py:199-240 | the method's answer equals `Respond`: match, then the empty-match exit, then the digest, the prompt, the model call, and the answer |
| Response.ModelCalledIffMatched | bot.py:205-233 | the model is called exactly when some knowledge matched |
| Response.NoMatchNoAnswer | bot.py:205-208 | with no match there is no answer and no model call, whatever the model would say |
| Response.EmptyBaseNeverAnswers | bot.py:73-208 | a base that failed to load is empty, and no question is ever answered |
| Response.AnswerIsGrounded | bot.py:205-236 | an answer implies a non-empty match whose digest was in the prompt. The answer is the model's completion, trimmed and not the sentinel |
| Response.ModelFailureNoAnswer | bot.py:226-240 | a failed model call gives no answer |
| Response.SentinelExample | bot.py:235-236 | " NONE\n" gives no answer |
| Response.NearSentinelExample | bot.py:235-236 | "None of the mods conflict." is an answer, returned as is |

## Left out

- Discord client, event handlers, embeds, replies and `run_bot` (bot.py:64-67, 242-286): event plumbing for an external service. This includes the handler's order (question test, then rate limit) and its skipping of empty answers (`if response:`).
- The Llama model (bot.py:82-92, 226-233): it is a parameter, `llm: Request -> Option<string>`. `None` stands for a failed call or a missing completion.
- Async and concurrency: `asyncio.to_thread` and interleaved handlers. The rate limiter is sequential, so the atomicity of its read-check-write is not modelled.
- Logging (bot.py:12-56, and every `log_with_user_info` call): it has side effects only.
- Loading the knowledge base from JSON (bot.py:73-79): file I/O. A failed load gives an empty base, which `Response.EmptyBaseNeverAnswers` covers.
- Clock and float timestamps: `time.time()` is the `now` parameter. Time is a `real` number of seconds, with no floating-point rounding.
- Unicode: `lower()` folds only ASCII letters, and `\w` in the word-pair search is `[A-Za-z0-9_]`. `strip()` and `split()` use Python's full whitespace set.
- The regular expression engine (bot.py:173): each alternative is stated as "whole word `a`, then whole word `b` later on the same line".
- Flat values that are neither strings nor dicts: `Fact` holds a string. A list value, or the exception that slicing another value would raise in the digest, is not modelled.
- Exceptions raised inside the matcher or the digest (bot.py:238-240): the modelled operations cannot fail. Only the model call's failure is a case.
- `MAX_CONTEXT_LENGTH` (bot.py:62) is defined but never used by the code, so no bound on the prompt length is stated.
