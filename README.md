# Deterministic core of the agentic-AI examples

The repository's agents are mostly calls to language models, search
services and image generators. Around those calls sit a few deterministic
routines that decide what the agents do with the replies. This project
models them in Dafny and proves what they promise:

- **Plan executor** of the customer-service agent (`PlanExecutor`). It
  cuts the code out of a `<execute_python>…</execute_python>` block,
  ignoring case and taking the first block. It runs the plan against a
  fixed set of bindings, with stdout captured and restored, and the fault
  kept as text. The answer is the first truthy value of `answer_text`,
  `answer_rows` and `answer_json`.
- **Preferred-domain evaluator** (`DomainEvaluator`). It finds the
  `http(s)://` URLs of a research text with the same leftmost, greedy scan
  as `findall`. It takes each URL's host, and marks a URL preferred when a
  preferred domain occurs inside that host. The text passes when the
  preferred share reaches a threshold. The result comes with a Markdown
  report that lists one detail line per URL.
- **Research executor** (`ResearchExecutor`). `clean_json_block` removes
  a Markdown fence from a model's JSON reply. `executor_agent` runs the
  plan, cut to four steps on request. It routes every step through the
  agent registry, gives each agent the numbered context of earlier steps,
  and records one history entry per step.
- **SQL reflection** (`SqlReflection`). This decides the feedback and the
  refined query taken from a reviewer model's reply. It falls back when
  the reply is not a JSON object, and when the refined query is missing or
  blank.
- **Market-research agents** (`MarketAgents`). The JSON span of a reply
  runs from its first `{` to its last `}`. The graphic designer builds its
  four-entry record from that span. The copywriter falls back to an error
  record, and tags its result with the image path, in place. With a
  decoder that, like `json.loads`, turns a text starting with `{` into a
  dict, the copywriter always succeeds.

Shared pieces:

- `PyBase` holds `Option`, `Result`, the Python exceptions that escape,
  an abstract decoded JSON value, and a dict class that is updated in
  place.
- `PyStr` holds the string primitives the routines rely on, written out
  as Python defines them:
  - `str.strip` over the `isspace` characters;
  - `re.IGNORECASE` literal search, where U+0130 and U+0131 match `i`,
    U+017F matches `s` and U+212A matches `k`;
  - `split` and `join`;
  - decimal rendering.

The outside world is given to each operation as a parameter. This covers:

- the language model's reply (`decide`, `reply`, `content`);
- `json.loads` (`JsonLoads`);
- the `exec` of a plan (`PlanRun`, a function from the code, the
  namespaces and the tables to the new locals, the new tables, the
  printed text and an optional fault);
- the image generator;
- the registered agents;
- the f-string percent formatting.

The ratio is an exact `real`.

`_extract_execute_block` (`M5_UGL_1_R.py:334-335`) raises only on the
empty string. A text made only of whitespace is accepted and yields the
empty block, as `PlanExecutor.WhitespaceOnlyGivesEmptyBlock` states.

The answer follows Python's `or`. When neither `answer_text` nor
`answer_rows` is truthy, the answer is whatever `answer_json` holds, even
a falsy value such as `[]`. It is None only when `answer_json` is unbound
or None.

## Model

| member | source | states |
|---|---|---|
| PlanExecutor.TagMatch | agentic_ai/muti_agent_example/customer_service_agent/M5_UGL_1_R.py:336 | The search for the first open tag and the nearest close tag after it, ignoring case. `TagMatchIsLeftmostLazy` states that this is the leftmost, non-greedy match. |
| PlanExecutor.TagMatchIsLeftmostLazy | agentic_ai/muti_agent_example/customer_service_agent/M5_UGL_1_R.py:336 | The tag match found is a case-insensitive open tag followed by a close tag. No open tag starts earlier, and no close tag ends the block sooner (non-greedy). There is no match exactly when no open tag is followed by a close tag. |
| PlanExecutor.ExtractExecuteBlock | agentic_ai/muti_agent_example/customer_service_agent/M5_UGL_1_R.py:329-337 | Only the empty string raises, with `RuntimeError("Empty content passed to code executor.")`. Every result is trimmed. Without a tag pair the result is the stripped text. With one, it is the stripped text between the first open tag and the nearest close tag after it. |
| PlanExecutor.WhitespaceOnlyGivesEmptyBlock | agentic_ai/muti_agent_example/customer_service_agent/M5_UGL_1_R.py:334-337 | A non-empty text made only of whitespace is accepted and yields the empty block. |
| PlanExecutor.FirstAngleMatch | agentic_ai/muti_agent_example/customer_service_agent/M5_UGL_1_R.py:336 | A tag, which starts with `<`, found with no `<` before it in the search window is the first match of the search. |
| PlanExecutor.TaggedBlockIsExtracted | agentic_ai/muti_agent_example/customer_service_agent/M5_UGL_1_R.py:336-337 | Take an open tag at `p` with no `<` before it, and a close tag at `q` with no `<` between the two. Then the match is `(p, q)` and the result is the stripped text between them. |
| PlanExecutor.LaterBlocksIgnored | agentic_ai/muti_agent_example/customer_service_agent/M5_UGL_1_R.py:336-337 | Once a text holds a tag pair, appending any text leaves the extracted block unchanged. |
| PlanExecutor.SelectAnswer | agentic_ai/muti_agent_example/customer_service_agent/M5_UGL_1_R.py:382-386 | The answer is truthy exactly when one of the three names holds a truthy value. It is `answer_text` if truthy, else `answer_rows` if truthy, else whatever `answer_json` holds, and None when none of the three is bound. |
| PlanExecutor.BindingSetIsClosed | agentic_ai/muti_agent_example/customer_service_agent/M5_UGL_1_R.py:357-367 | The globals are exactly `Query`, the two ledger helpers and `user_request`, and the locals exactly `db` and the two tables. `user_request` is `""` when none is given, and is the request otherwise. |
| PlanExecutor.Stream.Write | agentic_ai/muti_agent_example/customer_service_agent/M5_UGL_1_R.py:370-371 | Writing to a stream appends the text to what it holds. |
| PlanExecutor.RunCaptured | agentic_ai/muti_agent_example/customer_service_agent/M5_UGL_1_R.py:370-379 | `sys.stdout` is the same stream with the same contents after the run, whether the plan faults or not. The locals and tables are those the plan left. The printed text is the plan's output, stripped. The error is present exactly when the plan faulted, and is then its traceback text. |
| PlanExecutor.ExecuteGeneratedCode | agentic_ai/muti_agent_example/customer_service_agent/M5_UGL_1_R.py:341-396 | The empty string raises before anything runs and leaves the tables alone. Otherwise the plan runs on the extracted block with the fixed bindings. The record holds the block without tags, the stripped log, the fault, the selected answer, and both tables as the plan left them. stdout is restored. |
| PyBase.PyDict.SetItem | agentic_ai/muti_agent_example/M5_UGL_2.py:380 | Item assignment sets one key and keeps every other entry. |
| PyBase.PyDict.Rebind | agentic_ai/muti_agent_example/customer_service_agent/M5_UGL_1_R.py:374 | After `exec` the locals dict holds what the plan left in it. |
| PyStr.Strip | agentic_ai/muti_agent_example/customer_service_agent/M5_UGL_1_R.py:337 | The result has no whitespace at either end. A trimmed text is left as it is. The result is empty exactly when the text is all whitespace. |
| PyStr.StripKeepsMiddle | agentic_ai/muti_agent_example/customer_service_agent/M5_UGL_1_R.py:337 | The stripped text is the slice between the leading and the trailing whitespace runs. |
| PyStr.FindCI | agentic_ai/muti_agent_example/customer_service_agent/M5_UGL_1_R.py:336 | A case-insensitive search returns an offset where the pattern occurs, and no earlier offset has an occurrence. It returns nothing only when there is no occurrence at all. |
| PyStr.FindCIExtend | agentic_ai/muti_agent_example/customer_service_agent/M5_UGL_1_R.py:336 | Appending text after a found occurrence does not move the first occurrence. |
| PyStr.SliceMatchesAt | agentic_ai/evalution/M4_UGL_1.py:216-217 | An occurrence at the start of a slice is an occurrence in the whole text at the slice's offset. |
| PyStr.MatchesAtSlice | agentic_ai/evalution/M4_UGL_1.py:216-217 | An occurrence stays an occurrence at the start of any slice that begins with it. |
| PyStr.TakeUntil | agentic_ai/evalution/M4_UGL_1.py:231 | The result is the longest prefix without the separator, stopped at the end or at a separator. |
| PyStr.Split | agentic_ai/evalution/M4_UGL_1.py:231 | `split` yields at least one piece, and no piece holds the separator. |
| PyStr.SplitHead | agentic_ai/evalution/M4_UGL_1.py:231 | The first piece of a split is the text up to the first separator. |
| PyStr.SplitAtFirst | agentic_ai/evalution/M4_UGL_1.py:231 | A split cuts at the first separator and splits the rest the same way. |
| PyStr.Join | agentic_ai/evalution/M4_UGL_1.py:250 | `sep.join(parts)`. `SplitJoin`, `JoinSplit`, `JoinAppend` and `JoinCons` state its properties. |
| PyStr.SplitJoin | agentic_ai/evalution/M4_UGL_1.py:250 | Joining the pieces of a split with the separator gives back the text. |
| PyStr.JoinSplit | agentic_ai/evalution/M4_UGL_1.py:250 | Splitting a join of separator-free pieces gives back the pieces. |
| PyStr.NoSepSplit | agentic_ai/evalution/M4_UGL_1.py:231 | A text without the separator splits into itself. |
| PyStr.JoinAppend | agentic_ai/evalution/M4_UGL_1.py:250 | Joining two non-empty lists is joining each and putting the separator between. |
| PyStr.JoinCons | agentic_ai/evalution/M4_UGL_1.py:250 | Joining a piece before a non-empty list puts the separator after that piece. |
| PyStr.NatStr | agentic_ai/evalution/M4_UGL_1.py:243-244 | A count renders as a non-empty string of decimal digits, with a leading zero exactly when the count is 0. |
| PyStr.NatStrValue | agentic_ai/evalution/M4_UGL_1.py:243-244 | Reading the rendered digits back gives the count. |
| DomainEvaluator.RunEnd | agentic_ai/evalution/M4_UGL_1.py:216 | The run of URL characters found is maximal: every character in it is a URL character, and the next one is not. |
| DomainEvaluator.UrlLenAt | agentic_ai/evalution/M4_UGL_1.py:216-217 | The length of the match at an offset, 0 where none starts. A match stays within the text. `UrlLenAtIsMatch` and `UrlStartsMatch` state what the length means. |
| DomainEvaluator.UrlLenAtIsMatch | agentic_ai/evalution/M4_UGL_1.py:216-217 | A match is a whole URL: `http://` or `https://` in either case, then at least one character that is neither whitespace nor one of `] ) > }`. It cannot be extended by the next character. |
| DomainEvaluator.UrlStartsMatch | agentic_ai/evalution/M4_UGL_1.py:216-217 | Wherever a URL starts in the text, a match starts there: the pattern misses no URL. |
| DomainEvaluator.FindAll | agentic_ai/evalution/M4_UGL_1.py:217 | `findall` as a scan over a pattern's match lengths: take the leftmost match, go on after it, and step one character where none starts. `FindAllEntries`, `OffsetsApart`, `OffsetsCover` and `FindAllEmpty` state its properties. |
| DomainEvaluator.MatchOffsets | agentic_ai/evalution/M4_UGL_1.py:217 | Every offset where `findall` takes a match lies in the text, and a match starts there. |
| DomainEvaluator.FindAllEntries | agentic_ai/evalution/M4_UGL_1.py:217 | `findall` yields one entry per offset taken. Entry `k` is the whole match at offset `k`. |
| DomainEvaluator.OffsetsApart | agentic_ai/evalution/M4_UGL_1.py:217 | The matches are taken left to right and do not overlap: each ends at or before the next one's offset. |
| DomainEvaluator.OffsetsCover | agentic_ai/evalution/M4_UGL_1.py:217 | No match is skipped: every offset where a match starts lies inside a match that `findall` took. |
| DomainEvaluator.FindAllEmpty | agentic_ai/evalution/M4_UGL_1.py:217 | `findall` returns nothing exactly when no match starts in the remaining text. |
| DomainEvaluator.FindAllOf | agentic_ai/evalution/M4_UGL_1.py:217 | When the matches are exactly the occurrences of a property, `findall` yields only occurrences, and none exactly when the text holds none. |
| DomainEvaluator.UrlLen | agentic_ai/evalution/M4_UGL_1.py:216 | The URL pattern's match lengths keep every match inside the text. |
| DomainEvaluator.UrlLenIsMatch | agentic_ai/evalution/M4_UGL_1.py:216-217 | At every offset, a match of the URL pattern is a whole URL with no URL character after it. |
| DomainEvaluator.UrlLenStops | agentic_ai/evalution/M4_UGL_1.py:216 | At every offset, no URL character follows a match of the URL pattern. |
| DomainEvaluator.UrlLenStarts | agentic_ai/evalution/M4_UGL_1.py:216-217 | Every URL in the text starts a match of the URL pattern. |
| DomainEvaluator.FindUrls | agentic_ai/evalution/M4_UGL_1.py:216-217 | Every entry `findall` returns is a whole URL. |
| DomainEvaluator.FindUrlsEmpty | agentic_ai/evalution/M4_UGL_1.py:216-219 | `findall` returns nothing exactly when no stretch of the text is a URL. This is when the no-URL branch is taken. |
| DomainEvaluator.FindAllCovers | agentic_ai/evalution/M4_UGL_1.py:217 | Every occurrence of a property that always starts a match lies inside a match `findall` took. |
| DomainEvaluator.UrlOffsets | agentic_ai/evalution/M4_UGL_1.py:217 | A URL match starts at every offset where `findall` takes one. |
| DomainEvaluator.FindUrlsEntries | agentic_ai/evalution/M4_UGL_1.py:217 | There is one offset per URL found, and URL `k` is the text of the match at offset `k`. |
| DomainEvaluator.FindUrlsMaximal | agentic_ai/evalution/M4_UGL_1.py:216-217 | Each URL found is the longest match at its offset: no URL character follows it. |
| DomainEvaluator.FindUrlsApart | agentic_ai/evalution/M4_UGL_1.py:217 | The URLs are found left to right and do not overlap. |
| DomainEvaluator.FindUrlsCover | agentic_ai/evalution/M4_UGL_1.py:217 | No URL is skipped: every URL in the text starts inside one of the URLs found. |
| DomainEvaluator.UrlHasHost | agentic_ai/evalution/M4_UGL_1.py:216-231 | Every matched URL has a third `/`-separated piece, so `split("/")[2]` cannot fail. That piece is the text after the scheme, up to the next `/`. |
| DomainEvaluator.Host | agentic_ai/evalution/M4_UGL_1.py:231 | `url.split("/")[2]`, the host. `UrlHasHost` states that it exists for every matched URL, and what it is. |
| DomainEvaluator.IsPreferred | agentic_ai/evalution/M4_UGL_1.py:232 | `any(td in domain for td in TOP_DOMAINS)`, a substring test. `SuffixIsPreferred` and `SubstringNotSuffix` state how it relates to a suffix test. |
| DomainEvaluator.SuffixIsPreferred | agentic_ai/evalution/M4_UGL_1.py:232 | A host ending with a preferred domain is preferred. |
| DomainEvaluator.SubstringNotSuffix | agentic_ai/evalution/M4_UGL_1.py:232 | The test is a substring test, not a suffix test: `arxiv.org.example.com` is preferred for `arxiv.org` but does not end with it. |
| DomainEvaluator.CountPreferred | agentic_ai/evalution/M4_UGL_1.py:226-234 | The preferred count never exceeds the number of URLs. |
| DomainEvaluator.CountStep | agentic_ai/evalution/M4_UGL_1.py:233-234 | One more position adds one to the count exactly when it satisfies the test. |
| DomainEvaluator.PreferredPositionsStep | agentic_ai/evalution/M4_UGL_1.py:230-234 | The preferred positions of a list are those of all but its last URL, plus the last one when it is preferred. |
| DomainEvaluator.CountPreferredIsCardinality | agentic_ai/evalution/M4_UGL_1.py:226-234 | The preferred count equals the number of positions whose URL has a preferred host. |
| DomainEvaluator.DetailLines | agentic_ai/evalution/M4_UGL_1.py:230-235 | There is one detail line per URL, in match order. Each is labelled PREFERRED or NOT PREFERRED to agree with the preferred test of that URL's host. |
| DomainEvaluator.ReportText | agentic_ai/evalution/M4_UGL_1.py:241-251 | The Markdown report: nine head lines, then the detail lines joined by line breaks. `ReportReadsAsLines` and `ReportStatusMatchesFlag` state how it reads line by line. |
| DomainEvaluator.ReportReadsAsLines | agentic_ai/evalution/M4_UGL_1.py:241-251 | Read line by line, the report is its nine head lines and then the detail lines in order. Its seventh line states PASS exactly when the flag is set. |
| DomainEvaluator.HeadIsOneLinePerEntry | agentic_ai/evalution/M4_UGL_1.py:241-249 | No head line of the report holds a line break of its own. |
| DomainEvaluator.EvaluateTavilyResults | agentic_ai/evalution/M4_UGL_1.py:200-252 | A text without URLs fails with the fixed notice. Otherwise every URL has a host. The flag holds exactly when the preferred count over the URL count reaches the threshold. The report gives both counts, both percentages, the status and the detail lines. |
| DomainEvaluator.UrlIsOneLine | agentic_ai/evalution/M4_UGL_1.py:216 | A matched URL holds no line break. |
| DomainEvaluator.DetailsAreOneLine | agentic_ai/evalution/M4_UGL_1.py:231-235 | Every matched URL has a host, and its detail line is a single line. |
| DomainEvaluator.ReportStatusMatchesFlag | agentic_ai/evalution/M4_UGL_1.py:237-251 | For a text with URLs, the report has ten lines more than there are URLs. Its seventh line is PASS exactly when the flag holds. From the tenth line on it lists each URL's detail line in match order. |
| ResearchExecutor.DropOpeningFence | agentic_ai/muti_agent_example/research_agent/C1M5_Assignment.py:454 | Removing the opening fence cuts a prefix at least as long as the fence. `OpeningFenceCut` states which prefix. |
| ResearchExecutor.OpeningFenceCut | agentic_ai/muti_agent_example/research_agent/C1M5_Assignment.py:454 | The opening pattern cuts the fence alone, the fence and a line break, the fence and `json`, or the fence, `json` and a line break. It takes `json` exactly when `json` follows the fence, and it takes a line break whenever one follows. |
| ResearchExecutor.DropClosingFence | agentic_ai/muti_agent_example/research_agent/C1M5_Assignment.py:455 | Removing the closing fence never lengthens the text. `ClosingFenceKeeps` and `ClosingFenceRemoves` state what it removes. |
| ResearchExecutor.ClosingFenceKeeps | agentic_ai/muti_agent_example/research_agent/C1M5_Assignment.py:455 | The closing pattern leaves the text alone exactly when it ends in no fence, either at the very end or before a final line break. |
| ResearchExecutor.ClosingFenceRemoves | agentic_ai/muti_agent_example/research_agent/C1M5_Assignment.py:455 | Otherwise it removes one match, the leftmost. A fence at the end goes with the line break before it, if there is one. A fence before a final line break goes, also with the line break before it if there is one, and the final line break stays. |
| ResearchExecutor.CleanJsonBlock | agentic_ai/muti_agent_example/research_agent/C1M5_Assignment.py:448-456 | The result has no whitespace at either end. Text that does not start with a fence once stripped comes back only stripped. |
| ResearchExecutor.FencedIsTrimmed | agentic_ai/muti_agent_example/research_agent/C1M5_Assignment.py:452 | A reply that starts with a backtick and ends with the closing fence is already trimmed. |
| ResearchExecutor.CleanJsonFence | agentic_ai/muti_agent_example/research_agent/C1M5_Assignment.py:452-456 | A body wrapped in a ```` ```json ```` fence and a closing fence is cleaned to that body, stripped. |
| ResearchExecutor.CleanFencedReply | agentic_ai/muti_agent_example/research_agent/C1M5_Assignment.py:452-456 | For a reply that starts with a fence once stripped, the result is the stripped text left after the fences. The stripped reply ends in no whitespace, so only a final fence, with or without a line break before it, can be removed at the end. |
| ResearchExecutor.CleanInlineFence | agentic_ai/muti_agent_example/research_agent/C1M5_Assignment.py:452-456 | A trimmed body fenced inline, as the fence, `json`, the body and the fence with no line breaks, is cleaned to that body. |
| ResearchExecutor.InlineOpening | agentic_ai/muti_agent_example/research_agent/C1M5_Assignment.py:454 | The opening pattern takes only the fence and the tag of an inline fence, because the body starts with no line break. |
| ResearchExecutor.InlineClosing | agentic_ai/muti_agent_example/research_agent/C1M5_Assignment.py:455 | The closing pattern takes only the bare fence after a body that ends in no line break. |
| ResearchExecutor.CleanBareFence | agentic_ai/muti_agent_example/research_agent/C1M5_Assignment.py:452-456 | A body wrapped in a bare fence and a closing fence is cleaned to that body, stripped. |
| ResearchExecutor.PlanSteps | agentic_ai/muti_agent_example/research_agent/C1M5_Assignment.py:465-468 | The executed steps are a prefix of the plan. With `limit_steps` that prefix has `min(len(plan), 4)` steps. Without it, it is the whole plan. |
| ResearchExecutor.ContextLines | agentic_ai/muti_agent_example/research_agent/C1M5_Assignment.py:504-507 | There is one context line per earlier entry, in order. Line `j` reads "Step j+1 executed by" the agent, then the output. |
| ResearchExecutor.Context | agentic_ai/muti_agent_example/research_agent/C1M5_Assignment.py:504-507 | The context lines of the whole history, joined by line breaks. `ContextExtends` states how it grows step by step. |
| ResearchExecutor.EnrichedTask | agentic_ai/muti_agent_example/research_agent/C1M5_Assignment.py:508-516 | The f-string given to the agent: its name, the context so far and the task. `StepEntryDispatch` states that a registered agent receives it. |
| ResearchExecutor.ContextLinesAppend | agentic_ai/muti_agent_example/research_agent/C1M5_Assignment.py:504-507 | A new history entry adds exactly its own context line at the end. |
| ResearchExecutor.ContextExtends | agentic_ai/muti_agent_example/research_agent/C1M5_Assignment.py:504-507 | The first step sees an empty context. Each later context is the previous one, a line break, and the newest entry's line. |
| ResearchExecutor.Decision | agentic_ai/muti_agent_example/research_agent/C1M5_Assignment.py:497-502 | The routing reply cleaned, decoded, and read for `agent` then `task`. `DecisionRule` states its outcomes. |
| ResearchExecutor.Registered | agentic_ai/muti_agent_example/research_agent/C1M5_Assignment.py:520 | `agent_name in agent_registry`, which raises `TypeError` for an unhashable name. `StepEntryDispatch` states its outcomes. |
| ResearchExecutor.StepEntry | agentic_ai/muti_agent_example/research_agent/C1M5_Assignment.py:497-525 | One iteration of the loop: decide, build the context and the task, dispatch, and form the history entry. `StepEntryDispatch` states its outcomes. |
| ResearchExecutor.DecisionRule | agentic_ai/muti_agent_example/research_agent/C1M5_Assignment.py:497-502 | A reply that does not decode raises the decoder's error, and a decoded non-object raises `TypeError`. An object yields `(agent, task)` exactly when it holds both keys, and `agent` is looked up first. |
| ResearchExecutor.StepEntryDispatch | agentic_ai/muti_agent_example/research_agent/C1M5_Assignment.py:497-525 | A routing exception ends the step. Otherwise the step fails only on an unhashable agent name. A registered name runs that agent on the task enriched with the context so far. Any other name still yields an entry, whose output is "⚠️ Unknown agent: <name>". Every entry records the step and the agent name. |
| ResearchExecutor.RunSteps | agentic_ai/muti_agent_example/research_agent/C1M5_Assignment.py:476-525 | The run of the steps in order, each given the history so far, stopped by the first exception. `RunStepsShape` and `RunStepsFails` state its two outcomes. |
| ResearchExecutor.RunStepsShape | agentic_ai/muti_agent_example/research_agent/C1M5_Assignment.py:476-525 | A finished run adds exactly one entry per step and keeps the earlier ones. Each new entry is the one its step yields with the entries before it as history. |
| ResearchExecutor.RunStepsFails | agentic_ai/muti_agent_example/research_agent/C1M5_Assignment.py:476-525 | A failed run has a step that failed with the run's exception, after all earlier steps succeeded. |
| ResearchExecutor.HistoryFollowsPlan | agentic_ai/muti_agent_example/research_agent/C1M5_Assignment.py:465-529 | A finished run holds one entry per executed step, at most four with `limit_steps`. Entry `k` records plan step `k`, and is what that step yields with the first `k` entries as context. |
| ResearchExecutor.RunLoop | agentic_ai/muti_agent_example/research_agent/C1M5_Assignment.py:470-529 | The loop that appends to `history` computes the run of the steps from an empty history. |
| ResearchExecutor.ExecutorAgent | agentic_ai/muti_agent_example/research_agent/C1M5_Assignment.py:462-529 | `executor_agent` returns the run of the plan, cut to four steps when `limit_steps` is set, routed through the given model, decoder and registry. |
| SqlReflection.ReflectionOutcome | agentic_ai/reflection/reflection_sql_generation.py:270-282 | The feedback is trimmed. The refined query is either the original query, or a trimmed non-empty text, so it is never empty when the original is not. |
| SqlReflection.ParseFailureKeepsQuery | agentic_ai/reflection/reflection_sql_generation.py:277-280 | A reply that does not decode to an object yields the stripped reply as feedback, and the original query unchanged. |
| SqlReflection.ObjectFields | agentic_ai/reflection/reflection_sql_generation.py:273-276 | For a decoded object, the feedback is its stripped `feedback` field, or `""` without one. The refined query is the stripped `refined_sql` field when that is not blank. When it is blank, the refined query is the original query, unstripped. When it is absent, it is the stripped original, or the original itself when that strips to nothing. |
| SqlReflection.RefinedComesFromReplyOrQuery | agentic_ai/reflection/reflection_sql_generation.py:390-403 | The refined query is the original query, its stripped form, or the stripped non-blank `refined_sql` field of the reply. |
| SqlReflection.TrimmedQuerySurvivesFallback | agentic_ai/reflection/reflection_sql_generation.py:271-282 | A trimmed original query comes back exactly whenever the reply has no usable `refined_sql`. |
| MarketAgents.FirstIndex | agentic_ai/muti_agent_example/M5_UGL_2.py:226 | The offset found holds the character, and no earlier offset in the window does. |
| MarketAgents.LastIndex | agentic_ai/muti_agent_example/M5_UGL_2.py:226 | The offset found holds the character, and no later offset in the window does. |
| MarketAgents.BraceSpan | agentic_ai/muti_agent_example/M5_UGL_2.py:226 | The span the greedy `DOTALL` brace search returns. `BraceSpanIsOuter` states which span. |
| MarketAgents.BraceSpanIsOuter | agentic_ai/muti_agent_example/M5_UGL_2.py:225-226 | A span exists exactly when some `}` follows some `{`. It runs from the first `{` to the last `}` inclusive, so it starts with `{` and ends with `}`. |
| MarketAgents.AfterLast | agentic_ai/muti_agent_example/M5_UGL_2.py:250 | `basename` is the suffix after the last `/`, and holds no `/`. |
| MarketAgents.ImageFileName | agentic_ai/muti_agent_example/M5_UGL_2.py:250-251 | The image path is a bare file name, with no `/` and no `?`. |
| MarketAgents.GraphicDesignerResult | agentic_ai/muti_agent_example/M5_UGL_2.py:225-273 | The designer from the model's reply onwards: parse the span, generate the image, and build the record. `DesignerFailures` and `DesignerRecord` state its outcomes. |
| MarketAgents.DesignerFailures | agentic_ai/muti_agent_example/M5_UGL_2.py:225-230 | A reply without a span gets the fallback record, which has no `prompt`, so the designer raises `KeyError('prompt')`. A span that does not decode raises the decoder's error. |
| MarketAgents.DesignerRecord | agentic_ai/muti_agent_example/M5_UGL_2.py:229-273 | A designer result has exactly the four keys. It holds the decoded prompt and caption, the image URL, and an image path that is the URL's file name. |
| MarketAgents.RecordShape | agentic_ai/muti_agent_example/M5_UGL_2.py:268-273 | The returned record has the keys `image_url`, `prompt`, `caption` and `image_path`, holding the given values. |
| MarketAgents.CopywriterParsed | agentic_ai/muti_agent_example/M5_UGL_2.py:374-377 | What `parsed` is before the image path is added. `CopywriterFallbacks` and `CopywriterAlwaysTags` state its outcomes. |
| MarketAgents.CopywriterFallbacks | agentic_ai/muti_agent_example/M5_UGL_2.py:373-377 | No span gives `{"error": "No valid JSON returned"}`. A span that does not decode gives an error record holding the decoder's message, with the stripped reply under `raw`. |
| MarketAgents.CopywriterAlwaysTags | agentic_ai/muti_agent_example/M5_UGL_2.py:374-377 | Suppose the decoder turns a text starting with `{` into a dict whenever it decodes it, as `json.loads` does. Then the parsed value is always a dict. The span starts with `{`, so it decodes to a dict or falls back to an error record. |
| MarketAgents.CopywriterAgent | agentic_ai/muti_agent_example/M5_UGL_2.py:369-381 | The result is the parsed record with `image_path` set in place. Item assignment on a decoded non-object raises `TypeError`. With a decoder like `json.loads` the copywriter always succeeds, and its result carries `image_path` equal to the given path. |
| MarketAgents.CopywriterTagsImage | agentic_ai/muti_agent_example/M5_UGL_2.py:374-381 | The copywriter fails only when the span decodes to a non-object. Every other result carries `image_path` equal to the given path, on success and on both fallbacks, and keeps every other entry of the parsed record. |

## Left out

- Language-model, search, image and HTTP calls. These are network I/O, so their replies are parameters of the operations.
- The inventory and ledger helpers of `inv_utils` (`get_current_balance`, `next_transaction_id`, `seed_db`, `build_schema_block`). `inv_utils` is not part of this model. The plan sees them only as opaque bound names.
- TinyDB's `Query` and tables. The database is modelled as its two document lists, which the plan run may replace.
- What a plan does when run. `exec` is a parameter that maps the code, the bindings and the tables to new locals, new tables, printed text and an optional traceback text. The traceback format is not modelled.
- The prompts themselves. Prompt text only reaches the model, which is a parameter here, so the routing prompt is not modelled. The text of each step is passed to `decide` instead.
- `json.loads` internals. Decoding is a parameter returning a JSON object, another value, or the error message. JSON values keep only their `str()` rendering and whether they are a string, hashable, or neither. A JSON `null` is the hashable value rendered `None`. So `"refined_sql": null` yields the refined query `"None"`, as in Python.
- The f-string percent formatting (`:.2%`, `:.0%`). It is a parameter, because float rounding is not modelled. The ratio itself is an exact real.
- `print`, notebook display, and HTML and file logging (`utils.log_final_summary_html`, the image download and save). They are output only.
- A model reply whose content is `None`. All replies are modelled as text.
- Exceptions raised inside a registered agent or the image generator. Those are modelled as total functions.
- Truthiness of host objects the plan may leave in its namespace. Each such object carries its truth value with it.
- The other files of the repository (tool demos, email tools, the reflection assignment, the RAG utilities). They are prompt construction and loops driven entirely by model replies.
- PlanExecutor.RunCaptured and PlanExecutor.ExecuteGeneratedCode: a raised `BaseException` that is not an `Exception` (`SystemExit`, `KeyboardInterrupt`) is not modelled. `except Exception` (`M5_UGL_1_R.py:375`) does not catch it, so in Python it leaves the call after the `finally` restores `sys.stdout`, and no record is returned. A plan that never finishes is not modelled either, since `PlanRun` is a total function.
- The builtins `exec` adds to the globals. `exec` inserts `__builtins__` into `SAFE_GLOBALS` when it is missing, so the plan can reach every builtin. `PlanExecutor.BindingSetIsClosed` speaks only of the names the two dict literals bind (`M5_UGL_1_R.py:357-367`).
- `refine_sql_external_feedback` has no member of its own. Its post-processing (`reflection_sql_generation.py:390-403`) is the same as `refine_sql`'s, and is modelled by `SqlReflection.ReflectionOutcome`.
