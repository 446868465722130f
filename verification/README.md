# Verified model of an AI gateway's stateful core

The repository is a gateway in front of AI providers: a browser chat, a FastAPI backend that checks, routes, guards
and streams requests, an intent classifier with a cache, a policy engine backed by Open Policy Agent, and a log sink.
Most of it is plumbing. This project models the small stateful algorithms inside it and proves what they keep over
every input and every run. One file holds one component:

| file | component |
|---|---|
| `Redaction.dfy` | the output guard's `redact`: rules, ordered match spans, splicing from right to left, count and types |
| `SsnStream.dfy`, `SsnStreamText.dfy`, `SsnStreamExact.dfy`, `SsnStreamRules.dfy` | the streaming guard with its 30-character carry, what it does to social security numbers under every way of cutting the text, when that is what scanning at once does, and which other rules can undo it |
| `EventStream.dfy`, `Providers.dfy` | the streaming answer: frames, charge and redaction, and the OpenAI and Gemini clients that feed it |
| `SseFraming.dfy` | server-sent event frames and the two client loops that read them |
| `FlatConfig.dfy`, `FlatRoundTrip.dfy`, `FlatOrder.dfy` | nested plugin configs against dotted keys |
| `ClassifierCache.dfy`, `ClassifierCacheRuns.dfy`, `ClassifierCacheLatest.dfy` | the classification cache, an LRU in front of Redis: its calls in the steps between their awaits, what holds however they overlap, and when answers are up to date |
| `PolicyEngine.dfy`, `PolicySync.dfy` | the local evaluator, the Rego policy, the sync between them and fail-closed evaluation |
| `Iban.dfy`, `Luhn.dfy` | the two checksums |
| `BoundedQueue.dfy` | the log sink's queue |
| `IntentAudit.dfy` | intent mappings, their audit log and the cache built from them |
| `SendLimiter.dfy` | the chat's sliding-window send limiter and its confirmation dialog |
| `NonceStore.dfy` | signed gateway requests and the nonce store |
| `TokenQuota.dfy` | the daily token quota, checked before and charged after a request |
| `StringOrder.dfy`, `Options.dfy` | Python's string order and sorting, used by the two hashes and lists that sort; a value or nothing |

Code that changes state step by step is a method or a class whose postconditions equate the result with a function;
the theorems are lemmas about those functions, by induction over texts, trees, token lists or runs of events.
`dafny verify dfyconfig.toml` checks everything.

## What comes out

- **No part of a social security number is shown, however the text is cut**, unless another rule has already replaced a
  part of that same number. The 30-character carry is wide enough, and neither placeholders nor rescanned text can shift
  a match onto the wrong characters (`NoSsnShownEarly`, `NoSsnShown`). No rule ever does that, for any text and cutting,
  exactly if no rule matches into the beginning of an SSN at the end of a window (`UntakenExactly`, `SparedNeverShown`).
  The e-mail rule does (`AddressNotSpared`): an address that ends in the first digits of an SSN and arrives before the
  others is taken, and the rest of the SSN is shown (`AddressTakesSsn`).
- **Streaming is not the same as scanning the whole text at once, and it is known exactly when it is.** They agree if
  and only if no token boundary is of one of two kinds, both of which can be read off the text: it stands right behind a
  stretch of SSN shape that goes on as a longer number, or the carry of 30 characters begins right at a stretch of SSN
  shape, so that the word character before it has been sent and is not seen again (`StreamedEqualsWholeExactly`;
  `EveryCuttingAgrees` for all cuttings of a text together). Nothing about the SSN rule alone remains open here.
- **`unflatten_dict(flatten_dict(t))` gives `t` back exactly for** trees with dot-free keys, no `""`, no `None` and no
  empty sub-dict. Insertion order is irrelevant exactly when no dotted path is a proper prefix of another; otherwise one
  order raises `TypeError` and another does not.
- **In sync means in sync, up to restarts of OPA.** A restart drops what was pushed and loads the file OPA is started
  with, and the service does not notice, whatever that file holds. From then on a verdict is the one the cached policies
  give exactly if they and the file block the same policy first (`RestartUnnoticed`, `FailClosedAgrees`), until the next
  accepted push. With the repository's own file, a policy of the file is still enforced, and one added since then is not
  (`RestartForgetsNewPolicy`).
- **The IBAN check misses three exchanges** of a digit and a letter beside each other in the rearranged string (1 and B,
  2 and M, 3 and X), and no others among neighbours; exchanges of two different digits, or of two different letters, are
  always caught, at any distance (`FarExchangeDetected`).
- **The two SSE clients agree exactly on** streams whose events have at most one `data:` line.
- **The classification cache answers up to date exactly as long as nothing harmful happens**, and `Harmless` lists what
  is: a Redis write that fails while Redis holds another answer, a set that overtakes a call of its key waiting with
  another answer, a get that reads Redis before a set of its key is written there, a flush that ends while something is
  left (`GetReturnsLatest`, `HarmfulShows`). For calls of a key that do not overlap only a failing write and an
  incomplete flush are left (`AloneHarmless`). So an older answer can come back although a newer one was set, after a
  failed write with an LRU of any size (`FailedWriteServesOld`), and with no failing call at all when a set overtakes a
  get (`OvertakenGetServesOld`). However calls overlap and fail, an answer is always one that was set for its key, or in
  Redis before, and never a stale one. A key stands for one normalised tenant and the texts of one digest.
- **The send limiter holds exactly if** no confirmation comes when the rate check would stop it. A second message sent
  while one waits for its confirmation breaks it (`LateConfirmBreaksRate`), and then the announced wait is too short.
- **A signed timestamp and nonce can be accepted n times exactly if** n - 1 lifetimes of the store, each a millisecond
  more, are shorter than the window and the delay with which Redis runs a command after the clock is read
  (`TimesExactly`). Without delay that is twice, for a skew of 30 seconds or more, and only in the first and the last
  second of the window; three times takes a delay of almost a minute (`NeverThrice`). The default skew is 300.
- **The quota bound `limit - 1 + requests * tokens` holds on every day** while every admission leaves room on the day on
  which Redis answers (`Overshoot`), as all do whose date is still today's by then (`SameDayInTime`); from one that does
  not, some run exceeds the bound (`InTimeIsExact`). The bound is reached (`BoundIsReached`). Checks that took their
  date before midnight and are answered behind it can take the new day past any number, whatever the limit
  (`LateChecksOvershoot`).

## Model

| member | source | states |
|---|---|---|
| Redaction.SpliceAllIsRebuild | fastapi_backend/app/services/output_guard_service.py:108-117 | for any ordered disjoint spans, splicing in place from the right equals copying the gaps and putting the placeholder in place of each span in one pass |
| Redaction.RedactOneRule | fastapi_backend/app/services/output_guard_service.py:107-120 | one rule's loop: accepted matches replaced, rejected ones untouched, the count raised by the accepted ones, the type noted once and only if something was accepted |
| Redaction.Redact | fastapi_backend/app/services/output_guard_service.py:98-133 | over all rules: the text, the number of accepted spans, and the sorted duplicate-free list of exactly the labels that replaced something |
| Redaction.RulesInGroups | fastapi_backend/app/services/output_guard_service.py:98-133 | of two groups of rules the second works on the text of the first; counts add up and labels come together |
| Redaction.OneRuleCounts | fastapi_backend/app/services/output_guard_service.py:107-120 | one rule counts each match its validator accepts, notes its label exactly if there is one, and else leaves the text alone |
| Redaction.AcceptedOnce | fastapi_backend/app/services/output_guard_service.py:107-120 | each accepted match counts as often as it was found, and no other at all |
| StringOrder.SortAscending | fastapi_backend/app/services/output_guard_service.py:132 | sorting gives the strictly ascending list of the same elements for a list without repetitions |
| StringOrder.LessExactly | fastapi_backend/app/services/output_guard_service.py:132 | the order sorted by: a proper prefix first, and else the smaller code point at the first difference |
| SsnStream.SsnsDisjoint | fastapi_backend/app/services/output_guard_service.py:39 | two SSNs of one text never overlap |
| SsnStream.FindSsnExact | fastapi_backend/app/services/output_guard_service.py:39 | the leftmost non-overlapping scan finds every ddd-dd-dddd between non-word characters or text ends, and nothing else |
| SsnStream.SsnRuleWellBehaved | fastapi_backend/app/services/output_guard_service.py:39 | the SSN rule's spans are ordered, disjoint, not empty and in bounds on every text |
| SsnStream.RedactItemsText | fastapi_backend/app/services/output_guard_service.py:98-133 | redacting characters that remember their position in the provider's text gives the same text as redacting the text |
| SsnStream.StreamItemsText | fastapi_backend/app/services/output_guard_service.py:135-165 | the same for the stream: what is shown and what is carried are those of the plain stream |
| SsnStream.UnfinishedSsnUntouched | fastapi_backend/app/services/output_guard_service.py:135-165 | a match of the SSN rule never cuts into an SSN of which only a part has arrived |
| SsnStream.ScanInv | fastapi_backend/app/services/output_guard_service.py:135-165 | every scan, the last flush included, keeps: shown and carried characters are the text's in order, an SSN is wholly carried or gone, and every missing character lay under SSN shape or was taken by another rule |
| SsnStream.NoSsnShownEarly | fastapi_backend/app/services/ai_request_service.py:878-936 | at every moment of every stream, whatever is still to come, no character of an SSN of the whole text has been shown unless another rule took part of it; a partly received one is held whole in the carry |
| SsnStream.NoSsnShown | fastapi_backend/app/services/ai_request_service.py:878-936 | for every text, every cutting into tokens and any rules behind the SSN rule, the finished stream shows no character of an SSN unless another rule took part of it, shows only characters of the text and in their order, and loses nothing but what lay under SSN shape or was taken by another rule |
| SsnStreamText.SpliceIntoRebuild | fastapi_backend/app/services/output_guard_service.py:108-117 | splicing a held stretch out of an already redacted text gives the original text redacted with one more span |
| SsnStreamText.StreamedSsnText | fastapi_backend/app/services/ai_request_service.py:878-936 | with the SSN rule alone, however the text is cut, the stream shows the text with the placeholder in place of ordered spans of SSN shape, every SSN among them |
| SsnStreamText.WholeSsnText | fastapi_backend/app/services/output_guard_service.py:98-133 | scanning the whole text at once replaces exactly the SSNs |
| SsnStreamText.StreamedEqualsWholeWhen | fastapi_backend/app/services/output_guard_service.py:135-165 | the spans a stream has replaced tell: it agrees with scanning the whole text exactly if all of them are SSNs of the whole text (which texts and cuttings these are, SsnStreamExact.StreamedEqualsWholeExactly says) |
| SsnStreamText.StreamedEqualsWhole | fastapi_backend/app/services/output_guard_service.py:135-165 | in particular they agree under every cutting if all text of SSN shape stands between non-word characters |
| SsnStreamText.StreamedDiffersFromWhole | fastapi_backend/app/services/output_guard_service.py:135-165 | a text and a cutting on which they differ: a token that ends where a longer number goes on |
| SsnStreamText.AddressTakesSsn | fastapi_backend/app/services/output_guard_service.py:34-39 | an address ending in the first three digits of an SSN, cut there: the e-mail rule takes them and the other eight characters of the SSN are shown, while scanning at once hides the SSN |
| SsnStreamExact.RebuildIsReplaced | fastapi_backend/app/services/output_guard_service.py:98-133 | replacing the spans that are the complete SSNs of a text received so far gives that text with exactly its SSNs replaced, read from left to right |
| SsnStreamExact.MatchIsSsn | fastapi_backend/app/services/output_guard_service.py:135-165 | while only SSNs have been replaced, a match in the next window is an SSN of the whole text, a number that goes on behind the boundary, or a shape with which the carry begins behind a word character already sent |
| SsnStreamExact.ScanExact | fastapi_backend/app/services/output_guard_service.py:135-165 | one scan or the last flush: unless a boundary is of one of the two kinds, exactly the SSNs received so far are replaced after it |
| SsnStreamExact.BaredGoes | fastapi_backend/app/services/output_guard_service.py:135-165 | if the carry begins with such a shape, the next scan replaces it |
| SsnStreamExact.GoesOnGoes | fastapi_backend/app/services/ai_request_service.py:878-936 | a number cut short at a boundary is gone behind it, whatever came before, and lies in no SSN of the whole text |
| SsnStreamExact.StreamedEqualsWholeExactly | fastapi_backend/app/services/ai_request_service.py:878-936 | for every text and cutting: the stream shows what scanning the whole text shows if and only if no token boundary stands right behind a shape that goes on, or lets the carry begin with one behind a word character |
| SsnStreamExact.EveryCuttingAgrees | fastapi_backend/app/services/ai_request_service.py:878-936 | all cuttings of a text show what scanning it at once shows if and only if no position of the text is such a boundary |
| SsnStreamExact.EveryCuttingAgreesApart | fastapi_backend/app/services/ai_request_service.py:878-936 | for texts in which no SSN shape stands right behind a word character: if and only if every shape is an SSN |
| SsnStreamExact.LetterSentBefore | fastapi_backend/app/services/output_guard_service.py:135-165 | a text on which the second kind of boundary makes them differ |
| SsnStreamRules.NoSsnBehindRule | fastapi_backend/app/services/output_guard_service.py:98-133 | behind the SSN rule a text holds no SSN, and its placeholders have made none |
| SsnStreamRules.RulesKeepEnd | fastapi_backend/app/services/output_guard_service.py:107-120 | all the other rules leave the end of a window standing exactly if none of them, on the text the rules before it leave, matches into it |
| SsnStreamRules.SparedNeverShownEarly | fastapi_backend/app/services/ai_request_service.py:878-936 | if the other rules never match into the beginning of an SSN at the end of a text without SSNs: at every moment of every stream no character of any SSN has been shown, and a partly received one is held whole |
| SsnStreamRules.SparedNeverShown | fastapi_backend/app/services/ai_request_service.py:878-936 | under the same condition the finished stream shows no character of any SSN, with no exception |
| SsnStreamRules.UntakenExactly | fastapi_backend/app/services/ai_request_service.py:878-936 | over all texts and cuttings, no SSN loses a character to a rule behind the SSN rule if and only if these rules meet that condition |
| SsnStreamRules.AddressNotSpared | fastapi_backend/app/services/output_guard_service.py:34-39 | an e-mail rule that takes an address ending in three digits does not meet it |
| EventStream.FinishStream | fastapi_backend/app/services/ai_request_service.py:899-966 | the done chunk: resolve and charge the usage, flush the carry with the chunk's text, the terminal frame, the status write, in this order, each failure ending it |
| EventStream.StreamChunks | fastapi_backend/app/services/ai_request_service.py:878-966 | the provider loop equals its specification: skipped empty tokens, one streaming-status write at the first token, text frames only for what leaves the carry |
| EventStream.RunStream | fastapi_backend/app/services/ai_request_service.py:838-979 | the whole generator: thinking, pre-flight, empty token, provider loop, error frame |
| EventStream.StreamGrammar | fastapi_backend/app/services/ai_request_service.py:878-973 | the loop's frames are non-empty text frames and then terminal frames: two only if the status write behind a done frame fails; a done frame goes with a charge of its usage if positive, and no run charges twice |
| EventStream.FrameGrammar | fastapi_backend/app/services/ai_request_service.py:838-979 | every run, whatever fails: thinking and nothing, or thinking and one error, or thinking, an empty token, text frames, terminal frames; at most one terminal frame if the completing status write succeeds |
| EventStream.RedactNotEmpty | fastapi_backend/app/services/output_guard_service.py:98-133 | redacting a non-empty text never gives the empty text, so a flushed carry is always a non-empty frame |
| EventStream.ScanConserves | fastapi_backend/app/services/output_guard_service.py:135-165 | a scan's shown part and new carry are the redaction of carry and chunk; the carry has at most 30 characters, and exactly 30 if anything is shown |
| EventStream.NothingLost | fastapi_backend/app/services/ai_request_service.py:878-936 | when no scan redacts anything, what is shown and carried is exactly what was received |
| EventStream.CompleteStream | fastapi_backend/app/services/ai_request_service.py:878-966 | a run without failures that reaches its done chunk shows the guarded stream of the tokens with its flush, ends with the done frame, and charges the resolved usage once if positive and never otherwise |
| EventStream.EstimateExactly | fastapi_backend/app/services/ai_request_service.py:212-218 | a blank text is estimated at no token, one of less than four characters at one, and else a quarter of the length rounded down |
| EventStream.UsageExactly | fastapi_backend/app/services/ai_request_service.py:229-243 | the reported usage if it adds up to more than nothing, else the estimates of prompt and answer |
| EventStream.EstimatedCharge | fastapi_backend/app/services/ai_request_service.py:878-966 | a run without failures and without reported usage is charged once by the estimates of its prompt and its answer, and not at all only if both are blank |
| EventStream.ErrorExactly | fastapi_backend/app/services/ai_request_service.py:838-979 | a run sends the error frame exactly if it passes its pre-flight and no provider is found, dispatching fails, the first status write fails, the provider breaks off before its done chunk, or a write behind that chunk fails; and the pre-flight error exactly for a domain error |
| EventStream.ChargedExactly | fastapi_backend/app/services/ai_request_service.py:245-272 | the done chunk charges its usage exactly if it is positive and its row is written, however the run ends |
| Providers.Generate | fastapi_backend/app/infrastructure/ai_provider/openai_client.py:121-160 | the generator's loop over response lines equals its specification |
| Providers.GeneratedShape | fastapi_backend/app/infrastructure/ai_provider/openai_client.py:113-160 | non-empty token chunks that spell out the content read; then, unless an exception ends it, exactly one done chunk, last, with the last usage read |
| Providers.LineExactly | fastapi_backend/app/infrastructure/ai_provider/openai_client.py:113-160 | only an event carries content, usage or an end; blank lines and lines that are no JSON are passed over |
| Providers.LastUsageIsLast | fastapi_backend/app/infrastructure/ai_provider/openai_client.py:141-142 | of the lines read, the last usage block counts |
| Providers.ReadExactly | fastapi_backend/app/infrastructure/ai_provider/openai_client.py:121-160 | the lines read are those up to the first that ends the loop |
| Providers.GeminiStream | fastapi_backend/app/services/ai_request_service.py:358-377 | slices of 48 characters, the last perhaps shorter, that join to the whole answer, none empty, then one done chunk |
| Providers.ClientAnswers | fastapi_backend/app/services/ai_request_service.py:838-979 | behind any client that sends token chunks and then one done chunk, a run without failures shows the guarded stream of its text, ends in its only terminal frame, and charges that frame's usage once if positive; it is the reported usage if that is positive |
| Providers.OpenAiAnswer | fastapi_backend/app/services/ai_request_service.py:838-979 | the same for every list of response lines of the OpenAI client |
| Providers.OpenAiAnswerHidesSsns | fastapi_backend/app/services/ai_request_service.py:838-979 | with the SSN rule, for every list of response lines, the text shown is the provider's text with spans of SSN shape replaced, every SSN among them |
| SseFraming.SplitConcat | frontend/src/components/AIChat.jsx:425-429 | splitting at blank lines does not depend on where a text is cut: complete events are final, the tail is read on |
| SseFraming.EventsExactly | frontend/src/components/AIChat.jsx:425-429 | the parts with a blank line between them are the text again, and none holds a blank line |
| SseFraming.ReadChunks | frontend/src/components/AIChat.jsx:421-431 | for every chunking, the chat's loop yields the complete events of the joined text and keeps the incomplete tail |
| SseFraming.ReadBytes | scripts/measure_first_token.py:54-63 | the byte-at-a-time loop yields the same events and the same tail |
| SseFraming.ClientsAgreeOnEvent | scripts/measure_first_token.py:64-70 | the chat parses the first data line, the script all; the same exactly if an event has at most one |
| SseFraming.LinesExactly | scripts/measure_first_token.py:64-70 | the lines of an event are what stands between its newlines |
| SseFraming.ScriptExactly | scripts/measure_first_token.py:64-70 | the script parses of an event exactly what stands behind "data: " in one of its lines |
| SseFraming.ClientsAgree | frontend/src/components/AIChat.jsx:431-439 | over whole streams the script's payloads equal the chat's exactly if no event has two data lines, and are never fewer |
| SseFraming.RoundTrip | fastapi_backend/app/services/ai_request_service.py:107-109 | for payloads without raw newlines, under every chunking, both clients read back exactly the payloads in order and the buffer ends empty |
| SseFraming.FrameExactly | fastapi_backend/app/services/ai_request_service.py:107-109 | a frame is one data line and a blank line |
| FlatConfig.SplitJoin | fastapi_backend/app/api/admin/gateway_plugins.py:103 | splitting a joined path of dot-free parts gives the path back |
| FlatConfig.JoinSplit | fastapi_backend/app/api/admin/gateway_plugins.py:103 | joining the parts of any key gives the key back |
| FlatConfig.FlattenDict | fastapi_backend/app/api/admin/gateway_plugins.py:82-92 | the recursive loop with its update of the flat dict equals its specification, key order included |
| FlatConfig.StorePath | fastapi_backend/app/api/admin/gateway_plugins.py:103-109 | walking down with a loop variable and storing at the end changes the whole dict as storing at the path does; a leaf on the way is a TypeError |
| FlatConfig.UnflattenDict | fastapi_backend/app/api/admin/gateway_plugins.py:94-110 | the whole loop, with skipped None and "" and the TypeError |
| FlatConfig.RedisConfig | fastapi_backend/app/api/admin/gateway_plugins.py:94-110 | a config with a None or "" under redis.host and a port: nested at the dot, and the host left out |
| FlatRoundTrip.FlattenIsPaths | fastapi_backend/app/api/admin/gateway_plugins.py:82-92 | a tree with dot-free keys flattens to its leaves, in order, under their joined paths, none twice |
| FlatRoundTrip.StoreLeaves | fastapi_backend/app/api/admin/gateway_plugins.py:94-110 | storing the leaves of a tree behind other entries appends the tree without empty values and sub-dicts left empty |
| FlatRoundTrip.UnflattenFlatten | fastapi_backend/app/api/admin/gateway_plugins.py:82-110 | for dot-free keys the round trip prunes the tree and does nothing else, key order included |
| FlatRoundTrip.UnflattenIsClean | fastapi_backend/app/api/admin/gateway_plugins.py:94-110 | no unflattened tree has a dotted key, a leaf None or "", or an empty sub-dict |
| FlatRoundTrip.RoundTrip | fastapi_backend/app/api/admin/gateway_plugins.py:82-110 | the round trip gives the tree back exactly if its keys are dot-free and it holds no "", no None and no empty sub-dict |
| FlatOrder.PutPathLeaves | fastapi_backend/app/api/admin/gateway_plugins.py:103-109 | storing a path apart from all leaves adds that leaf and changes no other |
| FlatOrder.UnflattenLeaves | fastapi_backend/app/api/admin/gateway_plugins.py:94-110 | without conflicting paths there is no TypeError and the tree's leaves are exactly the kept entries |
| FlatOrder.FlattenUnflatten | fastapi_backend/app/api/admin/gateway_plugins.py:82-110 | flattening an unflattened dict gives it back minus its "" and None entries |
| FlatOrder.OrderIrrelevant | fastapi_backend/app/api/admin/gateway_plugins.py:94-110 | without conflicting paths, any two insertion orders give equal trees |
| FlatOrder.ShortFirstFails | fastapi_backend/app/api/admin/gateway_plugins.py:103-109 | a leaf stored before a path below it makes the whole call a TypeError |
| FlatOrder.ConflictMeansOrderMatters | fastapi_backend/app/api/admin/gateway_plugins.py:94-110 | with a conflicting pair, some order of the same entries raises TypeError and some order does not |
| ClassifierCache.CacheKeyInjective | intent_classifier_service/app/cache_layer.py:62-65 | with digests of one length, two requests share a key exactly if their texts' digests and their normalised tenants are equal |
| ClassifierCache.TenantsApart | intent_classifier_service/app/cache_layer.py:62-65 | whatever the digests are, requests with one text share a key exactly if their normalised tenants are equal |
| ClassifierCache.TenantStripped | intent_classifier_service/app/cache_layer.py:62-65 | a tenant counts without the white space around it |
| ClassifierCache.TenantDefault | intent_classifier_service/app/cache_layer.py:62-65 | no tenant, an empty one and white space all stand for the default tenant |
| ClassifierCache.KeyWithoutTenant | intent_classifier_service/app/cache_layer.py:62-65 | the key's text, written out |
| ClassifierCache.CacheKeyFlushable | intent_classifier_service/app/cache_layer.py:62-87 | every key matches the pattern a flush scans for |
| ClassifierCache.ClassificationCache.LruGet | intent_classifier_service/app/cache_layer.py:67-72 | the value found, moved to the end |
| ClassifierCache.ClassificationCache.LruSet | intent_classifier_service/app/cache_layer.py:74-78 | the value stored at the end, the oldest entries dropped down to the maximum |
| ClassifierCache.ClassificationCache.StartGet | intent_classifier_service/app/cache_layer.py:96-110 | both levels and the answer when a get reaches its await: a hit moved to the end and answered unless stale, otherwise the call waits for Redis if there is a connection |
| ClassifierCache.ClassificationCache.ReadRedis | intent_classifier_service/app/cache_layer.py:111-115 | Redis answers with what it holds at that moment, or the call fails and the get is over |
| ClassifierCache.ClassificationCache.EndGet | intent_classifier_service/app/cache_layer.py:116-132 | behind the await: a stale or missing value is no answer, another one is stored in the LRU as it is by then and answered with the source marked |
| ClassifierCache.ClassificationCache.StartSet | intent_classifier_service/app/cache_layer.py:134-147 | nothing for a stale response; otherwise it is stored in the LRU and waits for Redis if there is a connection |
| ClassifierCache.ClassificationCache.WriteRedis | intent_classifier_service/app/cache_layer.py:147-151 | Redis holds the response from the moment it runs the command, or, if the call fails, what it held |
| ClassifierCache.ClassificationCache.Get | intent_classifier_service/app/cache_layer.py:96-132 | a get when nothing else runs while it waits: the three steps in a row, whether Redis answers or not |
| ClassifierCache.ClassificationCache.Set | intent_classifier_service/app/cache_layer.py:134-151 | a set when nothing else runs while it waits: its two steps in a row |
| ClassifierCache.ClassificationCache.FlushAll | intent_classifier_service/app/cache_layer.py:80-94 | a flush when nothing else runs while it waits: deletes what the scan reached and always clears the LRU; reports the number deleted |
| ClassifierCacheRuns.NeverStale | intent_classifier_service/app/cache_layer.py:24-151 | over every interleaving of the steps of any calls, whichever fail, no response with the intent unclassified and no confidence is in the LRU, on its way to Redis, or returned |
| ClassifierCacheRuns.GetReturnsSomeSet | intent_classifier_service/app/cache_layer.py:80-151 | over every interleaving, whichever calls fail, a get returns only values set for its key, or in Redis before |
| ClassifierCacheRuns.LruIsMostRecent | intent_classifier_service/app/cache_layer.py:67-78 | after every interleaving the ordered dict holds exactly the most recently touched distinct keys, in order of their latest touch |
| ClassifierCacheRuns.RecencySplit | intent_classifier_service/app/cache_layer.py:67-78 | behind a key's latest touch stand exactly the keys touched later |
| ClassifierCacheRuns.Survives | intent_classifier_service/app/cache_layer.py:74-78 | a touched key is still held exactly while fewer than the maximum of other keys have been touched since |
| ClassifierCacheLatest.StepGoodExactly | intent_classifier_service/app/cache_layer.py:80-151 | one step keeps every value held or on its way for a key that of its latest set if and only if it is harmless to the key, a guard on what waits and what Redis holds; steps of other keys, expiry and failing gets always are |
| ClassifierCacheLatest.GetReturnsLatest | intent_classifier_service/app/cache_layer.py:80-151 | over every interleaving of harmless steps, failing calls among them, a get returns nothing or the latest cacheable set for its key since the last flush, with only the source changed |
| ClassifierCacheLatest.StartedGetReturnsLatest | intent_classifier_service/app/cache_layer.py:51-151 | in particular from the start of a process on, whatever Redis holds then: until a set or a flush that is the latest value |
| ClassifierCacheLatest.SetThenGet | intent_classifier_service/app/cache_layer.py:96-151 | a set is refused exactly for the intent unclassified with no confidence; after any other the next get of the key answers it with only the source changed, whether Redis took it or not |
| ClassifierCacheLatest.SetThenReload | intent_classifier_service/app/cache_layer.py:96-151 | and also from Redis alone, which puts it back into the LRU |
| ClassifierCacheLatest.AloneHarmless | intent_classifier_service/app/cache_layer.py:80-151 | for calls of a key that overlap with no other call of it: a get never harms; a set does exactly if its write fails while Redis holds another answer; the end of a flush exactly if Redis still holds the key |
| ClassifierCacheLatest.HarmfulShows | intent_classifier_service/app/cache_layer.py:80-151 | after any harmful step, with an LRU of any size and no further set of the key or flush, some run ends in a get with an answer that is not the latest |
| ClassifierCacheLatest.FailedWriteServesOld | intent_classifier_service/app/cache_layer.py:134-151 | for every size of the LRU and any two different answers: two sets, the second not written to Redis, and sets for other tenants, after which a get returns the first |
| ClassifierCacheLatest.OvertakenGetServesOld | intent_classifier_service/app/cache_layer.py:96-151 | with no failing call: a set runs between a get's reading of Redis and its write to the LRU, and later gets return the older answer |
| PolicyEngine.EvaluateLocal | fastapi_backend/app/services/policy_service.py:493-555 | the local loop: matching policies' results in order, raising at the first that blocks |
| PolicyEngine.EvaluateWithOpa | fastapi_backend/app/services/policy_service.py:390-424 | the loop over OPA's answer: all results listed, then the first denied policy named if the answer does not allow |
| PolicyEngine.LocalExactly | fastapi_backend/app/services/policy_service.py:426-555 | local evaluation raises if and only if some policy's condition is met and its effect forbids the service: for the first such, with its id and description; the results are the lines of the policies that apply, in order, each with its own id, effect and description |
| PolicyEngine.OpaExactly | fastapi_backend/app/services/policy_service.py:390-424 | with OPA's answer: raised if and only if it does not allow and blocks the id of some policy, the first such named; a policy's line is DENY if blocked, ALLOW if it is not and applies, and absent otherwise |
| PolicyEngine.RegoBlocksExactly | opa/policies/orchestrator.rego:18-91 | over the pushed items in any order, OPA blocks the id of a policy exactly if the Python evaluator blocks it, and allows exactly if it blocks none |
| PolicyEngine.EvaluatorsAgree | fastapi_backend/app/services/policy_service.py:371-555 | if OPA holds the same policies, both evaluators return the same list, or both raise naming the same policy with the local list the part of OPA's up to its first DENY |
| PolicyEngine.AgreeWhenSameFirst | fastapi_backend/app/services/policy_service.py:371-555 | whatever OPA holds, its verdict agrees with local evaluation if and only if the first cached policy that blocks locally is the first one whose id OPA blocks |
| PolicySync.HashIsCanonical | fastapi_backend/app/services/policy_service.py:268-295 | the hash is equal exactly for the same version and the same policies as a set, whatever the order, unless SHA-256 collides on these two documents |
| PolicySync.PolicyService.SyncFromDb | fastapi_backend/app/services/policy_service.py:138-221 | the cache, both hashes, the sync flag and OPA's data after a sync whose push is accepted, fails after landing, or is lost; and when it raises |
| PolicySync.SyncExactly | fastapi_backend/app/services/policy_service.py:138-242 | exactly the active rows that parse are cached, under the first row's version; OPA holds them unless disabled or lost; the push counts as accepted, with its hash, only if it was |
| PolicySync.StepInv | fastapi_backend/app/services/policy_service.py:138-242 | every sync keeps the recorded hash that of the bundle OPA holds, until OPA restarts; from then on OPA holds the file it was started with |
| PolicySync.InSyncIsSafe | fastapi_backend/app/services/policy_service.py:362-367 | over every run, failed pushes and restarts included: while the service takes itself to be in sync, unless SHA-256 collides on documents of this run, OPA holds the cached policies under the cached version if and only if it has not restarted since the last accepted push or restarted with a file that holds them |
| PolicySync.RestartUnnoticed | fastapi_backend/app/services/policy_service.py:362-367 | after a restart of OPA, with any file, the service still takes itself to be in sync; a verdict agrees with the cached policies if and only if they and the file block the same policy first |
| PolicySync.RestartForgetsNewPolicy | opa/data/policies.json:1-44 | with this file a policy added since is not enforced behind a restart, and one that the file has is |
| PolicySync.BootstrapIsSerialized | opa/data/policies.json:1-44 | the file's items are those a push of four policies would send |
| PolicySync.FailClosedAgrees | fastapi_backend/app/services/policy_service.py:299-351 | with fail-closed on, after every run OPA is asked only when in sync, and a decision agrees with local evaluation of the cached policies if and only if it is local, or OPA has not restarted since the last accepted push, or it restarted with a file that blocks the same policy first |
| PolicySync.DecidedExactly | fastapi_backend/app/services/policy_service.py:299-351 | for all settings, after every run: OPA is asked exactly if enabled and, with fail-closed on, in sync; there is a decision exactly if OPA is disabled, answers, or gives no response while the local fallback is allowed; it is OPA's if it answered and that of the cached policies otherwise |
| Iban.Mod97Check | fastapi_backend/app/services/content_inspector_service.py:141-161 | the loop of nine digits at a time, remainder in front, answers true exactly if the whole expanded number is 1 modulo 97, for every text; only ASCII digits and letters count as such |
| Iban.ReadCongruent | fastapi_backend/app/services/content_inspector_service.py:152-160 | numbers with the same remainder, and no others, keep the same remainder when the same digits follow |
| Iban.OneChangeDetected | fastapi_backend/app/services/content_inspector_service.py:141-161 | changing one digit to another digit or one letter to another letter always makes a valid IBAN invalid |
| Iban.ExchangeDetected | fastapi_backend/app/services/content_inspector_service.py:141-161 | exchanging neighbours of the rearranged string leaves a valid IBAN valid exactly if they are equal or one of three blind pairs of a digit and a letter |
| Iban.NeighboursDetected | fastapi_backend/app/services/content_inspector_service.py:141-161 | the same for neighbours of the IBAN as written, except those around the end of its first four characters |
| Iban.PowerIsNotOne | fastapi_backend/app/services/content_inspector_service.py:152-160 | modulo 97 no power of 10 below the 96th is 1, so no two places of an IBAN's number have equal weight |
| Iban.FarExchangeDetected | fastapi_backend/app/services/content_inspector_service.py:141-161 | exchanging two digits or two letters of a valid IBAN, at any distance and across its first four characters' end, leaves it valid exactly if they are equal |
| Iban.NormalizeExactly | fastapi_backend/app/services/content_inspector_service.py:141-143 | spaces are dropped, small letters become capitals, and all else stays |
| Iban.ValidExactly | fastapi_backend/app/services/content_inspector_service.py:141-161 | the check written out: 15 to 34 digits and capital letters, and the number they spell, the first four behind the others, is 1 modulo 97 |
| Iban.KnownIban | fastapi_backend/app/services/content_inspector_service.py:141-161 | an example IBAN passes, in lower case and with spaces |
| Luhn.LuhnCheck | fastapi_backend/app/services/content_inspector_service.py:129-138 | the loop from the right answers whether the weighted digit sum is a multiple of 10; the loop of output_guard_service.py:60-70 is the same |
| Luhn.LuhnOfText | frontend/src/hooks/useMessageGuard.js:54-64 | the JavaScript loop gives the same answer on 13 to 19 digits and false otherwise |
| Luhn.OneChangeDetected | fastapi_backend/app/services/content_inspector_service.py:129-138 | any change of one digit is detected, for every length |
| Luhn.ExchangeDetected | fastapi_backend/app/services/content_inspector_service.py:129-138 | an exchange of neighbours goes undetected exactly if they are equal or 0 and 9 |
| Luhn.CheckDigitUnique | fastapi_backend/app/services/content_inspector_service.py:129-138 | every payload has exactly one valid check digit |
| Luhn.KnownNumber | fastapi_backend/app/services/content_inspector_service.py:129-138 | the test number 4111 1111 1111 1111 passes, and of all digits only 0 can be put before it |
| Luhn.DigitsSnoc | frontend/src/hooks/useMessageGuard.js:54-64 | of a text exactly the digits count, in order, each with its value |
| BoundedQueue.Queue.Make | kong-logger/util/bounded_queue.js:22-40 | no queue for a concurrency or size that is not positive, an empty one otherwise |
| BoundedQueue.Queue.Push | kong-logger/util/bounded_queue.js:42-56 | the whole state after a push; it is refused exactly when all concurrency + maxSize places are taken |
| BoundedQueue.Queue.Drain | kong-logger/util/bounded_queue.js:58-73 | the draining loop equals its specification |
| BoundedQueue.Queue.OnSettled | kong-logger/util/bounded_queue.js:68-71 | a settled worker, whether it failed or not, frees its place, and one item fewer is outstanding |
| BoundedQueue.Queue.IsDrained | kong-logger/util/bounded_queue.js:83-90 | the wait's condition holds exactly if nothing is queued or running |
| BoundedQueue.DrainedIsPrefix | kong-logger/util/bounded_queue.js:58-73 | a drain starts the first items of the queue, as many as there are free workers |
| BoundedQueue.PushKeeps | kong-logger/util/bounded_queue.js:42-56 | a push keeps first-in-first-out, at most concurrency running and no item waiting beside a free worker; it adds one item or, when full, only counts the drop |
| BoundedQueue.CompleteKeeps | kong-logger/util/bounded_queue.js:68-71 | so does a completion, which takes exactly one item away |
| BoundedQueue.RunIsCounter | kong-logger/util/bounded_queue.js:42-90 | every interleaving of pushes and completions is the run of a counter with concurrency + maxSize places: same items taken and dropped, the items started are the first taken in order, as many as workers and completions allow, and the queue holds the rest |
| BoundedQueue.DrainsOut | kong-logger/util/bounded_queue.js:68-90 | without pushes each completion takes one item away; idle after exactly as many as were outstanding, and until then one more can come |
| IntentAudit.SetAttributes | fastapi_backend/app/repositories/intent_routing_repository.py:89-90 | the setattr loop applies the changes in order |
| IntentAudit.IntentMappings.CreateMapping | fastapi_backend/app/services/intent_mappings_service.py:45-62 | table, log and answer after a create: taken name, failed commit, or a new active row with its log row |
| IntentAudit.IntentMappings.UpdateMapping | fastapi_backend/app/services/intent_mappings_service.py:64-82 | the same for an update with missing and explicit null fields |
| IntentAudit.IntentMappings.DeleteMapping | fastapi_backend/app/services/intent_mappings_service.py:84-99 | table, log and answer after a deactivation |
| IntentAudit.CreateServes | fastapi_backend/app/services/intent_mappings_service.py:45-62 | refused exactly for a name some row has, active or not, a key in use or an unknown service; else the new name is served at once with its service, every other as before, and the log row holds the four values |
| IntentAudit.UpdateServes | fastapi_backend/app/services/intent_mappings_service.py:64-82 | refused exactly for an unknown row, a missing service or taxonomy, or an unknown service; else the given fields are set and no others, and the name is served exactly if the row is active now, with its service of now |
| IntentAudit.DeleteDeactivates | fastapi_backend/app/repositories/intent_routing_repository.py:105-124 | a delete changes the active column of its row to false and nothing else: no service is served under its name any more, a cache of the new table does not find it, every other name is served as before, and the log row holds the old and the new value |
| IntentAudit.UpdateReverses | fastapi_backend/app/repositories/intent_routing_repository.py:76-102 | an update cannot change name or author, and its logged old values restore the row |
| IntentAudit.HandleExplains | fastapi_backend/app/repositories/intent_routing_repository.py:40-124 | one request keeps names unique and columns not null; a saved one adds one log row of that entity and author that leads from the old table to the new and back; a refused one leaves no trace |
| IntentAudit.LogIsComplete | fastapi_backend/app/repositories/intent_routing_repository.py:40-124 | over every run, redoing the log from the first table gives the last, undoing it backwards gives the first, and no two rows, active or not, share a name |
| IntentAudit.OwnRowsSuffice | fastapi_backend/app/repositories/intent_routing_repository.py:40-124 | the log rows of one mapping alone tell that mapping's state |
| IntentAudit.NameStaysTaken | fastapi_backend/app/services/intent_mappings_service.py:52-54 | over every run a name once used stays taken, also when deactivated |
| IntentAudit.IntentCache.ForceReload | fastapi_backend/app/services/intent_cache_service.py:57-68 | whatever the order of the rows, the cache holds exactly the services of the active mappings; the version is the last row's |
| IntentAudit.IntentCache.ResolveIntent | fastapi_backend/app/services/intent_cache_service.py:46-51 | if the cache serves a table of mappings, the answer is a service exactly if it is the non-empty service of an active mapping of that name, and nothing exactly if there is no such mapping |
| IntentAudit.ReloadAgreesWithLog | fastapi_backend/app/services/intent_cache_service.py:46-68 | after a run and a reload an intent resolves to a service exactly if the log leads to an active row with that name and non-empty service, and to one service at most |
| SendLimiter.Chat.GuardCheck | frontend/src/hooks/useMessageGuard.js:76-168 | the verdict and the pruned list; an earlier check that blocks leaves the list alone |
| SendLimiter.Chat.HandleSend | frontend/src/components/AIChat.jsx:301-318 | nothing while not ready, nothing when blocked, a message held when doubtful, a registered send otherwise |
| SendLimiter.Chat.HandleGuardConfirm | frontend/src/components/AIChat.jsx:246-253 | a held message is registered without a new check |
| SendLimiter.OneMoreSend | frontend/src/hooks/useMessageGuard.js:116-128 | although old times are thrown away, one more send keeps the rate exactly if the rate check would pass at that moment |
| SendLimiter.RateLimit | frontend/src/hooks/useMessageGuard.js:116-172 | over every run with a clock that does not go back: no six sends in less than ten seconds, and at most five in any ten-second span, exactly if every confirmation comes when the rate check would pass |
| SendLimiter.InSpanExactly | frontend/src/hooks/useMessageGuard.js:116-128 | the sends counted in a span are those from its start on and before its end |
| SendLimiter.ConfirmRightAfterCheck | frontend/src/components/AIChat.jsx:246-318 | a confirmation with no send since the check that asked for it is always in time |
| SendLimiter.WaitIsEnough | frontend/src/hooks/useMessageGuard.js:118-127 | while the rate was kept, the rate check passes again exactly once the oldest send is ten seconds old, and the announced whole seconds are the least that reach that moment |
| SendLimiter.LateConfirmBreaksRate | frontend/src/components/AIChat.jsx:246-318 | a run with a send between check and confirmation: six sends in five seconds, and an announced wait that is too short |
| NonceStore.Gateway.SetIfAbsent | fastapi_backend/app/core/middleware.py:86-87 | set-if-absent with the expiry of max(2 * skew, 60) seconds |
| NonceStore.Gateway.VerifyGatewayHmac | fastapi_backend/app/core/middleware.py:54-96 | accepted exactly if the signature verifies, all three headers are there, the timestamp is a number within the skew, Redis answers, and the nonce is new or has expired; and the store after each outcome, unchanged on 403 |
| NonceStore.AcceptedExactly | fastapi_backend/app/core/middleware.py:54-96 | the conditions for each of the three outcomes, written out |
| NonceStore.RunAcceptsExactly | fastapi_backend/app/core/middleware.py:54-96 | in every run from any store, a request is accepted if and only if it is signed, in time, answered for, and its nonce is new or has expired at that moment |
| NonceStore.StoredOnlyBySigned | fastapi_backend/app/core/middleware.py:84-96 | a nonce is in the store only for an earlier signed request in time that brought it, with the lifetime from then on |
| NonceStore.TtlIsMax | fastapi_backend/app/core/middleware.py:86-87 | the lifetime is the larger of twice the skew and a minute |
| NonceStore.BlockedUntil | fastapi_backend/app/core/middleware.py:84-96 | a stored nonce is not accepted up to and in the millisecond of its expiry, and nothing shortens its life |
| NonceStore.NonceSpacing | fastapi_backend/app/core/middleware.py:84-96 | over every run two acceptances of a nonce are more than max(2 * skew, 60) seconds apart |
| NonceStore.TimestampWindow | fastapi_backend/app/core/middleware.py:63-71 | two acceptances of a timestamp read clocks at most twice the skew apart |
| NonceStore.ReplayNeedsRoom | fastapi_backend/app/core/middleware.py:54-96 | with Redis running commands late, a pair accepted twice needs more room than the store's lifetime leaves |
| NonceStore.ReplayOnlyAtExtremes | fastapi_backend/app/core/middleware.py:54-96 | on one clock a pair is accepted twice only in the first and the last second of its window, and only for a skew of 30 seconds or more |
| NonceStore.NeverThrice | fastapi_backend/app/core/middleware.py:54-96 | a pair is never accepted three times while Redis runs each command within 59 seconds of the clock being read |
| NonceStore.TimesFit | fastapi_backend/app/core/middleware.py:54-96 | in any run, n acceptances of a pair, among any others, need a window and delay longer than n - 1 lifetimes |
| NonceStore.TimesExactly | fastapi_backend/app/core/middleware.py:54-96 | for every delay and n, some run accepts a signed pair n times if and only if n - 1 lifetimes, each a millisecond more, are shorter than the window and the delay |
| NonceStore.ReplayableFromThirty | fastapi_backend/app/core/middleware.py:54-96 | the same request at the start of its window and one millisecond into its last second is accepted twice exactly if the skew is 30 seconds or more |
| TokenQuota.QuotaService.CheckQuota | fastapi_backend/app/services/quota_service.py:39-68 | never allowed without a positive limit; otherwise allowed if Redis does not answer or the day's counter is below the limit |
| TokenQuota.QuotaService.IncrementUsage | fastapi_backend/app/services/quota_service.py:70-87 | the counter of the date raised, its expiry 25 hours on; nothing if Redis does not answer |
| TokenQuota.DayExactly | fastapi_backend/app/services/quota_service.py:39-87 | a counter's day is a UTC date of 24 hours |
| TokenQuota.ChargeIsRead | fastapi_backend/app/services/quota_service.py:70-87 | a charge adds to what the day's counter holds at that moment, is read for 25 hours and not after, and leaves the other days alone |
| TokenQuota.StepExact | fastapi_backend/app/services/quota_service.py:70-87 | no counter expires within its own day, and until the day ends it holds all that was charged to it |
| TokenQuota.EndFits | fastapi_backend/app/services/ai_request_service.py:245-272 | ending a request, with or without a charge, on its day or a later one, keeps the bound of every day |
| TokenQuota.SameDayInTime | fastapi_backend/app/services/quota_service.py:39-68 | a check whose date is still today's when Redis answers leaves room for the request it admits |
| TokenQuota.CheckFits | fastapi_backend/app/services/ai_request_service.py:561-565 | an admission that leaves room on the day on which Redis answers keeps the bound of every day |
| TokenQuota.Overshoot | fastapi_backend/app/services/quota_service.py:39-87 | over every interleaving of checks and later charges, midnights included, in which each admission leaves room on the day on which Redis answers: no day's counter exceeds limit - 1 + requests * tokens, and on its day it equals what was charged |
| TokenQuota.FitsIsExact | fastapi_backend/app/services/quota_service.py:39-87 | for a day not yet over, the counter stays within the bound under every continuation that is in time if and only if it is below the limit or what is in flight still fits |
| TokenQuota.InTimeIsExact | fastapi_backend/app/services/quota_service.py:39-87 | after every run, an admission leaves room if and only if no continuation that is in time takes that day's counter past the bound |
| TokenQuota.BoundIsReached | fastapi_backend/app/services/quota_service.py:39-87 | for every positive limit, number of requests in flight and tokens per request, some run reaches the bound exactly |
| TokenQuota.LateChecksOvershoot | fastapi_backend/app/services/quota_service.py:39-68 | for every positive limit, number of requests and tokens: checks dated before midnight and answered behind it take the new day's counter past any number |
| TokenQuota.NoLimitNoRequests | fastapi_backend/app/services/quota_service.py:46-50 | without a positive limit nothing is ever admitted |

## Left out

Modelled differently from the source:

- The regular expressions other than the SSN pattern, and the name recogniser: any rule that finds ordered, disjoint, non-empty spans. `NoSsnShown` asks of the other rules' placeholders that they hold no digit and no dash, as all of the guard's do.
- What `\d`, `\w`, `str.strip` and `str.upper` mean beyond ASCII: parameters with the few properties used, or ASCII only for IBAN texts.
- JSON: a payload is a text without raw newline, a provider line is already parsed, and JSON rendering and SHA-256 are one function, of which the results on policies ask that it does not collide on the documents of the run. UTF-8 decoding is not modelled; texts are sequences of characters.
- The chat's early return at an error event, and what it does with a payload once parsed.
- FlatConfig.StorePath: the loop variable is the path from the root to the dict it refers to, not a reference, because a nested Python dict is a value here. Aliasing between two places of one config is therefore not captured.
- ClassifierCache.ClassificationCache.FlushAll: the keys its scan reaches are a parameter, any set of matching keys; its deletes and its end are also separate events that may come between the steps of other calls.
- Confidence scores are real numbers and Redis expiry an event that may happen at any time, not a clock, in the classification cache. A get that finds text in Redis it cannot parse answers nothing, as if it held none; that case is left out.
- PolicySync.InSyncIsSafe: overlapping syncs are not covered, because the recorded hash is read after the awaited push; and OPA is one instance, as in docker-compose.yml, while k8s/application/opa.yaml runs two, of which a push reaches one.
- PolicySync.RestartUnnoticed: that a restart loads the file of the start command (docker-compose.yml, k8s/application/opa.yaml) is an event with any file; when it happens is not modelled.
- The parsing of OPA's answer and the inline and legacy policy lists of the Rego policy; the bundle is the only list pushed.
- EventStream.RunStream: the database writes are flags that say whether they fail; a failing write of the "failed" status, and the row that marks a blocked request, are not modelled. Cancelled requests are left out.
- Providers.ClientAnswers: HTTP, retries and the Ollama client; an exception inside the loop is one kind of line.
- IntentAudit.LogIsComplete: each request's transaction runs alone, and a service in use is one of the services known at commit, as the foreign key sees to. Two updates of one mapping that read the same row would log the same old values. Timestamps and the updated_at column are left out.
- BoundedQueue.Queue.IsDrained: the polling and the timeout of drainAndWait are left out, only its condition is modelled. The throttled warning, stats() and the check that the worker is a function are left out.
- SendLimiter.RateLimit: a registered send is what counts, also when the send itself is dropped because an answer is awaited.
- NonceStore.Gateway.VerifyGatewayHmac: HMAC is a predicate and Python's int a function; the fallback without a secret and requests of method OPTIONS are left out.
- TokenQuota.Overshoot: one tenant with a fixed limit. A request admitted because Redis does not answer is in time only if it happens to leave room.
- Iban.Mod97Check: ASCII only. The source also takes digits and letters of other scripts, for which the model answers false.

Not modelled:

- HTTP, Keycloak, Vault, Kong and database clients, the admin forms, migrations, logging, metrics and retention.
- The classifier's models and the copy of its cache in the tests.
- The sensitivity resolution, the security score and the retention endpoints, whose claims follow branch by branch.
