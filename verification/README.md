# Speaker store, identification and command handling of a voice assistant

This project models the decision logic of a voice-assistant prototype in Dafny and proves properties about it. The prototype is written in Python. The model covers three parts.

- **Speaker store and identification** (`src/audio/recorder.py`). The store is a persistent map from speaker id to a record holding a creation time, voice embeddings and logged conversations. Python dicts iterate in insertion order, and that order decides ties, so the map comes with an explicit order sequence. `identify_speaker` does four things:
  - handles extraction failure;
  - handles the cold start;
  - runs an arg-max loop over the speakers with strict `>` starting from 0.0;
  - applies an inclusive threshold, then either appends the probe to the matched speaker or enrols a new one.

  The recorder also has `create_new_speaker`, the outlier pruner `clean_speaker_database`, and the normalising save and fall-back load of the store.
- **Conversation log** (`src/utils/command_classifier_claude.py`). `save_conversation` creates a record if it is missing and appends one interaction. The history part of `_send_to_model` prepends at most the last ten interactions to a prompt. `handle_query` decides whether to answer from history.
- **Reply handling in the three classifiers.** It maps a model reply to `查詢`/`行動`/`聊天`, by characters or by exact match. It extracts the fenced `` ```json `` block, validates the movement plan's shape and falls back to a fixed plan. It also models the Bedrock `handle_movement`, with its "no plan" branch and its logging.

Abstractions:
- Embeddings are `seq<real>`.
- Cosine similarity and the element-wise mean are function parameters (`sim`, `centroid`).
- JSON parsing is a function parameter `string -> Option<Json>`, where `None` stands for `json.loads` raising.
- The uuid prefix, the clock readings and the formatted timestamp are parameters. The fresh id is required to be absent from the store.
- Each operation returns the store it leaves in memory. After a recorder operation, the document written to disk is `SpeakerStore.Save` of that store. The classifier writes its store as it is (see "## Left out").

Modules, one per file:
- `Optional` (`optional.dfy`)
- `Text` (`text.dfy`): Python's `strip`, `in`, `split` and `join` on strings
- `JsonValue` (`json.dfy`)
- `SpeakerStore` (`speaker_store.dfy`)
- `Identification` (`identification.dfy`)
- `Pruner` (`pruner.dfy`)
- `ReplyMapping` (`reply_mapping.dfy`)
- `ConversationLog` (`conversation_log.dfy`)
- `MovementPlan` (`movement_plan.dfy`)

Three facts about the code that shape the model:
- **Identification touches non-candidates.** The matching loop (`recorder.py:239-241`) writes `[]` into every record lacking `embeddings`. So the other speakers are stated unchanged only up to that fill (`FillEmbeddings`).
- **Pruning is not idempotent.** The mean similarities are taken over the original list, and dropping an embedding changes the means of the others. So a second pass can drop more.
- **The JSON block can end inside a longer backtick run.** `split("```")[0]` stops at the first `` ``` `` after the opening fence. A `` ```json `` that starts inside that closing run is cut by the first `split` first. `MovementPlan.ExtractJsonBetweenFences` states the exact condition, and `MovementPlan.ExtractJsonBacktickRun` shows the edge case.

## Model

| member | source | states |
|---|---|---|
| SpeakerStore.Load | src/audio/recorder.py:76-84 | A missing or unreadable file yields the empty `{"speakers": {}}` store, which is valid; a parsed file is taken as it is |
| SpeakerStore.Save | src/audio/recorder.py:86-105 | The written document has the same ids in the same order, every record has `created_at` and `conversations`, embeddings are carried over exactly (absent stays absent), and records that already have both fields are written unchanged. For every record, a present `created_at` or `conversations` is kept, a missing `created_at` becomes `now` and missing `conversations` become `[]` |
| SpeakerStore.SaveRecord | src/audio/recorder.py:90-102 | One written record: a present `created_at` or `conversations` is kept, a missing `created_at` becomes `now`, missing `conversations` become `[]`, and `embeddings` is carried over only when present |
| SpeakerStore.SaveKeepsNormalised | src/audio/recorder.py:86-105 | Saving a store whose records all have `created_at` and `conversations` writes that store back unchanged |
| SpeakerStore.SaveIdempotent | src/audio/recorder.py:86-105 | Saving the saved document again, at any later clock reading, gives the same document |
| SpeakerStore.SaveLoadRoundTrip | src/audio/recorder.py:76-105 | Saving the loaded copy of a saved document reproduces that document, whatever the clock reads. The JSON write and read are not modelled: the file is taken to hold exactly the saved store, so this is the save-side half of the round trip |
| SpeakerStore.EmptyOrder | src/audio/recorder.py:222 | In a valid store, the map is empty exactly when the iteration order is empty |
| SpeakerStore.Insert | src/audio/recorder.py:276-282 | Adding a new key appends it to the iteration order, keeps the store valid and leaves every other record as it was |
| SpeakerStore.CreateIfAbsent | src/utils/command_classifier_claude.py:67-74 | A missing id gets a record with a creation time and empty conversation and embedding lists, appended at the end; an existing id leaves the store as it is |
| Identification.Pick | src/audio/recorder.py:234-259 | The loop's `(best_id, best_sim)`: `best_sim` is never negative; no best means every compared similarity is at most 0.0; otherwise the best is the first position whose similarity is positive and maximal, and `best_sim` is its similarity |
| Identification.FirstBestUnique | src/audio/recorder.py:258-259 | Because the comparison is strict, at most one position is the first with maximal positive similarity |
| Identification.FillEmbeddings | src/audio/recorder.py:239-241 | A record without `embeddings` gets an empty list; every other field is kept |
| Identification.FillAll | src/audio/recorder.py:237-242 | The fill applied to every record keeps the store valid, its order and its ids |
| Identification.FillAllKeepsScores | src/audio/recorder.py:239-253 | The fill changes neither which speakers are compared, nor any similarity, nor the first best speaker: speakers with a missing or empty list are never compared |
| Identification.PickDecides | src/audio/recorder.py:268 | `best_sim >= threshold and best_id is not None` holds exactly when some speaker is the first best and reaches the threshold (inclusive) |
| Identification.MatchOrEnrol | src/audio/recorder.py:268-284 | On a match, the probe is appended to that speaker's embeddings only, the ids are unchanged and `(best_id, best_sim)` is returned. Otherwise a fresh `speaker_` id with embeddings `[probe]` and empty conversations is appended and confidence is 0.0. In both cases every other record is unchanged up to the fill, and the store stays valid |
| Identification.Identify | src/audio/recorder.py:213-284 | Failed extraction gives an `unknown_` id, confidence 0.0 and an untouched store. An empty store gets exactly one speaker holding `[probe]` with confidence 1.0. Otherwise the result is the match-or-enrol decision |
| Identification.CreateNewSpeaker | src/audio/recorder.py:288-306 | Always enrols without comparing: a fresh `speaker_` id with embeddings `[probe]` and empty conversations, appended, with every other record unchanged; failed extraction gives an `unknown_` id and an untouched store |
| Pruner.KeptPositions | src/audio/recorder.py:126-142 | The kept positions are increasing, all have a "keep" verdict, and every position with a "keep" verdict is among them |
| Pruner.Survivors | src/audio/recorder.py:124-142 | `to_keep` is exactly the embeddings at the kept positions, in their original order |
| Pruner.Filtered | src/audio/recorder.py:144-145 | The result is the survivors, or `[first embedding]` when nothing survives |
| Pruner.PruneEmbeddings | src/audio/recorder.py:121-148 | A list of at most one embedding is left alone, and the result of a non-empty list is never empty |
| Pruner.PruneEmbeddingsKeeps | src/audio/recorder.py:121-148 | For two or more embeddings, the result is the order-preserving subsequence of embeddings whose mean similarity is strictly above 0.9, or `[first]` when there is none. The mean (`Keeps`, `MeanSim`, `SumOthers`) is the sum of similarities to every other embedding of the original list, divided by their count |
| Pruner.FirstMissing | src/audio/recorder.py:111-114 | The position of the first record without an `embeddings` key, where the pass stops |
| Pruner.PrunePrefix | src/audio/recorder.py:111-149 | After the first `k` speakers, stated for any way of pruning one list: the speakers before the first record without `embeddings` are pruned, all others are untouched, and the pass is still running exactly when no such record was met |
| Pruner.WholePass | src/audio/recorder.py:108-151 | For any list pruner that keeps a non-empty list non-empty, the pass over every speaker completes exactly when all records have `embeddings`. It then replaces every list and nothing else, and never empties a speaker's list |
| Pruner.Prune | src/audio/recorder.py:108-151 | The pass keeps the ids and order. It completes, and the store is saved, exactly when every record has `embeddings`. It then replaces each list by its pruned list and nothing else. Whether or not it completes, the speakers before the first record without `embeddings` are pruned in memory and the rest are untouched. A speaker that had an embedding still has one |
| ConversationLog.SaveConversation | src/utils/command_classifier_claude.py:63-87 | A falsy id leaves the store unchanged. A known id's conversation list grows by exactly the new entry at the end, with its creation time and embeddings kept. An unknown id gets a record with empty embeddings and just that one conversation. No other speaker changes |
| ConversationLog.SaveConversationAppendsOne | src/utils/command_classifier_claude.py:76-86 | Each save adds one conversation, last, to the named speaker's history and leaves every other speaker's history as it was |
| ConversationLog.EnsureHistory | src/utils/command_classifier_claude.py:98-110 | After the create-and-default step the id has a conversation list equal to its previous history, and no other record changes |
| ConversationLog.EnsureHistoryIdempotent | src/utils/command_classifier_claude.py:98-110 | Repeating the create-and-default step changes nothing |
| ConversationLog.Window | src/utils/command_classifier_claude.py:120 | `conversations[-10:]` is the suffix of length min(10, n) |
| ConversationLog.WindowSlides | src/utils/command_classifier_claude.py:120 | One more conversation slides the window: it is appended, and the oldest one drops out once ten are shown |
| ConversationLog.RenderAppend | src/utils/command_classifier_claude.py:120-122 | The history text (`Render`, one `Entry` of user line, assistant line and blank line per conversation) of two runs of conversations is the text of the first followed by that of the second |
| ConversationLog.WithHistory | src/utils/command_classifier_claude.py:98-125 | The prompt changes exactly when history is requested, the id is truthy and the speaker has conversations. It then becomes the header, the last ten entries in order, the question marker and the original prompt. Otherwise the store is left alone, or only ensured |
| ConversationLog.WithHistoryKeepsPrompt | src/utils/command_classifier_claude.py:125 | The prompt sent always ends with the caller's prompt |
| ConversationLog.RenderedWindowEndsWithLatest | src/utils/command_classifier_claude.py:120-122 | After one more conversation, the rendered window is the kept earlier entries followed by the new entry |
| ConversationLog.SavedConversationIsLatest | src/utils/command_classifier_claude.py:85-125 | After a save, the next prompt with history renders the window of the old history plus the new conversation |
| ConversationLog.RouteQuery | src/utils/command_classifier_claude.py:273-318 | `handle_query` answers from history exactly when the id is truthy, the speaker has conversations, and the check reply contains `可以` but not `不可以`; a falsy id leaves the store alone |
| ConversationLog.AnswerFromHistory | src/utils/command_classifier_claude.py:318-347 | An answer from history is logged as one `查詢` conversation, and every other record, the order, and the speaker's `created_at` and embeddings are kept; otherwise only the ensure step remains |
| ReplyMapping.ByCharacter | src/utils/command_classifier_claude.py:179-193 | Always one of the three types. `查詢` exactly when `查` or `詢` occurs anywhere in the reply. `行動` exactly when neither does but `行` or `動` does. `聊天` exactly when none of the four occurs |
| ReplyMapping.ByCharacterIdempotent | src/utils/command_classifier_claude_bp.py:101-109 | Mapping a type name again gives the same type |
| ReplyMapping.ByExactMatch | src/utils/command_classifier.py:65-76 | Always one of the three types; the stripped reply is returned exactly when it is one of them, and anything else is `聊天` |
| ReplyMapping.ByExactMatchIdempotent | src/utils/command_classifier.py:71-76 | Mapping the result again gives the same type |
| ReplyMapping.MappingsAgreeOnExactReplies | src/utils/command_classifier.py:71-76 | On a reply that is exactly a type name, the character rule and exact matching agree |
| ReplyMapping.MappingsDifferOnLongerReplies | src/utils/command_classifier.py:72-74 | A reply that only contains `查詢` maps to `聊天` by exact matching but to `查詢` by the character rule |
| ReplyMapping.HistoryAnswerable | src/utils/command_classifier_claude.py:312-318 | The stripped check reply says yes exactly when the raw reply contains `可以` and not `不可以` |
| ReplyMapping.RefusalWins | src/utils/command_classifier_claude.py:318 | A reply containing `不可以` also contains `可以` and is never read as yes |
| ReplyMapping.HistoryAnswerableOnAnswers | src/utils/command_classifier_claude.py:318 | The answer `可以` is read as yes and `不可以` as no |
| Text.Strip | src/utils/command_classifier.py:65 | `str.strip()`: a slice of the input with only whitespace removed at both ends, and no whitespace at its ends |
| Text.StripUnique | src/utils/command_classifier.py:65 | Any whitespace padding around a core without whitespace at its ends strips to exactly that core |
| Text.StripIdempotent | src/utils/command_classifier.py:65 | Stripping twice is stripping once |
| Text.StripKeepsNeedle | src/utils/command_classifier_claude.py:312-318 | A needle without whitespace occurs in the stripped string exactly when it occurs in the original |
| Text.IndexOf | src/utils/command_classifier_claude.py:476 | The first occurrence of a substring, present exactly when the substring occurs |
| Text.Split | src/utils/command_classifier_claude.py:476 | `str.split(sep)`: one piece exactly when `sep` does not occur (then the piece is the string), else the first piece ends at the first occurrence |
| Text.SplitJoin | src/utils/command_classifier_claude.py:476 | Joining the pieces with the separator gives back the string |
| Text.IndexOfUnderStrip | src/utils/command_classifier_claude_bp.py:278-287 | The first occurrence of a needle without whitespace in a string is its first occurrence in the stripped string, shifted by the leading whitespace |
| Text.SplitFirstPadded | src/utils/command_classifier_claude.py:476 | Trailing whitespace lengthens the first piece of a split only by whitespace |
| Text.StripPadded | src/utils/command_classifier_claude.py:476 | Appending whitespace does not change what stripping keeps |
| MovementPlan.ExtractJson | src/utils/command_classifier_claude.py:474-478 | Without an opening fence, the candidate is the stripped reply |
| MovementPlan.ExtractJsonBetweenFences | src/utils/command_classifier_claude.py:474-476 | With the first opening fence at `i` and the next closing fence at `j` (or the end), the candidate is the stripped text between them, provided no opening fence starts inside that closing fence |
| MovementPlan.ExtractUpToNextFence | src/utils/command_classifier_claude.py:474-476 | When a second opening fence comes before any closing fence after the first, the candidate is the stripped text up to that second opening fence |
| MovementPlan.ExtractJsonBacktickRun | src/utils/command_classifier_claude.py:476 | On `` ```json a````json b``` `` the candidate is `` a` ``, running past the first closing fence to the second opening fence |
| MovementPlan.ExtractJsonIgnoresOuterSpace | src/utils/command_classifier_claude_bp.py:278-289 | Extracting from the stripped reply (Gemini and first Bedrock variant) gives the same candidate as extracting from the raw reply (Bedrock variant with history) |
| MovementPlan.FallbackPlanValid | src/utils/command_classifier_claude.py:498-503 | The fallback plan has the shape of a valid plan |
| MovementPlan.AcceptPlan | src/utils/command_classifier_claude.py:480-503 | The result is always a valid plan. It is the parsed document exactly when parsing succeeds and the document passes `ValidPlan` (an object with both `動作順序` and `說明` present as lists, lines 483-487), and the fallback otherwise |
| MovementPlan.PlanFromReply | src/utils/command_classifier_claude_bp.py:278-308 | The returned plan is always valid. It is the parsed candidate, extracted from the stripped reply, exactly when that parses to a valid plan, and the fallback otherwise |
| MovementPlan.Texts | src/utils/command_classifier_claude.py:493 | `join` succeeds exactly when every item is a string, and then yields those strings in order |
| MovementPlan.PlanText | src/utils/command_classifier_claude.py:493 | The logged text of a plan exists exactly when all its steps and notes are strings |
| MovementPlan.HandleMovement | src/utils/command_classifier_claude.py:401-503 | An exception escapes exactly when there is a speaker and either the reply has the no-plan phrase or the valid plan has a non-string item. Without the phrase, the result is the parsed valid plan or the fallback. With the phrase and no speaker, the wrapper `NoPlanRecord` is returned. The speaker's log grows by one `行動` entry exactly when a valid plan is returned for it. The record is created at the end if missing, and a missing `conversations` key becomes `[]`. Every other record is kept, and so are this one's `created_at` and embeddings |
| MovementPlan.MovementVariantsAgree | src/utils/command_classifier_claude_bp.py:278-308 | Without a speaker and without the no-plan phrase, the Bedrock variant with history returns the same plan as the other two variants |

## Left out

- Network and SDK calls are not modelled: the Bedrock `invoke_model`, Gemini, web search, Lambda, speech-to-text and text-to-speech. Model replies and parse results are parameters.
- Audio capture, playback and file I/O are not modelled. `_load_speaker_db` takes the parse result as `Option<Store>`, and save is a pure function from a store to the written document.
- Embedding extraction, `cosine_similarity` and `np.mean` are not modelled: they are the parameters `probe`, `sim` and `centroid`. Floating point is modelled as `real`, so no numeric bounds are proved.
- uuid and clock values are parameters.
  - One `now` stands for both clock readings in `save_conversation` and the ensure step.
  - The fresh id is required to be absent from the store, as a uuid prefix is assumed to be.
- SpeakerStore.Save: one `now` stands for the per-record `datetime.now()` readings of `_save_speaker_db`, so every defaulted `created_at` in one save gets the same value.
- Python truthiness is modelled only for `speaker_id`: `None` and `""` are falsy.
- SpeakerStore.Load: a parsed document that is not shaped as a `speakers` map is not modelled. The store type only holds well-formed records, and conversations lacking `query` or `response` keys are not represented. Keys beyond `speakers` at the top level, and beyond `created_at`, `conversations` and `embeddings` in a record, are not represented either. `_save_speaker_db` writes only those keys (recorder.py:88-102), so a save drops any others, and the model does not show that.
- The recorder and the classifier each hold their own in-memory copy of the store file. Interleavings between the two copies are not modelled.
- The Bedrock classifier's own `_save_speaker_db` dumps its store as it is, without normalising. It is not modelled separately; the written document is that store.
- Prompt wording, including the history and answer prompts of `handle_query`, is not modelled. Only the history window they share is.
- ReplyMapping.HistoryAnswerable does not model `.lower()`. Lower-casing changes no CJK character and never produces `可`, `以` or `不`, so the two needles occur in the lower-cased reply exactly when they occur in the reply.
- After `handle_query` decides against history, it searches the web and logs the search answer; that path is not modelled. Nor is `chat_with_gemini`'s logging.
- MovementPlan.HandleMovement returns `None` for the uncaught `KeyError` at line 468 and for the uncaught `TypeError` from `join`. The in-memory store is kept as it was at that point.
- Idempotence of pruning is not stated, because the code does not have it.
- Pruner.Prune returns the in-memory store. The pass snapshots `items()`, and a record it has already pruned is never read again, so reading the current store is equivalent.
