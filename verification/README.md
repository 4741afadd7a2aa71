# Story-engine core, modelled in Dafny

This project models the logic at the centre of an AI story-writing
backend. The backend keeps a continuity memory for the story, checks new
chapters for consistency, post-processes emotion scores and composes image
prompts. Everything around that logic is left out: HTTP, the language model,
the vector database, the emotion classifier. The project covers four parts.

* **Continuity memory** (`memory.dfy`, module `Memory`). `MemoryManager`
  holds an event log with bounded retention and a table of character
  profiles. After every insertion the cleanup keeps the 10 events with the
  greatest timestamp strings. Profiles are laid over with partial updates.
  The state is rendered into prompt text: truncated retrieved documents, a
  filtered profile summary, and the assembled context. The class has the
  collection (`events`), the profile names in table order and the profile
  map as fields. Its methods loop as the original does and are proved
  against specification functions (`Evict`, `ContextLines`, `Summary`,
  `PromptContext`, a stable `Sort`). The lemmas beside them state what the
  retention and rendering promise.
* **Consistency-report normaliser** (`coherence.dfy`, module `Coherence`).
  Markdown code fences are stripped from the model's reply. The reply is
  parsed as JSON. The four fields of a validation report (`plot_holes`,
  `character_inconsistencies`, `logic_errors`, `suggestions`) are filled
  with `[]` when missing. Any failure yields a fixed fallback report.
* **Emotion post-processing** (`sentiment.dfy`, module `Sentiment`).
  `AnalyzeEmotion` reshapes the classifier's label/score list into a dict
  ordered by descending score. `ValidateArc` reports the segments whose
  intended emotion scores below a threshold.
* **Image-prompt composition** (`image_prompts.dfy`, module
  `ImagePrompts`). The prompt is the model's rewrite (or, on failure, the
  description), then `", "`, then the style keywords joined by `", "`.

Python's own semantics are written out in supporting modules:

* `text.dfy` covers substring tests and `str.replace`, ordering of strings
  by code point, `join`, `strip` with Python's whitespace set, and ASCII
  `lower`.
* `dicts.dfy` treats insertion-ordered dicts as association lists, with
  `d[k] = v`, `d.update(u)` and `d.get(k)`.
* `sorting.dfy` is a stable sort over a strict weak order. It is proved to
  be a permutation, ordered and stable, so it stands for `list.sort` and
  `sorted`, with or without `reverse=True`.
* `wrappers.dfy` defines `Option`.

External services become parameters:

* The model call is a function `complete` from prompt to reply, None standing for a reply without content or a raised call.
* `json.loads` is a partial function `parse`, which rejects the empty text.
* The emotion classifier is a function `classify`.
* The similarity search's result is passed in as its document lists.
* The clock readings are passed in as strings.

## Model

| member | source | states |
|---|---|---|
| Memory.MemoryManager.constructor | backend/app/core/memory.py:20-28 | The manager starts from the stored collection and the profile table read from disk (an empty table when there is no file) |
| Memory.NewEventStamped | backend/app/core/memory.py:38-45 | The stored event's timestamp is the current time, whatever the caller passed; its id starts with `evt_`; every other metadata entry keeps its value and the caller's keys keep their order |
| Memory.MemoryManager.AddEvent | backend/app/core/memory.py:34-55 | Exactly one event is added (an id already stored is left alone), then the cleanup runs; at most 10 events remain and the profiles are untouched |
| Memory.MemoryManager.CleanupHistory | backend/app/core/memory.py:57-82 | The new store is the eviction of the old one: everything when it held at most 10 events, otherwise exactly 10 events |
| Memory.EvictNothingWhenSmall | backend/app/core/memory.py:63-64 | A store of 10 or fewer events is left as it is |
| Memory.EvictCount | backend/app/core/memory.py:57-82 | After eviction min(count, 10) events remain; ids stay distinct; an event is kept iff it was stored and its id is not among those deleted |
| Memory.DoomedCount | backend/app/core/memory.py:74-78 | Above 10 events, exactly count − 10 ids are deleted, all of them stored ids |
| Memory.EvictOldest | backend/app/core/memory.py:74-82 | Every evicted event's timestamp is at most every kept event's timestamp |
| Memory.EvictUnstampedFirst | backend/app/core/memory.py:71-78 | An event without a timestamp sorts as "" and is evicted whenever any event with a non-empty timestamp is |
| Memory.EvictTiesInOrder | backend/app/core/memory.py:67-78 | With equal timestamps the sort is stable: if the later-retrieved event is evicted, so is the earlier one |
| Memory.NewestSurvives | backend/app/core/memory.py:42-55 | A new event stamped no earlier than every stored event survives the cleanup after its insertion |
| Memory.DeleteMembers | backend/app/core/memory.py:80-82 | Deleting by id keeps exactly the events whose id is not listed |
| Memory.DeleteCount | backend/app/core/memory.py:80-82 | With distinct ids, deletion removes one event per listed stored id |
| Memory.OlderIsStrictWeak | backend/app/core/memory.py:75 | Ordering by timestamp string is a strict weak order, so the sort is well defined |
| Memory.Truncated | backend/app/core/memory.py:100 | A document of at most 1000 characters is kept whole; a longer one becomes exactly 1003 characters, its first 1000 followed by "..."; the result never exceeds 1003 characters |
| Memory.ContextLineAt | backend/app/core/memory.py:96-101 | Line i of the context is "- " + document i (truncated) + "\n", after the lines of the documents before it |
| Memory.ContextLinesBound | backend/app/core/memory.py:96-103 | The context is empty iff there are no documents, and costs at most 1006 characters per document |
| Memory.MemoryManager.GetRelevantContext | backend/app/core/memory.py:86-103 | The loop produces the line-per-document context of the search result; it returns "" exactly when there are no documents |
| Memory.ProfileOf | backend/app/core/memory.py:115-116 | A known name gives its profile and an unknown name gives the empty profile |
| Memory.OverlayTraits | backend/app/core/memory.py:109-112 | After the overlay, each key in the update has its new value and every other key keeps its old value; old keys keep their places and keys stay distinct |
| Memory.MemoryManager.UpdateProfile | backend/app/core/memory.py:105-113 | An unknown name gets an empty profile at the end of the table, then the traits are laid over it; other profiles and the event log are unchanged |
| Memory.SelectedSpec | backend/app/core/memory.py:125-128 | A profile is listed iff there is no filter or its lower-cased name occurs in the lower-cased filter; a table without repeated names gives a listing without repeats |
| Memory.SelectedAppend | backend/app/core/memory.py:125-128 | The listing keeps table order: the listing of two table parts one after the other is the first part's listing followed by the second's, and one name is listed iff it passes the filter |
| Memory.SelectedAllWithoutFilter | backend/app/core/memory.py:127 | With the filter None or "" every profile is listed |
| Memory.IncludedByOwnName | backend/app/core/memory.py:127 | A filter equal to a name, or to its lower-cased form, always selects that name |
| Memory.SummarySpec | backend/app/core/memory.py:118-133 | The summary is "" iff no profile passes the filter; otherwise it starts with "Character Profiles:\n" |
| Memory.MemoryManager.GetAllProfilesSummary | backend/app/core/memory.py:118-133 | The loop with its `found` flag yields the header followed by one line per selected profile, or "" when none is selected |
| Memory.NewerIsStrictWeak | backend/app/core/memory.py:146 | The descending timestamp order is a strict weak order |
| Memory.MemoryManager.GetAllHistory | backend/app/core/memory.py:135-154 | Ids, documents and metadatas stay aligned; they describe exactly the stored events, most recent first; equal timestamps keep store order |
| Memory.MemoryManager.ClearAllHistory | backend/app/core/memory.py:156-163 | The store is left empty and the profiles are unchanged |
| Memory.CharacterLineAt | backend/app/core/memory.py:175-176 | One line per active character, in the order the characters are given |
| Memory.CharacterLineUnknown | backend/app/core/memory.py:176 | A character without a stored profile is shown as `name: {}` |
| Memory.PromptContextShape | backend/app/core/memory.py:168-183 | The context starts with the CONTEXT and CHARACTERS headers and ends with PAST EVENTS, the retrieved context and the closing rule |
| Memory.MemoryManager.AssemblePromptContext | backend/app/core/memory.py:168-183 | The loop yields the headers, the character lines, the retrieved context for the query and the rule, in that order |
| Coherence.PromptCarriesInputs | backend/app/core/coherence.py:9-12 | The context and the chapter are inserted verbatim at fixed places in the consistency template |
| Coherence.JsonFenceIsFence | backend/app/core/coherence.py:19-21 | A reply holding "```json" also holds "```", so the second test only matters for plain fences |
| Coherence.StripFencesPlain | backend/app/core/coherence.py:19-22 | A reply without "```" is passed to the parser unchanged |
| Coherence.StripFencesLeavesNoFence | backend/app/core/coherence.py:19-22 | Whatever the reply, no "```" is left after stripping |
| Coherence.StripFencesJsonBlock | backend/app/core/coherence.py:19-20 | A body without backquotes wrapped as "```json" + body + "```" comes back exactly |
| Text.RemoveFenceLeavesNone | backend/app/core/coherence.py:20-22 | Removing every "```" left to right never leaves a "```" behind |
| Coherence.BackfillObject | backend/app/core/coherence.py:27-36 | On an object the backfill succeeds: parsed entries stay first with their values, and each missing key gets `[]`; nothing else is added |
| Coherence.BackfillComplete | backend/app/core/coherence.py:27-36 | After the backfill of an object every required key is present |
| Coherence.BackfillOther | backend/app/core/coherence.py:34-36 | A non-object is returned unchanged when every key passes the `in` test, and the backfill fails otherwise |
| Coherence.Backfill | backend/app/core/coherence.py:34-38 | The loop over the four keys computes the backfill outcome |
| Coherence.CheckConsistency | backend/app/core/coherence.py:5-46 | The report is computed from the template-filled prompt, the fence-stripped reply, its parse and the backfill, with the fallback on any failure; a failed generation ("" back from the model call) and a reply without content both give the fallback |
| Coherence.ReportCases | backend/app/core/coherence.py:24-46 | A failed parse gives the fallback. An object gives all four fields, with parsed values kept and missing ones set to `[]`. A scalar, or an array or string missing a field, gives the fallback. An array or string passing every membership test is returned as parsed |
| Sentiment.EmotionEntries | backend/app/core/sentiment.py:20-26 | One entry per label the classifier reported, with that label's (last) score and distinct keys; an empty report gives an empty result |
| Sentiment.PermutedLookup | backend/app/core/sentiment.py:26 | Rebuilding the dict from the sorted items changes no lookup |
| Sentiment.HigherScoreIsStrictWeak | backend/app/core/sentiment.py:26 | Descending score is a strict weak order |
| Sentiment.EmotionDescending | backend/app/core/sentiment.py:26 | Scores never increase along the result |
| Sentiment.EmotionTiesInOrder | backend/app/core/sentiment.py:23-26 | Equal scores keep the order of the score table built from the classifier's list |
| Sentiment.EmotionSeesOnlyPrefix | backend/app/core/sentiment.py:20 | Texts sharing their first 512 characters get the same result |
| Sentiment.DeviatesByLabel | backend/app/core/sentiment.py:46 | A segment deviates iff the classifier's score for the intended emotion is below the threshold, an unreported emotion counting as 0 |
| Sentiment.ValidateArc | backend/app/core/sentiment.py:30-49 | Only indices below min(segments, intended) are examined. Index i is reported iff segment i deviates. The indices are strictly increasing. It fails iff an examined segment has no emotions |
| ImagePrompts.EnhancerPromptCarries | backend/app/core/image_prompts.py:27 | The description is inserted verbatim into the enhancer template |
| ImagePrompts.SdPromptParts | backend/app/core/image_prompts.py:23-41 | On both paths the result ends with ", " and the joined keywords. On success the part before is the model reply with surrounding whitespace removed; on failure it is the description |
| ImagePrompts.DefaultKeywordsText | backend/app/core/image_prompts.py:24-25 | Without keywords the suffix lists the five defaults in their listed order |
| Sorting.SortPermutes | backend/app/core/memory.py:75 | Sorting only rearranges: same length, same multiset |
| Sorting.SortOrdered | backend/app/core/memory.py:75 | Under a strict weak order the sorted sequence never puts an element before one that sorts before it |
| Sorting.SortStable | backend/app/core/memory.py:75 | Tied elements keep their relative order |
| Sorting.SortAppendLast | backend/app/core/memory.py:75 | An element appended after everything it does not sort before stays last |
| Dicts.UpdateLookup | backend/app/core/memory.py:112 | After `d.update(u)` a key takes u's last value for it when u has the key, and keeps d's value otherwise |
| Dicts.PutLookup | backend/app/core/memory.py:42 | `d[k] = v` makes k map to v and changes no other key |
| Text.StripSplits | backend/app/core/image_prompts.py:34 | `strip` cuts the text into leading whitespace, the result and trailing whitespace, and the result has no whitespace at either end |
| Text.AtMostTotalOrder | backend/app/core/memory.py:71-75 | Timestamp strings are totally ordered by code point |

## Left out

- ChromaDB persistence, embeddings and similarity search. The collection is a sequence of events. `events_collection.get()` is taken to return them in insertion order. Adding an id that is already stored is taken to leave the store unchanged. The search result is a parameter, and its bound of `n_results` documents is not modelled (the `nResults` parameter is only passed along).
- Memory.MemoryManager.AddEvent: the clock is two string parameters, the timestamp text and the id text; ids are not claimed unique, since two calls in the same tick give the same id.
- Memory.MemoryManager.AddEvent: the original also writes the timestamp into the caller's own metadata dict (aliasing); the model copies it.
- Profile file I/O: the constructor receives the loaded table, and saving after an update is not modelled.
- Exceptions swallowed during cleanup and clearing, and all `print` output: only the success path's effect on the store is modelled.
- Metadata values and profile traits are strings: JSON profile values of other types are not modelled. Memory.DictText renders `str(dict)` as `{'k': 'v', ...}` without Python's escaping or its choice of quote character.
- Text.Lower maps ASCII letters only; Unicode case mapping beyond ASCII is not modelled.
- `json.loads` is the `parse` parameter; JSON numbers are reals, and how duplicate keys are resolved is the parser's business.
- The language model is the `complete` parameter. `generate_text` already turns its failures into "", and `generate_sd_prompt` treats a raised call (including a reply without content) as None.
- Coherence.CheckConsistency: a reply whose content is None is the `None` of `complete`, and the `TypeError` it raises is not modelled beyond the fallback it leads to; that `json.loads("")` fails is taken as a fact about the decoder (`parse("") == None`), not proved.
- The emotion classifier, its lazy global loading, and floating-point effects (such as NaN scores): scores are reals and the classifier is the `classify` parameter giving the label list for the single input.
- Sentiment.ValidateArc: Dafny has no default arguments; the default threshold 0.5 is the constant `Sentiment.DefaultThreshold`. The unused "dominant emotion" is taken only to fail where the original raises.
- Memory.MemoryManager.GetAllHistory: with an empty store the original returns the raw query result, holding other fields as well; the model returns three empty lists.
- async/await and concurrency: there is no locking in the original, and calls are modelled one at a time.
