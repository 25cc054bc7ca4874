# MindText journal: a Dafny model of its core

MindText is a small journaling app. The user talks with an assistant, saves the conversation
as a journal entry with a generated summary, and browses the saved entries by keyword. This
project models the logic at its core and proves properties of it:

- `keywords.dfy` (module `Keywords`) is the keyword extractor of `lib/extractKeywords.js`.
  It lower-cases the text, cleans it, splits it into words and filters out short words and
  stop-words. It then deduplicates the rest in first-occurrence order and keeps the first
  twelve.
- `journal.dfy` (module `Journal`) is the journal provider of `context/JournalContext.js`.
  It covers the entry record and its normalization. The `JournalStore` class holds the
  entries, the draft thread and input, the two "loaded" flags and an abstract durable
  storage map. Its methods are the load effects, the persist effects, `addEntry`,
  `deleteEntry`, `clearDraft` and the draft setters.
- `messages.dfy` (module `Messages`) is the chat message record. It defines the stripping
  of typing placeholders that both the page and the provider apply before persisting a
  thread.
- `chat.dfy` (module `Chat`) is the conversation page of `pages/index.js`. The
  `ChatController` class holds the thread, the input, the busy flags, the error line and the
  hydration flag. It has a method for the hydrate and sync effects and one for each step of
  the send, save and new-entry handlers. Each handler that waits for the server is split in
  two: a start step, and a completion step that is given the server's outcome (`Success`,
  `Missing` or `Failure`).
- `summaries.dfy` (module `Summaries`) is the summaries page of `pages/summaries.js`. It
  covers the normalized query and the quick-filter ranking, whose counting loop is a method
  proved against the ranking function. It also covers the filtered and sorted result list,
  the match-note condition and the highlighter, which splits a text into marked and
  unmarked parts.
- `strings.dfy` (module `Strings`) and `seqs.dfy` (module `Seqs`) hold the shared
  vocabulary:
  - ASCII lower-casing, whitespace, trimming and substring search;
  - filtering, deduplication in first-seen order (the order of a JavaScript `Set` or
    `Map`), counting, and a stable insertion sort (`Array.prototype.sort` is stable).

Every thread-changing method of `ChatController` keeps the invariant `Valid()`. It says
three things:
- At most one typing placeholder exists; it is the last message, and only while a send is
  pending.
- Once hydrated, the journal draft is the thread without placeholders, together with the
  input.
- The stored draft never holds a placeholder.

## Model

| member | source | states |
|---|---|---|
| Keywords.ExtractKeywords | lib/extractKeywords.js:36-44 | The keyword list has at most 12 words and is a prefix of the deduplicated candidate list; everything else is stated by Keywords.ExtractKeywordsSpec |
| Keywords.SplitFromConcat | lib/extractKeywords.js:40 | `split(/\s+/)` loses only whitespace: its words put end to end are exactly the text's non-whitespace characters, in order |
| Keywords.ExtractKeywordsSpec | lib/extractKeywords.js:1-44 | The result has at most 12 words and no duplicates. Every word is longer than 3 characters, is not a stop-word, is made of `a`-`z`/`0`-`9` only, and is one of the whitespace-delimited words of the lower-cased, cleaned text. The result is a prefix of the deduplicated candidate list, keeps first-occurrence order, and is empty for empty text |
| Journal.GenerateTitle | context/JournalContext.js:20-22 | The title ignores the entry and is always "Summary" (used by Journal.NormalizeEntry, whose contract states it) |
| Journal.NormalizeEntry | context/JournalContext.js:20-34 | Every field other than keywords and title is copied. The title is always "Summary". Present, non-empty keywords are kept unchanged; otherwise the keywords are the extractor's result on `userText + " " + assistantText` |
| Journal.NormalizeIdempotent | context/JournalContext.js:24-34 | Normalizing twice equals normalizing once |
| Journal.NormalizedKeywords | context/JournalContext.js:25-27 | Derived keywords keep the extractor's guarantees: at most 12 words, each longer than 3 characters and not a stop-word |
| Journal.NormalizeAll | context/JournalContext.js:37 | `map(normalizeEntry)`: the same length, with each position normalized; each result keeps the id, texts and time of its input, is titled "Summary" and is already normalized |
| Journal.LoadedEntries | context/JournalContext.js:48-58 | The entries after the load effect: the normalized stored array when the key parses to a non-empty array, else the current entries; its properties are Journal.ReloadRoundTrip, Journal.ReloadEmptyKeepsCurrent and Journal.LoadedEntriesNormalized |
| Journal.ReloadRoundTrip | context/JournalContext.js:48-58 | Persisting a non-empty list of normalized entries and loading it back gives the same list |
| Journal.ReloadEmptyKeepsCurrent | context/JournalContext.js:48-58 | A stored empty array does not replace the current (seed) entries |
| Journal.LoadedEntriesNormalized | context/JournalContext.js:37-58 | Whatever the load effect yields from normalized current entries is normalized and titled "Summary" |
| Journal.WithoutId | context/JournalContext.js:120-122 | No entry with the id remains. Every entry with another id stays, and the result is a subsequence in the original order. The list is unchanged when the id is absent. Every copy of an entry with another id stays, so the number of copies of each value is kept |
| Journal.DraftValue | context/JournalContext.js:95-102 | The written draft holds a thread without typing placeholders and the input |
| Journal.DraftWrite | context/JournalContext.js:92-103 | Nothing is written unless both loads have completed; otherwise the draft key gets the cleaned record. Every other key is untouched, a gated write stores a thread without typing placeholders, and a clean stored draft stays clean |
| Journal.DraftWriteTwice | context/JournalContext.js:92-103 | A second draft write under the same gate overrides the first |
| Journal.DraftWriteClean | context/JournalContext.js:97 | A draft write never puts a typing placeholder into storage |
| Journal.JournalStore.constructor | context/JournalContext.js:37-41 | Starts with the normalized seed entries, an empty draft and both flags false |
| Journal.JournalStore.PersistEntries | context/JournalContext.js:84-90 | Rewrites the entries key only once hydrated; nothing else changes |
| Journal.JournalStore.PersistDraft | context/JournalContext.js:92-103 | Writes the cleaned draft only when both flags are set, and keeps the stored draft free of placeholders |
| Journal.JournalStore.LoadEntries | context/JournalContext.js:43-60 | Stored entries replace the current ones only when they parse to a non-empty array, and come back normalized. Afterwards the store is hydrated and both persist effects have run |
| Journal.JournalStore.LoadDraft | context/JournalContext.js:62-82 | Restores the stored thread if it is an array and the stored input if it is a string. Afterwards the draft is marked loaded and the draft persist effect has run under its gate |
| Journal.JournalStore.AddEntry | context/JournalContext.js:105-118 | Appends exactly one normalized entry with the given id, time and texts. Earlier entries are unchanged, the entries are persisted once hydrated, and the draft is untouched |
| Journal.JournalStore.DeleteEntry | context/JournalContext.js:120-122 | The entries become WithoutId of the old entries and are persisted once hydrated |
| Journal.JournalStore.SetDraftThread | context/JournalContext.js:92-103 | Sets the draft thread, then runs the gated draft write |
| Journal.JournalStore.SetDraftInput | context/JournalContext.js:92-103 | Sets the draft input, then runs the gated draft write |
| Journal.JournalStore.ClearDraft | context/JournalContext.js:124-130 | Empties the thread and input and removes the draft key. Once both loads are done, the persist effect writes an empty draft back; otherwise the key stays absent |
| Messages.StripTyping | context/JournalContext.js:97 | The result holds no typing placeholder; a thread without placeholders is returned unchanged |
| Messages.StripTypingKeeps | pages/index.js:57 | The stripped thread is a subsequence of the thread and keeps every non-typing message, every copy of it: the number of copies of each non-typing message is kept |
| Chat.WelcomeMessage | pages/index.js:6-16 | `createWelcomeMessage`: an assistant message with the welcome text, not typing, marked seed, so neither Chat.HistoryInOrder nor Chat.SavePartsInOrder ever includes it |
| Chat.HasUserMessage | pages/index.js:71 | `thread.some` on the user role; Chat.HasUserMessageIff states its meaning |
| Chat.HasUserMessageIff | pages/index.js:71 | `hasUserMessage` holds exactly when some message has the user role |
| Chat.ReplyText | pages/index.js:120-121 | A present text field gives its trim, even when that is empty; only a missing field gives the fallback |
| Chat.RemoveById | pages/index.js:137-139 | No message with the id remains, and the thread does not grow |
| Chat.RemoveByIdMembers | pages/index.js:137-139 | Removal keeps exactly the messages with other ids |
| Chat.RemoveByIdCopies | pages/index.js:137-139 | Removal keeps every copy of a message with another id and none with the id |
| Chat.ReplaceById | pages/index.js:130-134 | `previous.map` putting the assistant message in place of every message with the placeholder's id; Chat.ReplaceLast, Chat.ReplaceAbsent and Chat.SettleFacts state its effect |
| Chat.ReplaceLast | pages/index.js:130-134 | Replacing a unique placeholder at the end of the thread changes only the last position |
| Chat.ReplaceAbsent | pages/index.js:130-134 | Replacing an id no message carries leaves the thread unchanged |
| Chat.RemoveAbsent | pages/index.js:137-139 | Removing an id no message carries leaves the thread unchanged |
| Chat.RemoveLast | pages/index.js:137-139 | Removing a unique placeholder at the end of the thread gives back the thread before it |
| Chat.History | pages/index.js:103-105 | The history is no longer than the thread and contains the role/content pair of every non-seed message; its order is stated by Chat.HistoryInOrder |
| Chat.HistoryFromNonSeed | pages/index.js:103-105 | Every history item is the role/content pair of a non-seed message |
| Chat.HistoryInOrder | pages/index.js:103-105 | For every thread, the seed welcome message included, the history is the role/content pair of each non-seed message, one item per message, in thread order, and nothing else |
| Chat.SaveParts | pages/index.js:175-181 | Each saved part is non-empty and starts with a non-space character; which parts, and their order, are stated by Chat.SavePartsInOrder |
| Chat.SavePartsEmptyIff | pages/index.js:175-187 | There is nothing to save exactly when no narrative message (user role, not typing, not seed) has text other than whitespace |
| Chat.SavePartsFromNarrative | pages/index.js:175-181 | Every saved part is the trimmed text of a narrative message |
| Chat.SavePartsInOrder | pages/index.js:175-181 | The saved parts are exactly the trimmed texts of the narrative messages whose text is not all whitespace, one per message, in thread order |
| Chat.SavePartsComplete | pages/index.js:175-181 | Every narrative message whose text is not all whitespace contributes its trimmed text |
| Chat.Join | pages/index.js:189 | `parts.join(sep)`: a joined non-empty list is at least as long as its first part; Chat.JoinSingle and Chat.JoinCons pin down the whole join, and Chat.JoinStartsWithFirst states that it starts with the first part |
| Chat.JoinSingle | pages/index.js:189 | A single part joins to itself |
| Chat.JoinCons | pages/index.js:189 | Joining a first part and a non-empty rest gives the first part, one separator, then the join of the rest; with JoinSingle this fixes every later part, in order, after one separator |
| Chat.JoinStartsWithFirst | pages/index.js:189 | A joined list starts with its first part |
| Chat.SaveBody | pages/index.js:189 | The saved parts joined by a blank line; Chat.SaveBodyNotBlank and Chat.SaveRequest state its properties |
| Chat.SaveBodyNotBlank | pages/index.js:189 | A body built from at least one part starts with the first part and does not trim to nothing |
| Chat.SaveRequest | pages/index.js:175-189 | Gives no body exactly when there are no parts; otherwise gives the joined parts, which are never blank |
| Chat.IdleNoTyping | pages/index.js:96-100 | With no send pending, a well-shaped thread has no placeholder |
| Chat.SettleFacts | pages/index.js:130-140 | Settling a pending send leaves no placeholder, and replacement keeps the length. When the placeholder is unique and last, only the last position changes (reply) or the placeholder is dropped (failure) |
| Chat.NoTypingShape | pages/index.js:141-143 | A thread without placeholders is well-shaped whatever is pending |
| Chat.SubmitShape | pages/index.js:96-100 | Appending the user message and the placeholder to an idle thread gives a well-shaped pending thread |
| Chat.ChatController.constructor | pages/index.js:6-35 | One seed welcome message, empty input and error, nothing pending, not hydrated |
| Chat.ChatController.Sync | pages/index.js:55-64 | Once hydrated, the journal draft becomes the thread without placeholders and the input, through the gated draft write. Before hydration nothing is written. The stored draft stays clean |
| Chat.ChatController.HydrateDraft | pages/index.js:37-53 | Runs only once, after the draft is loaded. It restores the stored thread if non-empty and one welcome message otherwise, restores the stored input, and keeps the invariant. The busy flags, error, pending send and pending save body and the store's flags stay unchanged |
| Chat.ChatController.Type | pages/index.js:261 | Sets the input and syncs the draft, keeping the invariant. Before hydration the storage and the journal draft stay unchanged. Every other page field and the store's flags stay unchanged |
| Chat.ChatController.Submit | pages/index.js:73-105 | Nothing happens when the trimmed input is empty or the page is busy. Otherwise exactly the user message with the trimmed text and a placeholder are appended, the input is cleared, the page is sending, and the request carries the trimmed prompt and the history of the thread before the placeholder. When no earlier message has the placeholder's id, the placeholder is last and unique, so by CompleteSend a failure leaves the pre-send thread plus the user message. Before hydration the storage and the journal draft stay unchanged, and so do the pending save body and the store's flags |
| Chat.ChatController.CompleteSend | pages/index.js:120-143 | An answer replaces the placeholder in place with the assistant's reply text, keeping the length. A failure removes the placeholder and sets the error. Either way the page stops sending and keeps the invariant. The input, the pending save body (of a save started during the send) and the store's flags stay unchanged, and before hydration so do the storage and the journal draft |
| Chat.ChatController.StartSave | pages/index.js:167-189 | Nothing happens without a user message or while saving; a pending send does not stop it. With nothing to save the error is set; otherwise the page is saving and the body is the joined parts. A refused or empty save leaves the pending save body of a running save unchanged |
| Chat.ChatController.CommitEntry | pages/index.js:209-213 | Exactly one normalized entry with the body and the summary is added. The draft is cleared and the page starts over from one welcome message with empty input. The store's load flags stay unchanged, and before hydration the journal draft is empty |
| Chat.ChatController.CompleteSave | pages/index.js:205-219 | An answer commits the entry with the trimmed summary, or the fallback when the field is missing. A failure sets the error and changes neither the thread nor the entries. Either way the page stops saving. The store's load flags stay unchanged. A failure leaves the journal draft unchanged; a commit before hydration leaves it empty |
| Chat.ChatController.NewEntry | pages/index.js:146-165 | Nothing happens while busy, or when the confirmation is declined while a user message exists. Otherwise the thread resets to one welcome message, the input and error are cleared, and the draft is cleared. The pending send, the pending save body and the store's flags stay unchanged. A refused reset leaves the journal draft unchanged; an accepted reset before hydration leaves it empty |
| Summaries.NormalizedQuery | pages/summaries.js:11 | The query trimmed and lower-cased; Summaries.NormalizedQuerySpec states its properties |
| Summaries.NormalizedQuerySpec | pages/summaries.js:11 | The normalized query is the lower-cased piece of the query left after removing a whitespace prefix and a whitespace suffix. It is lower case, has no whitespace at either end, is empty exactly when the query is all whitespace, and is unchanged by normalizing again |
| Summaries.KeywordsOf | pages/summaries.js:42 | An entry's keyword list, empty when it has none (`entry.keywords?.forEach`); Summaries.AllKeywordsMembers states its use |
| Summaries.AllKeywords | pages/summaries.js:41-45 | Every keyword of every entry, in the order the nested walk visits them; Summaries.AllKeywordsMembers states its contents |
| Summaries.AllKeywordsMembers | pages/summaries.js:41-45 | A keyword is counted exactly when some entry's keywords contain it |
| Summaries.RankedKeywords | pages/summaries.js:40-51 | At most 8 quick filters; distinctness, membership, order and cutoff are the four RankedKeywords lemmas, and Summaries.KeywordCounts computes it with the source's loops |
| Summaries.RankedKeywordsDistinct | pages/summaries.js:46-49 | The quick filters are distinct, and there are as many as the distinct keywords, capped at 8 |
| Summaries.RankedKeywordsMembers | pages/summaries.js:40-49 | Each quick filter is a keyword of some entry, with a positive count |
| Summaries.RankedKeywordsOrder | pages/summaries.js:41-48 | Counts are non-increasing down the list, and keywords with equal counts keep first-seen order |
| Summaries.RankedKeywordsCutoff | pages/summaries.js:46-48 | A keyword left out implies the list is full and the keyword is counted no more often than the last one shown; a left-out keyword with the same count as the last one shown was first seen after it, so ties at the cut go to the keywords seen first |
| Summaries.TallyStep | pages/summaries.js:43 | One counter update keeps the map's counts exact and its key order first-seen |
| Summaries.TalliedRanking | pages/summaries.js:46-49 | Sorting the exact tallies gives the same list as sorting the distinct keywords by their counts |
| Summaries.TallyKeywords | pages/summaries.js:42-44 | The inner loop: after one entry's keywords the map holds exact counts in first-seen key order |
| Summaries.KeywordCounts | pages/summaries.js:40-51 | The nested counting loops, sort and slice return exactly the ranked quick-filter list |
| Summaries.Results | pages/summaries.js:53-69 | The entries stably sorted newest first, filtered by the query unless it is empty; Summaries.ResultsSpec states its properties |
| Summaries.ResultsSpec | pages/summaries.js:53-69 | Results are newest first and drawn from the entries. A blank query returns a permutation of the entries. Otherwise the results are a subsequence of the sorted list holding exactly the entries whose lower-cased writing and summary (`userText + " " + assistantText`), or one of whose keywords, contains the query. Each matching entry appears as many times as in the entries, and no other entry appears |
| Summaries.FilteredSpec | pages/summaries.js:53-69 | The non-blank-query half of ResultsSpec, for any normalized query: the matching entries of the sorted list are newest first, a subsequence of it, exactly the matching entries, with every copy of each |
| Summaries.MatchNote | pages/summaries.js:115-143 | The note shows when the query is non-empty, the lower-cased writing contains it and the lower-cased summary does not; Summaries.MatchNoteMatches and Summaries.MatchNoteSummaryUnmarked state its consequences |
| Summaries.MatchNoteMatches | pages/summaries.js:115-143 | An entry that shows the match note for a query matches that query |
| Summaries.MatchNoteInResults | pages/summaries.js:53-143 | An entry that shows the match note for the normalized query is one of the results for that query |
| Summaries.MatchNoteSummaryUnmarked | pages/summaries.js:115-143 | When the match note shows, the summary is rendered as a single unmarked part |
| Summaries.NextMatchFirst | pages/summaries.js:174-177 | The next match found is a case-insensitive occurrence, and no occurrence starts earlier |
| Summaries.SplitMatches | pages/summaries.js:174-176 | `safeText.split(regex)` with a capturing group: the text between matches alternating with the case-insensitive matches; the SplitMatches lemmas state its properties |
| Summaries.SplitMatchesConcat | pages/summaries.js:174-177 | The split pieces concatenate back to the text |
| Summaries.SplitMatchesOdd | pages/summaries.js:174-177 | The split yields an odd number of pieces |
| Summaries.SplitMatchesMarked | pages/summaries.js:174-177 | Every odd-position piece equals the query, ignoring case |
| Summaries.SplitMatchesUnmatched | pages/summaries.js:174-177 | No even-position piece contains a match that starts inside it |
| Summaries.RenderHighlight | pages/summaries.js:168-186 | Plain text for an empty query, otherwise the split pieces each marked when it equals the query ignoring case; Summaries.RenderHighlightSpec states its properties |
| Summaries.RenderHighlightSpec | pages/summaries.js:168-186 | An empty query returns the text unchanged. Otherwise the parts concatenate to the text, alternate unmarked and marked (starting and ending unmarked), every marked part equals the query ignoring case, and no match starts inside an unmarked part |
| Summaries.EvenPiecesDiffer | pages/summaries.js:179-185 | No unmatched piece equals the query ignoring case, so it is never marked |
| Summaries.HighlightNoMatch | pages/summaries.js:168-186 | A text without the query renders as one unmarked part |

## Left out

- The server handlers `pages/api/chat.js` and `pages/api/summarize.js` are not part of this model. A server call is an outcome the completion step is given: `Success(text)`, `Missing` or `Failure`. The 8-message history cap and the empty-entry check live on the server; `Chat.SaveBodyNotBlank` only shows that the page never sends a blank body.
- Concurrency: each handler is a start step and a completion step, and the busy flags are modelled. Other interleavings of renders and awaits are not.
- Views, routing and timers: all JSX, `components/AppShell.js`, `pages/_app.js`, the scroll effect, the saved-notice timer and the router calls.
- The display fallback `entry.title || 'MindText summary'` in the title highlight is not modelled: normalized entries always carry the title "Summary".
- `localStorage`, `JSON` and the `typeof window` checks: storage is an abstract map of parsed values (`Unparsable`, an entry array, a draft record, other JSON), and the browser is assumed present.
- `Journal.JournalStore.LoadDraft`: a draft record's thread is present when it is an array and its input when it is a string. Every element of a restored thread is a message: the model has no null or other non-message elements, so the `message &&` part of the persist filters (context/JournalContext.js:97, pages/index.js:57) has nothing to drop.
- `Chat.ChatController`: every method takes the invariant `Valid()` as a precondition, and the constructor gives it only when the stored draft holds no typing placeholder. The app itself never writes such a draft, since both persist paths strip placeholders. A draft edited from outside that holds one is restored by the source (context/JournalContext.js:71-73) and hydrated into the thread (pages/index.js:42-43), where the stale placeholder stays; the model does not cover that case.
- `Journal.JournalStore.PersistDraft`: writes the input as it is. `draftInput || ''` only differs for a non-string input, which the string-typed model state cannot hold.
- Clocks and ids: `Date.now()`, `toISOString()` and `crypto.randomUUID()` are parameters. `createdAt` is an integer timestamp, the seed entries' ISO dates are written as milliseconds, and result ordering is integer comparison. Invalid dates (NaN comparisons) are not modelled.
- `window.confirm` is the `confirmed` parameter of `Chat.ChatController.NewEntry`. The delete button's confirmation wrapper (`handleDelete`, pages/summaries.js:29-38) is only the caller's choice whether to call `Journal.JournalStore.DeleteEntry`.
- Character handling is ASCII only: lower-casing maps `A`-`Z`, whitespace is the ASCII whitespace set, and there is no Unicode case folding.
- The highlighter treats the query as a literal string; the regular-expression escaping it relies on is assumed correct.
- `Chat.ChatController.Type` models the input's change handler, which is JSX wiring (pages/index.js:261); the disabled state of the buttons is not modelled.
- React's effect scheduling: each state change runs the persist or sync effect it triggers at the end of the method that changes the state.
