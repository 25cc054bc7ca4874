/**
 * The journal provider of context/JournalContext.js: the entry store (seeded, loaded from
 * durable storage, normalized, appended to and filtered by id) and the draft session
 * (thread and pending input, persisted once both the entries and the draft have been
 * loaded). Durable storage is an abstract key-value map whose values are what the stored
 * JSON text parses to.
 */
module Journal {
  import opened Strings
  import opened Seqs
  import opened Keywords
  import opened Messages

  datatype Option<T> = None | Some(value: T)

  /** A journal entry; `keywords` and `title` may be absent in stored or seed data. */
  datatype Entry = Entry(
    id: string,
    userText: string,
    assistantText: string,
    createdAt: int,
    keywords: Option<seq<string>>,
    title: Option<string>)

  /** What the JSON text stored under a key parses to. */
  datatype Stored =
    | Unparsable                 // `JSON.parse` throws
    | EntryArray(entries: seq<Entry>)
    | DraftRecord(thread: Option<seq<Message>>, input: Option<string>)
                                 // an object; a field is present when it has the type the loader checks for
    | OtherJson                  // any other JSON value

  type Storage = map<string, Stored>

  const EntriesKey: string := "mindtext-entries"
  const DraftKey: string := "mindtext-draft"
  const SummaryTitle: string := "Summary"

  /** The title strategy: every entry is titled "Summary". */
  function GenerateTitle(e: Entry): string
  {
    SummaryTitle
  }

  /** `entry.keywords?.length` is truthy. */
  predicate HasKeywords(e: Entry)
  {
    e.keywords.Some? && |e.keywords.value| > 0
  }

  /** The text keywords are derived from: `${userText} ${assistantText}`. */
  function KeywordSource(e: Entry): string
  {
    e.userText + " " + e.assistantText
  }

  /**
   * Keeps present, non-empty keywords, derives them from the entry's texts otherwise, copies
   * every other field and sets the title.
   */
  function NormalizeEntry(e: Entry): (r: Entry)
    ensures r.id == e.id && r.userText == e.userText && r.assistantText == e.assistantText
    ensures r.createdAt == e.createdAt
    ensures r.title == Some(SummaryTitle)
    ensures HasKeywords(e) ==> r.keywords == e.keywords
    ensures !HasKeywords(e) ==> r.keywords == Some(ExtractKeywords(KeywordSource(e)))
    ensures r.keywords.Some?
  {
    var keywords := if HasKeywords(e) then e.keywords.value else ExtractKeywords(KeywordSource(e));
    e.(keywords := Some(keywords), title := Some(GenerateTitle(e.(keywords := Some(keywords)))))
  }

  /** Normalizing a normalized entry changes nothing. */
  lemma NormalizeIdempotent(e: Entry)
    ensures NormalizeEntry(NormalizeEntry(e)) == NormalizeEntry(e)
  {
  }

  /** Derived keywords keep the extractor's guarantees: at most twelve, each long and not a stop-word. */
  lemma NormalizedKeywords(e: Entry)
    ensures var k := NormalizeEntry(e).keywords.value;
      !HasKeywords(e) ==> |k| <= MaxKeywords && forall i :: 0 <= i < |k| ==> |k[i]| > 3 && k[i] !in StopWords
  {
    ExtractKeywordsSpec(KeywordSource(e));
  }

  /**
   * `map(normalizeEntry)`: one entry per input entry, with the same id, texts and time, and
   * each already normalized (normalizing it again changes nothing).
   */
  function NormalizeAll(es: seq<Entry>): (r: seq<Entry>)
    ensures |r| == |es|
    ensures forall i :: 0 <= i < |es| ==> r[i] == NormalizeEntry(es[i])
    ensures forall i :: 0 <= i < |r| ==>
      r[i].id == es[i].id && r[i].userText == es[i].userText && r[i].assistantText == es[i].assistantText &&
      r[i].createdAt == es[i].createdAt &&
      NormalizeEntry(r[i]) == r[i] && r[i].title == Some(SummaryTitle)
  {
    assert forall i :: 0 <= i < |es| ==> NormalizeEntry(NormalizeEntry(es[i])) == NormalizeEntry(es[i]) by {
      forall i | 0 <= i < |es| ensures NormalizeEntry(NormalizeEntry(es[i])) == NormalizeEntry(es[i]) {
        NormalizeIdempotent(es[i]);
      }
    }
    seq(|es|, i requires 0 <= i < |es| => NormalizeEntry(es[i]))
  }

  /** The sample entries of data/sampleEntries.js (timestamps in milliseconds since the epoch). */
  const SeedEntries: seq<Entry> := [
    Entry(
      "entry-1",
      "Woke up with a knot in my stomach about today's presentation. Practiced my talking points but still felt jittery on the subway.",
      "You did the work ahead of time and that preparation is what people saw. Notice how your nerves eased once you started speaking\U{00E2}\U{20AC}\U{201D}your body remembered you could do it.",
      1714724100000,
      Some(["presentation", "anxiety", "confidence", "work"]),
      None),
    Entry(
      "entry-2",
      "Afternoon slump hit again so I took a walk around the block. The sun and a podcast helped but I still felt scattered when I sat back down.",
      "Nice job giving your brain a reset. Maybe experiment with a short to-do list for the second half of the day so your mind knows what to focus on when you return.",
      1714750920000,
      Some(["energy", "routine", "focus", "work"]),
      None),
    Entry(
      "entry-3",
      "Had dinner with Maya and felt genuinely present. Talked about creative projects and left feeling inspired to sketch again.",
      "Connections like that remind you how fueled you are by collaboration. Capture even one sentence tonight about the sketch idea so it has somewhere to live.",
      1714856700000,
      Some(["friends", "creativity", "energy", "gratitude"]),
      None)
  ]

  /**
   * The entries after the load effect: the stored entries, normalized, when the entries key
   * parses to a non-empty array; otherwise (absent key, parse error, other JSON, empty array)
   * the current entries stay.
   */
  function LoadedEntries(storage: Storage, current: seq<Entry>): (r: seq<Entry>)
  {
    if EntriesKey in storage && storage[EntriesKey].EntryArray? && |storage[EntriesKey].entries| > 0
    then NormalizeAll(storage[EntriesKey].entries)
    else current
  }

  /** Persisting normalized, non-empty entries and loading them again gives the same entries. */
  lemma ReloadRoundTrip(storage: Storage, es: seq<Entry>, current: seq<Entry>)
    requires |es| > 0
    requires forall i :: 0 <= i < |es| ==> es[i] == NormalizeEntry(es[i])
    ensures LoadedEntries(storage[EntriesKey := EntryArray(es)], current) == es
  {
  }

  /** Loading after the store was emptied keeps the current (seed) entries. */
  lemma ReloadEmptyKeepsCurrent(storage: Storage, current: seq<Entry>)
    ensures LoadedEntries(storage[EntriesKey := EntryArray([])], current) == current
  {
  }

  /** Every entry the load effect yields from normalized current entries is normalized. */
  lemma LoadedEntriesNormalized(storage: Storage, current: seq<Entry>)
    requires forall i :: 0 <= i < |current| ==> current[i] == NormalizeEntry(current[i])
    ensures var r := LoadedEntries(storage, current);
      forall i :: 0 <= i < |r| ==> r[i] == NormalizeEntry(r[i]) && r[i].title == Some(SummaryTitle)
  {
    var r := LoadedEntries(storage, current);
    forall i | 0 <= i < |r| ensures r[i] == NormalizeEntry(r[i]) && r[i].title == Some(SummaryTitle) {
      if r != current {
        NormalizeIdempotent(storage[EntriesKey].entries[i]);
      } else {
        assert NormalizeEntry(current[i]).title == Some(SummaryTitle);
      }
    }
  }

  predicate NotId(id: string, e: Entry)
  {
    e.id != id
  }

  /**
   * `entries.filter((entry) => entry.id !== id)`: no entry with that id remains, every other
   * entry stays in order, and nothing changes when the id is absent.
   */
  function WithoutId(es: seq<Entry>, id: string): (r: seq<Entry>)
    ensures forall i :: 0 <= i < |r| ==> r[i].id != id && r[i] in es
    ensures forall i :: 0 <= i < |es| && es[i].id != id ==> es[i] in r
    ensures IsSubsequence(r, es)
    ensures (forall i :: 0 <= i < |es| ==> es[i].id != id) ==> r == es
    ensures forall e :: multiset(r)[e] == if e.id != id then multiset(es)[e] else 0
  {
    var keep := (e: Entry) => NotId(id, e);
    FilterMembers(es, keep);
    FilterSubsequence(es, keep);
    FilterAll(es, keep);
    assert forall e :: multiset(Filter(es, keep))[e] == if e.id != id then multiset(es)[e] else 0 by {
      forall e ensures multiset(Filter(es, keep))[e] == if e.id != id then multiset(es)[e] else 0 {
        FilterMultiplicity(es, keep, e);
      }
    }
    Filter(es, keep)
  }

  /** The draft record as the persist effect writes it: no typing placeholder, input a string. */
  function DraftValue(thread: seq<Message>, input: string): (v: Stored)
    ensures v.DraftRecord? && v.thread.Some? && NoTyping(v.thread.value) && v.input == Some(input)
  {
    DraftRecord(Some(StripTyping(thread)), Some(input))
  }

  /** The draft persist effect: nothing is written unless both loads have completed. */
  function DraftWrite(storage: Storage, gate: bool, thread: seq<Message>, input: string): (r: Storage)
    ensures !gate ==> r == storage
    ensures gate ==> r == storage[DraftKey := DraftValue(thread, input)]
    ensures forall k :: k != DraftKey ==> (k in r <==> k in storage) && (k in r ==> r[k] == storage[k])
    ensures gate ==> DraftKey in r && r[DraftKey].thread.Some? && NoTyping(r[DraftKey].thread.value)
    ensures StoredDraftClean(storage) ==> StoredDraftClean(r)
  {
    if gate then storage[DraftKey := DraftValue(thread, input)] else storage
  }

  /** A second draft write under the same gate overrides the first. */
  lemma DraftWriteTwice(storage: Storage, gate: bool, t1: seq<Message>, i1: string, t2: seq<Message>, i2: string)
    ensures DraftWrite(DraftWrite(storage, gate, t1, i1), gate, t2, i2) == DraftWrite(storage, gate, t2, i2)
  {
  }

  /** No typing placeholder in the stored draft. */
  predicate StoredDraftClean(storage: Storage)
  {
    (DraftKey in storage && storage[DraftKey].DraftRecord? && storage[DraftKey].thread.Some?) ==>
      NoTyping(storage[DraftKey].thread.value)
  }

  /** A draft write never stores a typing placeholder. */
  lemma DraftWriteClean(storage: Storage, gate: bool, thread: seq<Message>, input: string)
    requires StoredDraftClean(storage)
    ensures StoredDraftClean(DraftWrite(storage, gate, thread, input))
  {
  }

  class JournalStore {
    var entries: seq<Entry>
    var draftThread: seq<Message>
    var draftInput: string
    var hasHydrated: bool
    var hasLoadedDraft: bool
    var storage: Storage

    /** No typing placeholder in the draft, in memory or in storage. */
    ghost predicate DraftClean()
      reads this
    {
      StoredDraftClean(storage) && NoTyping(draftThread)
    }

    /** The provider's initial state: the normalized seed entries and an empty draft. */
    constructor (initial: Storage)
      ensures entries == NormalizeAll(SeedEntries)
      ensures draftThread == [] && draftInput == ""
      ensures !hasHydrated && !hasLoadedDraft
      ensures storage == initial
    {
      entries := NormalizeAll(SeedEntries);
      draftThread := [];
      draftInput := "";
      hasHydrated := false;
      hasLoadedDraft := false;
      storage := initial;
    }

    /** The entries persist effect: rewrites the whole entry list once loading is done. */
    method PersistEntries()
      modifies this
      ensures storage == if hasHydrated then old(storage)[EntriesKey := EntryArray(entries)] else old(storage)
      ensures entries == old(entries) && draftThread == old(draftThread) && draftInput == old(draftInput)
      ensures hasHydrated == old(hasHydrated) && hasLoadedDraft == old(hasLoadedDraft)
    {
      if hasHydrated {
        storage := storage[EntriesKey := EntryArray(entries)];
      }
    }

    /** The draft persist effect: writes the cleaned thread and the input once both loads are done. */
    method PersistDraft()
      modifies this
      ensures storage == DraftWrite(old(storage), hasHydrated && hasLoadedDraft, draftThread, draftInput)
      ensures entries == old(entries) && draftThread == old(draftThread) && draftInput == old(draftInput)
      ensures hasHydrated == old(hasHydrated) && hasLoadedDraft == old(hasLoadedDraft)
      ensures old(StoredDraftClean(storage)) ==> StoredDraftClean(storage)
    {
      if hasHydrated && hasLoadedDraft {
        var cleanedThread := StripTyping(draftThread);
        storage := storage[DraftKey := DraftRecord(Some(cleanedThread), Some(draftInput))];
      }
    }

    /**
     * The entries load effect, run once on mount, followed by the persist effects it
     * triggers by setting `hasHydrated`.
     */
    method LoadEntries()
      requires !hasHydrated
      modifies this
      ensures entries == LoadedEntries(old(storage), old(entries))
      ensures hasHydrated && hasLoadedDraft == old(hasLoadedDraft)
      ensures draftThread == old(draftThread) && draftInput == old(draftInput)
      ensures storage == DraftWrite(old(storage)[EntriesKey := EntryArray(entries)], hasLoadedDraft, draftThread, draftInput)
      ensures old(DraftClean()) ==> DraftClean()
    {
      var stored := if EntriesKey in storage then Some(storage[EntriesKey]) else None;
      if stored.Some? && stored.value.EntryArray? && |stored.value.entries| > 0 {
        entries := NormalizeAll(stored.value.entries);
      }
      hasHydrated := true;
      PersistEntries();
      PersistDraft();
    }

    /**
     * The draft load effect, run once on mount: restores the stored thread when it is an
     * array and the stored input when it is a string, then marks the draft loaded, which
     * triggers the draft persist effect.
     */
    method LoadDraft()
      requires !hasLoadedDraft
      modifies this
      ensures var s := if DraftKey in old(storage) then old(storage)[DraftKey] else OtherJson;
        && draftThread == (if s.DraftRecord? && s.thread.Some? then s.thread.value else old(draftThread))
        && draftInput == (if s.DraftRecord? && s.input.Some? then s.input.value else old(draftInput))
      ensures hasLoadedDraft && hasHydrated == old(hasHydrated) && entries == old(entries)
      ensures storage == DraftWrite(old(storage), hasHydrated, draftThread, draftInput)
      ensures old(DraftClean()) ==> DraftClean()
    {
      if DraftKey in storage {
        var parsed := storage[DraftKey];
        if parsed.DraftRecord? {
          if parsed.thread.Some? {
            draftThread := parsed.thread.value;
          }
          if parsed.input.Some? {
            draftInput := parsed.input.value;
          }
        }
      }
      hasLoadedDraft := true;
      PersistDraft();
    }

    /**
     * Appends one normalized entry with a fresh id and the current time (both supplied by
     * the caller), then persists the entries.
     */
    method AddEntry(id: string, now: int, userText: string, assistantText: string)
      modifies this
      ensures entries == old(entries) + [NormalizeEntry(Entry(id, userText, assistantText, now, None, None))]
      ensures storage == if hasHydrated then old(storage)[EntriesKey := EntryArray(entries)] else old(storage)
      ensures draftThread == old(draftThread) && draftInput == old(draftInput)
      ensures hasHydrated == old(hasHydrated) && hasLoadedDraft == old(hasLoadedDraft)
    {
      var entry := NormalizeEntry(Entry(id, userText, assistantText, now, None, None));
      entries := entries + [entry];
      PersistEntries();
    }

    /** Removes every entry with the id, keeping the rest in order, then persists the entries. */
    method DeleteEntry(id: string)
      modifies this
      ensures entries == WithoutId(old(entries), id)
      ensures storage == if hasHydrated then old(storage)[EntriesKey := EntryArray(entries)] else old(storage)
      ensures draftThread == old(draftThread) && draftInput == old(draftInput)
      ensures hasHydrated == old(hasHydrated) && hasLoadedDraft == old(hasLoadedDraft)
    {
      entries := WithoutId(entries, id);
      PersistEntries();
    }

    /** `setDraftThread` followed by the draft persist effect. */
    method SetDraftThread(thread: seq<Message>)
      modifies this
      ensures draftThread == thread && draftInput == old(draftInput) && entries == old(entries)
      ensures hasHydrated == old(hasHydrated) && hasLoadedDraft == old(hasLoadedDraft)
      ensures storage == DraftWrite(old(storage), hasHydrated && hasLoadedDraft, thread, draftInput)
      ensures old(DraftClean()) && NoTyping(thread) ==> DraftClean()
    {
      draftThread := thread;
      PersistDraft();
    }

    /** `setDraftInput` followed by the draft persist effect. */
    method SetDraftInput(input: string)
      modifies this
      ensures draftInput == input && draftThread == old(draftThread) && entries == old(entries)
      ensures hasHydrated == old(hasHydrated) && hasLoadedDraft == old(hasLoadedDraft)
      ensures storage == DraftWrite(old(storage), hasHydrated && hasLoadedDraft, draftThread, input)
      ensures old(DraftClean()) ==> DraftClean()
    {
      draftInput := input;
      PersistDraft();
    }

    /**
     * Empties the draft and removes the draft key. The reset thread is a new array, so the
     * draft persist effect runs again and, once both loads are done, writes an empty draft.
     */
    method ClearDraft()
      modifies this
      ensures draftThread == [] && draftInput == "" && entries == old(entries)
      ensures hasHydrated == old(hasHydrated) && hasLoadedDraft == old(hasLoadedDraft)
      ensures storage == DraftWrite(old(storage) - {DraftKey}, hasHydrated && hasLoadedDraft, [], "")
      ensures !(hasHydrated && hasLoadedDraft) ==> DraftKey !in storage
      ensures old(StoredDraftClean(storage)) ==> DraftClean()
    {
      draftThread := [];
      draftInput := "";
      storage := storage - {DraftKey};
      PersistDraft();
    }
  }
}
