/**
 * The conversation page of pages/index.js: a thread of messages, the pending input, the
 * busy flags and the error line, driven by the send, save and new-entry handlers. Each
 * handler that awaits the server is split into a start step and a completion step that is
 * given the server's outcome. The draft hydrate and sync effects (pages/index.js:37-64)
 * keep the journal draft in step with the thread once it has been hydrated.
 */
module Chat {
  import opened Strings
  import opened Seqs
  import opened Messages
  import opened Journal

  const WelcomeText: string := "How are you feeling?"
  const ReplyFallback: string := "I'm not sure what to say yet, but I'm listening."
  const SummaryFallback: string := "You checked in with MindText but we could not create a summary this time."
  const SendError: string := "MindText had trouble responding. Please try again."
  const EmptySaveError: string := "Add a thought before saving this entry."
  const SaveError: string := "MindText could not save that entry. Please try again."
  const PartSeparator: string := "\n\n"

  /**
   * What a server call yields: a response whose text field is a string, a response without
   * that field, or a failure (network error, non-OK status, unreadable body).
   */
  datatype Reply = Success(text: string) | Missing | Failure

  /** One element of the history sent with a prompt: the role and the text only. */
  datatype HistoryItem = HistoryItem(role: Role, content: string)

  datatype ChatRequest = ChatRequest(prompt: string, history: seq<HistoryItem>)

  function UserId(stamp: string): string { "user-" + stamp }
  function TypingId(stamp: string): string { "assistant-typing-" + stamp }
  function AssistantId(stamp: string): string { "assistant-" + stamp }
  function WelcomeId(stamp: string): string { "assistant-welcome-" + stamp }

  /** The assistant's opening message, marked as seed so that it is never sent or saved. */
  function WelcomeMessage(stamp: string, now: int): Message
  {
    Message(WelcomeId(stamp), Assistant, WelcomeText, now, false, true)
  }

  /** `thread.some((message) => message.role === 'user')`. */
  predicate HasUserMessage(thread: seq<Message>)
  {
    thread != [] && (thread[|thread| - 1].role == User || HasUserMessage(thread[..|thread| - 1]))
  }

  /** Some message of the thread has the user role exactly when `HasUserMessage` holds. */
  lemma {:induction false} HasUserMessageIff(thread: seq<Message>)
    ensures HasUserMessage(thread) <==> exists i :: 0 <= i < |thread| && thread[i].role == User
  {
    if thread != [] {
      var prefix := thread[..|thread| - 1];
      HasUserMessageIff(prefix);
      assert forall i :: 0 <= i < |prefix| ==> prefix[i] == thread[i];
      if HasUserMessage(prefix) {
        var i :| 0 <= i < |prefix| && prefix[i].role == User;
        assert thread[i].role == User;
      }
    }
  }

  /**
   * The reply text shown for a server answer: the trimmed text when the field is present
   * (even when it trims to nothing), the fallback only when the field is missing.
   */
  function ReplyText(reply: Reply, fallback: string): (t: string)
    requires !reply.Failure?
    ensures reply.Success? ==> t == Trim(reply.text)
    ensures reply.Success? && reply.text == [] ==> t == []
    ensures reply.Missing? ==> t == fallback
  {
    if reply.Success? then Trim(reply.text) else fallback
  }

  predicate NoneWithId(thread: seq<Message>, id: string)
  {
    forall i :: 0 <= i < |thread| ==> thread[i].id != id
  }

  /** `map` replacing every message with the id by `m`. */
  function ReplaceById(thread: seq<Message>, id: string, m: Message): seq<Message>
  {
    seq(|thread|, i requires 0 <= i < |thread| => if thread[i].id == id then m else thread[i])
  }

  /** `filter` dropping every message with the id, the others kept in order. */
  function RemoveById(thread: seq<Message>, id: string): (r: seq<Message>)
    ensures NoneWithId(r, id)
    ensures |r| <= |thread|
  {
    if thread == [] then []
    else
      var last := thread[|thread| - 1];
      var r := RemoveById(thread[..|thread| - 1], id);
      if last.id == id then r else r + [last]
  }

  /** Removal keeps exactly the messages with other ids. */
  lemma {:induction false} RemoveByIdMembers(thread: seq<Message>, id: string)
    ensures forall i :: 0 <= i < |RemoveById(thread, id)| ==> RemoveById(thread, id)[i] in thread
    ensures forall i :: 0 <= i < |thread| && thread[i].id != id ==> thread[i] in RemoveById(thread, id)
  {
    if thread != [] {
      var prefix := thread[..|thread| - 1];
      RemoveByIdMembers(prefix, id);
      assert thread == prefix + [thread[|thread| - 1]];
    }
  }

  /** Removal keeps every copy of a message with another id and none with the id. */
  lemma {:induction false} RemoveByIdCopies(thread: seq<Message>, id: string)
    ensures forall m :: multiset(RemoveById(thread, id))[m] == if m.id == id then 0 else multiset(thread)[m]
  {
    if thread != [] {
      var prefix := thread[..|thread| - 1];
      RemoveByIdCopies(prefix, id);
      assert thread == prefix + [thread[|thread| - 1]];
    }
  }

  /** Replacing a placeholder that ends the thread and whose id is unique changes only the last position. */
  lemma ReplaceLast(base: seq<Message>, typing: Message, m: Message)
    requires NoneWithId(base, typing.id)
    ensures ReplaceById(base + [typing], typing.id, m) == base + [m]
  {
  }

  /** Replacing an id that no message carries changes nothing. */
  lemma ReplaceAbsent(thread: seq<Message>, id: string, m: Message)
    requires NoneWithId(thread, id)
    ensures ReplaceById(thread, id, m) == thread
  {
  }

  /** Removing an id that no message carries changes nothing. */
  lemma {:induction false} RemoveAbsent(thread: seq<Message>, id: string)
    requires NoneWithId(thread, id)
    ensures RemoveById(thread, id) == thread
  {
    if thread != [] {
      var prefix := thread[..|thread| - 1];
      RemoveAbsent(prefix, id);
      assert prefix + [thread[|thread| - 1]] == thread;
    }
  }

  /** Removing a placeholder that ends the thread and whose id is unique gives back the rest. */
  lemma RemoveLast(base: seq<Message>, typing: Message)
    requires NoneWithId(base, typing.id)
    ensures RemoveById(base + [typing], typing.id) == base
  {
    assert (base + [typing])[..|base|] == base;
    RemoveAbsent(base, typing.id);
  }

  function Item(m: Message): HistoryItem
  {
    HistoryItem(m.role, m.text)
  }

  /** The non-seed messages of a thread as role/content pairs, in thread order. */
  function History(thread: seq<Message>): (h: seq<HistoryItem>)
    ensures |h| <= |thread|
    ensures forall i :: 0 <= i < |thread| ==> thread[i].isSeed || Item(thread[i]) in h
  {
    if thread == [] then []
    else
      var last := thread[|thread| - 1];
      var h := History(thread[..|thread| - 1]);
      assert forall i :: 0 <= i < |thread| - 1 ==> thread[i] == thread[..|thread| - 1][i];
      if last.isSeed then h else h + [Item(last)]
  }

  predicate FromNonSeed(item: HistoryItem, thread: seq<Message>)
  {
    exists i :: 0 <= i < |thread| && !thread[i].isSeed && item == Item(thread[i])
  }

  /** Every history item comes from a non-seed message of the thread. */
  lemma {:induction false} HistoryFromNonSeed(thread: seq<Message>)
    ensures forall k :: 0 <= k < |History(thread)| ==> FromNonSeed(History(thread)[k], thread)
  {
    if thread != [] {
      var prefix := thread[..|thread| - 1];
      var last := thread[|thread| - 1];
      HistoryFromNonSeed(prefix);
      var hp := History(prefix);
      var h := History(thread);
      assert h == if last.isSeed then hp else hp + [Item(last)];
      forall k | 0 <= k < |h| ensures FromNonSeed(h[k], thread) {
        if k < |hp| {
          assert FromNonSeed(hp[k], prefix);
          var i :| 0 <= i < |prefix| && !prefix[i].isSeed && hp[k] == Item(prefix[i]);
          assert prefix[i] == thread[i] && h[k] == hp[k];
          assert !thread[i].isSeed && h[k] == Item(thread[i]);
        } else {
          assert !last.isSeed && h[k] == Item(last);
          assert !thread[|thread| - 1].isSeed && h[k] == Item(thread[|thread| - 1]);
        }
      }
    }
  }

  predicate NotSeed(m: Message)
  {
    !m.isSeed
  }

  /** The role/content pair of each message, in order. */
  function Items(ms: seq<Message>): (h: seq<HistoryItem>)
    ensures |h| == |ms|
  {
    seq(|ms|, k requires 0 <= k < |ms| => Item(ms[k]))
  }

  /**
   * The history is `thread.filter((m) => !m.isSeed).map(({ role, text }) => ...)`: one item
   * per non-seed message, in thread order, and nothing else.
   */
  lemma {:induction false} HistoryInOrder(thread: seq<Message>)
    ensures History(thread) == Items(Filter(thread, NotSeed))
  {
    if thread != [] {
      var prefix := thread[..|thread| - 1];
      var last := thread[|thread| - 1];
      HistoryInOrder(prefix);
      assert prefix + [last] == thread;
      FilterSnoc(prefix, last, NotSeed);
      var f := Filter(prefix, NotSeed);
      if !last.isSeed {
        assert Items(f + [last]) == Items(f) + [Item(last)];
      }
    }
  }

  /** A message whose text goes into the saved entry: a user message that is neither typing nor seed. */
  predicate IsNarrative(m: Message)
  {
    m.role == User && !m.isTyping && !m.isSeed
  }

  /** The trimmed, non-empty texts of the narrative messages, in thread order. */
  function SaveParts(thread: seq<Message>): (parts: seq<string>)
    ensures |parts| <= |thread|
    ensures forall k :: 0 <= k < |parts| ==> parts[k] != [] && !IsSpace(parts[k][0])
  {
    if thread == [] then []
    else
      var last := thread[|thread| - 1];
      var parts := SaveParts(thread[..|thread| - 1]);
      var text := Trim(last.text);
      TrimSpec(last.text);
      if IsNarrative(last) && text != [] then parts + [text] else parts
  }

  /** There is nothing to save exactly when no narrative message has text other than whitespace. */
  lemma {:induction false} SavePartsEmptyIff(thread: seq<Message>)
    ensures SaveParts(thread) == [] <==> Blank(thread)
  {
    if thread != [] {
      var prefix := thread[..|thread| - 1];
      var last := thread[|thread| - 1];
      SavePartsEmptyIff(prefix);
      assert prefix + [last] == thread;
      BlankSnoc(prefix, last);
      if IsNarrative(last) && Trim(last.text) != [] {
        assert SaveParts(thread) == SaveParts(prefix) + [Trim(last.text)];
        TrimEmptyIff(last.text);
      } else {
        assert SaveParts(thread) == SaveParts(prefix);
        if IsNarrative(last) {
          TrimEmptyIff(last.text);
        }
      }
    }
  }

  lemma BlankSnoc(prefix: seq<Message>, last: Message)
    ensures Blank(prefix + [last]) <==> Blank(prefix) && (IsNarrative(last) ==> AllSpace(last.text))
  {
    var t := prefix + [last];
    assert forall i :: 0 <= i < |prefix| ==> t[i] == prefix[i];
    assert t[|prefix|] == last;
  }

  /** No narrative message has text other than whitespace. */
  predicate Blank(thread: seq<Message>)
  {
    forall i :: 0 <= i < |thread| && IsNarrative(thread[i]) ==> AllSpace(thread[i].text)
  }

  predicate FromNarrative(part: string, thread: seq<Message>)
  {
    exists i :: 0 <= i < |thread| && IsNarrative(thread[i]) && part == Trim(thread[i].text)
  }

  /** A narrative message whose text is not all whitespace: it contributes a part. */
  predicate HasSavedText(m: Message)
  {
    IsNarrative(m) && Trim(m.text) != []
  }

  /** The trimmed text of each message, in order. */
  function TrimmedTexts(ms: seq<Message>): (r: seq<string>)
    ensures |r| == |ms|
  {
    seq(|ms|, k requires 0 <= k < |ms| => Trim(ms[k].text))
  }

  /**
   * The saved parts are exactly the trimmed texts of the narrative messages with text other
   * than whitespace, in thread order: every such message contributes its part, and every
   * part comes from such a message.
   */
  lemma {:induction false} SavePartsInOrder(thread: seq<Message>)
    ensures SaveParts(thread) == TrimmedTexts(Filter(thread, HasSavedText))
  {
    if thread != [] {
      var prefix := thread[..|thread| - 1];
      var last := thread[|thread| - 1];
      SavePartsInOrder(prefix);
      assert prefix + [last] == thread;
      FilterSnoc(prefix, last, HasSavedText);
      var f := Filter(prefix, HasSavedText);
      if HasSavedText(last) {
        assert TrimmedTexts(f + [last]) == TrimmedTexts(f) + [Trim(last.text)];
      }
    }
  }

  /** Every narrative message with text other than whitespace contributes its trimmed text. */
  lemma SavePartsComplete(thread: seq<Message>)
    ensures forall i :: 0 <= i < |thread| && HasSavedText(thread[i]) ==> Trim(thread[i].text) in SaveParts(thread)
  {
    SavePartsInOrder(thread);
    FilterMembers(thread, HasSavedText);
    var f := Filter(thread, HasSavedText);
    forall i | 0 <= i < |thread| && HasSavedText(thread[i]) ensures Trim(thread[i].text) in SaveParts(thread) {
      var k :| 0 <= k < |f| && f[k] == thread[i];
      assert SaveParts(thread)[k] == Trim(thread[i].text);
    }
  }

  /** Every saved part is the trimmed text of some narrative message. */
  lemma SavePartsFromNarrative(thread: seq<Message>)
    ensures forall k :: 0 <= k < |SaveParts(thread)| ==> FromNarrative(SaveParts(thread)[k], thread)
  {
    SavePartsInOrder(thread);
    FilterMembers(thread, HasSavedText);
    var f := Filter(thread, HasSavedText);
    forall k | 0 <= k < |SaveParts(thread)| ensures FromNarrative(SaveParts(thread)[k], thread) {
      assert f[k] in thread;
      var i :| 0 <= i < |thread| && thread[i] == f[k];
      assert IsNarrative(thread[i]) && SaveParts(thread)[k] == Trim(thread[i].text);
    }
  }

  /** `parts.join(sep)`. */
  function Join(parts: seq<string>, sep: string): (s: string)
    ensures parts != [] ==> |s| >= |parts[0]|
  {
    if |parts| == 0 then []
    else if |parts| == 1 then parts[0]
    else Join(parts[..|parts| - 1], sep) + sep + parts[|parts| - 1]
  }

  /** A joined list starts with its first part. */
  lemma {:induction false} JoinStartsWithFirst(parts: seq<string>, sep: string)
    requires parts != []
    ensures Join(parts, sep)[..|parts[0]|] == parts[0]
  {
    if |parts| > 1 {
      var prefix := parts[..|parts| - 1];
      JoinStartsWithFirst(prefix, sep);
      assert prefix[0] == parts[0];
      var j := Join(prefix, sep);
      assert Join(parts, sep) == j + sep + parts[|parts| - 1];
      assert Join(parts, sep)[..|parts[0]|] == j[..|parts[0]|];
    }
  }

  /** A single part is joined to itself. */
  lemma JoinSingle(p: string, sep: string)
    ensures Join([p], sep) == p
  {
  }

  /** Joining puts the separator between the first part and the join of the rest. */
  lemma {:induction false} JoinCons(p: string, parts: seq<string>, sep: string)
    requires parts != []
    ensures Join([p] + parts, sep) == p + sep + Join(parts, sep)
    decreases |parts|
  {
    var ps := [p] + parts;
    var n := |parts|;
    if n == 1 {
      assert ps[..1] == [p];
    } else {
      var init := parts[..n - 1];
      assert ps[..|ps| - 1] == [p] + init;
      JoinCons(p, init, sep);
      assert Join(ps, sep) == Join([p] + init, sep) + sep + parts[n - 1];
      assert Join(parts, sep) == Join(init, sep) + sep + parts[n - 1];
    }
  }

  /** The entry body: the saved parts separated by blank lines. */
  function SaveBody(thread: seq<Message>): string
  {
    Join(SaveParts(thread), PartSeparator)
  }

  /**
   * When there is something to save, the body starts with the first saved part, so it is
   * not blank: the summarize endpoint's empty-entry check cannot reject it.
   */
  lemma SaveBodyNotBlank(thread: seq<Message>)
    requires SaveParts(thread) != []
    ensures var parts := SaveParts(thread);
      SaveBody(thread)[..|parts[0]|] == parts[0]
    ensures !AllSpace(SaveBody(thread))
    ensures Trim(SaveBody(thread)) != []
  {
    var parts := SaveParts(thread);
    JoinStartsWithFirst(parts, PartSeparator);
    var body := SaveBody(thread);
    assert body[0] == parts[0][0];
    TrimEmptyIff(body);
  }

  /**
   * What the save handler submits: nothing when no narrative message has text other than
   * whitespace, otherwise the entry body, which is never blank (so the summarize
   * endpoint's empty-entry check cannot reject it).
   */
  function SaveRequest(thread: seq<Message>): (b: Option<string>)
    ensures b.None? <==> SaveParts(thread) == []
    ensures b.Some? ==> b.value == SaveBody(thread) && !AllSpace(b.value)
  {
    if SaveParts(thread) == [] then None
    else
      SaveBodyNotBlank(thread);
      Some(SaveBody(thread))
  }

  /** The invariant of the thread: a typing placeholder only at the end, and only while a send is pending. */
  predicate ThreadShape(thread: seq<Message>, isSending: bool, stamp: string)
  {
    && (forall i :: 0 <= i < |thread| - 1 ==> !thread[i].isTyping)
    && (thread != [] && thread[|thread| - 1].isTyping ==>
          isSending && thread[|thread| - 1].id == TypingId(stamp))
  }

  /** When no send is pending the thread holds no typing placeholder. */
  lemma IdleNoTyping(thread: seq<Message>, stamp: string)
    requires ThreadShape(thread, false, stamp)
    ensures NoTyping(thread)
  {
  }

  function UserMessage(stamp: string, now: int, text: string): Message
  {
    Message(UserId(stamp), User, text, now, false, false)
  }

  /** The placeholder shown while a reply is awaited. */
  function TypingMessage(stamp: string, now: int): Message
  {
    Message(TypingId(stamp), Assistant, "", now, true, false)
  }

  function AssistantMessage(stamp: string, now: int, text: string): Message
  {
    Message(AssistantId(stamp), Assistant, text, now, false, false)
  }

  /** The thread ends with the message carrying the id, and no earlier message carries it. */
  predicate EndsWithUnique(thread: seq<Message>, id: string)
  {
    thread != [] && thread[|thread| - 1].id == id && NoneWithId(thread[..|thread| - 1], id)
  }

  /**
   * What settling a pending send does to a well-shaped thread: replacing the placeholder
   * keeps the length, neither outcome leaves a placeholder, and when the placeholder ends
   * the thread with a unique id, only the last position changes (reply) or it is dropped
   * (failure).
   */
  lemma SettleFacts(thread: seq<Message>, stamp: string, m: Message)
    requires ThreadShape(thread, true, stamp)
    requires !m.isTyping
    ensures NoTyping(ReplaceById(thread, TypingId(stamp), m))
    ensures NoTyping(RemoveById(thread, TypingId(stamp)))
    ensures |ReplaceById(thread, TypingId(stamp), m)| == |thread|
    ensures EndsWithUnique(thread, TypingId(stamp)) ==>
      && ReplaceById(thread, TypingId(stamp), m) == thread[..|thread| - 1] + [m]
      && RemoveById(thread, TypingId(stamp)) == thread[..|thread| - 1]
  {
    var r := RemoveById(thread, TypingId(stamp));
    RemoveByIdMembers(thread, TypingId(stamp));
    forall i | 0 <= i < |r| ensures !r[i].isTyping {
      var j :| 0 <= j < |thread| && thread[j] == r[i];
      assert r[i].id != TypingId(stamp);
    }
    if EndsWithUnique(thread, TypingId(stamp)) {
      var n := |thread|;
      assert thread == thread[..n - 1] + [thread[n - 1]];
      ReplaceLast(thread[..n - 1], thread[n - 1], m);
      RemoveLast(thread[..n - 1], thread[n - 1]);
    }
  }

  /** A thread without placeholders has the invariant shape whatever is pending. */
  lemma NoTypingShape(thread: seq<Message>, isSending: bool, stamp: string)
    requires NoTyping(thread)
    ensures ThreadShape(thread, isSending, stamp)
  {
  }

  /** An accepted send appends a message and the placeholder to an idle thread, giving the invariant shape. */
  lemma SubmitShape(thread: seq<Message>, stamp: string, now: int, text: string)
    requires NoTyping(thread)
    ensures ThreadShape(thread + [UserMessage(stamp, now, text), TypingMessage(stamp, now)], true, stamp)
  {
    var t := thread + [UserMessage(stamp, now, text), TypingMessage(stamp, now)];
    assert forall i :: 0 <= i < |thread| ==> t[i] == thread[i];
  }

  class ChatController {
    const store: JournalStore
    var thread: seq<Message>
    var input: string
    var isSending: bool
    var isSummarizing: bool
    var error: string
    var hasHydratedDraft: bool
    var sendStamp: string      // the stamp of the pending send
    var pendingBody: string    // the entry body of the pending save

    /** Once hydrated, the journal draft is the thread without placeholders, and the input. */
    ghost predicate DraftFollows()
      reads this`hasHydratedDraft, this`thread, this`input, store
    {
      hasHydratedDraft ==> store.draftThread == StripTyping(thread) && store.draftInput == input
    }

    /**
     * The thread invariant, the journal draft following the page, and a journal draft free
     * of typing placeholders (its only writer, the persist effect, strips them).
     */
    ghost predicate Valid()
      reads this`hasHydratedDraft, this`thread, this`input, this`isSending, this`sendStamp, store
    {
      ThreadShape(thread, isSending, sendStamp) && DraftFollows() && store.DraftClean()
    }

    /** The page's initial state: a single welcome message and nothing pending. */
    constructor (store: JournalStore, stamp: string, now: int)
      ensures this.store == store
      ensures thread == [WelcomeMessage(stamp, now)] && input == "" && error == ""
      ensures !isSending && !isSummarizing && !hasHydratedDraft
      ensures store.DraftClean() ==> Valid()
    {
      this.store := store;
      thread := [WelcomeMessage(stamp, now)];
      input := "";
      isSending := false;
      isSummarizing := false;
      error := "";
      hasHydratedDraft := false;
      sendStamp := "";
      pendingBody := "";
    }

    /**
     * The draft sync effects (pages/index.js:55-64): once hydrated, the journal draft follows the thread
     * without its typing placeholders and the input.
     */
    method Sync()
      modifies store
      ensures hasHydratedDraft ==> store.draftThread == StripTyping(thread) && store.draftInput == input
      ensures hasHydratedDraft ==>
        store.storage == DraftWrite(old(store.storage), store.hasHydrated && store.hasLoadedDraft, thread, input)
      ensures !hasHydratedDraft ==>
        store.draftThread == old(store.draftThread) && store.draftInput == old(store.draftInput) &&
        store.storage == old(store.storage)
      ensures store.entries == old(store.entries)
      ensures store.hasHydrated == old(store.hasHydrated) && store.hasLoadedDraft == old(store.hasLoadedDraft)
      ensures old(store.DraftClean()) ==> store.DraftClean()
    {
      if hasHydratedDraft {
        var cleaned := StripTyping(thread);
        store.SetDraftThread(cleaned);
        store.SetDraftInput(input);
      }
    }

    /**
     * The hydrate effect: once the journal has loaded its draft, and only the first time,
     * the thread becomes the stored draft thread (one welcome message when that is empty)
     * and the input the stored draft input.
     */
    method HydrateDraft(stamp: string, now: int)
      requires Valid()
      modifies this, store
      ensures Valid()
      ensures old(!store.hasLoadedDraft || hasHydratedDraft) ==>
        thread == old(thread) && input == old(input) && hasHydratedDraft == old(hasHydratedDraft) &&
        store.storage == old(store.storage) && store.draftThread == old(store.draftThread)
      ensures old(store.hasLoadedDraft && !hasHydratedDraft) ==>
        && hasHydratedDraft
        && thread == (if old(store.draftThread) != [] then old(store.draftThread) else [WelcomeMessage(stamp, now)])
        && input == old(store.draftInput)
        && store.storage == DraftWrite(old(store.storage), store.hasHydrated, thread, input)
      ensures isSending == old(isSending) && isSummarizing == old(isSummarizing) && error == old(error)
      ensures store.entries == old(store.entries)
      ensures sendStamp == old(sendStamp) && pendingBody == old(pendingBody)
      ensures store.hasHydrated == old(store.hasHydrated) && store.hasLoadedDraft == old(store.hasLoadedDraft)
    {
      if store.hasLoadedDraft && !hasHydratedDraft {
        if store.draftThread != [] {
          thread := store.draftThread;
        } else {
          thread := [WelcomeMessage(stamp, now)];
        }
        input := store.draftInput;
        hasHydratedDraft := true;
        Sync();
      }
    }

    /** The input's change handler. */
    method Type(text: string)
      requires Valid()
      modifies this, store
      ensures Valid()
      ensures input == text && thread == old(thread) && error == old(error)
      ensures isSending == old(isSending) && isSummarizing == old(isSummarizing)
      ensures store.entries == old(store.entries)
      ensures hasHydratedDraft ==>
        store.storage == DraftWrite(old(store.storage), store.hasHydrated && store.hasLoadedDraft, thread, input)
      ensures hasHydratedDraft == old(hasHydratedDraft) && sendStamp == old(sendStamp) && pendingBody == old(pendingBody)
      ensures store.hasHydrated == old(store.hasHydrated) && store.hasLoadedDraft == old(store.hasLoadedDraft)
      ensures !hasHydratedDraft ==>
        store.storage == old(store.storage) &&
        store.draftThread == old(store.draftThread) && store.draftInput == old(store.draftInput)
    {
      input := text;
      Sync();
    }

    /**
     * The start of `handleSubmit`. Nothing happens when the trimmed input is empty or the
     * page is busy. Otherwise the user message with the trimmed text and a typing
     * placeholder are appended, the input is cleared, the page is marked sending, and the
     * request to send is returned: the prompt and the history of the thread before the
     * placeholder.
     */
    method Submit(stamp: string, now: int) returns (request: Option<ChatRequest>)
      requires Valid()
      modifies this, store
      ensures Valid()
      ensures var trimmed := Trim(old(input));
        old(trimmed == [] || isSending || isSummarizing) ==>
          && request.None?
          && thread == old(thread) && input == old(input) && error == old(error)
          && isSending == old(isSending) && sendStamp == old(sendStamp)
          && store.storage == old(store.storage)
      ensures var trimmed := Trim(old(input));
        old(trimmed != [] && !isSending && !isSummarizing) ==>
          && thread == old(thread) + [UserMessage(stamp, now, trimmed), TypingMessage(stamp, now)]
          && request == Some(ChatRequest(trimmed, History(old(thread) + [UserMessage(stamp, now, trimmed)])))
          && input == "" && error == "" && isSending && sendStamp == stamp
          && (NoneWithId(old(thread), TypingId(stamp)) ==> EndsWithUnique(thread, TypingId(stamp)))
          && (hasHydratedDraft ==>
                store.storage == DraftWrite(old(store.storage), store.hasHydrated && store.hasLoadedDraft, thread, input))
      ensures isSummarizing == old(isSummarizing) && hasHydratedDraft == old(hasHydratedDraft)
      ensures store.entries == old(store.entries)
      ensures pendingBody == old(pendingBody)
      ensures store.hasHydrated == old(store.hasHydrated) && store.hasLoadedDraft == old(store.hasLoadedDraft)
      ensures !hasHydratedDraft ==>
        store.storage == old(store.storage) &&
        store.draftThread == old(store.draftThread) && store.draftInput == old(store.draftInput)
    {
      var trimmed := Trim(input);
      if trimmed == [] || isSending || isSummarizing {
        return None;
      }
      error := "";
      var userMessage := UserMessage(stamp, now, trimmed);
      var typingMessage := TypingMessage(stamp, now);
      var baseThread := thread + [userMessage];
      IdleNoTyping(thread, sendStamp);
      SubmitShape(thread, stamp, now, trimmed);
      thread := thread + [userMessage, typingMessage];
      input := "";
      isSending := true;
      sendStamp := stamp;
      Sync();
      request := Some(ChatRequest(trimmed, History(baseThread)));
    }

    /**
     * The completion of `handleSubmit`. On an answer the placeholder is replaced, where it
     * stands, by the assistant message with the reply text; on a failure it is removed and
     * the error is set. Either way the page is no longer sending.
     */
    method CompleteSend(reply: Reply, now: int)
      requires Valid() && isSending
      modifies this, store
      ensures Valid()
      ensures !isSending
      ensures !reply.Failure? ==>
        && thread == ReplaceById(old(thread), TypingId(sendStamp),
                                 AssistantMessage(sendStamp, now, ReplyText(reply, ReplyFallback)))
        && |thread| == |old(thread)|
        && error == old(error)
      ensures reply.Failure? ==> thread == RemoveById(old(thread), TypingId(sendStamp)) && error == SendError
      ensures var n := |old(thread)|;
        var m := AssistantMessage(sendStamp, now, if reply.Failure? then "" else ReplyText(reply, ReplyFallback));
        EndsWithUnique(old(thread), TypingId(sendStamp)) ==>
          thread == if reply.Failure? then old(thread)[..n - 1] else old(thread)[..n - 1] + [m]
      ensures input == old(input) && isSummarizing == old(isSummarizing) && sendStamp == old(sendStamp)
      ensures hasHydratedDraft == old(hasHydratedDraft) && store.entries == old(store.entries)
      ensures hasHydratedDraft ==>
        store.storage == DraftWrite(old(store.storage), store.hasHydrated && store.hasLoadedDraft, thread, input)
      ensures pendingBody == old(pendingBody)
      ensures store.hasHydrated == old(store.hasHydrated) && store.hasLoadedDraft == old(store.hasLoadedDraft)
      ensures !hasHydratedDraft ==>
        store.storage == old(store.storage) &&
        store.draftThread == old(store.draftThread) && store.draftInput == old(store.draftInput)
    {
      var typingId := TypingId(sendStamp);
      if reply.Failure? {
        SettleFacts(thread, sendStamp, AssistantMessage(sendStamp, now, ""));
        thread := RemoveById(thread, typingId);
        error := SendError;
      } else {
        var assistantMessage := AssistantMessage(sendStamp, now, ReplyText(reply, ReplyFallback));
        SettleFacts(thread, sendStamp, assistantMessage);
        thread := ReplaceById(thread, typingId, assistantMessage);
      }
      NoTypingShape(thread, false, sendStamp);
      isSending := false;
      Sync();
    }

    /**
     * The start of `handleSaveEntry`. Nothing happens without a user message or while
     * saving (a pending send does not stop it). With nothing to save the error is set;
     * otherwise the page is marked saving and the entry body is returned.
     */
    method StartSave() returns (body: Option<string>)
      requires Valid()
      modifies this
      ensures Valid()
      ensures old(!HasUserMessage(thread) || isSummarizing) ==>
        body.None? && isSummarizing == old(isSummarizing) && error == old(error)
      ensures old(HasUserMessage(thread) && !isSummarizing) ==>
        && body == SaveRequest(thread)
        && (body.None? ==> !isSummarizing && error == EmptySaveError)
        && (body.Some? ==> pendingBody == body.value && isSummarizing && error == "")
      ensures thread == old(thread) && input == old(input) && isSending == old(isSending)
      ensures sendStamp == old(sendStamp) && hasHydratedDraft == old(hasHydratedDraft)
      ensures body.None? ==> pendingBody == old(pendingBody)
    {
      if !HasUserMessage(thread) || isSummarizing {
        return None;
      }
      error := "";
      isSummarizing := true;
      body := SaveRequest(thread);
      if body.None? {
        isSummarizing := false;
        error := EmptySaveError;
        return;
      }
      pendingBody := body.value;
    }

    /**
     * The successful end of `handleSaveEntry`: exactly one entry is added with the body and
     * the summary, the draft is cleared, and the page starts over from one welcome message
     * with an empty input.
     */
    method CommitEntry(entryId: string, now: int, body: string, summary: string, stamp: string)
      requires Valid()
      modifies this, store
      ensures Valid()
      ensures store.entries == old(store.entries) + [NormalizeEntry(Entry(entryId, body, summary, now, None, None))]
      ensures thread == [WelcomeMessage(stamp, now)] && input == ""
      ensures var written := if store.hasHydrated then old(store.storage)[EntriesKey := EntryArray(store.entries)]
                             else old(store.storage);
        var gate := store.hasHydrated && store.hasLoadedDraft;
        store.storage == if hasHydratedDraft then DraftWrite(written - {DraftKey}, gate, thread, input)
                         else DraftWrite(written - {DraftKey}, gate, [], "")
      ensures isSending == old(isSending) && isSummarizing == old(isSummarizing) && error == old(error)
      ensures sendStamp == old(sendStamp) && pendingBody == old(pendingBody)
      ensures hasHydratedDraft == old(hasHydratedDraft)
      ensures store.hasHydrated == old(store.hasHydrated) && store.hasLoadedDraft == old(store.hasLoadedDraft)
      ensures !hasHydratedDraft ==> store.draftThread == [] && store.draftInput == ""
    {
      store.AddEntry(entryId, now, body, summary);
      ghost var written := store.storage;
      store.ClearDraft();
      thread := [WelcomeMessage(stamp, now)];
      input := "";
      Sync();
      DraftWriteTwice(written - {DraftKey}, store.hasHydrated && store.hasLoadedDraft, [], "", thread, input);
    }

    /**
     * The completion of `handleSaveEntry`. On an answer the entry is committed with the
     * body and the trimmed summary, or the fallback summary when the field is missing. On
     * a failure the error is set and nothing else changes. Either way the page is no
     * longer saving.
     */
    method CompleteSave(reply: Reply, entryId: string, now: int, stamp: string)
      requires Valid() && isSummarizing
      modifies this, store
      ensures Valid()
      ensures !isSummarizing
      ensures reply.Failure? ==>
        && error == SaveError && thread == old(thread) && input == old(input)
        && store.entries == old(store.entries) && store.storage == old(store.storage)
      ensures !reply.Failure? ==>
        && store.entries == old(store.entries) +
             [NormalizeEntry(Entry(entryId, pendingBody, ReplyText(reply, SummaryFallback), now, None, None))]
        && thread == [WelcomeMessage(stamp, now)] && input == "" && error == old(error)
        && var written := if store.hasHydrated then old(store.storage)[EntriesKey := EntryArray(store.entries)]
                          else old(store.storage);
           var gate := store.hasHydrated && store.hasLoadedDraft;
           store.storage == if hasHydratedDraft then DraftWrite(written - {DraftKey}, gate, thread, input)
                            else DraftWrite(written - {DraftKey}, gate, [], "")
      ensures isSending == old(isSending) && sendStamp == old(sendStamp) && pendingBody == old(pendingBody)
      ensures hasHydratedDraft == old(hasHydratedDraft)
      ensures store.hasHydrated == old(store.hasHydrated) && store.hasLoadedDraft == old(store.hasLoadedDraft)
      ensures reply.Failure? ==> store.draftThread == old(store.draftThread) && store.draftInput == old(store.draftInput)
      ensures !reply.Failure? && !hasHydratedDraft ==> store.draftThread == [] && store.draftInput == ""
    {
      if reply.Failure? {
        error := SaveError;
      } else {
        var summary := ReplyText(reply, SummaryFallback);
        CommitEntry(entryId, now, pendingBody, summary, stamp);
      }
      isSummarizing := false;
    }

    /**
     * `handleNewEntry`. Nothing happens while busy, or when a user message exists and the
     * confirmation is declined. Otherwise the page starts over from one welcome message
     * with empty input and error, and the draft is cleared.
     */
    method NewEntry(confirmed: bool, stamp: string, now: int)
      requires Valid()
      modifies this, store
      ensures Valid()
      ensures old(isSending || isSummarizing || (HasUserMessage(thread) && !confirmed)) ==>
        && thread == old(thread) && input == old(input) && error == old(error)
        && store.storage == old(store.storage)
      ensures old(!isSending && !isSummarizing && (!HasUserMessage(thread) || confirmed)) ==>
        && thread == [WelcomeMessage(stamp, now)] && input == "" && error == ""
        && var gate := store.hasHydrated && store.hasLoadedDraft;
           store.storage == if hasHydratedDraft then DraftWrite(old(store.storage) - {DraftKey}, gate, thread, input)
                            else DraftWrite(old(store.storage) - {DraftKey}, gate, [], "")
      ensures isSending == old(isSending) && isSummarizing == old(isSummarizing)
      ensures hasHydratedDraft == old(hasHydratedDraft) && store.entries == old(store.entries)
      ensures sendStamp == old(sendStamp) && pendingBody == old(pendingBody)
      ensures store.hasHydrated == old(store.hasHydrated) && store.hasLoadedDraft == old(store.hasLoadedDraft)
      ensures old(isSending || isSummarizing || (HasUserMessage(thread) && !confirmed)) ==>
        store.draftThread == old(store.draftThread) && store.draftInput == old(store.draftInput)
      ensures old(!isSending && !isSummarizing && (!HasUserMessage(thread) || confirmed)) && !hasHydratedDraft ==>
        store.draftThread == [] && store.draftInput == ""
    {
      if isSending || isSummarizing {
        return;
      }
      if HasUserMessage(thread) && !confirmed {
        return;
      }
      thread := [WelcomeMessage(stamp, now)];
      input := "";
      error := "";
      ghost var cleared := store.storage;
      store.ClearDraft();
      Sync();
      DraftWriteTwice(cleared - {DraftKey}, store.hasHydrated && store.hasLoadedDraft, [], "", thread, input);
    }
  }
}
