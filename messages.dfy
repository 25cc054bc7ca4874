/**
 * The chat message record of pages/index.js, shared by the conversation controller and
 * the draft kept by context/JournalContext.js.
 */
module Messages {
  import opened Seqs

  datatype Role = User | Assistant

  /**
   * A message of the conversation thread. `isTyping` marks the placeholder shown while a
   * reply is awaited; `isSeed` marks the welcome message. `createdAt` is a timestamp.
   */
  datatype Message = Message(
    id: string,
    role: Role,
    text: string,
    createdAt: int,
    isTyping: bool,
    isSeed: bool)

  predicate NotTyping(m: Message)
  {
    !m.isTyping
  }

  predicate NoTyping(thread: seq<Message>)
  {
    forall i :: 0 <= i < |thread| ==> !thread[i].isTyping
  }

  /**
   * `thread.filter((message) => message && !message.isTyping)`: the thread as it is
   * persisted, without typing placeholders and otherwise in order.
   */
  function StripTyping(thread: seq<Message>): (r: seq<Message>)
    ensures NoTyping(r)
    ensures NoTyping(thread) ==> r == thread
  {
    FilterMembers(thread, NotTyping);
    FilterAll(thread, NotTyping);
    Filter(thread, NotTyping)
  }

  /** Stripping keeps every other message, every copy of it, in order. */
  lemma StripTypingKeeps(thread: seq<Message>)
    ensures IsSubsequence(StripTyping(thread), thread)
    ensures forall i :: 0 <= i < |thread| && !thread[i].isTyping ==> thread[i] in StripTyping(thread)
    ensures forall m :: multiset(StripTyping(thread))[m] == if m.isTyping then 0 else multiset(thread)[m]
  {
    FilterMembers(thread, NotTyping);
    FilterSubsequence(thread, NotTyping);
    forall m ensures multiset(StripTyping(thread))[m] == if m.isTyping then 0 else multiset(thread)[m] {
      FilterMultiplicity(thread, NotTyping, m);
    }
  }
}
