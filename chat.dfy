/**
 * One run of the assistant (`run_chatgpt`): set up the table, compose the
 * prompt, read the recent history, send the messages, and store the two new
 * turns; and the merge of command-line values over the configuration (`main`).
 */
module Chat {
  import opened Wrappers
  import opened Errors
  import opened Codec
  import opened History
  import opened Prompt

  /** The three clock readings of a run: for the cutoff, and at each of the two inserts. */
  datatype Clock = Clock(cutoffAt: int, userAt: int, assistantAt: int)

  /** What a completed run sent to the model and the reply it got. */
  datatype Exchange = Exchange(messages: seq<Message>, reply: string)

  /** The two rows a completed run appends: the user's turn, then the assistant's. */
  function NewTurns(firstId: int, clock: Clock, prompt: string, reply: string): seq<Row> {
    [ Row(firstId, clock.userAt, EncodeText(UserRole), EncodeText(prompt)),
      Row(firstId + 1, clock.assistantAt, EncodeText(AssistantRole), EncodeText(reply)) ]
  }

  /**
   * `run_chatgpt`. The model endpoint is `endpoint`: the reply to a message list,
   * or None when the request fails. Every failure before the reply leaves the
   * table's rows as they were; a reply appends exactly the two new turns.
   */
  method RunChatgpt(store: ConversationStore, systemRole: string, windowMinutes: int,
                    clipboard: string, action: string, clock: Clock,
                    endpoint: seq<Message> -> Option<string>)
    returns (r: Result<Exchange, Error>)
    requires store.Valid()
    modifies store
    ensures store.Valid() && store.tableExists
    ensures r.Failure? ==> store.rows == old(store.rows) && store.nextId == old(store.nextId)
    ensures match Compose(clipboard, action)
      case Failure(e) => r == Failure(e)
      case Success(prompt) =>
        match ConversationsAfter(old(store.rows), Cutoff(clock.cutoffAt, windowMinutes))
        case None => r == Failure(CorruptData)
        case Some(history) =>
          var messages := BuildMessages(systemRole, history, prompt);
          match endpoint(messages)
          case None => r == Failure(Transport)
          case Some(reply) =>
            && r == Success(Exchange(messages, reply))
            && store.rows == old(store.rows) + NewTurns(old(store.nextId), clock, prompt, reply)
            && store.nextId == old(store.nextId) + 2
  {
    store.SetUp();
    var prompt := Compose(clipboard, action);
    if prompt.Failure? {
      return Failure(prompt.error);
    }
    var cutoff := Cutoff(clock.cutoffAt, windowMinutes);
    var history := store.GetConversationsAfter(cutoff);
    if history.Failure? {
      return Failure(history.error);
    }
    var messages := BuildMessages(systemRole, history.value, prompt.value);
    var reply := endpoint(messages);
    if reply.None? {
      return Failure(Transport);
    }
    RecordTurns(store, clock, prompt.value, reply.value);
    r := Success(Exchange(messages, reply.value));
  }

  /**
   * The two `insert_conversation` calls that close a completed run, for any
   * pair of role names: the table gains the two rows, in that order.
   */
  method InsertTurnPair(store: ConversationStore, userRole: string, assistantRole: string,
                        clock: Clock, prompt: string, reply: string)
    requires store.Valid() && store.tableExists
    modifies store
    ensures store.Valid() && store.tableExists
    ensures store.rows == old(store.rows) +
      [ Row(old(store.nextId), clock.userAt, EncodeText(userRole), EncodeText(prompt)),
        Row(old(store.nextId) + 1, clock.assistantAt, EncodeText(assistantRole), EncodeText(reply)) ]
    ensures store.nextId == old(store.nextId) + 2
  {
    var userStored := store.Insert(userRole, prompt, clock.userAt);
    var assistantStored := store.Insert(assistantRole, reply, clock.assistantAt);
    assert userStored && assistantStored;
  }

  /** The two inserts with the program's own role names: the table gains NewTurns. */
  method RecordTurns(store: ConversationStore, clock: Clock, prompt: string, reply: string)
    requires store.Valid() && store.tableExists
    modifies store
    ensures store.Valid() && store.tableExists
    ensures store.rows == old(store.rows) + NewTurns(old(store.nextId), clock, prompt, reply)
    ensures store.nextId == old(store.nextId) + 2
  {
    InsertTurnPair(store, UserRole, AssistantRole, clock, prompt, reply);
  }

  /**
   * What one run stores, the next run replays: when both new turns fall inside
   * the next run's window, its history ends with them, decoded, in order.
   */
  lemma NextRunReplaysTurns(rows: seq<Row>, cutoff: int, h: Transcript, firstId: int, clock: Clock, prompt: string, reply: string)
    requires ConversationsAfter(rows, cutoff) == Some(h)
    requires cutoff <= clock.userAt && cutoff <= clock.assistantAt
    ensures ConversationsAfter(rows + NewTurns(firstId, clock, prompt, reply), cutoff)
              == Some(Transcript(h.roles + [UserRole, AssistantRole], h.contents + [prompt, reply]))
  {
    var turns := NewTurns(firstId, clock, prompt, reply);
    DecodeEncodeText(UserRole);
    DecodeEncodeText(prompt);
    DecodeEncodeText(AssistantRole);
    DecodeEncodeText(reply);
    QueryAfterTwoAppends(rows, cutoff, h, turns[0], turns[1], UserRole, prompt, AssistantRole, reply);
  }

  /** The value the last non-None command-line entry for `key` gives, if any. */
  function LastOverride<K(==), V>(args: seq<(K, Option<V>)>, key: K): Option<V> {
    if args == [] then None
    else if args[|args| - 1].0 == key && args[|args| - 1].1.Some? then args[|args| - 1].1
    else LastOverride(args[..|args| - 1], key)
  }

  /**
   * `main`'s override loop: every command-line value that is not None replaces
   * (or adds) the configuration value under its key; None leaves it alone.
   */
  method ApplyOverrides<K(==), V>(config: map<K, V>, args: seq<(K, Option<V>)>) returns (merged: map<K, V>)
    ensures forall k :: k in merged <==> k in config || LastOverride(args, k).Some?
    ensures forall k :: k in merged ==>
              merged[k] == if LastOverride(args, k).Some? then LastOverride(args, k).value else config[k]
  {
    merged := config;
    var i := 0;
    while i < |args|
      invariant 0 <= i <= |args|
      invariant forall k :: k in merged <==> k in config || LastOverride(args[..i], k).Some?
      invariant forall k :: k in merged ==>
                  merged[k] == if LastOverride(args[..i], k).Some? then LastOverride(args[..i], k).value else config[k]
    {
      var (key, value) := args[i];
      if value.Some? {
        merged := merged[key := value.value];
      }
      assert args[..i + 1][..i] == args[..i];
      i := i + 1;
    }
    assert args[..|args|] == args;
  }
}
