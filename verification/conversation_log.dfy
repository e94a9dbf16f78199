/** The Bedrock classifier's conversation log: `save_conversation` appends
    one interaction to a speaker's record, and `_send_to_model` prepends the
    speaker's recent interactions to a prompt. `handle_query`'s decision to
    answer from that history is here too. */
module ConversationLog {
  import opened Optional
  import opened SpeakerStore
  import opened Text
  import opened ReplyMapping

  /** Python truthiness of the optional `speaker_id`: neither `None` nor "". */
  predicate Truthy(speakerId: Option<Id>) {
    speakerId.Some? && |speakerId.value| > 0
  }

  /** A speaker's logged conversations; an absent speaker or key has none. */
  function History(db: Store, id: Id): seq<Conversation> {
    if id in db.speakers then db.speakers[id].conversations.GetOr([]) else []
  }

  /** `save_conversation`: for a truthy id, create the record if needed, give
      it a conversation list if it has none, and append the new interaction.
      `now` stands for both clock readings. */
  function SaveConversation(db: Store, speakerId: Option<Id>, query: string, response: string,
                            commandType: string, now: string): (r: Store)
    ensures !Truthy(speakerId) ==> r == db
    ensures Valid(db) ==> Valid(r)
    ensures Truthy(speakerId) ==> var id := speakerId.value;
      && r.speakers.Keys == db.speakers.Keys + {id}
      && History(r, id) == History(db, id) + [Conversation(now, query, response, commandType)]
      && (forall k | k in db.speakers && k != id :: r.speakers[k] == db.speakers[k])
      && (id in db.speakers ==>
            && r.order == db.order
            && r.speakers[id].createdAt == db.speakers[id].createdAt
            && r.speakers[id].embeddings == db.speakers[id].embeddings)
      && (id !in db.speakers ==>
            && r.order == db.order + [id]
            && r.speakers[id] == Speaker(Some(now), Some([]), Some([Conversation(now, query, response, commandType)])))
  {
    if !Truthy(speakerId) then db
    else
      var id := speakerId.value;
      var db1 := CreateIfAbsent(db, id, now);
      var s := db1.speakers[id];
      var c := Conversation(now, query, response, commandType);
      assert [] + [c] == [c];
      Update(db1, id, s.(conversations := Some(s.conversations.GetOr([]) + [c])))
  }

  /** Each save adds exactly one conversation, at the end, to the speaker it
      names and to no one else. */
  lemma SaveConversationAppendsOne(db: Store, id: Id, query: string, response: string,
                                   commandType: string, now: string, other: Id)
    requires |id| > 0
    ensures var r := SaveConversation(db, Some(id), query, response, commandType, now);
      && |History(r, id)| == |History(db, id)| + 1
      && History(r, id)[|History(r, id)| - 1] == Conversation(now, query, response, commandType)
      && (other != id ==> History(r, other) == History(db, other))
  {
  }

  /** The step `_send_to_model` and `handle_query` share: create the record
      if the id is missing and give it a conversation list if it has none. */
  function EnsureHistory(db: Store, id: Id, now: string): (r: Store)
    ensures Valid(db) ==> Valid(r)
    ensures id in r.speakers && r.speakers[id].conversations.Some?
    ensures History(r, id) == History(db, id)
    ensures r.speakers.Keys == db.speakers.Keys + {id}
    ensures forall k | k in db.speakers && k != id :: r.speakers[k] == db.speakers[k]
    ensures id in db.speakers ==>
      r.order == db.order && r.speakers[id] == db.speakers[id].(conversations := Some(History(db, id)))
    ensures id !in db.speakers ==> r.order == db.order + [id] && r.speakers[id] == Blank(now)
  {
    var db1 := CreateIfAbsent(db, id, now);
    var s := db1.speakers[id];
    if s.conversations.Some? then db1 else Update(db1, id, s.(conversations := Some([])))
  }

  /** Ensuring the history twice is ensuring it once. */
  lemma EnsureHistoryIdempotent(db: Store, id: Id, now: string, later: string)
    ensures EnsureHistory(EnsureHistory(db, id, now), id, later) == EnsureHistory(db, id, now)
  {
    var r := EnsureHistory(db, id, now);
    var r2 := EnsureHistory(r, id, later);
    assert r2.speakers == r.speakers;
  }

  /** How many past interactions a prompt carries at most. */
  const HistoryLimit: nat := 10

  /** `conversations[-10:]`: the last (at most) ten conversations. */
  function Window(convs: seq<Conversation>): (w: seq<Conversation>)
    ensures |w| == if |convs| <= HistoryLimit then |convs| else HistoryLimit
    ensures w == convs[|convs| - |w|..]
  {
    if |convs| <= HistoryLimit then convs else convs[|convs| - HistoryLimit..]
  }

  /** The window slides: after one more conversation it is the previous
      window plus the new one, minus the oldest once it is full. */
  lemma WindowSlides(convs: seq<Conversation>, c: Conversation)
    ensures var w := Window(convs);
      Window(convs + [c]) == (if |w| < HistoryLimit then w else w[1..]) + [c]
  {
    var w := Window(convs);
    var w2 := Window(convs + [c]);
    var slid := (if |w| < HistoryLimit then w else w[1..]) + [c];
    assert |w2| == |slid|;
    forall k | 0 <= k < |w2| ensures w2[k] == slid[k] {
      if k < |w2| - 1 {
        assert w2[k] == (convs + [c])[|convs| + 1 - |w2| + k];
      }
    }
  }

  /** The text one conversation contributes to a prompt. */
  function Entry(c: Conversation): string {
    "用戶: " + c.query + "\n" + "助手: " + c.response + "\n\n"
  }

  /** The entries of `convs`, oldest first. */
  function Render(convs: seq<Conversation>): string {
    if |convs| == 0 then [] else Render(convs[..|convs| - 1]) + Entry(convs[|convs| - 1])
  }

  /** Rendering is compositional: the entries of two runs of conversations
      are the entries of the first followed by those of the second. */
  lemma {:induction false} RenderAppend(a: seq<Conversation>, b: seq<Conversation>)
    ensures Render(a + b) == Render(a) + Render(b)
    decreases |b|
  {
    if |b| == 0 {
      assert a + b == a;
    } else {
      var b', e := b[..|b| - 1], Entry(b[|b| - 1]);
      assert (a + b)[..|a + b| - 1] == a + b';
      assert (a + b)[|a + b| - 1] == b[|b| - 1];
      calc {
        Render(a + b);
        Render(a + b') + e;
        { RenderAppend(a, b'); }
        Render(a) + Render(b') + e;
        Render(a) + (Render(b') + e);
        Render(a) + Render(b);
      }
    }
  }

  const HistoryHeader: string := "\n\n以下是用戶過去的對話記錄，請參考這些信息來回答當前問題：\n"
  const QuestionMarker: string := "\n當前問題:\n"

  /** The prompt `_send_to_model` sends, with the store it leaves in memory. */
  datatype Prompted = Prompted(db: Store, prompt: string)

  /** The history part of `_send_to_model`: when history is asked for and
      the id is truthy, the record is ensured and, if it has conversations,
      the last ten are placed ahead of the prompt. */
  function WithHistory(db: Store, prompt: string, speakerId: Option<Id>, includeHistory: bool,
                       now: string): (r: Prompted)
    ensures Valid(db) ==> Valid(r.db)
    ensures !(includeHistory && Truthy(speakerId)) ==> r.db == db
    ensures includeHistory && Truthy(speakerId) ==> r.db == EnsureHistory(db, speakerId.value, now)
    // The prompt changes exactly when there is history to show ...
    ensures r.prompt != prompt <==> includeHistory && Truthy(speakerId) && |History(db, speakerId.value)| > 0
    // ... and then it is the header, the window's entries in order, and the question.
    ensures r.prompt != prompt ==>
      r.prompt == HistoryHeader + Render(Window(History(db, speakerId.value))) + QuestionMarker + prompt
  {
    if includeHistory && Truthy(speakerId) then
      var id := speakerId.value;
      var db1 := EnsureHistory(db, id, now);
      var convs := db1.speakers[id].conversations.value;
      if |convs| > 0 then
        var p := HistoryHeader + Render(Window(convs)) + QuestionMarker + prompt;
        assert |p| > |prompt|;
        Prompted(db1, p)
      else Prompted(db1, prompt)
    else Prompted(db, prompt)
  }

  /** The prompt always ends with the caller's prompt. */
  lemma WithHistoryKeepsPrompt(db: Store, prompt: string, speakerId: Option<Id>, includeHistory: bool, now: string)
    ensures var r := WithHistory(db, prompt, speakerId, includeHistory, now);
      |prompt| <= |r.prompt| && r.prompt[|r.prompt| - |prompt|..] == prompt
  {
  }

  /** The window after one more conversation renders as the kept part of
      the previous window followed by the new conversation's entry. */
  lemma RenderedWindowEndsWithLatest(h: seq<Conversation>, c: Conversation)
    ensures var w := Window(h);
      Render(Window(h + [c])) == Render(if |w| < HistoryLimit then w else w[1..]) + Entry(c)
  {
    var w := Window(h);
    var kept := if |w| < HistoryLimit then w else w[1..];
    WindowSlides(h, c);
    RenderAppend(kept, [c]);
    assert [c][..0] == [];
  }

  /** After a conversation is saved, the next prompt with history carries it
      as its last entry, right before the question. */
  lemma SavedConversationIsLatest(db: Store, id: Id, query: string, response: string,
                                  commandType: string, now: string, prompt: string, later: string)
    requires |id| > 0
    ensures var c := Conversation(now, query, response, commandType);
      var saved := SaveConversation(db, Some(id), query, response, commandType, now);
      WithHistory(saved, prompt, Some(id), true, later).prompt
        == HistoryHeader + Render(Window(History(db, id) + [c])) + QuestionMarker + prompt
  {
    var c := Conversation(now, query, response, commandType);
    var saved := SaveConversation(db, Some(id), query, response, commandType, now);
    assert History(saved, id) == History(db, id) + [c];
  }

  /** Where `handle_query` goes for a truthy id: the in-memory store after
      ensuring the record, and whether it answers from history. */
  datatype QueryRoute = QueryRoute(db: Store, fromHistory: bool)

  /** The history shortcut of `handle_query`. `check` is the model's reply
      to the can-the-history-answer prompt; it is only asked for when the
      speaker has conversations. Without a truthy id the store is untouched
      and the query goes to web search. */
  function RouteQuery(db: Store, speakerId: Option<Id>, check: string, now: string): (r: QueryRoute)
    ensures Valid(db) ==> Valid(r.db)
    ensures !Truthy(speakerId) ==> r.db == db && !r.fromHistory
    ensures Truthy(speakerId) ==> r.db == EnsureHistory(db, speakerId.value, now)
    ensures r.fromHistory <==>
      && Truthy(speakerId) && |History(db, speakerId.value)| > 0
      && Contains(check, Can) && !Contains(check, Cannot)
  {
    if Truthy(speakerId) then
      var id := speakerId.value;
      var db1 := EnsureHistory(db, id, now);
      var convs := db1.speakers[id].conversations.value;
      QueryRoute(db1, |convs| > 0 && HistoryAnswerable(check))
    else QueryRoute(db, false)
  }

  /** Answering from history logs the answer as a query. */
  function AnswerFromHistory(db: Store, speakerId: Option<Id>, text: string, check: string,
                             answer: string, now: string): (r: Store)
    requires Valid(db)
    ensures Valid(r)
    ensures RouteQuery(db, speakerId, check, now).fromHistory ==>
      History(r, speakerId.value) == History(db, speakerId.value) + [Conversation(now, text, answer, Query)]
    ensures !RouteQuery(db, speakerId, check, now).fromHistory ==> r == RouteQuery(db, speakerId, check, now).db
    // Logging the answer touches nothing but that speaker's history.
    ensures RouteQuery(db, speakerId, check, now).fromHistory ==> (var id := speakerId.value;
      && id in db.speakers && r.order == db.order && r.speakers.Keys == db.speakers.Keys
      && (forall k | k in db.speakers && k != id :: r.speakers[k] == db.speakers[k])
      && r.speakers[id].createdAt == db.speakers[id].createdAt
      && r.speakers[id].embeddings == db.speakers[id].embeddings)
  {
    var route := RouteQuery(db, speakerId, check, now);
    if route.fromHistory then SaveConversation(route.db, speakerId, text, answer, Query, now)
    else route.db
  }
}
