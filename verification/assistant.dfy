/**
 * The chat history of the AI Assistant page (Pages/4.AI_Assitant.py),
 * kept under the `messages` key of the session.
 */
module AssistantPage {
  import opened Wrappers
  import opened Chat
  import opened SessionGate

  /** The history is set to the greeting only when the key is absent. */
  method InitHistory(s: Session)
    modifies s
    ensures Messages in old(s.state) ==> s.state == old(s.state)
    ensures Messages !in old(s.state) ==> s.state == old(s.state)[Messages := History([Message(Assistant, Greeting)])]
    ensures old(s.Valid()) ==> s.Valid() && Messages in s.state
  {
    if Messages !in s.state {
      s.state := s.state[Messages := History([Message(Assistant, Greeting)])];
    }
  }

  /** A submitted prompt: append the user's message, then the reply to it. */
  method Submit(s: Session, prompt: string) returns (reply: string)
    requires s.Valid() && Messages in s.state
    modifies s
    ensures reply == Respond(prompt)
    ensures s.state == old(s.state)[Messages := History(Exchange(old(s.state)[Messages].messages, prompt))]
    ensures s.Valid()
  {
    var before := s.state[Messages].messages;
    s.state := s.state[Messages := History(before + [Message(User, prompt)])];
    reply := Respond(prompt);
    s.state := s.state[Messages := History(s.state[Messages].messages + [Message(Assistant, reply)])];
    assert s.state[Messages].messages == Exchange(before, prompt);
    ExchangeKeepsConversation(before, prompt, Greeting);
  }

  /** Clear Chat: the history becomes the one "Chat cleared" message. */
  method ClearChat(s: Session)
    requires s.Valid()
    modifies s
    ensures s.state == old(s.state)[Messages := History([Message(Assistant, ClearedGreeting)])]
    ensures s.Valid()
  {
    s.state := s.state[Messages := History([Message(Assistant, ClearedGreeting)])];
    ExchangeKeepsConversation([Message(Assistant, ClearedGreeting)], "", ClearedGreeting);
  }

  /** The chat input holds a non-empty prompt. */
  predicate Submitted(chatInput: Option<string>)
  {
    chatInput.Some? && chatInput.value != ""
  }

  /** The history a run starts from: the stored one, or the greeting when there is none yet. */
  function StartingHistory(st: State): (history: seq<Message>)
    requires HistoryOk(st)
    ensures Conversation(history)
    ensures Messages !in st ==> history == [Message(Assistant, Greeting)]
  {
    ExchangeKeepsConversation([Message(Assistant, Greeting)], "", Greeting);
    if Messages in st then st[Messages].messages else [Message(Assistant, Greeting)]
  }

  /**
   * The history a logged-in run leaves: Clear Chat replaces it by the
   * cleared greeting; otherwise it only grows, by one exchange when a prompt
   * was submitted.
   */
  function HistoryAfter(history: seq<Message>, chatInput: Option<string>, clearClicked: bool): (after: seq<Message>)
    ensures clearClicked ==> after == [Message(Assistant, ClearedGreeting)]
    ensures !clearClicked ==> history <= after && |after| == |history| + (if Submitted(chatInput) then 2 else 0)
    ensures !clearClicked && Submitted(chatInput) ==>
              after[|history|] == Message(User, chatInput.value)
              && after[|history| + 1] == Message(Assistant, Respond(chatInput.value))
  {
    if clearClicked then [Message(Assistant, ClearedGreeting)]
    else if Submitted(chatInput) then Exchange(history, chatInput.value)
    else history
  }

  /** Whatever a run does to a conversation, a conversation remains. */
  lemma HistoryAfterKeepsConversation(history: seq<Message>, chatInput: Option<string>, clearClicked: bool)
    requires Conversation(history)
    ensures Conversation(HistoryAfter(history, chatInput, clearClicked))
  {
    ExchangeKeepsConversation(history, if chatInput.Some? then chatInput.value else "", ClearedGreeting);
  }

  /**
   * The rest of a logged-in run, once the history exists: answer a
   * non-empty prompt, then apply Clear Chat if clicked.
   */
  method Converse(s: Session, chatInput: Option<string>, clearClicked: bool) returns (reply: Option<string>)
    requires s.Valid() && Messages in s.state
    modifies s
    ensures reply == if Submitted(chatInput) then Some(Respond(chatInput.value)) else None
    ensures s.state == old(s.state)[Messages := History(HistoryAfter(old(s.state)[Messages].messages, chatInput, clearClicked))]
    ensures s.Valid()
  {
    reply := None;
    if Submitted(chatInput) {
      var text := Submit(s, chatInput.value);
      reply := Some(text);
    }
    if clearClicked {
      ClearChat(s);
    }
  }

  /** What one run of the page ends with. */
  datatype Outcome = LoginRequired | Shown(reply: Option<string>)

  /**
   * One run of the page: stop when not logged in; otherwise initialise the
   * history, answer a non-empty prompt, then apply Clear Chat if clicked.
   */
  method Run(s: Session, chatInput: Option<string>, clearClicked: bool) returns (outcome: Outcome)
    requires s.Valid()
    modifies s
    ensures !IsLoggedIn(old(s.state)) ==> outcome == LoginRequired && s.state == old(s.state)
    ensures IsLoggedIn(old(s.state)) ==> outcome.Shown? && s.Valid()
    ensures outcome.Shown? ==>
              outcome.reply == (if chatInput.Some? && chatInput.value != "" then Some(Respond(chatInput.value)) else None)
    ensures outcome.Shown? && clearClicked ==>
              Messages in s.state && s.state[Messages] == History([Message(Assistant, ClearedGreeting)])
    ensures outcome.Shown? ==> forall k :: k in old(s.state) && k != Messages ==> k in s.state && s.state[k] == old(s.state)[k]
    ensures outcome.Shown? ==>
              && s.state.Keys == old(s.state).Keys + {Messages}
              && s.state[Messages] == History(HistoryAfter(StartingHistory(old(s.state)), chatInput, clearClicked))
  {
    if !(LoggedIn in s.state && Truthy(s.state[LoggedIn])) {
      return LoginRequired;
    }
    ghost var start := s.state;
    InitHistory(s);
    assert s.state == start[Messages := History(StartingHistory(start))];
    var reply := Converse(s, chatInput, clearClicked);
    outcome := Shown(reply);
  }
}
