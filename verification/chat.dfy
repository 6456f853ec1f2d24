/**
 * The canned-response assistant of the AI Assistant page: a keyword rule
 * that picks one of two fixed texts or echoes the prompt, and the shape of
 * the chat history the page keeps.
 */
module Chat {
  import opened Text

  datatype Speaker = User | Assistant

  /** One entry of `st.session_state.messages`: `{"role": ..., "content": ...}`. */
  datatype Message = Message(speaker: Speaker, content: string)

  const Greeting: string := "Hello! I'm your AI Assistant. How can I help you today?"
  const ClearedGreeting: string := "Chat cleared. How can I help you?"

  const SecurityAdvice: string :=
    "\n"
    + "**Security Recommendation:**\n"
    + "1. Regularly update your software\n"
    + "2. Use strong, unique passwords\n"
    + "3. Enable two-factor authentication\n"
    + "4. Be cautious of suspicious emails\n"
    + "5. Backup your data regularly\n"
    + "                "

  const ItAdvice: string :=
    "\n"
    + "**IT Support Tips:**\n"
    + "1. Prioritize high-priority tickets\n"
    + "2. Document all solutions\n"
    + "3. Communicate clearly with users\n"
    + "4. Follow up on unresolved issues\n"
    + "5. Maintain knowledge base\n"
    + "                "

  /** The fallback reply is `EchoOpening + prompt + EchoClosing`. */
  const EchoOpening: string := "I understand you're asking about '"
  const EchoClosing: string := "'. For detailed analysis, please integrate the OpenAI API."

  datatype Topic = Security | ItSupport | Unmatched

  /**
   * The keyword rule, tested on the lower-cased prompt: "security" or
   * "cyber" first, then "it" or "ticket" (as substrings anywhere).
   */
  function TopicOf(prompt: string): Topic
  {
    var p := Lower(prompt);
    if Contains(p, "security") || Contains(p, "cyber") then Security
    else if Contains(p, "it") || Contains(p, "ticket") then ItSupport
    else Unmatched
  }

  /**
   * The assistant's reply: one of the two advice texts, or a fallback that
   * quotes the prompt verbatim. Which one is chosen is `RespondByTopic`.
   */
  function Respond(prompt: string): (reply: string)
    ensures reply == SecurityAdvice || reply == ItAdvice || OccursAt(reply, prompt, |EchoOpening|)
  {
    match TopicOf(prompt)
    case Security => SecurityAdvice
    case ItSupport => ItAdvice
    case Unmatched =>
      var reply := EchoOpening + prompt + EchoClosing;
      assert reply[|EchoOpening|..|EchoOpening| + |prompt|] == prompt;
      reply
  }

  /**
   * The security text is the reply exactly for security topics, the IT text
   * exactly for IT topics, and otherwise the fallback quotes the prompt.
   */
  lemma RespondByTopic(prompt: string)
    ensures Respond(prompt) == SecurityAdvice <==> TopicOf(prompt) == Security
    ensures Respond(prompt) == ItAdvice <==> TopicOf(prompt) == ItSupport
    ensures TopicOf(prompt) == Unmatched ==>
              Respond(prompt) == EchoOpening + prompt + EchoClosing && OccursAt(Respond(prompt), prompt, |EchoOpening|)
  {
    assert SecurityAdvice[0] == ItAdvice[0] == '\n';
    assert SecurityAdvice[3] != ItAdvice[3];
    if TopicOf(prompt) == Unmatched {
      assert Respond(prompt)[0] == EchoOpening[0] == 'I';
    }
  }

  /**
   * Matching ignores case: a keyword written in any mix of cases inside the
   * prompt selects its reply, and a security keyword wins over an IT keyword.
   */
  lemma KeywordInAnyCase(prompt: string, word: string, i: int)
    requires OccursAt(prompt, word, i)
    ensures Lower(word) in {"security", "cyber"} ==> Respond(prompt) == SecurityAdvice
    ensures Lower(word) in {"it", "ticket"} ==> Respond(prompt) == SecurityAdvice || Respond(prompt) == ItAdvice
  {
    LowerPreservesOccurrence(prompt, word, i);
    RespondByTopic(prompt);
  }

  /** A lower-case string is its own lower-case form. */
  lemma LowerOfLower(s: string)
    requires IsLower(s)
    ensures Lower(s) == s
  {
  }

  /** A prompt that mentions security gets the security text. */
  lemma SecurityExample()
    ensures Respond("I got phished, is this a security issue?") == SecurityAdvice
  {
    var p := "I got phished, is this a security issue?";
    assert OccursAt(p, "security", 25);
    assert Lower("security") == "security";
    KeywordInAnyCase(p, "security", 25);
  }

  /** An upper-case security keyword wins over the IT keywords in the same prompt. */
  lemma PriorityExample()
    ensures Respond("CYBER attack on the IT ticket queue") == SecurityAdvice
  {
    var p := "CYBER attack on the IT ticket queue";
    assert OccursAt(p, "CYBER", 0);
    assert Lower("CYBER") == "cyber";
    KeywordInAnyCase(p, "CYBER", 0);
  }

  /** A prompt that mentions a ticket gets the IT text. */
  lemma TicketExample()
    ensures Respond("my ticket is stuck") == ItAdvice
  {
    var p := "my ticket is stuck";
    assert OccursAt(p, "ticket", 3);
    assert IsLower(p) && 'r' !in p;
    LowerOfLower(p);
    MissingCharExcludes(p, "security", 'r');
    MissingCharExcludes(p, "cyber", 'r');
  }

  /** "it" matches inside any word, so a prompt containing "with" gets the IT text. */
  lemma SubstringExample()
    ensures Respond("Help with my printer") == ItAdvice
  {
    var p := "Help with my printer";
    assert OccursAt(p, "it", 6);
    LowerPreservesOccurrence(p, "it", 6);
    assert Lower("it") == "it";
    MissingAfterLower(p, 'u');
    MissingAfterLower(p, 'b');
    MissingCharExcludes(Lower(p), "security", 'u');
    MissingCharExcludes(Lower(p), "cyber", 'b');
  }

  /** A prompt with no keyword gets the fallback reply that quotes it. */
  lemma FallbackExample()
    ensures Respond("what's the weather") == EchoOpening + "what's the weather" + EchoClosing
  {
    var p := "what's the weather";
    assert IsLower(p);
    LowerOfLower(p);
    assert 'y' !in p && 'i' !in p;
    MissingCharExcludes(p, "security", 'y');
    MissingCharExcludes(p, "cyber", 'y');
    MissingCharExcludes(p, "it", 'i');
    MissingCharExcludes(p, "ticket", 'i');
  }

  /** The history after one submitted prompt: the prompt, then the reply to it. */
  function Exchange(history: seq<Message>, prompt: string): seq<Message>
  {
    history + [Message(User, prompt), Message(Assistant, Respond(prompt))]
  }

  /**
   * A history the page can hold: one assistant greeting followed by
   * exchanges, each a user prompt and the assistant's reply to it.
   */
  predicate Conversation(history: seq<Message>)
  {
    if |history| < 3 then |history| == 1 && history[0].speaker == Assistant
    else
      var n := |history|;
      && Conversation(history[..n - 2])
      && history[n - 2].speaker == User
      && history[n - 1] == Message(Assistant, Respond(history[n - 2].content))
  }

  /** A greeting alone is a conversation, and so is a conversation extended by an exchange. */
  lemma ExchangeKeepsConversation(history: seq<Message>, prompt: string, greeting: string)
    requires Conversation(history)
    ensures Conversation([Message(Assistant, greeting)])
    ensures Conversation(Exchange(history, prompt))
  {
    assert Exchange(history, prompt)[..|history|] == history;
  }

  /** The message at `i` sits at an odd index and the reply to it comes next. */
  predicate AnsweredAt(history: seq<Message>, i: nat)
  {
    i % 2 == 1 && i + 1 < |history| && history[i + 1] == Message(Assistant, Respond(history[i].content))
  }

  /**
   * In a conversation the greeting comes first, the length is odd, every
   * user message sits at an odd index and is followed at once by the
   * assistant's reply to it.
   */
  lemma ConversationShape(history: seq<Message>)
    requires Conversation(history)
    ensures |history| % 2 == 1 && history[0].speaker == Assistant
    ensures forall i :: 0 <= i < |history| && history[i].speaker == User ==> AnsweredAt(history, i)
  {
    ConversationFrame(history);
    forall i | 0 <= i < |history| && history[i].speaker == User
      ensures AnsweredAt(history, i)
    {
      UserMessageAnswered(history, i);
    }
  }


  /** A conversation has odd length and opens with the assistant. */
  lemma {:induction false} ConversationFrame(history: seq<Message>)
    requires Conversation(history)
    ensures |history| % 2 == 1 && history[0].speaker == Assistant
  {
    var n := |history|;
    if n >= 3 {
      ConversationFrame(history[..n - 2]);
      assert history[0] == history[..n - 2][0];
    }
  }

  /** A user message in a conversation sits at an odd index and the reply to it comes next. */
  lemma {:induction false} UserMessageAnswered(history: seq<Message>, i: nat)
    requires Conversation(history) && i < |history| && history[i].speaker == User
    ensures i % 2 == 1 && i + 1 < |history| && history[i + 1] == Message(Assistant, Respond(history[i].content))
  {
    var n := |history|;
    if i < n - 2 {
      var init := history[..n - 2];
      assert init[i] == history[i];
      UserMessageAnswered(init, i);
      assert init[i + 1] == history[i + 1];
    } else if i == n - 2 {
      ConversationFrame(history);
    }
  }
}
