/**
 * The assistant chat: a transcript that opens with one greeting, a send
 * action that appends the user's turn and the model's answer, a per-message
 * translate action, and a clear button. Clock readings and the service's
 * replies are parameters.
 */
module ChatBot {
  import opened Text
  import opened Markup
  import opened Remote
  import opened Conversation

  const Greeting: string := "Hello! I am Agri, your personal agricultural AI. How can I help you today?"

  /** One transcript entry; `translating` is the optional flag, absent
      meaning false. */
  datatype Message = Message(role: Role, text: string, time: string, translating: bool)

  datatype ChatState = ChatState(messages: seq<Message>, input: string, loading: bool)

  /** The state on mount: the greeting alone, stamped with the mount time. */
  function Initial(time: string): (st: ChatState)
    ensures |st.messages| == 1 && st.messages[0].role == Model && st.messages[0].text == Greeting
    ensures !st.loading && st.input == []
  {
    ChatState([Message(Model, Greeting, time, false)], "", false)
  }

  /** What every reachable transcript satisfies: it is never empty and it
      opens with a model turn. */
  predicate Consistent(st: ChatState) {
    |st.messages| >= 1 && st.messages[0].role == Model
  }

  /** The history handed to the service: each message's speaker and text. */
  function HistoryOf(msgs: seq<Message>): (h: seq<Turn>)
    ensures |h| == |msgs|
    ensures forall i :: 0 <= i < |h| ==> h[i] == Turn(msgs[i].role, msgs[i].text)
  {
    if msgs == [] then [] else [Turn(msgs[0].role, msgs[0].text)] + HistoryOf(msgs[1..])
  }

  /** The history of a longer transcript extends the history of its start. */
  lemma {:induction false} HistoryOfAppend(a: seq<Message>, b: seq<Message>)
    ensures HistoryOf(a + b) == HistoryOf(a) + HistoryOf(b)
    decreases |a|
  {
    if a == [] {
      assert a + b == b;
    } else {
      assert (a + b)[1..] == a[1..] + b;
      HistoryOfAppend(a[1..], b);
    }
  }

  /** The state after a send, and the request made, if any. */
  datatype Sent = Sent(state: ChatState, request: Option<Request>)

  /** Send does nothing on blank input or while an answer is awaited. */
  predicate SendIgnored(st: ChatState, overrideInput: string) {
    AllSpace(OrElse(overrideInput, st.input)) || st.loading
  }

  /** `handleSend(e, overrideInput)`, with the service's reply and the two
      clock readings as parameters: the user's text (untrimmed) is
      appended, then the model's turn; the error turn carries no time. */
  function Send(st: ChatState, overrideInput: string, reply: Reply, t1: string, t2: string): (s: Sent)
    ensures SendIgnored(st, overrideInput) ==> s == Sent(st, None)
    ensures !SendIgnored(st, overrideInput) ==>
      var text := OrElse(overrideInput, st.input);
      && |s.state.messages| == |st.messages| + 2
      && s.state.messages[..|st.messages|] == st.messages
      && s.state.messages[|st.messages|] == Message(User, text, t1, false)
      && s.state.messages[|st.messages| + 1].role == Model
      && s.state.messages[|st.messages| + 1].text == ModelText(reply, ChatBullet)
      && s.request == Some(Request(text, HistoryOf(st.messages)))
      && s.state.input == [] && !s.state.loading
  {
    if SendIgnored(st, overrideInput) then Sent(st, None)
    else
      var text := OrElse(overrideInput, st.input);
      var answer := Message(Model, ModelText(reply, ChatBullet), if reply.Failed? then "" else t2, false);
      var msgs := st.messages + [Message(User, text, t1, false), answer];
      assert msgs[..|st.messages|] == st.messages;
      Sent(ChatState(msgs, "", false), Some(Request(text, HistoryOf(st.messages))))
  }

  /** The history sent is exactly the transcript before the user's turn:
      the history of the new transcript starts with it and continues with
      the user's turn and the answer. */
  lemma SendHistoryIsPriorTranscript(st: ChatState, overrideInput: string, reply: Reply, t1: string, t2: string)
    requires !SendIgnored(st, overrideInput)
    ensures var s := Send(st, overrideInput, reply, t1, t2);
      && s.request.Some?
      && HistoryOf(s.state.messages) == s.request.value.history
           + [Turn(User, s.request.value.message), Turn(Model, ModelText(reply, ChatBullet))]
  {
    var s := Send(st, overrideInput, reply, t1, t2);
    var n := |st.messages|;
    var msgs := s.state.messages;
    assert msgs == st.messages + msgs[n..];
    HistoryOfAppend(st.messages, msgs[n..]);
    assert HistoryOf(msgs[n..]) == [Turn(User, s.request.value.message), Turn(Model, ModelText(reply, ChatBullet))];
  }

  /** The text of the model's turn after a send that failed, or got an
      empty answer. */
  lemma SendFallbacks(st: ChatState, overrideInput: string, t1: string, t2: string)
    requires !SendIgnored(st, overrideInput)
    ensures Send(st, overrideInput, Failed, t1, t2).state.messages[|st.messages| + 1] == Message(Model, ChatError, "", false)
    ensures Send(st, overrideInput, Answered(""), t1, t2).state.messages[|st.messages| + 1].text == ChatFallback
  {
    EmptyAnswerShowsFallback(ChatBullet);
  }

  /** `handleTranslate(index, language)`, with the service's reply as a
      parameter: only the message at `index` changes. A message already
      being translated, or an index outside the transcript (where the
      handler throws before changing anything), is left alone. An answer
      replaces the text by the cleaned translation, or by the cleaned
      original when the translation is empty; a failure keeps the text. */
  function Translate(st: ChatState, index: int, reply: Reply): (st': ChatState)
    ensures |st'.messages| == |st.messages|
    ensures st'.input == st.input && st'.loading == st.loading
    ensures forall i :: 0 <= i < |st.messages| && i != index ==> st'.messages[i] == st.messages[i]
    ensures !(0 <= index < |st.messages|) || st.messages[index].translating ==> st' == st
    ensures 0 <= index < |st.messages| && !st.messages[index].translating ==>
      var m := st.messages[index];
      && st'.messages[index].role == m.role && st'.messages[index].time == m.time
      && !st'.messages[index].translating
      && (reply.Failed? ==> st'.messages[index].text == m.text)
      && (reply.Answered? ==> st'.messages[index].text == CleanText(OrElse(reply.text, m.text), ChatBullet))
  {
    if !(0 <= index < |st.messages|) || st.messages[index].translating then st
    else
      var m := st.messages[index];
      var m' := match reply
        case Answered(t) => m.(text := CleanText(OrElse(t, m.text), ChatBullet), translating := false)
        case Failed => m.(translating := false);
      st.(messages := st.messages[index := m'])
  }

  /** A failed translation of an idle message changes nothing at all. */
  lemma FailedTranslationIsNoOp(st: ChatState, index: int)
    requires 0 <= index < |st.messages| && !st.messages[index].translating
    ensures Translate(st, index, Failed) == st
  {
    assert st.messages[index := st.messages[index]] == st.messages;
  }

  /** Translating twice with the same non-empty answer, or with a failure,
      is translating once. (An empty answer cleans the text again, which
      can change it.) */
  lemma TranslateIdempotent(st: ChatState, index: int, reply: Reply)
    requires reply.Failed? || reply.text != []
    ensures Translate(Translate(st, index, reply), index, reply) == Translate(st, index, reply)
  {
    var once := Translate(st, index, reply);
    if 0 <= index < |st.messages| && !st.messages[index].translating {
      assert once.messages[index := once.messages[index]] == once.messages;
    }
  }

  /** The clear button: back to the first message alone. */
  function Clear(st: ChatState): (st': ChatState)
    requires |st.messages| >= 1
    ensures st'.messages == [st.messages[0]]
    ensures st'.input == st.input && st'.loading == st.loading
  {
    st.(messages := [st.messages[0]])
  }

  // ---------------------------------------------------------------------------
  // the chat as a whole

  datatype Event =
    | SendEvent(overrideInput: string, reply: Reply, t1: string, t2: string)
    | TranslateEvent(index: int, reply: Reply)
    | ClearEvent

  function Next(st: ChatState, e: Event): ChatState
    requires Consistent(st)
  {
    match e
    case SendEvent(o, r, t1, t2) => Send(st, o, r, t1, t2).state
    case TranslateEvent(i, r) => Translate(st, i, r)
    case ClearEvent => Clear(st)
  }

  /** Every action keeps the transcript non-empty and led by a model turn;
      sending and clearing keep its first message as it was. */
  lemma NextKeepsConsistent(st: ChatState, e: Event)
    requires Consistent(st)
    ensures Consistent(Next(st, e))
    ensures !e.TranslateEvent? ==> Next(st, e).messages[0] == st.messages[0]
  {
    match e
    case SendEvent(o, r, t1, t2) =>
      var s := Send(st, o, r, t1, t2);
      if !SendIgnored(st, o) {
        assert s.state.messages[0] == s.state.messages[..|st.messages|][0];
      }
    case TranslateEvent(i, r) =>
      if 0 <= i < |st.messages| {
        assert 0 < |st.messages|;
      }
    case ClearEvent =>
  }

  function RunEvents(st: ChatState, es: seq<Event>): ChatState
    requires Consistent(st)
    decreases |es|
  {
    if es == [] then st
    else
      NextKeepsConsistent(st, es[0]);
      RunEvents(Next(st, es[0]), es[1..])
  }

  /** From the greeting on, whatever the user does, the transcript is
      never empty and opens with a model turn; without translations it
      still opens with the greeting. */
  lemma {:induction false} RunKeepsConsistent(st: ChatState, es: seq<Event>)
    requires Consistent(st)
    ensures Consistent(RunEvents(st, es))
    ensures (forall i :: 0 <= i < |es| ==> !es[i].TranslateEvent?) ==> RunEvents(st, es).messages[0] == st.messages[0]
    decreases |es|
  {
    if es != [] {
      NextKeepsConsistent(st, es[0]);
      RunKeepsConsistent(Next(st, es[0]), es[1..]);
    }
  }
}
