/**
 * The garden care guide: a search that fetches and cleans a care guide, and
 * a follow-up chat whose prompt carries the start of that guide as context.
 * The service's replies are parameters.
 */
module GardenCare {
  import opened Text
  import opened Markup
  import opened Remote
  import opened Conversation

  const NoGuide: string := "No information found."
  const GuideError: string := "Error retrieving guide. Please try again."
  /** How much of the guide the chat prompt carries. */
  const ContextLength: nat := 500

  datatype GardenState = GardenState(
    query: string, loading: bool, result: Option<string>,
    chatInput: string, chatHistory: seq<Turn>)

  /** The arguments of the parent's `onResult`. */
  datatype Saved = Saved(title: string, content: string)

  /** The state after a search, and what reaches the parent. */
  datatype Searched = Searched(state: GardenState, saved: Option<Saved>)

  /** `handleSearch(e, overrideQuery)`: nothing happens on a blank query.
      An answer (an empty one as the fixed notice) is cleaned, shown, saved
      under the query's title, and starts a fresh chat; a failure shows the
      error text and keeps the chat. */
  function Search(st: GardenState, overrideQuery: string, reply: Reply): (s: Searched)
    ensures AllSpace(OrElse(overrideQuery, st.query)) ==> s == Searched(st, None)
    ensures !AllSpace(OrElse(overrideQuery, st.query)) ==>
      && !s.state.loading
      && s.state.query == st.query && s.state.chatInput == st.chatInput
    ensures !AllSpace(OrElse(overrideQuery, st.query)) && reply.Answered? ==>
      var guide := CleanText(OrElse(reply.text, NoGuide), GardenBullet);
      && s.state.result == Some(guide)
      && s.state.chatHistory == []
      && s.saved == Some(Saved("Care Guide: " + OrElse(overrideQuery, st.query), guide))
    ensures !AllSpace(OrElse(overrideQuery, st.query)) && reply.Failed? ==>
      && s.state.result == Some(GuideError)
      && s.state.chatHistory == st.chatHistory
      && s.saved.None?
  {
    var q := OrElse(overrideQuery, st.query);
    if AllSpace(q) then Searched(st, None)
    else
      match reply
      case Answered(t) =>
        var guide := CleanText(OrElse(t, NoGuide), GardenBullet);
        Searched(st.(loading := false, result := Some(guide), chatHistory := []), Some(Saved("Care Guide: " + q, guide)))
      case Failed =>
        Searched(st.(loading := false, result := Some(GuideError)), None)
  }

  /** An empty guide shows the fixed notice exactly. */
  lemma EmptyGuideShowsNotice(st: GardenState, overrideQuery: string)
    requires !AllSpace(OrElse(overrideQuery, st.query))
    ensures Search(st, overrideQuery, Answered("")).state.result == Some(NoGuide)
  {
    NoticeIsPlain();
    CleanTextOfPlain(NoGuide, GardenBullet);
    NoticeIsTrimmed();
  }

  lemma NoticeIsTrimmed()
    ensures Trim(NoGuide) == NoGuide
  {
    assert IsTrimmed(NoGuide);
    TrimOfPadded("", NoGuide, "");
    assert "" + NoGuide + "" == NoGuide;
  }

  lemma NoticeIsPlain()
    ensures '*' !in NoGuide && '#' !in NoGuide && '-' !in NoGuide
  {
    NoticeHasNo('*');
    NoticeHasNo('#');
    NoticeHasNo('-');
  }

  lemma NoticeHasNo(c: char)
    requires c in "*#-"
    ensures c !in NoGuide
  {
  }

  /** `result` is truthy: a guide is shown and it is not empty. */
  predicate HasGuide(st: GardenState) {
    st.result.Some? && st.result.value != []
  }

  /** The first `n` characters of `s`, or all of it when shorter
      (`substring(0, n)`). */
  function Head(s: string, n: nat): (r: string)
    ensures |r| == if |s| <= n then |s| else n
    ensures r == s[..|r|]
  {
    if |s| <= n then s else s[..n]
  }

  const PromptIntro: string := "Context: You are discussing "
  const PromptGuide: string := ". Previous Guide Info: "
  const PromptQuestion: string := "... User Question: "

  /** The prompt of a follow-up question: with a guide shown, the question
      is wrapped in the search query and at most the first 500 characters
      of the guide, the whole guide when it is that short; otherwise it is
      sent as it is. */
  function ContextPrompt(st: GardenState, message: string): (p: string)
    ensures !HasGuide(st) ==> p == message
    ensures HasGuide(st) ==>
      var k := if |st.result.value| <= ContextLength then |st.result.value| else ContextLength;
      p == PromptIntro + st.query + PromptGuide + st.result.value[..k] + PromptQuestion + message
  {
    if HasGuide(st) then
      PromptIntro + st.query + PromptGuide + Head(st.result.value, ContextLength) + PromptQuestion + message
    else message
  }

  /** The prompt of a follow-up is never longer than the question, the
      query and the fixed texts plus 500 characters of guide. */
  lemma PromptLengthBound(st: GardenState, message: string)
    ensures |ContextPrompt(st, message)| <= |PromptIntro| + |st.query| + |PromptGuide| + ContextLength + |PromptQuestion| + |message|
  {
    if HasGuide(st) {
      var k := if |st.result.value| <= ContextLength then |st.result.value| else ContextLength;
      assert |ContextPrompt(st, message)| == |PromptIntro| + |st.query| + |PromptGuide| + k + |PromptQuestion| + |message|;
    }
  }

  /** The state after a chat turn, and the request made, if any. */
  datatype Chatted = Chatted(state: GardenState, request: Option<Request>)

  /** Chat does nothing on blank input or while a request is in flight. */
  predicate ChatIgnored(st: GardenState, overrideChat: string) {
    AllSpace(OrElse(overrideChat, st.chatInput)) || st.loading
  }

  /** `handleChat(e, overrideChat)`, with the service's reply as a
      parameter: the user's text is appended, then the model's turn; the
      service gets the prompt and the history before the user's turn. */
  function Chat(st: GardenState, overrideChat: string, reply: Reply): (c: Chatted)
    ensures ChatIgnored(st, overrideChat) ==> c == Chatted(st, None)
    ensures !ChatIgnored(st, overrideChat) ==>
      var text := OrElse(overrideChat, st.chatInput);
      && c.state.chatHistory == st.chatHistory + [Turn(User, text), Turn(Model, ModelText(reply, GardenBullet))]
      && c.request == Some(Request(ContextPrompt(st, text), st.chatHistory))
      && c.state.chatInput == [] && !c.state.loading
      && c.state.result == st.result && c.state.query == st.query
  {
    if ChatIgnored(st, overrideChat) then Chatted(st, None)
    else
      var text := OrElse(overrideChat, st.chatInput);
      var turns := st.chatHistory + [Turn(User, text), Turn(Model, ModelText(reply, GardenBullet))];
      Chatted(st.(chatInput := [], loading := false, chatHistory := turns), Some(Request(ContextPrompt(st, text), st.chatHistory)))
  }

  /** A question after a successful search starts a fresh conversation: the
      service gets no history, and, when the saved guide is not empty, a
      prompt carrying the state's query and the head of exactly the guide
      that was saved. */
  lemma ChatAfterSearch(st: GardenState, overrideQuery: string, answer: string, overrideChat: string, reply: Reply)
    requires !AllSpace(OrElse(overrideQuery, st.query)) && !AllSpace(OrElse(overrideChat, st.chatInput))
    ensures var s := Search(st, overrideQuery, Answered(answer));
      var c := Chat(s.state, overrideChat, reply);
      && s.saved.Some? && c.request.Some?
      && c.request.value.history == []
      && |c.state.chatHistory| == 2
      && (s.saved.value.content != [] ==>
            c.request.value.message == PromptIntro + st.query + PromptGuide + Head(s.saved.value.content, ContextLength) + PromptQuestion + OrElse(overrideChat, st.chatInput))
  {
  }

  /** The history sent is the chat before the new question, and the new chat
      is that history followed by exactly two turns. */
  lemma ChatHistoryIsPriorChat(st: GardenState, overrideChat: string, reply: Reply)
    requires !ChatIgnored(st, overrideChat)
    ensures var c := Chat(st, overrideChat, reply);
      && c.request.Some?
      && c.state.chatHistory[..|st.chatHistory|] == c.request.value.history
      && |c.state.chatHistory| == |c.request.value.history| + 2
  {
    var c := Chat(st, overrideChat, reply);
    assert c.state.chatHistory[..|st.chatHistory|] == st.chatHistory;
  }
}
