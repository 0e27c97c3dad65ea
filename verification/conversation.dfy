/**
 * What the chat bot and the garden guide's follow-up chat share: the two
 * speakers, a transcript turn as the chat service receives it, and the text
 * of the model's turn after a reply or a failure.
 */
module Conversation {
  import opened Text
  import opened Markup
  import opened Remote

  datatype Role = User | Model

  /** A turn of the history handed to the chat service. */
  datatype Turn = Turn(role: Role, text: string)

  /** A chat request: the message and the history before it. */
  datatype Request = Request(message: string, history: seq<Turn>)

  const ChatFallback: string := "I couldn't process that. Please try again."
  const ChatError: string := "Sorry, I'm having trouble connecting right now."

  /** The model's turn after a reply: the cleaned answer, the cleaned
      fallback when the answer is empty, or the error text on failure. */
  function ModelText(reply: Reply, bullet: string): (t: string)
    ensures reply.Failed? ==> t == ChatError
    ensures reply.Answered? && reply.text != [] ==> t == CleanText(reply.text, bullet)
    ensures reply.Answered? ==> IsTrimmed(t)
  {
    match reply
    case Answered(s) => CleanText(OrElse(s, ChatFallback), bullet)
    case Failed => ChatError
  }

  /** An empty answer shows the fallback exactly: cleaning leaves it as it
      is. */
  lemma EmptyAnswerShowsFallback(bullet: string)
    ensures ModelText(Answered(""), bullet) == ChatFallback
  {
    FallbackIsPlain();
    CleanTextOfPlain(ChatFallback, bullet);
    FallbackIsTrimmed();
  }

  lemma FallbackIsPlain()
    ensures '*' !in ChatFallback && '#' !in ChatFallback && '-' !in ChatFallback
  {
    FallbackHasNo('*');
    FallbackHasNo('#');
    FallbackHasNo('-');
  }

  lemma FallbackHasNo(c: char)
    requires c in "*#-"
    ensures c !in ChatFallback
  {
  }

  lemma FallbackIsTrimmed()
    ensures Trim(ChatFallback) == ChatFallback
  {
    TrimOfPadded("", ChatFallback, "");
    assert "" + ChatFallback + "" == ChatFallback;
  }
}
