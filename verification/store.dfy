/**
  * The conversation store that `ContextProvider` keeps in React state: the
  * message list and the composer, loading, result, error and theme flags, with
  * the actions `onSent`, `newChat` and `toggleTheme` that update them.
  */
module Store {
  import opened Wrappers
  import opened JsText
  import opened Markdown
  import opened Conversation

  /**
    * What the completion call produced: a value, or an exception carrying its
    * message (`""` when the exception has none).
    */
  datatype Reply = Returned(value: JsValue) | Threw(message: string)

  /** The message of the exception `onSent` raises for an empty or non-string reply. */
  const UnexpectedResponse: string := "Received an unexpected response from the server."

  /** The error text used when an exception carries no message. */
  const FallbackError: string := "Sorry—something went wrong on the server. Please try again in a moment."

  /** The assistant bubble appended when a send fails. */
  const ErrorBubble: string :=
    "<div role=\"alert\"><b>Server error:</b> Sorry—something went wrong on the server. Please try again.</div>"

  /** The text `onSent` sends: the prompt when one is passed, else the trimmed composer input. */
  function SentText(prompt: Option<string>, input: string): string {
    if prompt.Some? then prompt.value else Trim(input)
  }

  /** A reply `onSent` accepts: a non-empty string. */
  predicate Usable(reply: Reply) {
    reply.Returned? && reply.value.JsString? && reply.value.s != ""
  }

  /** The readable error `onSent` records for a reply it does not accept. */
  function ErrorText(reply: Reply): (text: string)
    requires !Usable(reply)
    ensures text != ""
    ensures reply.Returned? ==> text == UnexpectedResponse
    ensures reply.Threw? && reply.message != "" ==> text == reply.message
  {
    if reply.Returned? then UnexpectedResponse
    else if reply.message != "" then reply.message
    else FallbackError
  }

  /**
    * The assistant message a send leaves at the end of the list once every
    * streaming update has run: the formatted reply and a trailing space, or the
    * error bubble.
    */
  function ReplyMessage(reply: Reply, id: nat): (m: Message)
    ensures m.id == id && m.role == Assistant
    ensures !Usable(reply) <==> m.content == ErrorBubble
  {
    if Usable(reply) then
      assert ErrorBubble[|ErrorBubble| - 1] == '>';
      Message(id, Assistant, Formatted(reply.value) + " ")
    else Message(id, Assistant, ErrorBubble)
  }

  class ChatStore {
    var input: string
    var messages: seq<Message>
    var showResult: bool
    var loading: bool
    var error: Option<string>
    var theme: string

    /** The initial state of the provider: nothing typed, no messages, light theme. */
    constructor ()
      ensures input == "" && messages == [] && !showResult && !loading
      ensures error == None && theme == "light"
    {
      input := "";
      messages := [];
      showResult := false;
      loading := false;
      error := None;
      theme := "light";
    }

    /** `toggleTheme`: switch between the light and the dark theme. */
    method ToggleTheme()
      modifies this
      ensures theme == NextTheme(old(theme))
      ensures input == old(input) && messages == old(messages) && showResult == old(showResult)
      ensures loading == old(loading) && error == old(error)
    {
      theme := NextTheme(theme);
    }

    /** `newChat`: clear the conversation, the composer and every flag but the theme. */
    method NewChat()
      modifies this
      ensures messages == [] && input == "" && error == None
      ensures !loading && !showResult && theme == old(theme)
    {
      loading := false;
      showResult := false;
      error := None;
      input := "";
      messages := [];
    }

    /**
      * The streaming loop of `onSent`: one `delayAppendToLastMessage` update per
      * word, carrying the word and a space, applied in index order.
      */
    method StreamWords(words: seq<string>)
      modifies this`messages
      ensures messages == Streamed(old(messages), words)
    {
      ghost var start := messages;
      for i := 0 to |words|
        invariant messages == Streamed(start, words[..i])
      {
        assert words[..i + 1][..i] == words[..i];
        messages := AppendToLast(messages, words[i] + " ");
      }
      assert words[..|words|] == words;
    }

    /**
      * The part of `onSent` after `run` returns or throws: a usable reply is
      * formatted and streamed into a fresh empty assistant message; anything else
      * records the readable error and appends the error bubble.
      */
    method AcceptReply(res: Reply, replyId: nat)
      modifies this`messages, this`error
      ensures messages == old(messages) + [ReplyMessage(res, replyId)]
      ensures error == (if Usable(res) then old(error) else Some(ErrorText(res)))
    {
      if Usable(res) {
        var formatted := FormatMarkdownToHtml(res.value);
        ghost var before := messages;
        messages := messages + [Message(replyId, Assistant, "")];
        StreamWords(Split(formatted, " "));
        StreamedReply(before, replyId, formatted);
      } else {
        error := Some(ErrorText(res));
        messages := messages + [ReplyMessage(res, replyId)];
      }
    }

    /**
      * The sending half of `onSent` for a non-blank text: push the user message,
      * pass the transcript of the conversation up to it to `run`, and accept
      * the reply.
      */
    method Send(text: string, run: string -> Reply, userId: nat, replyId: nat)
      modifies this`messages, this`error
      ensures var user := Message(userId, User, text);
        var reply := run(Stitch(old(messages) + [user]));
        messages == old(messages) + [user, ReplyMessage(reply, replyId)]
        && error == (if Usable(reply) then old(error) else Some(ErrorText(reply)))
    {
      var userMsg := Message(userId, User, text);
      var stitched := Stitch(messages + [userMsg]);
      messages := messages + [userMsg];

      var res := run(stitched);
      AcceptReply(res, replyId);
      assert messages == old(messages) + [userMsg, ReplyMessage(res, replyId)];
    }

    /**
      * `onSent`: send `prompt`, or the trimmed composer input when no prompt is
      * passed. A blank text only toggles the flags. Otherwise the user message is
      * appended, the transcript of the conversation up to it goes to `run`, and
      * one assistant message follows: the reply streamed word by word into an
      * empty placeholder, or the error bubble with `error` set. The ids stand for
      * the fresh values of `crypto.randomUUID`.
      */
    method OnSent(prompt: Option<string>, run: string -> Reply, userId: nat, replyId: nat)
      modifies this
      ensures showResult && !loading && theme == old(theme)
      ensures SentText(prompt, old(input)) == "" ==>
        messages == old(messages) && input == old(input) && error == None
      ensures SentText(prompt, old(input)) != "" ==>
        var user := Message(userId, User, SentText(prompt, old(input)));
        var reply := run(Stitch(old(messages) + [user]));
        input == ""
        && messages == old(messages) + [user, ReplyMessage(reply, replyId)]
        && error == (if Usable(reply) then None else Some(ErrorText(reply)))
    {
      loading := true;
      showResult := true;
      error := None;

      var text := SentText(prompt, input);
      if text == "" {
        loading := false;
        return;
      }

      Send(text, run, userId, replyId);
      loading := false;
      input := "";
    }
  }
}
