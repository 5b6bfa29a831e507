/**
  * The conversation as the store holds it: an ordered list of messages, the
  * updater that streams a word into the last assistant message, and the
  * transcript stitched together for the completion endpoint.
  */
module Conversation {
  import opened JsText

  /** The two roles the application writes; messages restored from storage may carry others. */
  const User: string := "user"
  const Assistant: string := "assistant"

  /** One chat message; ids come from `crypto.randomUUID` and are opaque here. */
  datatype Message = Message(id: nat, role: string, content: string)

  /**
    * The updater `delayAppendToLastMessage` hands to `setMessages`: when the list
    * ends with an assistant message, that message's content grows by `word`;
    * otherwise the list is returned as it is.
    */
  function AppendToLast(messages: seq<Message>, word: string): (r: seq<Message>)
    ensures |r| == |messages|
    ensures messages == [] || messages[|messages| - 1].role != Assistant ==> r == messages
    ensures messages != [] && messages[|messages| - 1].role == Assistant ==>
      var n := |messages| - 1;
      r[..n] == messages[..n] && r[n].id == messages[n].id && r[n].role == Assistant
      && r[n].content == messages[n].content + word
  {
    if messages == [] then messages
    else
      var last := messages[|messages| - 1];
      if last.role != Assistant then messages
      else messages[|messages| - 1 := last.(content := last.content + word)]
  }

  /** Two appends in a row are one append of the two words together. */
  lemma AppendToLastTwice(messages: seq<Message>, first: string, second: string)
    ensures AppendToLast(AppendToLast(messages, first), second) == AppendToLast(messages, first + second)
  {
    if messages != [] && messages[|messages| - 1].role == Assistant {
      var n := |messages| - 1;
      var once := AppendToLast(messages, first);
      assert once[..n] == messages[..n];
      assert (once[n].content + second) == messages[n].content + (first + second);
      var twice := AppendToLast(once, second);
      var direct := AppendToLast(messages, first + second);
      assert twice[..n] == direct[..n];
      assert twice == twice[..n] + [twice[n]] && direct == direct[..n] + [direct[n]];
    }
  }

  /** The words of `words`, each followed by one space, concatenated in order. */
  function Spaced(words: seq<string>): string
    decreases |words|
  {
    if words == [] then "" else Spaced(words[..|words| - 1]) + words[|words| - 1] + " "
  }

  /** The message list after the updates for `words[0] + " "`, `words[1] + " "`, ... applied in index order. */
  function Streamed(messages: seq<Message>, words: seq<string>): (r: seq<Message>)
    ensures |r| == |messages|
    ensures messages == [] || messages[|messages| - 1].role != Assistant ==> r == messages
    decreases |words|
  {
    if words == [] then messages
    else AppendToLast(Streamed(messages, words[..|words| - 1]), words[|words| - 1] + " ")
  }

  /** The updater applied to a list ending in an assistant message. */
  lemma AppendToAssistant(prefix: seq<Message>, last: Message, word: string)
    requires last.role == Assistant
    ensures AppendToLast(prefix + [last], word) == prefix + [last.(content := last.content + word)]
  {
    var r := AppendToLast(prefix + [last], word);
    assert r[..|prefix|] == prefix;
    assert r == r[..|prefix|] + [r[|prefix|]];
  }

  /**
    * Streaming into a list that ends with an assistant message touches only that
    * message, whose content grows by every word and its space, in order.
    */
  lemma {:induction false} StreamedIntoLast(prefix: seq<Message>, last: Message, words: seq<string>)
    requires last.role == Assistant
    ensures Streamed(prefix + [last], words) == prefix + [last.(content := last.content + Spaced(words))]
    decreases |words|
  {
    if words == [] {
      assert last.(content := last.content + "") == last;
    } else {
      var n := |words| - 1;
      StreamedIntoLast(prefix, last, words[..n]);
      var mid := last.(content := last.content + Spaced(words[..n]));
      AppendToAssistant(prefix, mid, words[n] + " ");
      assert mid.content + (words[n] + " ") == last.content + Spaced(words);
    }
  }

  /** Each word followed by a space is the join with spaces plus one trailing space. */
  lemma {:induction false} SpacedIsJoin(words: seq<string>)
    requires |words| >= 1
    ensures Spaced(words) == Join(words, " ") + " "
    decreases |words|
  {
    var n := |words| - 1;
    if n == 0 {
      assert words[..0] == [];
    } else {
      SpacedIsJoin(words[..n]);
      JoinLast(words, " ");
    }
  }

  /**
    * Streaming the words of `text` (its split on single spaces) into a fresh,
    * empty assistant message leaves exactly `text` and one trailing space there.
    */
  lemma StreamedReply(prefix: seq<Message>, id: nat, text: string)
    ensures Streamed(prefix + [Message(id, Assistant, "")], Split(text, " "))
         == prefix + [Message(id, Assistant, text + " ")]
  {
    var words := Split(text, " ");
    StreamedIntoLast(prefix, Message(id, Assistant, ""), words);
    SpacedIsJoin(words);
    JoinSplit(text, " ");
    assert "" + Spaced(words) == text + " ";
  }

  /** The speaker label the transcript gives a role. */
  function Speaker(role: string): (name: string)
    ensures name == "User" <==> role == User
    ensures name == "User" || name == "Assistant"
  {
    if role == User then "User" else "Assistant"
  }

  /** One transcript entry: the speaker label, a colon and a space, then the content. */
  function Entry(m: Message): string {
    Speaker(m.role) + ": " + m.content
  }

  /** The entries of all messages, in list order. */
  function Entries(messages: seq<Message>): seq<string>
    decreases |messages|
  {
    if messages == [] then [] else [Entry(messages[0])] + Entries(messages[1..])
  }

  /** The transcript `onSent` sends: the entries joined by blank lines. */
  function Stitch(messages: seq<Message>): string {
    Join(Entries(messages), "\n\n")
  }

  /** Entries has one entry per message, each labelled `User: ` for users and `Assistant: ` otherwise. */
  lemma EntriesShape(messages: seq<Message>)
    ensures |Entries(messages)| == |messages|
    ensures forall i :: 0 <= i < |messages| ==>
      Entries(messages)[i] == (if messages[i].role == User then "User: " else "Assistant: ") + messages[i].content
  {
    EntriesAt(messages);
  }

  /** A transcript entry has a line feed only where its content has one. */
  lemma EntryLineFeed(m: Message)
    ensures '\n' in Entry(m) <==> '\n' in m.content
  {
    assert Entry(m) == Speaker(m.role) + ": " + m.content;
  }

  /**
    * When no content holds a line feed, cutting the transcript at its blank lines
    * recovers exactly one entry per message, in list order.
    */
  lemma StitchSplit(messages: seq<Message>)
    requires |messages| >= 1
    requires forall i :: 0 <= i < |messages| ==> '\n' !in messages[i].content
    ensures Split(Stitch(messages), "\n\n") == Entries(messages)
  {
    var entries := Entries(messages);
    EntriesAt(messages);
    forall i | 0 <= i < |entries| ensures '\n' !in entries[i] {
      EntryLineFeed(messages[i]);
    }
    SplitJoin(entries, "\n\n");
  }

  /** Entry `i` of the transcript belongs to message `i`. */
  lemma {:induction false} EntriesAt(messages: seq<Message>)
    ensures |Entries(messages)| == |messages|
    ensures forall i :: 0 <= i < |messages| ==> Entries(messages)[i] == Entry(messages[i])
    decreases |messages|
  {
    if messages != [] {
      EntriesAt(messages[1..]);
    }
  }

  /** Entries of a list with one more message at the back. */
  lemma {:induction false} EntriesSnoc(messages: seq<Message>, m: Message)
    ensures Entries(messages + [m]) == Entries(messages) + [Entry(m)]
    decreases |messages|
  {
    if messages == [] {
      assert [m][1..] == [];
    } else {
      assert (messages + [m])[1..] == messages[1..] + [m];
      EntriesSnoc(messages[1..], m);
    }
  }

  /** The transcript of a send ends with the new user message's entry, after a blank line if others precede it. */
  lemma StitchEndsWithNewMessage(messages: seq<Message>, id: nat, text: string)
    ensures var e := "User: " + text;
      Stitch(messages + [Message(id, User, text)])
      == if messages == [] then e else Stitch(messages) + "\n\n" + e
  {
    var m := Message(id, User, text);
    EntriesSnoc(messages, m);
    assert Entry(m) == "User: " + text by {
      assert "User" + ": " == "User: ";
    }
    if messages != [] {
      assert |Entries(messages)| >= 1;
      JoinSnoc(Entries(messages), Entry(m), "\n\n");
    }
  }

  /** The theme `toggleTheme` switches to: `"dark"` from `"light"`, `"light"` from anything else. */
  function NextTheme(theme: string): (next: string)
    ensures next == "light" || next == "dark"
    ensures next == "dark" <==> theme == "light"
  {
    if theme == "light" then "dark" else "light"
  }

  /** Toggling a light or dark theme twice restores it. */
  lemma NextThemeTwice(theme: string)
    requires theme == "light" || theme == "dark"
    ensures NextTheme(NextTheme(theme)) == theme
  {
  }
}
