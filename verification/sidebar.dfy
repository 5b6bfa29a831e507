/**
  * The sidebar's use of the conversation: the "Recent" list of user prompts,
  * re-sending one of them, and the label a prompt is shown under.
  */
module Sidebar {
  import opened Wrappers
  import opened JsText
  import opened Conversation
  import opened Store

  /** At most this many prompts are listed. */
  const MaxRecent: nat := 20

  /** Labels longer than this many characters are cut. */
  const LabelWidth: nat := 40

  /** What a message offers the recent list: a user message its trimmed content, any other message `""`. */
  function PromptOf(m: Message): string {
    if m.role == User then Trim(m.content) else ""
  }

  /** What each message offers, in list order. */
  function Offers(messages: seq<Message>): (offers: seq<string>)
    ensures |offers| == |messages|
    decreases |messages|
  {
    if messages == [] then [] else [PromptOf(messages[0])] + Offers(messages[1..])
  }

  /** Offer `j` is what message `j` offers. */
  lemma {:induction false} OfferAt(messages: seq<Message>, j: nat)
    requires j < |messages|
    ensures Offers(messages)[j] == PromptOf(messages[j])
    decreases j
  {
    if j > 0 {
      OfferAt(messages[1..], j - 1);
    }
  }

  /** The non-empty prompts on offer. */
  function Prompts(offers: seq<string>): set<string> {
    set x | x in offers && x != ""
  }

  /** No string occurs twice. */
  predicate Distinct(s: seq<string>) {
    forall a, b :: 0 <= a < b < |s| ==> s[a] != s[b]
  }

  /** The index of the last offer of `x`, or -1 when there is none. */
  function LatestIndex(offers: seq<string>, x: string): (k: int)
    ensures -1 <= k < |offers|
    ensures k >= 0 ==> offers[k] == x
    ensures forall j :: k < j < |offers| ==> offers[j] != x
    decreases |offers|
  {
    if offers == [] then -1
    else if offers[|offers| - 1] == x then |offers| - 1
    else LatestIndex(offers[..|offers| - 1], x)
  }

  /**
    * The backward scan without its cut-off: each distinct non-empty prompt once,
    * at the place of its latest offer, the most recent first.
    */
  function Scan(offers: seq<string>): seq<string>
    decreases |offers|
  {
    if offers == [] then []
    else
      var later := Scan(offers[1..]);
      var p := offers[0];
      if p == "" || p in later then later else later + [p]
  }

  /** The "Recent" list: the first `MaxRecent` entries of the scan over what the messages offer. */
  function Recent(messages: seq<Message>): seq<string> {
    var all := Scan(Offers(messages));
    if |all| <= MaxRecent then all else all[..MaxRecent]
  }

  /**
    * `recentUserPrompts`: walk the messages from the last to the first, skip
    * non-user messages, empty trimmed contents and texts already seen, and stop
    * once `MaxRecent` prompts are collected.
    */
  method RecentUserPrompts(messages: seq<Message>) returns (result: seq<string>)
    ensures result == Recent(messages)
  {
    ghost var offers := Offers(messages);
    var seen: set<string> := {};
    result := [];
    for i := |messages| downto 0
      invariant result == Scan(offers[i..])
      invariant forall x :: x in seen <==> x in result
      invariant |result| < MaxRecent
    {
      var m := messages[i];
      ScanVisit(messages, i);
      if m.role != User {
        continue;
      }
      var text := Trim(m.content);
      if text == "" || text in seen {
        continue;
      }
      seen := seen + {text};
      result := result + [text];
      if |result| >= MaxRecent {
        assert result == Recent(messages) by {
          RecentFromSuffix(messages, i);
        }
        return;
      }
    }
    assert result == Recent(messages) by {
      RecentFromSuffix(messages, 0);
    }
  }

  /** What visiting message `i` does to the scan of the messages after it. */
  lemma ScanVisit(messages: seq<Message>, i: nat)
    requires i < |messages|
    ensures var m, later := messages[i], Scan(Offers(messages)[i + 1..]);
      Scan(Offers(messages)[i..])
      == if m.role != User || Trim(m.content) == "" || Trim(m.content) in later then later
         else later + [Trim(m.content)]
  {
    ScanStep(Offers(messages), i);
    OfferAt(messages, i);
  }

  /** The scan lists no prompt twice and no empty one. */
  lemma {:induction false} ScanDistinct(offers: seq<string>)
    ensures Distinct(Scan(offers))
    ensures forall k :: 0 <= k < |Scan(offers)| ==> Scan(offers)[k] != ""
    decreases |offers|
  {
    if offers != [] {
      ScanDistinct(offers[1..]);
    }
  }

  /** One step of the backward walk: the scan from `i` in terms of the scan from `i + 1`. */
  lemma ScanStep(offers: seq<string>, i: nat)
    requires i < |offers|
    ensures var later, p := Scan(offers[i + 1..]), offers[i];
      Scan(offers[i..]) == if p == "" || p in later then later else later + [p]
  {
    assert offers[i..][1..] == offers[i + 1..];
  }

  /** The scan of a suffix is a prefix of the scan of the whole list. */
  lemma {:induction false} ScanSuffix(offers: seq<string>, k: nat)
    requires k <= |offers|
    ensures |Scan(offers[k..])| <= |Scan(offers)|
    ensures Scan(offers)[..|Scan(offers[k..])|] == Scan(offers[k..])
    decreases k
  {
    if k > 0 {
      ScanSuffix(offers[1..], k - 1);
      assert offers[1..][k - 1..] == offers[k..];
    }
  }

  /**
    * The recent list is the scan from `k` on once that scan holds `MaxRecent`
    * prompts, or when `k` is 0 and the scan holds fewer.
    */
  lemma RecentFromSuffix(messages: seq<Message>, k: nat)
    requires k <= |messages|
    requires var s := Scan(Offers(messages)[k..]); |s| == MaxRecent || (k == 0 && |s| < MaxRecent)
    ensures Recent(messages) == Scan(Offers(messages)[k..])
  {
    var offers := Offers(messages);
    if k == 0 {
      assert offers[0..] == offers;
    } else {
      ScanSuffix(offers, k);
    }
  }

  /** The non-empty prompts of a list with one more offer at the front. */
  lemma PromptsCons(offers: seq<string>)
    requires offers != []
    ensures Prompts(offers) == Prompts(offers[1..]) + (if offers[0] == "" then {} else {offers[0]})
  {
    assert offers == [offers[0]] + offers[1..];
  }

  /** The scan holds every non-empty prompt on offer and nothing else. */
  lemma {:induction false} ScanPrompts(offers: seq<string>)
    ensures forall x :: x in Scan(offers) <==> x in Prompts(offers)
    ensures |Scan(offers)| == |Prompts(offers)|
    decreases |offers|
  {
    if offers != [] {
      var t, p := offers[1..], offers[0];
      ScanPrompts(t);
      PromptsCons(offers);
      if p != "" && p !in Scan(t) {
        assert p !in Prompts(t);
        assert Scan(offers) == Scan(t) + [p];
        assert Prompts(offers) == Prompts(t) + {p};
        assert |Prompts(t) + {p}| == |Prompts(t)| + 1;
      } else {
        assert Scan(offers) == Scan(t);
        assert Prompts(offers) == Prompts(t);
      }
    }
  }

  /** The latest offer in a list with one more offer at the front. */
  lemma LatestIndexCons(offers: seq<string>, x: string)
    requires offers != []
    ensures var k := LatestIndex(offers[1..], x);
      LatestIndex(offers, x) == if k >= 0 then k + 1 else if offers[0] == x then 0 else -1
  {
    var k := LatestIndex(offers[1..], x);
    if k >= 0 {
      assert offers[k + 1] == x;
    }
  }

  /** Every prompt the scan lists is on offer, and earlier entries are offered later in the conversation. */
  lemma {:induction false} ScanOrder(offers: seq<string>)
    ensures forall a :: 0 <= a < |Scan(offers)| ==> LatestIndex(offers, Scan(offers)[a]) >= 0
    ensures forall a, b :: 0 <= a < b < |Scan(offers)| ==>
      LatestIndex(offers, Scan(offers)[a]) > LatestIndex(offers, Scan(offers)[b])
    decreases |offers|
  {
    if offers != [] {
      var t := offers[1..];
      var later, p := Scan(t), offers[0];
      ScanOrder(t);
      forall a | 0 <= a < |later|
        ensures LatestIndex(offers, later[a]) == LatestIndex(t, later[a]) + 1
      {
        LatestIndexCons(offers, later[a]);
      }
      if p != "" && p !in later {
        ScanPrompts(t);
        assert p !in t;
        LatestIndexCons(offers, p);
        assert Scan(offers) == later + [p];
      }
    }
  }

  /** The recent list never holds more than `MaxRecent` prompts, and none twice. */
  lemma RecentBounded(messages: seq<Message>)
    ensures |Recent(messages)| <= MaxRecent
    ensures Distinct(Recent(messages))
  {
    ScanDistinct(Offers(messages));
  }

  /** Every entry is the non-empty trimmed content of some user message. */
  lemma RecentFromUsers(messages: seq<Message>)
    ensures forall x :: x in Recent(messages) ==>
      x != "" && exists m :: m in messages && m.role == User && Trim(m.content) == x
  {
    var offers := Offers(messages);
    ScanPrompts(offers);
    forall x | x in Recent(messages)
      ensures x != "" && exists m :: m in messages && m.role == User && Trim(m.content) == x
    {
      assert x in Scan(offers);
      var j :| 0 <= j < |offers| && offers[j] == x && x != "";
      OfferAt(messages, j);
    }
  }

  /**
    * Entries are ordered most recent first: the latest user message offering an
    * entry comes after the latest one offering the next entry.
    */
  lemma RecentOrdered(messages: seq<Message>)
    ensures forall a :: 0 <= a < |Recent(messages)| - 1 ==>
      LatestIndex(Offers(messages), Recent(messages)[a]) > LatestIndex(Offers(messages), Recent(messages)[a + 1])
  {
    ScanOrder(Offers(messages));
  }

  /** With fewer than `MaxRecent` distinct prompts, every one of them is listed. */
  lemma RecentComplete(messages: seq<Message>)
    requires |Prompts(Offers(messages))| < MaxRecent
    ensures forall x :: x in Prompts(Offers(messages)) ==> x in Recent(messages)
  {
    ScanPrompts(Offers(messages));
  }

  /** Entries are already trimmed, so re-sending one sends it exactly. */
  lemma RecentTrimmed(messages: seq<Message>)
    ensures forall x :: x in Recent(messages) ==> Trim(x) == x
  {
    var offers := Offers(messages);
    ScanPrompts(offers);
    forall x | x in Recent(messages) ensures Trim(x) == x {
      assert x in Scan(offers);
      var j :| 0 <= j < |offers| && offers[j] == x;
      OfferTrimmed(messages, j);
    }
  }

  /** What a message offers is already trimmed. */
  lemma OfferTrimmed(messages: seq<Message>, j: nat)
    requires j < |messages|
    ensures Trim(Offers(messages)[j]) == Offers(messages)[j]
  {
    OfferAt(messages, j);
    if messages[j].role == User {
      TrimIdempotent(messages[j].content);
    } else {
      assert Trim("") == "";
    }
  }

  /**
    * `loadPrompt`: ignore an empty or white-space-only prompt; otherwise call
    * `onSent` with the trimmed prompt.
    */
  method LoadPrompt(store: ChatStore, prompt: string, run: string -> Reply, userId: nat, replyId: nat)
    modifies store
    ensures Trim(prompt) == "" ==> unchanged(store)
    ensures Trim(prompt) != "" ==>
      var user := Message(userId, User, Trim(prompt));
      var reply := run(Stitch(old(store.messages) + [user]));
      store.messages == old(store.messages) + [user, ReplyMessage(reply, replyId)]
      && store.input == "" && !store.loading && store.showResult && store.theme == old(store.theme)
      && store.error == (if Usable(reply) then None else Some(ErrorText(reply)))
  {
    if prompt == "" || Trim(prompt) == "" {
      return;
    }
    store.OnSent(Some(Trim(prompt)), run, userId, replyId);
  }

  /** The label a prompt is shown under: at most `LabelWidth` characters, then an ellipsis. */
  function Label(value: string): (shown: string)
    ensures |value| <= LabelWidth ==> shown == value
    ensures |value| > LabelWidth ==>
      |shown| == LabelWidth + 1 && shown[..LabelWidth] == value[..LabelWidth] && shown[LabelWidth] == '…'
  {
    if |value| > LabelWidth then value[..LabelWidth] + "…" else value
  }
}
