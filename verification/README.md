# Gemini-Clone chat front-end: a verified model of its logic

Gemini-Clone is a small React chat front-end. Most of it is markup. Its logic sits in two
files, which this project models in Dafny and reasons about:

- `src/components/context/Context.jsx`: the `ContextProvider` store. It holds:
  - the markdown-subset formatter `formatMarkdownToHTML`, which turns `**…**` into bold and
    every other `*` into a line break;
  - the ordered message list `{id, role, content}` and the flags `input`, `loading`,
    `showResult`, `error` and `theme`;
  - the actions `onSent`, `newChat` and `toggleTheme`. `onSent` stitches the conversation
    into a transcript, calls the completion endpoint, and streams the formatted reply
    word by word into a fresh assistant message, or appends an error bubble.
- `src/components/sidebar/SidebarContent.jsx`:
  - the "Recent" list: a backward scan over the messages that collects up to 20 distinct,
    trimmed, non-empty user prompts, most recent first;
  - `loadPrompt`, which re-sends one of those prompts;
  - the 40-character label a prompt is shown under.

The modules follow that structure:

| module | file | contents |
|---|---|---|
| `Wrappers` | `wrappers.dfy` | `Option` |
| `JsText` | `js_text.dfy` | the JavaScript string built-ins used: `trim`, `split` with a non-empty separator, `Array.prototype.join` |
| `Markdown` | `markdown.dfy` | `formatMarkdownToHTML`, as a method with a loop and as the function that specifies it |
| `Conversation` | `conversation.dfy` | messages, the append-to-last updater, streaming, transcript stitching, the theme toggle |
| `Store` | `store.dfy` | class `ChatStore`: the provider's state and `onSent`, `newChat`, `toggleTheme` |
| `Sidebar` | `sidebar.dfy` | `recentUserPrompts`, `loadPrompt`, the label |

Modelling choices:

- **Splitting.** `split` is modelled as JavaScript performs it: left to right, non-overlapping
  occurrences. So `"***"` splits on `"**"` into `["", "*"]`.
- **Trimming.** `trim` strips the ECMAScript WhiteSpace and LineTerminator code points.
- **The completion call.** `run` is a function parameter from the transcript to a `Reply`:
  a returned JavaScript value (a string or anything else), or a thrown exception with its
  message.
- **Ids.** The fresh ids from `crypto.randomUUID` are parameters.
- **Streaming.** The updates scheduled with `setTimeout` are applied in index order, inside
  `onSent`.

## Model

| member | source | states |
|---|---|---|
| JsText.Trim | src/components/context/Context.jsx:120 | the result is the infix of the input after its leading white space, and everything after it is white space; it neither starts nor ends with white space; it is empty exactly when the input is all white space |
| JsText.TrimIdempotent | src/components/sidebar/SidebarContent.jsx:198 | trimming a trimmed string changes nothing |
| JsText.Split | src/components/context/Context.jsx:8 | `split` always yields at least one part |
| JsText.Join | src/components/context/Context.jsx:14 | `Array.prototype.join`: the parts in order with the separator between neighbours, `""` for no parts; its partners are `JoinSplit` and `SplitJoin`, which make it the inverse of `Split` |
| JsText.JoinSplit | src/components/context/Context.jsx:14 | joining the parts of a split with the same separator gives back the string |
| JsText.SplitJoin | src/components/context/Context.jsx:136-138 | splitting a join recovers the parts when no part holds the separator's first character |
| JsText.SplitWithout | src/components/context/Context.jsx:8 | a string without the separator's first character splits into itself alone |
| JsText.SplitJoinReplace | src/components/context/Context.jsx:14 | splitting on one character and joining with `t` equals replacing every occurrence of that character by `t` |
| JsText.ReplaceChar | src/components/context/Context.jsx:14 | the replacement leaves no occurrence of the character when `t` has none, and changes nothing when the string has none |
| Markdown.FormatMarkdownToHtml | src/components/context/Context.jsx:6-16 | the loop's accumulator holds the bold pass over the segments seen so far; the method returns `Formatted(raw)` |
| Markdown.Formatted | src/components/context/Context.jsx:6-16 | the value `formatMarkdownToHTML` returns: `""` for the empty string and every non-string, otherwise the line-break pass over the bold pass; its properties are the `Formatted…` lemmas below |
| Markdown.Bolded | src/components/context/Context.jsx:8-13 | the bold pass: the split on `**` with its odd-indexed segments in bold tags; `BoldPassRestoresInput` proves it loses nothing |
| Markdown.Broken | src/components/context/Context.jsx:14 | the line-break pass: the split on `*` joined with `</br>`; `SplitJoinReplace` proves it replaces each `*` by `</br>` |
| Markdown.Piece | src/components/context/Context.jsx:11-12 | the loop body's contribution for segment `i`: copied at index 0 and even indices, wrapped in the tags at odd ones |
| Markdown.Emphasize | src/components/context/Context.jsx:10-13 | the accumulator after the loop: the pieces of all segments concatenated in order; `EmphasizeAsJoin` and `EmphasizeLength` state it without the loop |
| Markdown.FormattedEmpty | src/components/context/Context.jsx:7 | the empty string and every non-string format to `""` |
| Markdown.FormattedHasNoStar | src/components/context/Context.jsx:14 | no `*` survives formatting |
| Markdown.FormattedStarFree | src/components/context/Context.jsx:7-15 | text without `*` is returned unchanged |
| Markdown.BoldPassRestoresInput | src/components/context/Context.jsx:8-13 | writing `**` back for both tags recovers the input, plus one `**` when the last bold span is unclosed; so even segments are copied verbatim and in order, and odd segments are wrapped |
| Markdown.EmphasizeAsJoin | src/components/context/Context.jsx:10-13 | with equal open and close tags, the bold pass is the join of the segments plus one closing tag for an even segment count |
| Markdown.EmphasizeLength | src/components/context/Context.jsx:10-13 | each odd-indexed segment gains exactly one opening and one closing tag, and nothing else is added |
| Markdown.EmphasizeTwo | src/components/context/Context.jsx:10-13 | two segments: the first is kept, the second is bold |
| Markdown.FormattedWhenBoldedStarFree | src/components/context/Context.jsx:14 | when the bold pass leaves no `*`, the line-break pass changes nothing |
| Markdown.UnclosedBold | src/components/context/Context.jsx:8-14 | `a**b` formats to `a<b>b</b>` for star-free `a` and `b` |
| Markdown.ClosedBold | src/components/context/Context.jsx:8-14 | `a**b**c` formats to `a<b>b</b>c` for star-free `a`, `b` and `c` |
| Markdown.SplitTripleStar | src/components/context/Context.jsx:8 | `a***b` splits on `**` into `a` and `*b` |
| Markdown.TripleStar | src/components/context/Context.jsx:8-14 | `a***b` formats to `a<b></br>b</b>` |
| Conversation.AppendToLast | src/components/context/Context.jsx:103-111 | on an empty list, or one whose last role is not `assistant`, the list is unchanged; otherwise the length, every earlier message and the last id and role are kept, and only the last content grows by the word |
| Conversation.AppendToLastTwice | src/components/context/Context.jsx:103-111 | two updates in a row equal one update with the two words concatenated |
| Conversation.StreamedIntoLast | src/components/context/Context.jsx:155-159 | streaming into a list ending in an assistant message touches only that message; each word and its space are added in order |
| Conversation.Streamed | src/components/context/Context.jsx:156-159 | the list after the updates for each word and its space, in index order: it keeps the list's length, and leaves a list without a trailing assistant message unchanged |
| Conversation.SpacedIsJoin | src/components/context/Context.jsx:156-158 | words each followed by a space are the words joined by spaces, plus one trailing space |
| Conversation.StreamedReply | src/components/context/Context.jsx:144-159 | streaming the words of a text into a fresh empty assistant message leaves exactly the text and one trailing space |
| Conversation.EntriesShape | src/components/context/Context.jsx:136-137 | one entry per message, in order; user messages get the prefix `User: `, every other role `Assistant: ` |
| Conversation.Speaker | src/components/context/Context.jsx:137 | the label is `User` exactly for the `user` role, and `Assistant` for every other role |
| Conversation.Entry | src/components/context/Context.jsx:137 | the template `<label>: <content>` for one message; `EntryLineFeed` and `EntriesShape` state its shape |
| Conversation.Entries | src/components/context/Context.jsx:136-137 | the `map` over the messages; `EntriesShape` proves one entry per message, in order |
| Conversation.Stitch | src/components/context/Context.jsx:136-138 | the entries joined by blank lines; `StitchSplit` proves the entries can be cut back out, and `StitchEndsWithNewMessage` what a send adds |
| Conversation.EntryLineFeed | src/components/context/Context.jsx:137 | an entry holds a line feed exactly when its content does |
| Conversation.StitchSplit | src/components/context/Context.jsx:136-138 | when no content has a line feed, cutting the transcript at blank lines recovers exactly the entries |
| Conversation.StitchEndsWithNewMessage | src/components/context/Context.jsx:127-138 | the transcript of a send ends with the new user message's entry, after a blank line when other messages precede it |
| Conversation.NextTheme | src/components/context/Context.jsx:28 | the next theme is `light` or `dark`, and it is `dark` exactly when the current one is `light` |
| Conversation.NextThemeTwice | src/components/context/Context.jsx:28 | toggling a light or dark theme twice restores it |
| Store.ErrorText | src/components/context/Context.jsx:141-163 | the recorded error is never empty: the unexpected-response message for a bad value, the exception's own message when it has one |
| Store.SentText | src/components/context/Context.jsx:120 | the prompt when one is passed, otherwise the trimmed composer input; `OnSent` sends nothing exactly when it is empty |
| Store.Usable | src/components/context/Context.jsx:141 | a reply is accepted exactly when it is a returned, non-empty string; `ReplyMessage` shows the error bubble exactly for the others |
| Store.ReplyMessage | src/components/context/Context.jsx:144-174 | the message after a send is an assistant message with the given id; its content is the error bubble exactly when the reply was not a non-empty string |
| Store.ChatStore.constructor | src/components/context/Context.jsx:19-25 | nothing typed, no messages, loading and result off, light theme, and no error (the `error` state, declared at line 64, starts `null`) |
| Store.ChatStore.ToggleTheme | src/components/context/Context.jsx:28 | the theme becomes `NextTheme` of the old one; nothing else changes |
| Store.ChatStore.NewChat | src/components/context/Context.jsx:92-99 | messages empty, input `""`, error cleared, loading and result off, theme kept |
| Store.ChatStore.StreamWords | src/components/context/Context.jsx:156-159 | the loop leaves the list equal to the in-order fold of the updater over the words |
| Store.ChatStore.AcceptReply | src/components/context/Context.jsx:139-174 | exactly one assistant message is appended; on failure the readable error is recorded, and otherwise the error is unchanged |
| Store.ChatStore.Send | src/components/context/Context.jsx:126-174 | the user message with the text is appended, then exactly one assistant message built from the reply to the transcript of the conversation up to that message; the error is set only when the reply is not usable |
| Store.ChatStore.OnSent | src/components/context/Context.jsx:115-178 | a blank text appends nothing and keeps the input; otherwise one user message with the text is appended, then one assistant message built from the reply to the stitched transcript; the error is set only on failure; loading ends off, the result shows, and the input is cleared |
| Sidebar.LatestIndex | src/components/sidebar/SidebarContent.jsx:195-201 | the index of the last message offering a prompt, or -1: that message offers it and no later one does |
| Sidebar.PromptOf | src/components/sidebar/SidebarContent.jsx:197-199 | what one message offers the list: a user message its trimmed content, any other message `""`, which the scan skips; `OfferTrimmed` and `RecentFromUsers` state its properties |
| Sidebar.Scan | src/components/sidebar/SidebarContent.jsx:195-201 | the backward walk without its cut-off; `ScanPrompts`, `ScanDistinct`, `ScanOrder` and `ScanSuffix` state what it lists |
| Sidebar.Recent | src/components/sidebar/SidebarContent.jsx:192-205 | the first 20 entries of the scan; `RecentUserPrompts` proves the loop computes it, and the `Recent…` lemmas state its properties |
| Sidebar.RecentUserPrompts | src/components/sidebar/SidebarContent.jsx:192-205 | the backward loop with its seen set and early stop returns exactly `Recent(messages)` |
| Sidebar.ScanPrompts | src/components/sidebar/SidebarContent.jsx:196-200 | the uncut scan holds every non-empty trimmed user prompt and nothing else, each once |
| Sidebar.ScanDistinct | src/components/sidebar/SidebarContent.jsx:199-200 | the scan never lists a prompt twice, nor an empty one |
| Sidebar.ScanOrder | src/components/sidebar/SidebarContent.jsx:195-201 | each scanned prompt occurs, and earlier entries occur later in the conversation |
| Sidebar.ScanSuffix | src/components/sidebar/SidebarContent.jsx:195-202 | the scan of a suffix of the messages is a prefix of the scan of them all |
| Sidebar.RecentBounded | src/components/sidebar/SidebarContent.jsx:199-202 | at most 20 entries, none twice |
| Sidebar.RecentFromUsers | src/components/sidebar/SidebarContent.jsx:196-199 | every entry is the non-empty trimmed content of some user message |
| Sidebar.RecentOrdered | src/components/sidebar/SidebarContent.jsx:195-201 | each entry's latest occurrence is strictly after the next entry's |
| Sidebar.RecentComplete | src/components/sidebar/SidebarContent.jsx:195-203 | with fewer than 20 distinct prompts, every one is listed |
| Sidebar.RecentTrimmed | src/components/sidebar/SidebarContent.jsx:198-209 | every entry is already trimmed, so `loadPrompt` re-sends it exactly |
| Sidebar.OfferTrimmed | src/components/sidebar/SidebarContent.jsx:197-198 | what any message offers is a fixed point of `Trim` |
| Sidebar.LoadPrompt | src/components/sidebar/SidebarContent.jsx:207-210 | an empty or white-space-only prompt changes nothing; otherwise the store changes exactly as `onSent` with the trimmed prompt |
| Sidebar.Label | src/components/sidebar/SidebarContent.jsx:269 | up to 40 characters are shown unchanged; longer values show their first 40 characters and `…`, 41 in total |

## Left out

- Persistence through `localStorage` is not modelled: the restore in `historyMessages`, the save effect, the removal in `newChat`, and `handleClear`. Nor are `alert` and `window.confirm`.
- Message contents restored from storage may be `null` or not strings. Every content here is a string, so `(m.content || "")` in the sidebar scan is the content itself.
- The initial theme from `matchMedia`, and applying the theme to `document.documentElement`, are browser effects and are not modelled.
- Timing is not modelled: the `setTimeout` delays, `async`/`await`, and React's batching of state updates. The streaming updates are applied in index order before `onSent` returns.
- Stale closures and overlapping sends are not modelled. The transcript is built from the message list as it stands when `onSent` starts.
- The network call in `src/components/config/Gemini.js` is not part of this model. `run` is an arbitrary function of the transcript, and the `history` argument is never passed.
- `src/components/main/Main.jsx`, the `SettingsModal` component, and the `openTab` and `mainTab` flags the provider exposes to the layout are presentation only and are not modelled.
- The formatter does no HTML escaping, and no sanitisation property is stated.
- Sidebar.Label: lengths count Unicode scalar values, where JavaScript counts UTF-16 code units. This differs only for characters outside the Basic Multilingual Plane.
- Sidebar.LoadPrompt: a `null` or `undefined` prompt is not modelled. Prompts are strings, and the empty string takes the same early return.
- Store.ChatStore.OnSent: a `prompt` argument that is neither a string nor `undefined` is not modelled. `onSent` receives an `Option<string>`.
