# twitch-chat in Dafny

A model of the browser chat client twitch-chat: the view that renders the
message pane and completes words in the input box (`View.js`), the helper
functions it uses (`Util.js`), the settings store (`Configuration.js`) and the
controller that connects the chat events and the REST providers to the view
(`Controller.js`).

The `#messages` pane is a sequence of entries. Each entry holds its decoded
`username:timestamp` id, its kind (chat, system or subscription notice), the
hidden flag and its HTML text. Timestamps are JavaScript numbers as
`parseInt` produces them: an integer or NaN. Comparisons with NaN are false
both ways.

The project is organised by module:

- `JsString`, `JsNumber`, `JsSort`, `JsObject`: the JavaScript built-ins the
  client relies on, over `seq<char>`. These are `split`, `substr`,
  `lastIndexOf`, `trim`, `parseInt`, number-to-string, `sort` and the `in`
  operator.
- `Util`: `rtrim`, `padZeros`, `escapeHtml`.
- `Configuration`: the settings store as a class over a map, with the
  JavaScript truthiness and conversions of the values read back.
- `Chat`: the records the controller and the view exchange. The class
  `Catalogs` holds the controller's emote sets, BTTV emotes and badges, which
  the view reads.
- `MessageId`, `MessagePane`: message ids, timestamp resolution, the insertion
  scan, eviction and hiding, as functions with lemmas.
- `Annotate`: the annotation pipeline (escape, link, official emotes, BTTV
  emotes), badges and the subscription text.
- `Autocomplete`: the Tab-completion state machine as functions.
- `ChatView`: class `View`, whose methods update the pane and the
  autocomplete record in place.
- `Controller`: class `Controller`, with the event handlers and the response
  handlers.

Clocks, the caret and the network are parameters. The current time is an
`int` argument. The caret is an `Option<nat>`. A REST request is appended to
the controller's `requests` list. Its response comes back as an `Option`
argument of the matching handler, `None` when the request failed.

## Model

| member | source | states |
|---|---|---|
| Util.RtrimTrims | Util.js:14-16 | the result is a prefix of the input; everything cut off is whitespace; the result does not end in whitespace |
| Util.RtrimIdempotent | Util.js:14-16 | right-trimming twice equals right-trimming once |
| Util.PadZeros | Util.js:18-22 | the result has length max(\|s\|, size) for s the decimal form of num; it ends with s and holds only '0' before it |
| Util.EscapeHtmlIsEscapeEach | Util.js:24-31 | the replacement chain, `&` first, equals escaping each character independently: no entity is escaped twice |
| Util.UnescapeEscapeHtml | Util.js:24-31 | escaping loses nothing: reading the entities back gives the input |
| Util.EscapeHtmlSafe | Util.js:24-31 | the escaped text holds no `<`, `>`, `"` or `'` |
| Util.EscapeEachPlain | Util.js:24-31 | text without any of the five special characters is returned unchanged |
| JsSort.SortStrings | View.js:383 | `sort()` on strings yields an ascending permutation of its input |
| JsNumber.ParseIntOfNumToString | View.js:12-19 | `parseInt` reads back the string form of an integer or NaN |
| Configuration.Configuration.constructor | Configuration.js:1-2 | a new store is empty |
| Configuration.Configuration.Get | Configuration.js:37-42 | an assigned key gives its value; an absent key gives the default when truthy, otherwise null; the result is defined unless the key is absent |
| Configuration.Configuration.HasAsWritten | Configuration.js:29-31 | `key in config` is true for an assigned key or a name inherited from `Object.prototype` |
| Configuration.Configuration.Set | Configuration.js:9-15 | a defined value is stored, and `has` is true with `get` returning it for every default, falsy values included; null or undefined removes the key; returns the same store |
| Configuration.Configuration.Unset | Configuration.js:21-24 | removes only the key; every other key's `has` and `get` are unchanged; returns the same store |
| Configuration.InheritedNameSurvivesUnset | Configuration.js:29-31 | after `set('toString', null)`, `has` as written still says true |
| MessageId.DecodeEncode | View.js:12-19 | decoding an encoded id gives back the username and the timestamp, for a username without a colon |
| MessageId.DecodeEncodeColonName | View.js:12-19 | a colon in the username cuts the name there, and the timestamp is parsed from the rest of the name |
| MessagePane.EntryIdRoundTrip | View.js:207 | an entry's id, once decoded, is the username and timestamp it was written with, for a username without a colon |
| MessagePane.MissingTimestampAppends | View.js:185-193 | a null or -1 timestamp takes the last entry's timestamp, and the message then goes after the last entry of an ascending pane |
| MessagePane.InsertionPoint | View.js:236-252 | the entry goes after an existing element, or is appended exactly when the pane is empty |
| MessagePane.FindInsertAfter | View.js:236-244 | the scan loop stops at the element `InsertionPoint` names |
| MessagePane.InsertionPointOfNumbers | View.js:238-244 | without NaN, every entry from the second up to the insertion point is not newer than the message, and the next one is newer |
| MessagePane.InsertionPointAfterOlder | View.js:238-244 | in an ascending pane whose first entry is not newer, the message goes exactly after the entries not newer than it, so equal timestamps keep arrival order |
| MessagePane.OlderThanAllLandsSecond | View.js:238-244 | a message older than every entry still goes after the first entry |
| MessagePane.LastIsLatest | View.js:238-244 | the newest timestamp of an ascending pane goes after the last entry |
| MessagePane.InsertKeepsAscending | View.js:238-252 | insertion keeps an ascending pane ascending when the message is not older than the first entry |
| MessagePane.AppendLatestKeepsAscending | View.js:275-282 | appending under the last entry's timestamp, as system messages are, keeps an ascending pane ascending |
| MessagePane.EvictKeepsNewest | View.js:254-264 | when not paused and over the limit, exactly the newest `max_messages` entries stay; otherwise nothing is removed |
| MessagePane.OutOfOrderArrival | View.js:181-264 | messages at 10, 20 and 15 under a limit of two leave the 15 and the 20, in that order |
| MessagePane.HideUserKeepsOthers | View.js:312-324 | other users' entries stay unchanged and in order, whether removing or hiding |
| MessagePane.HideUserRemoves | View.js:312-324 | with `remove_deleted_messages` set, no entry of the user remains |
| MessagePane.HideUserFlags | View.js:312-324 | without it, every entry keeps its place and exactly the user's entries are flagged hidden |
| Annotate.ApplySubstitutionsChanges | View.js:41-45 | a word changes exactly when some emote code equals it, since emote markup is never a word |
| Annotate.CodeAtRange | View.js:37-40 | a position string `s-e` selects the characters s to e of the original text, e included |
| Annotate.InjectOfficialEmotesWords | View.js:26-50 | the position pass keeps the word count, and a word changes exactly when it is the escaped form of a code a position string selects |
| Annotate.FindEmoteId | View.js:59-68 | the id found is that of the first emote with the code in the first set that holds it, no earlier set holding the code; none is found exactly when no set has the code |
| Annotate.FindEmoteIdIsFirst | View.js:59-68 | any id that is the first match over the sets in order is the one found, so the first match is unique |
| Annotate.EmotesetWordChanges | View.js:55-71 | a word changes exactly when some emote set holds that code, and then it becomes the markup of the first such emote over the sets in order |
| Annotate.BttvUrlFills | View.js:81-84 | the first `{{id}}` gets the emote id and the first `{{image}}` gets `1x` |
| Annotate.BttvWordChanges | View.js:76-89 | a word changes exactly when it is a BTTV code, and it becomes the image of that emote |
| Annotate.InjectBttvEmotesIdempotent | View.js:76-89 | text with no BTTV code comes out as its words joined by single spaces, and a second pass changes nothing |
| Annotate.InheritedNameIsNotAnEmote | View.js:79 | as written, a word named like an `Object.prototype` property becomes a broken emote image; with an own-key test it stays text |
| Annotate.InheritedNameThrowsWithoutTemplate | View.js:79-82 | as written, while the template is still null and the emote map empty, a word named like an `Object.prototype` property passes `in` and the pass throws |
| Annotate.NoTemplateKeepsWords | View.js:76-89 | with own keys tested, the pass without a template keeps every word |
| Annotate.FirstUrl | View.js:96-98 | the leftmost match of the URL pattern at or after the start position, or none |
| Annotate.InjectHyperlinks | View.js:96-98 | text without `http` is unchanged |
| Annotate.KnownBadges | View.js:116-130 | the kept badge assignments are exactly the user's assignments whose set and version the catalog holds |
| Annotate.KnownBadgesAllKnown | View.js:116-130 | when the catalog knows every assignment, all are kept, in the user's order |
| Annotate.CreateBadgesHtml | View.js:116-130 | the loop appends one image per known assignment, in order, and skips unknown sets and versions |
| Annotate.ProcessMessagePlain | View.js:158-176 | plain text (no markup character, no URL, no emote code) comes out of the pipeline as its words joined by single spaces |
| Annotate.SubscriptionHtml | View.js:291-305 | the text starts with the username and "just subscribed" or "just resubscribed"; a plain subscription without a message is exactly that |
| Annotate.SubscriptionReadBack | View.js:291-305 | after the username and verb, " with Twitch Prime" follows exactly for a Prime subscription; a resubscription continues with " for " + months + " months in a row"; a non-empty message adds ": " and the processed message, and otherwise the text ends with the headline |
| Annotate.HeartEmoteLost | View.js:26-50 | as written, a heart `<3` with its position is left as `&lt;3` |
| Annotate.HeartEmoteFound | View.js:26-50 | with the code escaped first, the heart becomes its emote |
| Autocomplete.ReplaceStart | View.js:364 | the replacement starts just after the last space at or before `cursorPos - 2` (a negative position searching index 0 only), or at 0 when there is none; a space at `cursorPos - 1` is never the one found |
| Autocomplete.FragmentRunsPastCaret | View.js:364-365 | with the caret inside the space-free word after a space, and `cursorPos` at least that word's length, the fragment is the whole word: `substr` takes `cursorPos` as a length, so the fragment runs past the caret |
| Autocomplete.FragmentRunsPastCaretExample | View.js:365 | in `x abc`, with the caret after `ab`, the fragment is `abc` |
| Autocomplete.Qualifying | View.js:372-381 | the filter keeps exactly the words that start with the fragment, ignoring case, each as many times as it occurs in the input |
| Autocomplete.CandidatesQualify | View.js:369-383 | the candidates are sorted and a permutation of the filtered list; with an `@` fragment they are exactly the `@`-prefixed chatters that match, otherwise exactly the matching emotes and chatters |
| Autocomplete.CompletedSplice | View.js:395-396 | the completed text keeps the text before the replacement start and after the caret, with the candidate and a space between |
| Autocomplete.TabPressNoOp | View.js:346-392 | nothing changes on empty text or a caret that is null or 0; an empty fragment or no candidate leaves the text and caret and no session |
| Autocomplete.TabPressStarts | View.js:362-401 | a first Tab press replaces the text from the replacement start to the caret with the first sorted candidate and a space, moves the caret after them, and stores the session with the next index at the second candidate (the first again when there is only one) |
| Autocomplete.TabPressCycles | View.js:394-403 | later presses at the same caret put in the next candidate, modulo the candidate count, keeping fragment, candidates and start |
| Autocomplete.TabPressConsistent | View.js:346-404 | a Tab press keeps the session record consistent: a valid next index, the caret past the start, candidates that match the fragment |
| ChatView.View.constructor | View.js:4-10 | an empty pane, auto-scroll on, no completion session |
| ChatView.View.MessageTimestamp | View.js:184-193 | the timestamp used is the given one, or for null or -1 the last entry's, or the current time on an empty pane |
| ChatView.View.CreateChatEntry | View.js:205-231 | the new element carries the encoded id, the badges, the mention and alternating flags and the processed text |
| ChatView.View.InsertMessage | View.js:236-252 | the pane after inserting at the scan's point |
| ChatView.View.RemoveOldMessages | View.js:254-264 | the pane after the eviction rule |
| ChatView.View.AppendChatMessage | View.js:181-264 | the pane after resolving the timestamp, inserting the new entry at the scan's point and evicting; the autocomplete record and pause flag are unchanged |
| ChatView.View.AppendActionMessage | View.js:267-269 | a chat message with the action flag |
| ChatView.View.AppendDebugMessage | View.js:271-273 | appends a system entry |
| ChatView.View.AppendSystemMessage | View.js:275-282 | appends a system entry filed under the last entry's timestamp |
| ChatView.View.AppendSubscriptionMessage | View.js:284-310 | appends a subscription entry with the notice text |
| ChatView.View.HideMessagesOfUser | View.js:312-324 | the loop leaves the pane that `HideUser` describes |
| ChatView.View.ResetAutoComplete | View.js:342-344 | ends the session and leaves the rest of the record |
| ChatView.View.DoAutoComplete | View.js:346-404 | the record, text and caret after the call are those of `TabPress`, and the record stays consistent |
| ChatView.View.CompleteAt | View.js:356-404 | the same, past the early returns |
| ChatView.View.BeginSession | View.js:362-392 | a session starts exactly when the fragment and its candidates are non-empty |
| ChatView.View.NextCandidate | View.js:394-401 | the candidate step equals `Advance` |
| ChatView.View.KeyDown | View.js:412-420 | Tab completes; any other key only ends the session |
| ChatView.View.SetAutoScrollPaused | View.js:430-434 | records whether the pane is scrolled away from the bottom |
| ChatView.EmptyUsernameMentionsAll | View.js:222-224 | an empty username setting marks every message as a mention |
| Controller.MakeUserInfo | Controller.js:114-124 | each user field is copied one-to-one from the message tags |
| Controller.SentTimestampReadsBack | Controller.js:131 | a `tmi-sent-ts` written from a number reads back as that number; without the tag the message counts as having no timestamp |
| Controller.ChannelSettingAsWritten | Controller.js:4 | as written, only a string channel setting gets past `trim` |
| Controller.ChannelSetting | Controller.js:4-8 | an unset channel reads as empty, and a string is trimmed |
| Controller.ChannelRejectedIffBlank | Controller.js:4-8 | the channel is rejected exactly when it is unset or all whitespace |
| Controller.UnsetChannel | Controller.js:4 | with no channel configured, `trim` as written is reached on null, where the intended reading is the empty channel |
| Controller.StoreBttvEmotes | Controller.js:86-88 | the loop stores each emote of the response under its code, in order |
| Controller.MergeBttvLastWins | Controller.js:86-88 | a listed code ends up mapped to the last emote listed under it |
| Controller.MergeBttvKeepsUnlisted | Controller.js:84-90 | a code the response does not list keeps its emote, or stays absent |
| Controller.MergeBadgeSets | Controller.js:101-103 | the loop leaves the known badge sets overridden by the returned ones |
| Controller.UnionOverrides | Controller.js:101-103 | after the merge, each returned badge set replaces the one of that name, every other set is kept, and no other name appears |
| Controller.Controller.constructor | Controller.js:4-25 | the trimmed channel decides whether the controller is set up; the catalogs start empty and nothing is joined or requested |
| Controller.Controller.RegisterView | Controller.js:204-206 | the view is recorded |
| Controller.Controller.OnMessage | Controller.js:130-142 | a `chat` message reaches the view under its sent timestamp, with null emotes read as none; other message types change nothing |
| Controller.Controller.OnJoin | Controller.js:154-165 | the first call requests the emote sets and the BTTV emotes and posts "Joined channel"; later calls change nothing |
| Controller.Controller.OnRoomState | Controller.js:167-170 | records the room id and requests the global badges, then the channel's |
| Controller.Controller.OnEmoteSetsResponse | Controller.js:73-76 | a response replaces the emote sets; a failed request keeps them |
| Controller.Controller.OnBttvResponse | Controller.js:83-90 | a response sets the URL template and merges its emotes by code; a failed request changes nothing |
| Controller.Controller.OnBadgesResponse | Controller.js:99-105 | a response merges its badge sets over the known ones; a failed request changes nothing |

## Left out

- DOM and jQuery mechanics are not modelled. This covers cloning the message template, CSS classes other than the hidden flag, the action colour and scrolling.
- The wheel handler's pixel arithmetic is not modelled. `SetAutoScrollPaused` takes its outcome as a boolean.
- The user colour and its minimum luminance are left out. `hexColorToHsl` and `hslToHexColor` are not part of this model, and they work on floating point.
- `currentTimeMillis` and `formatTimestamp` read the clock and the time zone. The current time is a parameter, and the formatted time is not shown.
- `getCursorPosition` and `selectRange` are left out. The caret is a parameter, and the new caret is a result.
- The list of recent chatters and the usable emotes are parameters of `DoAutoComplete`. `Controller.js` does not define `recentChatters` or `usableEmotes`, so as written `.map` at View.js:373 and `.filter` at View.js:377 throw a TypeError on the first Tab press with a non-empty fragment. The model assumes a caller supplies both lists.
- `sendCurrentMessage` and `sendChatMessage` are left out: they only hand text to the chat connection.
- The network and transport are left out. This covers `ajaxGetJSON`, `apiGet`, `badgesApiGet`, the request headers and OAuth token, and the chat client's connection and event registration. Requests are recorded by URL, and responses are parameters.
- The `setTimeout` rescheduling of the emote-set and BTTV updates is left out. After a response, no further request is recorded.
- JsString.ReplaceFirst: `$` patterns in the replacement string are not interpreted. This is harmless for the BTTV emote ids and `1x` it receives.
- `injectHyperlinks` is modelled concretely, as the first match of its pattern. Its regular expression has no backtracking choices beyond the leftmost match.
- Configuration values are undefined, null, booleans, integers and strings. Floating-point settings are not modelled. So `ToNumber` reads only integer strings, and a fractional `max_messages` reads as NaN.
- Configuration.Configuration.Get: looks up assigned keys only. As written, `get` of a name inherited from `Object.prototype` returns a function, which the value type cannot hold.
- `toLowerCase` folds ASCII letters only.
- `sort` compares strings character by character, not by UTF-16 code unit.
- Number-to-string never uses exponent notation, which JavaScript switches to at 10^21.
- `getUserMessageElements` excludes elements with the `debug-message` class, but no code in `View.js` gives an element that class: `appendDebugMessage` posts a system message. So the eviction count and the insertion scan cover every entry of the pane, system entries included.
- An entry keeps its id in decoded form. The id string is written once and only read through `decodeMessageId`, so the decoded form is all that any later step sees.
- A controller whose constructor stopped at the channel check has no handlers. Its methods require `initialised`.
- Annotate.ProcessMessage: renders with the corrected emote tests listed under Findings. Official emote codes are compared with the escaped words, and BTTV codes are looked up among the map's own keys. As written, a heart `<3` stays `&lt;3`. A word named like an `Object.prototype` property becomes a broken image once the BTTV template is loaded, and while the template is null it makes `processMessage` throw. The as-written passes are `InjectOfficialEmotesAsWritten` and `InjectBttvEmotesAsWritten`.
- Annotate.InjectOfficialEmotesWords: states the corrected comparison with the escaped code. As written, View.js compares the raw code, which `HeartEmoteLost` shows.
- Annotate.InjectBttvEmotesIdempotent: states the own-key test. As written, an inherited name such as `constructor` also passes `in`, which `InheritedNameIsNotAnEmote` and `InheritedNameThrowsWithoutTemplate` show.
- Annotate.ProcessMessagePlain: "no emote code" means no own key of the BTTV map. As written, a word such as `constructor` becomes a broken image, or throws while the template is null.
- ChatView.View.CreateChatEntry: the processed text comes from the corrected pipeline of `Annotate.ProcessMessage`.
- ChatView.View.AppendChatMessage: appends the text of the corrected pipeline. As written, a message holding an inherited name such as `constructor` while the BTTV template is null throws in `processMessage`, and nothing is appended.
- ChatView.View.AppendActionMessage: the same corrected pipeline as `AppendChatMessage`.
- ChatView.View.AppendSubscriptionMessage: the notice's message goes through the same corrected pipeline.
- Annotate.CodeAtRange: positions count Unicode code points, because strings are sequences of `char`. JavaScript's `slice` counts UTF-16 code units. So after a character outside the Basic Multilingual Plane, such as an emoji, a position string selects different characters than in the browser.
- Annotate.CodeAt: the same counting applies to `CodeAt`, `PositionSubstitutions`, `InjectOfficialEmotes` and the autocomplete's `Substr`, `LastIndexOf`, `ReplaceStart` and `Fragment`. Text after a character outside the Basic Multilingual Plane is indexed by code points, not by UTF-16 code units.
- Annotate.KnownBadges: tests badge sets and versions among the catalog's own keys. As written, View.js uses `in`. A set named like an `Object.prototype` property passes the first test, and the version test then reads `in` on undefined and throws. An inherited version name renders an image with `src="undefined"`.
- Annotate.CreateBadgesHtml: the loop applies the same own-key tests as `KnownBadges`.
- Controller.Controller.constructor: reads the channel through the corrected `ChannelSetting`. It requires a string or unset setting and takes the invalid-channel path for an unset one. As written, `get` returns null for an unset channel, and `trim` throws on it, as `UnsetChannel` shows. It also throws on a boolean or number setting, which the requires leaves out.

## Findings

| source | as written | input that shows it | evidently intended | confidence | as-written member | corrected member |
|---|---|---|---|---|---|---|
| View.js:40-42 | emote codes are sliced from the raw message but compared with the words of the already escaped text | the message `<3` with emote position `0-1`: the word is `&lt;3`, the code `<3`, so the heart never renders | compare against the escaped code | high, not executed | Annotate.HeartEmoteLost | Annotate.HeartEmoteFound |
| View.js:79 | `word in bttvEmotes` also finds the names every object inherits | the word `constructor` once BTTV emotes are loaded becomes an image with the id `undefined` | test own keys only | high, not executed | Annotate.InheritedNameIsNotAnEmote | Annotate.BttvWordChanges |
| View.js:79-82 | while the BTTV template is still null, an inherited name passes `word in bttvEmotes` and `null.replace` throws | the chat word `constructor` before the BTTV response arrives, or after it failed: `processMessage` throws and the message is not shown | test own keys only, so the empty map matches nothing | high, not executed | Annotate.InheritedNameThrowsWithoutTemplate | Annotate.NoTemplateKeepsWords |
| Configuration.js:29-31 | `key in config` also finds inherited names, which `unset` cannot remove | `set('toString', null)` followed by `has('toString')` gives true | report assigned keys only | high, not executed | Configuration.InheritedNameSurvivesUnset | Configuration.Configuration.Unset |
| Controller.js:4 | the default `''` is falsy, so `get` returns null for an unset channel and `.trim()` throws | a configuration without `channel` | take the invalid-channel path of lines 5-8 | high, not executed | Controller.UnsetChannel | Controller.ChannelRejectedIffBlank |
