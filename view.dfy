/**
 * The view of View.js: the message pane, the auto-scroll pause flag and the
 * autocomplete record, with the operations the controller and the input box
 * call.  The current time and the caret position come in as parameters.
 */
module ChatView {
  import opened Wrappers
  import opened JsString
  import opened JsNumber
  import opened Configuration
  import opened Chat
  import opened MessageId
  import opened MessagePane
  import opened Annotate
  import opened Autocomplete

  class View {
    const config: Configuration
    /** The controller's catalogs, which `processMessage` and
        `createBadgesHTML` read. */
    const catalogs: Catalogs
    /** The `.message` elements of `#messages`, in document order. */
    var messages: seq<Entry>
    var pauseAutoScroll: bool
    var autocomplete: AutoCompleteState

    ghost predicate Valid()
      reads this, catalogs
    {
      catalogs.Valid() && Consistent(autocomplete)
    }

    constructor (config: Configuration, catalogs: Catalogs)
      requires catalogs.Valid()
      ensures Valid()
      ensures this.config == config && this.catalogs == catalogs
      ensures messages == [] && !pauseAutoScroll && autocomplete == InitialState
    {
      this.config := config;
      this.catalogs := catalogs;
      messages := [];
      pauseAutoScroll := false;
      autocomplete := InitialState;
    }

    /** `message.includes(config.get('username'))`: a missing username is
        looked for as the text `null`. */
    function IsMention(message: string): bool
      reads config
    {
      Contains(message, ToJsString(config.Get("username", Undefined)))
    }

    /** `config.get('max_messages')` as the comparison reads it. */
    function MaxMessages(): Num
      reads config
    {
      ToNumber(config.Get("max_messages", Undefined))
    }

    /** The element `appendChatMessage` builds for a message filed under
        `timestamp`. */
    function ChatEntryFor(timestamp: Num, user: User, message: string,
                          emotes: seq<EmotePositions>, isAction: bool): Entry
      reads config, catalogs
      requires catalogs.Valid()
    {
      var alternating := config.Get("alternating_backgrounds", Bool(false)).Truthy();
      var kind := ChatEntry(user.displayName, BadgesHtml(user, catalogs.badges), IsMention(message), isAction, alternating);
      var html := ProcessMessage(message, Some(user), emotes, catalogs.emotesets,
                                 catalogs.bttvEmotes, catalogs.bttvEmoteURLTemplate);
      Entry(EntryId(user.username, timestamp), kind, false, html)
    }

    /** The new message element `appendChatMessage` fills in. */
    method CreateChatEntry(timestamp: Num, user: User, message: string,
                           emotes: seq<EmotePositions>, isAction: bool) returns (entry: Entry)
      requires catalogs.Valid()
      ensures entry == ChatEntryFor(timestamp, user, message, emotes, isAction)
    {
      var alternating := config.Get("alternating_backgrounds", Bool(false)).Truthy();
      var mention := Contains(message, ToJsString(config.Get("username", Undefined)));
      var badgesHtml := CreateBadgesHtml(user, catalogs.badges);
      var finalMsg := ProcessMessage(message, Some(user), emotes, catalogs.emotesets,
                                     catalogs.bttvEmotes, catalogs.bttvEmoteURLTemplate);
      entry := Entry(EntryId(user.username, timestamp),
                     ChatEntry(user.displayName, badgesHtml, mention, isAction, alternating), false, finalMsg);
    }

    /** `appendChatMessage`: files the message under its resolved timestamp,
        inserts it after the scan's element and, unless scrolling is paused,
        evicts the oldest entries beyond `max_messages`. */
    method AppendChatMessage(timestamp: Option<Num>, user: User, message: string,
                             emotes: seq<EmotePositions>, isAction: bool, now: int)
      requires Valid()
      modifies this
      ensures Valid()
      ensures pauseAutoScroll == old(pauseAutoScroll) && autocomplete == old(autocomplete)
      ensures var t := ResolveTimestamp(timestamp, old(messages), now);
        messages == AfterChatMessage(old(messages), t, old(ChatEntryFor(t, user, message, emotes, isAction)),
                                     MaxMessages(), pauseAutoScroll)
    {
      var t := MessageTimestamp(timestamp, now);
      var entry := CreateChatEntry(t, user, message, emotes, isAction);
      FileEntry(t, entry);
    }

    /** The rest of `appendChatMessage` once the element is built: counts
        the user-message elements, inserts the entry and evicts. */
    method FileEntry(t: Num, entry: Entry)
      requires Valid()
      modifies this
      ensures Valid()
      ensures pauseAutoScroll == old(pauseAutoScroll) && autocomplete == old(autocomplete)
      ensures messages == AfterChatMessage(old(messages), t, entry, MaxMessages(), pauseAutoScroll)
    {
      var messageElems := UserMessageElements(messages);
      InsertMessage(t, entry);
      RemoveOldMessages(|messageElems| + 1);
    }

    /** The timestamp `appendChatMessage` files a message under: the given
        one, or for a missing one (null or -1) the last entry's, or the
        current time on an empty pane. */
    method MessageTimestamp(timestamp: Option<Num>, now: int) returns (t: Num)
      ensures t == ResolveTimestamp(timestamp, messages, now)
    {
      var messageElems := UserMessageElements(messages);
      if timestamp.None? || timestamp.value == Int(-1) {
        if |messageElems| > 0 {
          t := LastMessageTimestamp(messages, now);
        } else {
          t := Int(now);
        }
      } else {
        t := timestamp.value;
      }
    }

    /** The insertion step of `appendChatMessage`: after the element the
        scan stops at, or at the end of an empty pane. */
    method InsertMessage(t: Num, entry: Entry)
      modifies this
      ensures pauseAutoScroll == old(pauseAutoScroll) && autocomplete == old(autocomplete)
      ensures messages == InsertAt(old(messages), InsertionPoint(t, Timestamps(old(messages))), entry)
    {
      var insertAfter := FindInsertAfter(t, UserMessageElements(messages));
      messages := InsertAt(messages, insertAfter, entry);
    }

    /** The end of `appendChatMessage`: unless scrolling is paused, removes
        the oldest entries when `numMessages` exceeds `max_messages`. */
    method RemoveOldMessages(numMessages: int)
      modifies this
      ensures pauseAutoScroll == old(pauseAutoScroll) && autocomplete == old(autocomplete)
      ensures messages == Evict(old(messages), numMessages, MaxMessages(), pauseAutoScroll)
    {
      if !pauseAutoScroll {
        var maxMessages := ToNumber(config.Get("max_messages", Undefined));
        if Lt(maxMessages, Int(numMessages)) {
          var excess := numMessages - maxMessages.i;
          messages := messages[(if excess < |messages| then excess else |messages|)..];
        }
      }
    }

    /** `appendActionMessage`. */
    method AppendActionMessage(timestamp: Option<Num>, user: User, message: string,
                               emotes: seq<EmotePositions>, now: int)
      requires Valid()
      modifies this
      ensures Valid()
      ensures pauseAutoScroll == old(pauseAutoScroll) && autocomplete == old(autocomplete)
      ensures var t := ResolveTimestamp(timestamp, old(messages), now);
        messages == AfterChatMessage(old(messages), t, old(ChatEntryFor(t, user, message, emotes, true)),
                                     MaxMessages(), pauseAutoScroll)
    {
      AppendChatMessage(timestamp, user, message, emotes, true, now);
    }

    /** `appendSystemMessage`: appended at the end under the last entry's
        timestamp. */
    method AppendSystemMessage(message: string, now: int)
      requires Valid()
      modifies this
      ensures Valid()
      ensures pauseAutoScroll == old(pauseAutoScroll) && autocomplete == old(autocomplete)
      ensures messages == old(messages)
        + [Entry(EntryId("system", LastMessageTimestamp(old(messages), now)), SystemEntry, false, message)]
    {
      var entry := Entry(EntryId("system", LastMessageTimestamp(messages, now)), SystemEntry, false, message);
      messages := messages + [entry];
    }

    /** `appendDebugMessage`, which View.js turns into a system message. */
    method AppendDebugMessage(message: string, now: int)
      requires Valid()
      modifies this
      ensures Valid()
      ensures pauseAutoScroll == old(pauseAutoScroll) && autocomplete == old(autocomplete)
      ensures messages == old(messages)
        + [Entry(EntryId("system", LastMessageTimestamp(old(messages), now)), SystemEntry, false, message)]
    {
      AppendSystemMessage(message, now);
    }

    /** `appendSubscriptionMessage`. */
    method AppendSubscriptionMessage(username: string, sub: Subscription, now: int)
      requires Valid()
      modifies this
      ensures Valid()
      ensures pauseAutoScroll == old(pauseAutoScroll) && autocomplete == old(autocomplete)
      ensures messages == old(messages)
        + [Entry(EntryId("system", LastMessageTimestamp(old(messages), now)), SubscriptionEntry, false,
                 SubscriptionHtml(username, sub, catalogs.emotesets, catalogs.bttvEmotes, catalogs.bttvEmoteURLTemplate))]
    {
      var html := SubscriptionHtml(username, sub, catalogs.emotesets, catalogs.bttvEmotes, catalogs.bttvEmoteURLTemplate);
      var entry := Entry(EntryId("system", LastMessageTimestamp(messages, now)), SubscriptionEntry, false, html);
      messages := messages + [entry];
    }

    /** `hideMessagesOfUser`: removes the user's entries when
        `remove_deleted_messages` is set, otherwise flags them hidden. */
    method HideMessagesOfUser(username: string)
      requires Valid()
      modifies this
      ensures Valid()
      ensures pauseAutoScroll == old(pauseAutoScroll) && autocomplete == old(autocomplete)
      ensures messages == HideUser(old(messages), username, config.Get("remove_deleted_messages", Bool(false)).Truthy())
    {
      var remove := config.Get("remove_deleted_messages", Bool(false)).Truthy();
      var messageElems := UserMessageElements(messages);
      var kept: seq<Entry> := [];
      var i := 0;
      while i < |messageElems|
        invariant 0 <= i <= |messageElems|
        invariant kept == HideUser(messageElems[..i], username, remove)
      {
        var elem := messageElems[i];
        if UsernameOf(elem) == username {
          if !remove {
            kept := kept + [elem.(hidden := true)];
          }
        } else {
          kept := kept + [elem];
        }
        assert messageElems[..i + 1][..i] == messageElems[..i];
        i := i + 1;
      }
      assert messageElems[..i] == messageElems;
      messages := kept;
    }

    /** The wheel handler's outcome: whether the pane is scrolled away from
        the bottom. */
    method SetAutoScrollPaused(paused: bool)
      modifies this
      ensures pauseAutoScroll == paused
      ensures messages == old(messages) && autocomplete == old(autocomplete)
    {
      pauseAutoScroll := paused;
    }

    /** `resetAutoComplete`: ends the session; the rest of the record stays. */
    method ResetAutoComplete()
      requires Valid()
      modifies this
      ensures Valid()
      ensures autocomplete == old(autocomplete).(fragment := None)
      ensures messages == old(messages) && pauseAutoScroll == old(pauseAutoScroll)
    {
      autocomplete := autocomplete.(fragment := None);
    }

    /** `doAutoComplete` on the input box's text and caret; returns the new
        text and caret of the input box. */
    method DoAutoComplete(text: string, caret: Option<nat>, chatters: seq<string>, usableEmotes: seq<string>)
      returns (newText: string, newCaret: Option<nat>)
      requires Valid()
      modifies this
      ensures Valid()
      ensures messages == old(messages) && pauseAutoScroll == old(pauseAutoScroll)
      ensures TabResult(autocomplete, newText, newCaret) == TabPress(old(autocomplete), text, caret, chatters, usableEmotes)
    {
      TabPressConsistent(autocomplete, text, caret, chatters, usableEmotes);
      newText, newCaret := text, caret;
      if |text| == 0 {
        return;
      }
      if caret.None? || caret.value == 0 {
        return;
      }
      newText, newCaret := CompleteAt(text, caret.value, chatters, usableEmotes);
    }

    /** `doAutoComplete` past its early returns: text is present and the
        caret is past its start. */
    method CompleteAt(text: string, cursorPos: nat, chatters: seq<string>, usableEmotes: seq<string>)
      returns (newText: string, newCaret: Option<nat>)
      requires Consistent(autocomplete)
      requires |text| > 0 && cursorPos > 0
      modifies this
      ensures messages == old(messages) && pauseAutoScroll == old(pauseAutoScroll)
      ensures TabResult(autocomplete, newText, newCaret) == TabPress(old(autocomplete), text, Some(cursorPos), chatters, usableEmotes)
    {
      TabPressCases(TabPress(autocomplete, text, Some(cursorPos), chatters, usableEmotes),
                    autocomplete, text, cursorPos, chatters, usableEmotes);
      if autocomplete.cursorPos != Some(cursorPos as int) {
        autocomplete := autocomplete.(fragment := None);
      }
      var ac := autocomplete;
      if ac.fragment.None? {
        var session := BeginSession(ac, text, cursorPos, chatters, usableEmotes);
        if session.None? {
          return text, Some(cursorPos);
        }
        ac := session.value;
      }
      newText, newCaret, ac := NextCandidate(ac, text, cursorPos);
      autocomplete := ac;
    }

    /** The candidate loop of `doAutoComplete`: puts the next candidate and a
        space between the replacement start and the caret, and moves on. */
    static method NextCandidate(ac: AutoCompleteState, text: string, cursorPos: nat)
      returns (newText: string, newCaret: Option<nat>, next: AutoCompleteState)
      requires ac.nextCandidate < |ac.candidates|
      ensures TabResult(next, newText, newCaret) == Advance(ac, text, cursorPos)
    {
      var replacement := ac.candidates[ac.nextCandidate] + " ";
      newText := Substr(text, 0, ac.replaceStart) + replacement + SubstrFrom(text, cursorPos);
      newCaret := Some(ac.replaceStart + |replacement|);
      next := ac.(cursorPos := Some(ac.replaceStart + |replacement|),
                  nextCandidate := (ac.nextCandidate + 1) % |ac.candidates|);
    }

    /** The start of a session in `doAutoComplete`: the fragment before the
        caret and its sorted candidates, or nothing when either is empty. */
    static method BeginSession(ac: AutoCompleteState, text: string, cursorPos: nat,
                               chatters: seq<string>, usableEmotes: seq<string>)
      returns (session: Option<AutoCompleteState>)
      ensures var f := Fragment(text, cursorPos);
        var cs := Candidates(f, chatters, usableEmotes);
        && (session.None? <==> |f| == 0 || |cs| == 0)
        && (session.Some? ==> session.value == AutoCompleteState(Some(f), cs, 0, ac.cursorPos, ReplaceStart(text, cursorPos)))
    {
      var replaceStart := ReplaceStart(text, cursorPos);
      var fragment := Fragment(text, cursorPos);
      if |fragment| == 0 {
        return None;
      }
      var candidates := Candidates(fragment, chatters, usableEmotes);
      if |candidates| == 0 {
        return None;
      }
      session := Some(ac.(fragment := Some(fragment), candidates := candidates, nextCandidate := 0, replaceStart := replaceStart));
    }

    /** The input box's keydown handler: Tab (key code 9) completes, any
        other key ends the session. */
    method KeyDown(keyCode: int, text: string, caret: Option<nat>, chatters: seq<string>, usableEmotes: seq<string>)
      returns (newText: string, newCaret: Option<nat>)
      requires Valid()
      modifies this
      ensures Valid()
      ensures messages == old(messages) && pauseAutoScroll == old(pauseAutoScroll)
      ensures keyCode == 9 ==>
        TabResult(autocomplete, newText, newCaret) == TabPress(old(autocomplete), text, caret, chatters, usableEmotes)
      ensures keyCode != 9 ==>
        autocomplete == old(autocomplete).(fragment := None) && newText == text && newCaret == caret
    {
      if keyCode == 9 {
        newText, newCaret := DoAutoComplete(text, caret, chatters, usableEmotes);
      } else {
        ResetAutoComplete();
        newText, newCaret := text, caret;
      }
    }
  }

  /** A missing username setting is searched for as `null`; an empty one,
      as the default configuration has, marks every message as a mention. */
  lemma EmptyUsernameMentionsAll(view: View, message: string)
    requires view.config.Get("username", Undefined) == Str("")
    ensures view.IsMention(message)
  {
  }
}
