/**
 * Controller.js: the chat client's state between the chat connection, the
 * REST providers and the view.  The connection's events arrive as method
 * calls; a REST request is recorded as a `Request` and its response comes in
 * as an optional value, absent when the request failed.
 */
module Controller {
  import opened Wrappers
  import opened JsString
  import opened JsNumber
  import opened Configuration
  import opened Chat
  import opened MessageId
  import opened MessagePane
  import opened ChatView

  // --------------------------------------------------------------- userstate

  /** The tags of a chat message that the controller reads: the user's
      fields, `tmi-sent-ts`, `message-type` and `emotes` (null for a
      message without emotes). */
  datatype Userstate = Userstate(
    username: string,
    displayName: string,
    color: Option<string>,
    badges: Option<seq<BadgeAssignment>>,
    subscriber: bool,
    moderator: bool,
    sentTs: Option<string>,
    messageType: Option<string>,
    emotes: Option<seq<EmotePositions>>)

  /** `makeUserInfo`: the user record of a message's tags. */
  function MakeUserInfo(userstate: Userstate, self: bool): (user: User)
    ensures user.isSelf == self
    ensures user.username == userstate.username && user.displayName == userstate.displayName
    ensures user.color == userstate.color && user.badges == userstate.badges
    ensures user.isSubscriber == userstate.subscriber && user.isModerator == userstate.moderator
  {
    User(self, userstate.username, userstate.displayName, userstate.color, userstate.badges,
         userstate.subscriber, userstate.moderator)
  }

  /** The timestamp `onMessage` hands on: `tmi-sent-ts` read by `parseInt`,
      or -1 without that tag. */
  function SentTimestamp(userstate: Userstate): Num {
    if userstate.sentTs.Some? then ParseInt(userstate.sentTs.value) else Int(-1)
  }

  /** A `tmi-sent-ts` written from a number is read back as that number; a
      message without the tag is filed as one without a timestamp. */
  lemma SentTimestampReadsBack(userstate: Userstate, ts: Num)
    ensures userstate.sentTs == Some(NumToString(ts)) ==> SentTimestamp(userstate) == ts
    ensures userstate.sentTs.None? ==> IsMissing(Some(SentTimestamp(userstate)))
  {
    ParseIntOfNumToString(ts);
  }

  // ----------------------------------------------------------------- channel

  /** `config.get('channel', '').trim()` as written: the empty default is
      falsy, so an unset channel reads as `null`, and `trim` on anything but
      a string throws (`None`). */
  function ChannelSettingAsWritten(v: Value): (r: Option<string>)
    ensures r.Some? <==> v.Str?
    ensures v.Str? ==> r == Some(Trim(v.s))
  {
    match v
    case Str(s) => Some(Trim(s))
    case _ => None
  }

  /** The channel as intended: an unset channel counts as the empty one and
      takes the invalid-channel path; a value that is not a string still
      throws. */
  function ChannelSetting(v: Value): (r: Option<string>)
    ensures r.Some? <==> v.Str? || !v.Defined()
    ensures v.Str? ==> r == Some(Trim(v.s))
    ensures !v.Defined() ==> r == Some("")
  {
    match v
    case Str(s) => Some(Trim(s))
    case Undefined => Some("")
    case Null => Some("")
    case _ => None
  }

  /** The channel is rejected exactly when it is unset or all whitespace. */
  lemma ChannelRejectedIffBlank(v: Value)
    requires ChannelSetting(v).Some?
    ensures ChannelSetting(v) == Some("") <==> !v.Defined() || AllSpace(v.s)
  {
    if v.Str? {
      TrimEmptyIffAllSpace(v.s);
    }
  }

  /** With no channel configured the constructor as written throws, where
      the evident intent is the invalid-channel path. */
  method UnsetChannel() returns (asWritten: Option<string>, intended: Option<string>)
    ensures asWritten.None?
    ensures intended == Some("")
  {
    var c := new Configuration();
    var v := c.Get("channel", Str(""));
    asWritten := ChannelSettingAsWritten(v);
    intended := ChannelSetting(v);
  }

  // ---------------------------------------------------------------- requests

  /** A REST GET the controller issues. */
  datatype Request = Get(url: string)

  function EmoteSetsRequest(emotesets: string): Request {
    Get("https://api.twitch.tv/kraken/chat/emoticon_images?emotesets=" + emotesets)
  }

  function BttvEmotesRequest(channel: string): Request {
    Get("https://api.betterttv.net/2/channels/" + channel)
  }

  const GlobalBadgesRequest := Get("https://badges.twitch.tv/v1/badges/global/display?language=en")

  function ChannelBadgesRequest(channelId: string): Request {
    Get("https://badges.twitch.tv/v1/badges/channels/" + channelId + "/display?language=en")
  }

  /** The body of a BTTV channel response. */
  datatype BttvResponse = BttvResponse(urlTemplate: string, emotes: seq<BttvEmote>)

  /** The BTTV emotes after a response's list is stored by code in order. */
  function MergeBttv(known: map<string, BttvEmote>, emotes: seq<BttvEmote>): map<string, BttvEmote>
    decreases |emotes|
  {
    if |emotes| == 0 then known
    else
      var last := emotes[|emotes| - 1];
      MergeBttv(known, emotes[..|emotes| - 1])[last.code := last]
  }

  /** The `forEach` of the BTTV response handler: stores each emote under
      its code, in list order. */
  method StoreBttvEmotes(known: map<string, BttvEmote>, emotes: seq<BttvEmote>)
    returns (merged: map<string, BttvEmote>)
    ensures merged == MergeBttv(known, emotes)
  {
    merged := known;
    for i := 0 to |emotes|
      invariant merged == MergeBttv(known, emotes[..i])
    {
      merged := merged[emotes[i].code := emotes[i]];
      assert emotes[..i + 1][..i] == emotes[..i];
    }
    assert emotes[..|emotes|] == emotes;
  }

  /** After a merge, a listed code maps to the last emote listed under it. */
  lemma {:induction false} MergeBttvLastWins(known: map<string, BttvEmote>, emotes: seq<BttvEmote>, i: nat)
    requires i < |emotes|
    requires forall j :: i < j < |emotes| ==> emotes[j].code != emotes[i].code
    ensures emotes[i].code in MergeBttv(known, emotes)
    ensures MergeBttv(known, emotes)[emotes[i].code] == emotes[i]
    decreases |emotes|
  {
    if i < |emotes| - 1 {
      var init := emotes[..|emotes| - 1];
      assert init[i] == emotes[i];
      assert forall j :: i < j < |init| ==> init[j] == emotes[j];
      MergeBttvLastWins(known, init, i);
    }
  }

  /** After a merge, a code the list does not name keeps what it had, or
      stays absent. */
  lemma {:induction false} MergeBttvKeepsUnlisted(known: map<string, BttvEmote>, emotes: seq<BttvEmote>, c: string)
    requires forall i :: 0 <= i < |emotes| ==> emotes[i].code != c
    ensures c in MergeBttv(known, emotes) <==> c in known
    ensures c in known ==> MergeBttv(known, emotes)[c] == known[c]
    decreases |emotes|
  {
    if |emotes| > 0 {
      var init := emotes[..|emotes| - 1];
      assert forall i :: 0 <= i < |init| ==> init[i] == emotes[i];
      MergeBttvKeepsUnlisted(known, init, c);
    }
  }

  /** The loop of `onBadgesResponse`: stores each returned badge set under
      its name, replacing the set of that name and keeping the others. */
  method MergeBadgeSets(badges: map<string, BadgeSet>, sets: map<string, BadgeSet>)
    returns (merged: map<string, BadgeSet>)
    ensures merged == badges + sets
  {
    merged := badges;
    var remaining := sets.Keys;
    while remaining != {}
      invariant remaining <= sets.Keys
      invariant merged == badges + (sets - remaining)
      decreases |remaining|
    {
      var badgeSet :| badgeSet in remaining;
      MergeOneMore(badges, sets, remaining, badgeSet);
      merged := merged[badgeSet := sets[badgeSet]];
      remaining := remaining - {badgeSet};
    }
    assert sets - {} == sets;
  }

  /** The merged catalog: every returned set replaces the set of that name,
      and every other known set is kept. */
  lemma UnionOverrides(badges: map<string, BadgeSet>, sets: map<string, BadgeSet>)
    ensures (badges + sets).Keys == badges.Keys + sets.Keys
    ensures forall k :: k in sets ==> (badges + sets)[k] == sets[k]
    ensures forall k :: k in badges && k !in sets ==> (badges + sets)[k] == badges[k]
  {
  }

  /** One step of the badge loop: storing one more returned set. */
  lemma MergeOneMore(badges: map<string, BadgeSet>, sets: map<string, BadgeSet>, remaining: set<string>, k: string)
    requires k in remaining && remaining <= sets.Keys
    ensures badges + (sets - (remaining - {k})) == (badges + (sets - remaining))[k := sets[k]]
  {
    var lhs := badges + (sets - (remaining - {k}));
    var rhs := (badges + (sets - remaining))[k := sets[k]];
    assert lhs.Keys == rhs.Keys;
    forall x | x in lhs.Keys
      ensures lhs[x] == rhs[x]
    {
    }
  }

  // -------------------------------------------------------------- controller

  class Controller {
    const config: Configuration
    /** The `emotesets`, `bttvEmotes`, `bttvEmoteURLTemplate` and `badges`
        fields, which the view reads. */
    const catalogs: Catalogs
    /** The trimmed channel setting. */
    const channel: string
    /** Whether the constructor ran past the channel check; before it, no
        handler and no field is defined. */
    const initialised: bool
    var channelId: Option<string>
    var joinedChannel: bool
    var view: View?
    /** The REST requests issued so far, oldest first. */
    var requests: seq<Request>

    ghost predicate Valid()
      reads this, catalogs, view
    {
      && catalogs.Valid()
      && (view != null ==> view.catalogs == catalogs && view.Valid())
    }

    /** `new Controller(clientId, config)`: a blank or unset channel stops
        the constructor before any state is set up. */
    constructor (config: Configuration)
      requires ChannelSetting(config.Get("channel", Str(""))).Some?
      ensures Valid()
      ensures this.config == config
      ensures channel == ChannelSetting(config.Get("channel", Str(""))).value
      ensures initialised <==> |channel| > 0
      ensures channelId.None? && !joinedChannel && view == null && requests == []
      ensures fresh(catalogs)
      ensures catalogs.emotesets == [] && catalogs.bttvEmotes == map[]
      ensures catalogs.bttvEmoteURLTemplate.None? && catalogs.badges == map[]
    {
      this.config := config;
      var trimmed := ChannelSetting(config.Get("channel", Str(""))).value;
      channel := trimmed;
      initialised := |trimmed| > 0;
      catalogs := new Catalogs();
      channelId := None;
      joinedChannel := false;
      view := null;
      requests := [];
    }

    /** `registerView`: the view renders from this controller's catalogs. */
    method RegisterView(v: View)
      requires Valid() && initialised
      requires v.catalogs == catalogs && v.Valid()
      modifies this
      ensures Valid() && view == v
      ensures channelId == old(channelId) && joinedChannel == old(joinedChannel) && requests == old(requests)
    {
      view := v;
    }

    /** `onMessage`: a message of type `chat` goes to the view as a chat
        message, under its sent timestamp; every other type is dropped. */
    method OnMessage(userstate: Userstate, message: string, self: bool, now: int)
      requires Valid() && initialised && view != null
      modifies view
      ensures Valid()
      ensures view.autocomplete == old(view.autocomplete) && view.pauseAutoScroll == old(view.pauseAutoScroll)
      ensures userstate.messageType == Some("chat") ==>
        var t := ResolveTimestamp(Some(SentTimestamp(userstate)), old(view.messages), now);
        var entry := old(view.ChatEntryFor(t, MakeUserInfo(userstate, self), message, userstate.emotes.GetOr([]), false));
        view.messages == AfterChatMessage(old(view.messages), t, entry, view.MaxMessages(), view.pauseAutoScroll)
      ensures userstate.messageType != Some("chat") ==> view.messages == old(view.messages)
    {
      var timestamp := if userstate.sentTs.Some? then ParseInt(userstate.sentTs.value) else Int(-1);
      var user := MakeUserInfo(userstate, self);
      if userstate.messageType == Some("chat") {
        view.AppendChatMessage(Some(timestamp), user, message, userstate.emotes.GetOr([]), false, now);
      }
    }

    /** `onJoin`: the first call requests the emote sets and the BTTV emotes
        and posts "Joined channel"; later calls change nothing. */
    method OnJoin(joined: string, clientEmotes: string, now: int)
      requires Valid() && initialised && view != null
      modifies this, view
      ensures Valid() && view == old(view) && joinedChannel
      ensures channelId == old(channelId)
      ensures view.autocomplete == old(view.autocomplete) && view.pauseAutoScroll == old(view.pauseAutoScroll)
      ensures old(joinedChannel) ==> requests == old(requests) && view.messages == old(view.messages)
      ensures !old(joinedChannel) ==>
        && requests == old(requests)
             + [EmoteSetsRequest(clientEmotes), BttvEmotesRequest(ToJsString(config.Get("channel", Undefined)))]
        && view.messages == old(view.messages)
             + [Entry(EntryId("system", LastMessageTimestamp(old(view.messages), now)), SystemEntry, false,
                      "Joined channel " + joined)]
    {
      if !joinedChannel {
        var channelSetting := config.Get("channel", Undefined);
        requests := requests + [EmoteSetsRequest(clientEmotes), BttvEmotesRequest(ToJsString(channelSetting))];
        view.AppendDebugMessage("Joined channel " + joined, now);
        joinedChannel := true;
      }
    }

    /** `onRoomState`: records the room id and requests the global badges,
        then the channel's.  A state without `room-id` leaves the id
        undefined, which the request path spells out. */
    method OnRoomState(roomId: Option<string>)
      requires Valid() && initialised
      modifies this
      ensures Valid() && view == old(view) && joinedChannel == old(joinedChannel)
      ensures channelId == roomId
      ensures requests == old(requests) + [GlobalBadgesRequest, ChannelBadgesRequest(roomId.GetOr("undefined"))]
    {
      channelId := roomId;
      requests := requests + [GlobalBadgesRequest];
      requests := requests + [ChannelBadgesRequest(channelId.GetOr("undefined"))];
    }

    /** The emote-set response handler: a response replaces the sets, a
        failed request keeps them. */
    method OnEmoteSetsResponse(response: Option<seq<EmoteSet>>)
      requires Valid() && initialised
      modifies catalogs
      ensures Valid()
      ensures catalogs.emotesets == if response.Some? then response.value else old(catalogs.emotesets)
      ensures catalogs.bttvEmotes == old(catalogs.bttvEmotes) && catalogs.badges == old(catalogs.badges)
      ensures catalogs.bttvEmoteURLTemplate == old(catalogs.bttvEmoteURLTemplate)
    {
      if response.Some? {
        catalogs.emotesets := response.value;
      }
    }

    /** The BTTV response handler: a response sets the URL template and
        stores its emotes by code, later ones overwriting earlier ones;
        codes it does not list are kept. */
    method OnBttvResponse(response: Option<BttvResponse>)
      requires Valid() && initialised
      modifies catalogs
      ensures Valid()
      ensures response.None? ==>
        catalogs.bttvEmotes == old(catalogs.bttvEmotes) && catalogs.bttvEmoteURLTemplate == old(catalogs.bttvEmoteURLTemplate)
      ensures response.Some? ==>
        && catalogs.bttvEmoteURLTemplate == Some(response.value.urlTemplate)
        && catalogs.bttvEmotes == MergeBttv(old(catalogs.bttvEmotes), response.value.emotes)
      ensures catalogs.emotesets == old(catalogs.emotesets) && catalogs.badges == old(catalogs.badges)
    {
      if response.Some? {
        catalogs.bttvEmoteURLTemplate := Some(response.value.urlTemplate);
        catalogs.bttvEmotes := StoreBttvEmotes(catalogs.bttvEmotes, response.value.emotes);
      }
    }

    /** The badge response handler: each returned badge set replaces the one
        of the same name, the others are kept. */
    method OnBadgesResponse(response: Option<map<string, BadgeSet>>)
      requires Valid() && initialised
      modifies catalogs
      ensures Valid()
      ensures catalogs.badges == if response.Some? then old(catalogs.badges) + response.value else old(catalogs.badges)
      ensures catalogs.emotesets == old(catalogs.emotesets) && catalogs.bttvEmotes == old(catalogs.bttvEmotes)
      ensures catalogs.bttvEmoteURLTemplate == old(catalogs.bttvEmoteURLTemplate)
    {
      if response.Some? {
        var badges := MergeBadgeSets(catalogs.badges, response.value);
        catalogs.badges := badges;
      }
    }
  }
}
