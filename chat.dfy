/**
 * The records the controller and the view exchange, and the catalogs the
 * controller fills from its providers and the view reads while rendering.
 */
module Chat {
  import opened Wrappers

  /** One `badge-set: version` entry of a user's `badges` object, in the
      object's enumeration order. */
  datatype BadgeAssignment = BadgeAssignment(badgeSet: string, version: string)

  /** The user record built by `makeUserInfo`. */
  datatype User = User(
    isSelf: bool,
    username: string,
    displayName: string,
    color: Option<string>,
    badges: Option<seq<BadgeAssignment>>,
    isSubscriber: bool,
    isModerator: bool)

  /** One entry of a message's `emotes` object: an emote id and its
      `"start-end"` position strings (inclusive, into the original text). */
  datatype EmotePositions = EmotePositions(emoteId: string, ranges: seq<string>)

  /** An entry `{code, id}` of an emote set. */
  datatype Emote = Emote(code: string, id: string)

  /** One emote set of `emoticon_sets`, in the object's enumeration order. */
  datatype EmoteSet = EmoteSet(setId: string, emotes: seq<Emote>)

  /** A BTTV emote as the BTTV channel response lists it. */
  datatype BttvEmote = BttvEmote(id: string, code: string)

  /** A badge version: its title and `image_url_1x`. */
  datatype Badge = Badge(title: string, imageUrl: string)

  /** A badge set of the badge catalog. */
  datatype BadgeSet = BadgeSet(versions: map<string, Badge>)

  /** The controller's `emotesets`, `bttvEmotes`, `bttvEmoteURLTemplate` and
      `badges` fields, shared with the view that reads them. */
  class Catalogs {
    var emotesets: seq<EmoteSet>
    var bttvEmotes: map<string, BttvEmote>
    var bttvEmoteURLTemplate: Option<string>
    var badges: map<string, BadgeSet>

    /** BTTV emotes only arrive together with their URL template. */
    ghost predicate Valid()
      reads this
    {
      bttvEmoteURLTemplate.None? ==> bttvEmotes == map[]
    }

    constructor ()
      ensures Valid()
      ensures emotesets == [] && bttvEmotes == map[] && bttvEmoteURLTemplate == None && badges == map[]
    {
      emotesets := [];
      bttvEmotes := map[];
      bttvEmoteURLTemplate := None;
      badges := map[];
    }
  }
}
