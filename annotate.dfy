/**
 * The annotation pipeline of View.js: HTML escaping, hyperlinks, official
 * and BTTV emotes, badges, and the text of subscription notices.  Every
 * emote pass splits the text on whitespace runs, replaces whole words, and
 * joins the words again with single spaces.
 */
module Annotate {
  import opened Wrappers
  import opened JsString
  import opened JsNumber
  import opened JsObject
  import opened Util
  import opened Chat

  // ---------------------------------------------------------------- markup

  /** The opening of the markup of every emote. */
  const EmoteOpen: string := "<span " + "class=\"emoticon-wrapper\"><img class=\"emoticon\" src=\""

  /** The markup an official Twitch emote becomes. */
  function OfficialEmoteHtml(id: string): string {
    EmoteOpen + "http://static-cdn.jtvnw.net/emoticons/v1/" + id + "/1.0\"></span>"
  }

  /** The markup a BTTV emote becomes. */
  function BttvEmoteHtml(url: string): string {
    EmoteOpen + url + "\"></span>"
  }

  /** Emote markup holds a space, so it never equals a word of a whitespace split. */
  lemma OfficialEmoteHtmlHasSpace(id: string)
    ensures !NoSpace(OfficialEmoteHtml(id))
  {
    assert OfficialEmoteHtml(id)[5] == ' ';
  }

  lemma BttvEmoteHtmlHasSpace(url: string)
    ensures !NoSpace(BttvEmoteHtml(url))
  {
    assert BttvEmoteHtml(url)[5] == ' ';
  }

  // ------------------------------------------------ official emotes, by position

  /** The code a `"start-end"` position string selects from the original
      text: `origText.slice(parseInt(start), parseInt(end) + 1)`. */
  function CodeAt(origText: string, range: string): string {
    var bounds := Split(range, '-');
    var start := ParseInt(bounds[0]);
    // a range without a dash has no second part, and `parseInt(undefined)` is NaN
    var end := if |bounds| > 1 then ParseInt(bounds[1]) else NaN;
    Slice(origText, start, Add(end, 1))
  }

  /** One replacement of the word loop: words equal to `code` become `markup`. */
  datatype Substitution = Substitution(code: string, markup: string)

  /** The substitutions of one emote's position strings, in order. */
  function RangeSubstitutions(origText: string, id: string, ranges: seq<string>): seq<Substitution> {
    seq(|ranges|, j requires 0 <= j < |ranges| => Substitution(CodeAt(origText, ranges[j]), OfficialEmoteHtml(id)))
  }

  /** The substitutions the nested loops of `injectOfficialEmotes` carry out, in order. */
  function PositionSubstitutions(origText: string, emotes: seq<EmotePositions>): seq<Substitution>
    decreases |emotes|
  {
    if |emotes| == 0 then []
    else RangeSubstitutions(origText, emotes[0].emoteId, emotes[0].ranges) + PositionSubstitutions(origText, emotes[1..])
  }

  /** The same substitutions with each code escaped as the text was. */
  function EscapedCodes(subs: seq<Substitution>): seq<Substitution> {
    seq(|subs|, i requires 0 <= i < |subs| => Substitution(EscapeHtml(subs[i].code), subs[i].markup))
  }

  /** `words.forEach(...)` for one substitution. */
  function SubstituteWord(words: seq<string>, sub: Substitution): seq<string> {
    seq(|words|, k requires 0 <= k < |words| => if words[k] == sub.code then sub.markup else words[k])
  }

  function ApplySubstitutions(words: seq<string>, subs: seq<Substitution>): (r: seq<string>)
    ensures |r| == |words|
    decreases |subs|
  {
    if |subs| == 0 then words else ApplySubstitutions(SubstituteWord(words, subs[0]), subs[1..])
  }

  /** Some substitution replaces the word `w`. */
  predicate Matches(w: string, subs: seq<Substitution>) {
    exists i :: 0 <= i < |subs| && subs[i].code == w
  }

  /** A word that no substitution names is left alone; a word that one names
      ends up as the markup of one of them. */
  lemma {:induction false} ApplySubstitutionsAt(words: seq<string>, subs: seq<Substitution>, k: nat)
    requires k < |words|
    ensures !Matches(words[k], subs) ==> ApplySubstitutions(words, subs)[k] == words[k]
    ensures Matches(words[k], subs) ==> exists i :: 0 <= i < |subs| && ApplySubstitutions(words, subs)[k] == subs[i].markup
    decreases |subs|
  {
    if |subs| > 0 {
      var next := SubstituteWord(words, subs[0]);
      ApplySubstitutionsAt(next, subs[1..], k);
      var r := ApplySubstitutions(words, subs);
      assert r == ApplySubstitutions(next, subs[1..]);
      if !Matches(words[k], subs) {
        assert subs[0].code != words[k];
      } else if Matches(next[k], subs[1..]) {
        var i :| 0 <= i < |subs[1..]| && r[k] == subs[1..][i].markup;
        assert r[k] == subs[i + 1].markup;
      } else if words[k] == subs[0].code {
        assert r[k] == subs[0].markup;
      }
    }
  }

  /** Substitutions whose markup never occurs as a word change exactly the
      words they name. */
  lemma ApplySubstitutionsChanges(words: seq<string>, subs: seq<Substitution>, k: nat)
    requires k < |words| && NoSpace(words[k])
    requires forall i :: 0 <= i < |subs| ==> !NoSpace(subs[i].markup)
    ensures ApplySubstitutions(words, subs)[k] != words[k] <==> Matches(words[k], subs)
  {
    ApplySubstitutionsAt(words, subs, k);
  }

  /** `injectOfficialEmotes` as written: the codes are read from the raw
      text, but compared with the words of the already escaped text. */
  function InjectOfficialEmotesAsWritten(text: string, origText: string, emotes: seq<EmotePositions>): string {
    Join(ApplySubstitutions(Words(text), PositionSubstitutions(origText, emotes)), " ")
  }

  /** `injectOfficialEmotes` with each code escaped before the comparison,
      as the text was. */
  function InjectOfficialEmotes(text: string, origText: string, emotes: seq<EmotePositions>): string {
    Join(ApplySubstitutions(Words(text), EscapedCodes(PositionSubstitutions(origText, emotes))), " ")
  }

  /** The escaped form of a code that one of the emote's position strings selects. */
  predicate IsRangeCode(w: string, origText: string, e: EmotePositions) {
    exists j :: 0 <= j < |e.ranges| && w == EscapeHtml(CodeAt(origText, e.ranges[j]))
  }

  /** The escaped form of a code that one of the position strings selects. */
  predicate IsPositionCode(w: string, origText: string, emotes: seq<EmotePositions>) {
    exists i :: 0 <= i < |emotes| && IsRangeCode(w, origText, emotes[i])
  }

  lemma {:induction false} PositionSubstitutionsMarkup(origText: string, emotes: seq<EmotePositions>)
    ensures forall i :: 0 <= i < |PositionSubstitutions(origText, emotes)| ==> !NoSpace(PositionSubstitutions(origText, emotes)[i].markup)
    decreases |emotes|
  {
    if |emotes| > 0 {
      PositionSubstitutionsMarkup(origText, emotes[1..]);
      OfficialEmoteHtmlHasSpace(emotes[0].emoteId);
    }
  }

  lemma MatchesAppend(w: string, a: seq<Substitution>, b: seq<Substitution>)
    ensures EscapedCodes(a + b) == EscapedCodes(a) + EscapedCodes(b)
    ensures Matches(w, a + b) <==> Matches(w, a) || Matches(w, b)
  {
    assert EscapedCodes(a + b) == EscapedCodes(a) + EscapedCodes(b) by {
      forall i | 0 <= i < |a + b|
        ensures EscapedCodes(a + b)[i] == (EscapedCodes(a) + EscapedCodes(b))[i]
      {
        if i >= |a| { assert (a + b)[i] == b[i - |a|]; }
      }
    }
    if Matches(w, a + b) {
      var i :| 0 <= i < |a + b| && (a + b)[i].code == w;
      if i >= |a| {
        assert b[i - |a|].code == w;
      }
    }
    if Matches(w, a) {
      var i :| 0 <= i < |a| && a[i].code == w;
      assert (a + b)[i].code == w;
    }
    if Matches(w, b) {
      var i :| 0 <= i < |b| && b[i].code == w;
      assert (a + b)[|a| + i].code == w;
    }
  }

  lemma RangeCodes(w: string, origText: string, e: EmotePositions)
    ensures Matches(w, EscapedCodes(RangeSubstitutions(origText, e.emoteId, e.ranges))) <==> IsRangeCode(w, origText, e)
  {
    var subs := EscapedCodes(RangeSubstitutions(origText, e.emoteId, e.ranges));
    assert |subs| == |e.ranges|;
    assert forall j :: 0 <= j < |subs| ==> subs[j].code == EscapeHtml(CodeAt(origText, e.ranges[j]));
    if IsRangeCode(w, origText, e) {
      var j :| 0 <= j < |e.ranges| && w == EscapeHtml(CodeAt(origText, e.ranges[j]));
      assert subs[j].code == w;
    }
    if Matches(w, subs) {
      var j :| 0 <= j < |subs| && subs[j].code == w;
      assert w == EscapeHtml(CodeAt(origText, e.ranges[j]));
    }
  }

  lemma {:induction false} PositionCodes(w: string, origText: string, emotes: seq<EmotePositions>)
    ensures Matches(w, EscapedCodes(PositionSubstitutions(origText, emotes))) <==> IsPositionCode(w, origText, emotes)
    decreases |emotes|
  {
    if |emotes| > 0 {
      PositionCodes(w, origText, emotes[1..]);
      RangeCodes(w, origText, emotes[0]);
      var head := RangeSubstitutions(origText, emotes[0].emoteId, emotes[0].ranges);
      var tail := PositionSubstitutions(origText, emotes[1..]);
      MatchesAppend(w, head, tail);
      MatchesAppend(w, EscapedCodes(head), EscapedCodes(tail));
      assert IsPositionCode(w, origText, emotes) <==> IsRangeCode(w, origText, emotes[0]) || IsPositionCode(w, origText, emotes[1..]) by {
        if IsPositionCode(w, origText, emotes) {
          var i :| 0 <= i < |emotes| && IsRangeCode(w, origText, emotes[i]);
          if i > 0 { assert emotes[1..][i - 1] == emotes[i]; }
        }
        if IsPositionCode(w, origText, emotes[1..]) {
          var i :| 0 <= i < |emotes[1..]| && IsRangeCode(w, origText, emotes[1..][i]);
          assert emotes[i + 1] == emotes[1..][i];
        }
      }
    }
  }

  /** The position pass keeps the word count, and a word changes exactly when
      it is the escaped form of a code selected by a position string. */
  lemma InjectOfficialEmotesWords(text: string, origText: string, emotes: seq<EmotePositions>, k: nat)
    requires k < |Words(text)|
    ensures var r := ApplySubstitutions(Words(text), EscapedCodes(PositionSubstitutions(origText, emotes)));
      && InjectOfficialEmotes(text, origText, emotes) == Join(r, " ")
      && |r| == |Words(text)|
      && (r[k] != Words(text)[k] <==> IsPositionCode(Words(text)[k], origText, emotes))
  {
    var subs := PositionSubstitutions(origText, emotes);
    PositionSubstitutionsMarkup(origText, emotes);
    PositionCodes(Words(text)[k], origText, emotes);
    ApplySubstitutionsChanges(Words(text), EscapedCodes(subs), k);
  }

  // ---------------------------------------------- official emotes, by emote set

  /** No emote of `emotes` has the code `word`. */
  predicate CodeAbsent(word: string, emotes: seq<Emote>) {
    forall e :: e in emotes ==> e.code != word
  }

  /** `Emote(word, id)` is the first emote of `emotes` whose code is `word`. */
  predicate FirstInSet(word: string, id: string, emotes: seq<Emote>) {
    exists j :: 0 <= j < |emotes| && emotes[j] == Emote(word, id) && CodeAbsent(word, emotes[..j])
  }

  /** `Emote(word, id)` is the first emote with code `word` over the sets in
      order: no earlier set holds the code. */
  predicate FirstInSets(word: string, id: string, sets: seq<EmoteSet>) {
    exists i :: 0 <= i < |sets| && FirstInSet(word, id, sets[i].emotes)
      && forall i' :: 0 <= i' < i ==> CodeAbsent(word, sets[i'].emotes)
  }

  /** The id of the first emote of `emotes` whose code is `word`. */
  function FindInSet(word: string, emotes: seq<Emote>): (r: Option<string>)
    ensures r.Some? ==> FirstInSet(word, r.value, emotes)
    ensures r.None? <==> CodeAbsent(word, emotes)
    decreases |emotes|
  {
    if |emotes| == 0 then None
    else if emotes[0].code == word then
      assert emotes[..0] == [];
      Some(emotes[0].id)
    else
      var r := FindInSet(word, emotes[1..]);
      if r.Some? then
        var j :| 0 <= j < |emotes[1..]| && emotes[1..][j] == Emote(word, r.value) && CodeAbsent(word, emotes[1..][..j]);
        assert emotes[..j + 1] == [emotes[0]] + emotes[1..][..j];
        r
      else
        assert emotes == [emotes[0]] + emotes[1..];
        r
  }

  /** The id of the first emote, over the sets in order, whose code is `word`. */
  function FindEmoteId(word: string, sets: seq<EmoteSet>): (r: Option<string>)
    ensures r.Some? ==> FirstInSets(word, r.value, sets)
    ensures r.None? <==> forall i :: 0 <= i < |sets| ==> CodeAbsent(word, sets[i].emotes)
    decreases |sets|
  {
    if |sets| == 0 then None
    else match FindInSet(word, sets[0].emotes)
      case Some(id) => Some(id)
      case None =>
        var r := FindEmoteId(word, sets[1..]);
        assert forall i :: 1 <= i < |sets| ==> sets[i] == sets[1..][i - 1];
        r
  }

  /** The first-match description picks exactly one id: the one `FindEmoteId`
      returns. */
  lemma FindEmoteIdIsFirst(word: string, id: string, sets: seq<EmoteSet>)
    requires FirstInSets(word, id, sets)
    ensures FindEmoteId(word, sets) == Some(id)
  {
    var i :| 0 <= i < |sets| && FirstInSet(word, id, sets[i].emotes)
      && forall i' :: 0 <= i' < i ==> CodeAbsent(word, sets[i'].emotes);
    var r := FindEmoteId(word, sets);
    var j :| 0 <= j < |sets[i].emotes| && sets[i].emotes[j] == Emote(word, id) && CodeAbsent(word, sets[i].emotes[..j]);
    assert !CodeAbsent(word, sets[i].emotes) by { assert sets[i].emotes[j] in sets[i].emotes; }
    var i2 :| 0 <= i2 < |sets| && FirstInSet(word, r.value, sets[i2].emotes)
      && forall i' :: 0 <= i' < i2 ==> CodeAbsent(word, sets[i'].emotes);
    var j2 :| 0 <= j2 < |sets[i2].emotes| && sets[i2].emotes[j2] == Emote(word, r.value) && CodeAbsent(word, sets[i2].emotes[..j2]);
    assert !CodeAbsent(word, sets[i2].emotes) by { assert sets[i2].emotes[j2] in sets[i2].emotes; }
    assert i == i2;
    FirstInSetUnique(word, id, r.value, sets[i].emotes);
  }

  /** A set has one first emote for a code. */
  lemma FirstInSetUnique(word: string, id: string, id2: string, es: seq<Emote>)
    requires FirstInSet(word, id, es) && FirstInSet(word, id2, es)
    ensures id == id2
  {
    var j :| 0 <= j < |es| && es[j] == Emote(word, id) && CodeAbsent(word, es[..j]);
    var j2 :| 0 <= j2 < |es| && es[j2] == Emote(word, id2) && CodeAbsent(word, es[..j2]);
    forall k | 0 <= k < j ensures es[k].code != word { assert es[..j][k] in es[..j]; }
    forall k | 0 <= k < j2 ensures es[k].code != word { assert es[..j2][k] in es[..j2]; }
  }

  function EmotesetWord(word: string, sets: seq<EmoteSet>): string {
    match FindEmoteId(word, sets)
    case Some(id) => OfficialEmoteHtml(id)
    case None => word
  }

  /** `injectOfficialEmotesFromEmotesets`. */
  function InjectOfficialEmotesFromEmotesets(text: string, sets: seq<EmoteSet>): string {
    var ws := Words(text);
    Join(seq(|ws|, k requires 0 <= k < |ws| => EmotesetWord(ws[k], sets)), " ")
  }

  /** A word changes exactly when some set holds an emote with that code,
      and then it becomes the markup of such an emote. */
  lemma EmotesetWordChanges(word: string, sets: seq<EmoteSet>)
    requires NoSpace(word)
    ensures EmotesetWord(word, sets) != word <==> exists i :: 0 <= i < |sets| && exists e :: e in sets[i].emotes && e.code == word
    ensures EmotesetWord(word, sets) != word ==>
      (exists id :: FirstInSets(word, id, sets) && EmotesetWord(word, sets) == OfficialEmoteHtml(id))
  {
    match FindEmoteId(word, sets)
    case Some(id) =>
      OfficialEmoteHtmlHasSpace(id);
      var i :| 0 <= i < |sets| && FirstInSet(word, id, sets[i].emotes)
        && forall i' :: 0 <= i' < i ==> CodeAbsent(word, sets[i'].emotes);
      var j :| 0 <= j < |sets[i].emotes| && sets[i].emotes[j] == Emote(word, id) && CodeAbsent(word, sets[i].emotes[..j]);
      assert sets[i].emotes[j] in sets[i].emotes;
    case None =>
  }

  // -------------------------------------------------------------- BTTV emotes

  /** `replace(/^\/\//, "https://")`. */
  function WithHttps(url: string): string {
    if StartsWith(url, "//") then "https://" + url[2..] else url
  }

  /** The image URL of a BTTV emote: the first `{{id}}` and the first
      `{{image}}` of the template filled in, a leading `//` made `https://`. */
  function BttvUrl(template: string, id: string): string {
    WithHttps(ReplaceFirst(ReplaceFirst(template, "{{id}}", id), "{{image}}", "1x"))
  }

  lemma Regroup(a: string, p: string, b: string, q: string, c: string)
    ensures a + p + b + q + c == a + p + (b + q + c)
    ensures a + p + b + q + c == (a + p + b) + q + c
  {
  }

  /** Two first-occurrence replacements, each of a pattern whose first
      character does not occur before it. */
  lemma ReplaceTwo(a: string, p: string, b: string, q: string, c: string, x: string, y: string)
    requires |p| > 0 && |q| > 0 && p[0] !in a && q[0] !in a + x + b
    ensures ReplaceFirst(ReplaceFirst(a + p + b + q + c, p, x), q, y) == a + x + b + y + c
  {
    Regroup(a, p, b, q, c);
    ReplaceFirstAt(a, p, b + q + c, x);
    Regroup(a, x, b, q, c);
    ReplaceFirstAt(a + x + b, q, c, y);
  }

  /** A template with one `{{id}}` followed by one `{{image}}` gets the id
      and the size `1x` in their places. */
  lemma BttvUrlFills(a: string, b: string, c: string, id: string)
    requires '{' !in a && '{' !in b && '{' !in id
    ensures BttvUrl(a + "{{id}}" + b + "{{image}}" + c, id) == WithHttps(a + id + b + "1x" + c)
  {
    ReplaceTwo(a, "{{id}}", b, "{{image}}", c, id, "1x");
  }

  function BttvWord(word: string, bttv: map<string, BttvEmote>, template: Option<string>): string
    requires template.None? ==> bttv == map[]
  {
    if word in bttv then BttvEmoteHtml(BttvUrl(template.value, bttv[word].id)) else word
  }

  /** `injectBTTVEmotes`, with the key test on the dictionary's own keys. */
  function InjectBttvEmotes(text: string, bttv: map<string, BttvEmote>, template: Option<string>): string
    requires template.None? ==> bttv == map[]
  {
    var ws := Words(text);
    Join(seq(|ws|, k requires 0 <= k < |ws| => BttvWord(ws[k], bttv, template)), " ")
  }

  /** A word changes exactly when it is a BTTV code. */
  lemma BttvWordChanges(word: string, bttv: map<string, BttvEmote>, template: Option<string>)
    requires template.None? ==> bttv == map[]
    requires NoSpace(word)
    ensures BttvWord(word, bttv, template) != word <==> word in bttv
    ensures word in bttv ==> BttvWord(word, bttv, template) == BttvEmoteHtml(BttvUrl(template.value, bttv[word].id))
  {
    if word in bttv {
      BttvEmoteHtmlHasSpace(BttvUrl(template.value, bttv[word].id));
    }
  }

  /** Text none of whose words is a BTTV code comes out as its words joined
      by single spaces, so a second pass changes nothing more. */
  lemma InjectBttvEmotesIdempotent(text: string, bttv: map<string, BttvEmote>, template: Option<string>)
    requires template.None? ==> bttv == map[]
    requires forall w :: w in Words(text) ==> w !in bttv
    ensures InjectBttvEmotes(text, bttv, template) == Join(Words(text), " ")
    ensures InjectBttvEmotes(InjectBttvEmotes(text, bttv, template), bttv, template) == InjectBttvEmotes(text, bttv, template)
  {
    var ws := Words(text);
    assert seq(|ws|, k requires 0 <= k < |ws| => BttvWord(ws[k], bttv, template)) == ws;
    WordsJoinIdempotent(text);
    assert seq(|ws|, k requires 0 <= k < |ws| => BttvWord(ws[k], bttv, template)) == ws;
  }

  /** The word test as written: `word in bttvEmotes` also finds the names
      inherited from `Object.prototype`, whose `id` is `undefined`; and a
      word that passes the test while the template is still null makes
      `null.replace` throw a TypeError, shown as None. */
  function BttvWordAsWritten(word: string, bttv: map<string, BttvEmote>, template: Option<string>): Option<string> {
    if !InOperator(word, bttv.Keys) then Some(word)
    else if template.None? then None
    else if word in bttv then Some(BttvEmoteHtml(BttvUrl(template.value, bttv[word].id)))
    else Some(BttvEmoteHtml(BttvUrl(template.value, "undefined")))
  }

  /** `injectBTTVEmotes` as written: None when some word throws. */
  function InjectBttvEmotesAsWritten(text: string, bttv: map<string, BttvEmote>, template: Option<string>): Option<string> {
    var ws := Words(text);
    if exists k :: 0 <= k < |ws| && BttvWordAsWritten(ws[k], bttv, template).None? then None
    else Some(Join(seq(|ws|, k requires 0 <= k < |ws| => BttvWordAsWritten(ws[k], bttv, template).value), " "))
  }

  /** The as-written pass treats text without whitespace as one word. */
  lemma BttvSingleWordAsWritten(w: string, bttv: map<string, BttvEmote>, template: Option<string>)
    requires NoSpace(w)
    ensures InjectBttvEmotesAsWritten(w, bttv, template) == BttvWordAsWritten(w, bttv, template)
  {
    WordsOfNoSpace(w);
    var ws := Words(w);
    var r := BttvWordAsWritten(w, bttv, template);
    assert ws[0] == w;
    if r.Some? {
      assert forall k :: 0 <= k < |ws| ==> BttvWordAsWritten(ws[k], bttv, template) == r;
      var pieces := seq(|ws|, k requires 0 <= k < |ws| => BttvWordAsWritten(ws[k], bttv, template).value);
      assert pieces == [r.value];
    } else {
      assert BttvWordAsWritten(ws[0], bttv, template).None?;
    }
  }

  /** The own-key pass treats text without whitespace as one word. */
  lemma BttvSingleWord(w: string, bttv: map<string, BttvEmote>, template: Option<string>)
    requires NoSpace(w)
    requires template.None? ==> bttv == map[]
    ensures InjectBttvEmotes(w, bttv, template) == BttvWord(w, bttv, template)
  {
    WordsOfNoSpace(w);
    var ws := Words(w);
    assert seq(|ws|, k requires 0 <= k < |ws| => BttvWord(ws[k], bttv, template)) == [BttvWord(w, bttv, template)];
  }

  /** A word named like a property of `Object.prototype` (`constructor`,
      `toString`, ...) becomes a broken emote image as written once the
      template is loaded, and stays text when only own keys count. */
  lemma InheritedNameIsNotAnEmote(w: string, bttv: map<string, BttvEmote>, template: string)
    requires w in ObjectPrototypeKeys && w !in bttv && NoSpace(w)
    ensures InjectBttvEmotesAsWritten(w, bttv, Some(template)) == Some(BttvEmoteHtml(BttvUrl(template, "undefined")))
    ensures InjectBttvEmotesAsWritten(w, bttv, Some(template)) != Some(w)
    ensures InjectBttvEmotes(w, bttv, Some(template)) == w
  {
    BttvSingleWordAsWritten(w, bttv, Some(template));
    BttvSingleWord(w, bttv, Some(template));
    assert InOperator(w, bttv.Keys);
    BttvEmoteHtmlHasSpace(BttvUrl(template, "undefined"));
  }

  /** While the template is still null (before the BTTV response, or for
      good after it failed) the emote map is empty, yet a word named like a
      property of `Object.prototype` passes the test as written and the
      pass throws. */
  lemma InheritedNameThrowsWithoutTemplate(w: string)
    requires w in ObjectPrototypeKeys && NoSpace(w)
    ensures InjectBttvEmotesAsWritten(w, map[], None).None?
  {
    BttvSingleWordAsWritten(w, map[], None);
    assert InOperator(w, {});
  }

  /** With only own keys tested, the pass without a template keeps every
      word: the text comes out as its words joined by single spaces. */
  lemma NoTemplateKeepsWords(text: string)
    ensures InjectBttvEmotes(text, map[], None) == Join(Words(text), " ")
  {
    InjectBttvEmotesIdempotent(text, map[], None);
  }

  // --------------------------------------------------------------- hyperlinks

  /** The characters `[-a-zA-Z0-9@:%._\+~#=\/\?&]`. */
  predicate IsUrlChar(c: char) {
    ('a' <= c <= 'z') || ('A' <= c <= 'Z') || ('0' <= c <= '9') || c in "-@:%._+~#=/?&"
  }

  /** The length of the run of URL characters at the start of `s`. */
  function UrlRun(s: string): (n: nat)
    ensures n <= |s|
    ensures forall i :: 0 <= i < n ==> IsUrlChar(s[i])
    ensures n < |s| ==> !IsUrlChar(s[n])
    decreases |s|
  {
    if |s| == 0 || !IsUrlChar(s[0]) then 0 else 1 + UrlRun(s[1..])
  }

  /** The length of the match of `https?:\/\/[url chars]+` at the start of
      `s`, or 0 when it does not match there. */
  function UrlMatchAt(s: string): (n: nat)
    ensures n <= |s|
    ensures n > 0 ==> StartsWith(s, "http")
  {
    var scheme := if StartsWith(s, "https://") then 8 else if StartsWith(s, "http://") then 7 else 0;
    if scheme > 0 && UrlRun(s[scheme..]) > 0 then scheme + UrlRun(s[scheme..]) else 0
  }

  /** The leftmost match at or after `from`: its start and length. */
  function FirstUrl(s: string, from: nat): (r: Option<(nat, nat)>)
    requires from <= |s|
    ensures r.Some? ==>
      (&& from <= r.value.0 && r.value.0 + r.value.1 <= |s|
       && r.value.1 == UrlMatchAt(s[r.value.0..]) > 0
       && (forall j :: from <= j < r.value.0 ==> UrlMatchAt(s[j..]) == 0))
    ensures r.None? ==> forall j :: from <= j <= |s| ==> UrlMatchAt(s[j..]) == 0
    decreases |s| - from
  {
    var here := UrlMatchAt(s[from..]);
    if here > 0 then Some((from, here))
    else if from == |s| then None
    else
      var r := FirstUrl(s, from + 1);
      assert forall j :: from < j <= |s| ==> (j < (if r.Some? then r.value.0 else |s| + 1) ==> UrlMatchAt(s[j..]) == 0);
      r
  }

  /** `injectHyperlinks`: the first URL becomes an anchor opening a new tab. */
  function InjectHyperlinks(s: string): (r: string)
    ensures (forall j :: 0 <= j < |s| ==> !StartsWith(s[j..], "http")) ==> r == s
  {
    match FirstUrl(s, 0)
    case None => s
    case Some((i, n)) =>
      var url := s[i..i + n];
      s[..i] + "<a href=\"" + url + "\" target=\"_blank\">" + url + "</a>" + s[i + n..]
  }

  // ------------------------------------------------------------------- badges

  /** The catalog holds the given set, and the given version in it. */
  predicate KnownBadge(a: BadgeAssignment, catalog: map<string, BadgeSet>) {
    a.badgeSet in catalog && a.version in catalog[a.badgeSet].versions
  }

  function BadgeImg(b: Badge): string {
    "<img class=\"badge\" src=\"" + b.imageUrl + "\" title=\"" + b.title + "\" /> "
  }

  /** The assignments the catalog knows, in the user's order. */
  function KnownBadges(given: seq<BadgeAssignment>, catalog: map<string, BadgeSet>): (r: seq<BadgeAssignment>)
    ensures |r| <= |given|
    ensures forall a :: a in r <==> a in given && KnownBadge(a, catalog)
    decreases |given|
  {
    if |given| == 0 then []
    else
      var last := given[|given| - 1];
      var init := given[..|given| - 1];
      assert given == init + [last];
      KnownBadges(init, catalog) + (if KnownBadge(last, catalog) then [last] else [])
  }

  /** When the catalog knows every assignment, all of them are shown, in order. */
  lemma {:induction false} KnownBadgesAllKnown(given: seq<BadgeAssignment>, catalog: map<string, BadgeSet>)
    requires forall i :: 0 <= i < |given| ==> KnownBadge(given[i], catalog)
    ensures KnownBadges(given, catalog) == given
    decreases |given|
  {
    if |given| > 0 {
      KnownBadgesAllKnown(given[..|given| - 1], catalog);
      assert given == given[..|given| - 1] + [given[|given| - 1]];
    }
  }

  /** The images of the known assignments, one each, in order. */
  function BadgeImgs(known: seq<BadgeAssignment>, catalog: map<string, BadgeSet>): string
    requires forall a :: a in known ==> KnownBadge(a, catalog)
    decreases |known|
  {
    if |known| == 0 then ""
    else
      var last := known[|known| - 1];
      assert last in known && KnownBadge(last, catalog);
      BadgeImgs(known[..|known| - 1], catalog) + BadgeImg(catalog[last.badgeSet].versions[last.version])
  }

  /** What `createBadgesHTML` returns for the user. */
  function BadgesHtml(user: User, catalog: map<string, BadgeSet>): string {
    match user.badges
    case None => ""
    case Some(given) => BadgeImgs(KnownBadges(given, catalog), catalog)
  }

  /** `createBadgesHTML`: skips unknown sets and versions, appends one image
      per known assignment. */
  method CreateBadgesHtml(user: User, catalog: map<string, BadgeSet>) returns (html: string)
    ensures html == BadgesHtml(user, catalog)
  {
    html := "";
    var given := if user.badges.Some? then user.badges.value else [];
    var i := 0;
    while i < |given|
      invariant 0 <= i <= |given|
      invariant html == BadgeImgs(KnownBadges(given[..i], catalog), catalog)
    {
      var a := given[i];
      ghost var before := KnownBadges(given[..i], catalog);
      KnownBadgesStep(given, i, catalog);
      assert before + [] == before;
      if !(a.badgeSet in catalog) {
        assert KnownBadges(given[..i + 1], catalog) == before;
        i := i + 1;
        continue;
      }
      if !(a.version in catalog[a.badgeSet].versions) {
        assert KnownBadges(given[..i + 1], catalog) == before;
        i := i + 1;
        continue;
      }
      var badge := catalog[a.badgeSet].versions[a.version];
      BadgeImgsStep(before, a, catalog);
      html := html + BadgeImg(badge);
      i := i + 1;
    }
    assert given[..i] == given;
  }

  /** One more assignment: kept exactly when the catalog knows it. */
  lemma KnownBadgesStep(given: seq<BadgeAssignment>, i: nat, catalog: map<string, BadgeSet>)
    requires i < |given|
    ensures KnownBadges(given[..i + 1], catalog)
      == KnownBadges(given[..i], catalog) + (if KnownBadge(given[i], catalog) then [given[i]] else [])
  {
    assert given[..i + 1][..i] == given[..i];
  }

  /** One more known assignment adds its image at the end. */
  lemma BadgeImgsStep(known: seq<BadgeAssignment>, a: BadgeAssignment, catalog: map<string, BadgeSet>)
    requires forall b :: b in known ==> KnownBadge(b, catalog)
    requires KnownBadge(a, catalog)
    ensures BadgeImgs(known + [a], catalog) == BadgeImgs(known, catalog) + BadgeImg(catalog[a.badgeSet].versions[a.version])
  {
    assert (known + [a])[..|known|] == known;
  }

  // ----------------------------------------------------------------- pipeline

  /** `processMessage`: escape, link, official emotes (from the emote sets
      for one's own messages, from the positions otherwise), BTTV emotes,
      then FFZ emotes, which are left as they are. */
  function ProcessMessage(message: string, user: Option<User>, emotes: seq<EmotePositions>,
                          sets: seq<EmoteSet>, bttv: map<string, BttvEmote>, template: Option<string>): string
    requires template.None? ==> bttv == map[]
  {
    var escaped := EscapeHtml(message);
    var linked := InjectHyperlinks(escaped);
    var official := OfficialPass(linked, message, user, emotes, sets);
    var withBttv := InjectBttvEmotes(official, bttv, template);
    InjectFfzEmotes(withBttv)
  }

  /** The official-emote step: from the emote sets for one's own messages,
      from the positions in the original message otherwise. */
  function OfficialPass(linked: string, message: string, user: Option<User>, emotes: seq<EmotePositions>,
                        sets: seq<EmoteSet>): string {
    if user.Some? && user.value.isSelf then InjectOfficialEmotesFromEmotesets(linked, sets)
    else InjectOfficialEmotes(linked, message, emotes)
  }

  /** `injectFFZEmotes` is not implemented and returns its input. */
  function InjectFfzEmotes(text: string): string {
    text
  }

  /** `message` holds none of the characters escaping replaces. */
  predicate NoMarkup(message: string) {
    forall i :: 0 <= i < |message| ==> !IsHtmlSpecial(message[i])
  }

  /** `message` holds no `http`, so no URL. */
  predicate NoUrl(message: string) {
    forall j :: 0 <= j < |message| ==> !StartsWith(message[j..], "http")
  }

  /** No word of `message` is an emote code of the pass that applies. */
  predicate NoEmoteWords(message: string, user: Option<User>, emotes: seq<EmotePositions>,
                         sets: seq<EmoteSet>, bttv: map<string, BttvEmote>) {
    forall w :: w in Words(message) ==>
      && w !in bttv
      && (if user.Some? && user.value.isSelf then FindEmoteId(w, sets).None? else !IsPositionCode(w, message, emotes))
  }

  /** The official-emote pass leaves words that are no emote code alone. */
  lemma OfficialPassPlain(text: string, user: Option<User>, emotes: seq<EmotePositions>, sets: seq<EmoteSet>)
    requires forall w :: w in Words(text) ==>
      if user.Some? && user.value.isSelf then FindEmoteId(w, sets).None? else !IsPositionCode(w, text, emotes)
    ensures OfficialPass(text, text, user, emotes, sets) == Join(Words(text), " ")
  {
    var ws := Words(text);
    if user.Some? && user.value.isSelf {
      assert seq(|ws|, k requires 0 <= k < |ws| => EmotesetWord(ws[k], sets)) == ws;
    } else {
      var subs := EscapedCodes(PositionSubstitutions(text, emotes));
      forall k | 0 <= k < |ws|
        ensures ApplySubstitutions(ws, subs)[k] == ws[k]
      {
        PositionCodes(ws[k], text, emotes);
        ApplySubstitutionsAt(ws, subs, k);
      }
      assert ApplySubstitutions(ws, subs) == ws;
    }
  }

  /** Escaping and linking leave text without markup characters and URLs alone. */
  lemma FrontPassesPlain(message: string)
    requires NoMarkup(message) && NoUrl(message)
    ensures InjectHyperlinks(EscapeHtml(message)) == message
  {
    EscapeEachPlain(message);
  }

  /** The BTTV pass leaves rejoined words that are no BTTV code alone. */
  lemma BttvPassPlain(message: string, bttv: map<string, BttvEmote>, template: Option<string>)
    requires template.None? ==> bttv == map[]
    requires forall w :: w in Words(message) ==> w !in bttv
    ensures InjectBttvEmotes(Join(Words(message), " "), bttv, template) == Join(Words(message), " ")
  {
    WordsJoinIdempotent(message);
    InjectBttvEmotesIdempotent(Join(Words(message), " "), bttv, template);
  }

  /** Plain text (no markup characters, no URL, no emote code) comes out as
      its words joined by single spaces. */
  lemma ProcessMessagePlain(message: string, user: Option<User>, emotes: seq<EmotePositions>,
                            sets: seq<EmoteSet>, bttv: map<string, BttvEmote>, template: Option<string>)
    requires template.None? ==> bttv == map[]
    requires NoMarkup(message) && NoUrl(message)
    requires NoEmoteWords(message, user, emotes, sets, bttv)
    ensures ProcessMessage(message, user, emotes, sets, bttv, template) == Join(Words(message), " ")
  {
    var plain := Join(Words(message), " ");
    var linked := InjectHyperlinks(EscapeHtml(message));
    FrontPassesPlain(message);
    var official := OfficialPass(linked, message, user, emotes, sets);
    OfficialPassPlain(message, user, emotes, sets);
    assert official == plain;
    BttvPassPlain(message, bttv, template);
    assert InjectBttvEmotes(official, bttv, template) == plain;
  }

  // ------------------------------------------------------------- subscriptions

  /** A subscription notice: resubscription or not, paid with Twitch Prime or
      not, the months in a row, and the optional message. */
  datatype Subscription = Subscription(resub: bool, prime: bool, months: int, message: Option<string>)

  /** `" with Twitch Prime"` for a subscription paid with Prime. */
  function PrimeClause(sub: Subscription): string {
    if sub.prime then " with Twitch Prime" else ""
  }

  /** `" for " + months + " months in a row"` for a resubscription. */
  function MonthsClause(sub: Subscription): string {
    if sub.resub then " for " + IntToDecimal(sub.months) + " months in a row" else ""
  }

  /** The notice before its message, built in the order the source appends. */
  function SubscriptionHeadline(username: string, sub: Subscription): string {
    username + SubscriptionVerb(sub) + PrimeClause(sub) + MonthsClause(sub)
  }

  /** The verb of a subscription notice. */
  function SubscriptionVerb(sub: Subscription): string {
    if sub.resub then " just resubscribed" else " just subscribed"
  }

  /** `sub.message && sub.message.length > 0`. */
  predicate HasMessage(sub: Subscription) {
    sub.message.Some? && |sub.message.value| > 0
  }

  lemma HeadlineStartsWithVerb(username: string, sub: Subscription)
    ensures StartsWith(SubscriptionHeadline(username, sub), username + SubscriptionVerb(sub))
  {
    var head := username + SubscriptionVerb(sub);
    assert StartsWith(head, head);
    StartsWithExtended(head, PrimeClause(sub), head);
    StartsWithExtended(head + PrimeClause(sub), MonthsClause(sub), head);
  }

  /** The text of a subscription notice; a non-empty message is processed
      like a chat message of an unknown user without emote positions. */
  function SubscriptionHtml(username: string, sub: Subscription, sets: seq<EmoteSet>,
                            bttv: map<string, BttvEmote>, template: Option<string>): (r: string)
    requires template.None? ==> bttv == map[]
    ensures StartsWith(r, username + (if sub.resub then " just resubscribed" else " just subscribed"))
    ensures !sub.resub && !sub.prime && !HasMessage(sub) ==> r == username + " just subscribed"
  {
    var headline := SubscriptionHeadline(username, sub);
    HeadlineStartsWithVerb(username, sub);
    if HasMessage(sub) then
      var body := ProcessMessage(sub.message.value, None, [], sets, bttv, template);
      StartsWithExtended(headline, ": ", username + SubscriptionVerb(sub));
      StartsWithExtended(headline + ": ", body, username + SubscriptionVerb(sub));
      headline + ": " + body
    else headline
  }

  /** The pieces of a concatenation are recovered by slicing at their
      lengths. */
  lemma ClauseSlices(head: string, prime: string, months: string, tail: string, r: string)
    requires r == head + prime + months + tail
    ensures |head + prime + months| <= |r|
    ensures r[|head|..] == prime + months + tail
    ensures StartsWith(r[|head + prime|..], months)
    ensures r[|head + prime + months|..] == tail
  {
    assert r == head + (prime + months + tail);
    assert r[|head|..] == prime + months + tail;
    assert r == (head + prime) + (months + tail);
    assert r[|head + prime|..] == months + tail;
    assert (months + tail)[..|months|] == months;
    assert r == (head + prime + months) + tail;
  }

  /** What follows the verb starts with " with Twitch Prime" exactly when
      the Prime clause is present: otherwise it is empty, " for ..." or
      ": ...". */
  lemma PrimeReadBack(prime: string, months: string, tail: string, rest: string)
    requires rest == prime + months + tail
    requires prime == [] || prime == " with Twitch Prime"
    requires months == [] || (|months| > 1 && months[1] == 'f')
    requires tail == [] || tail[0] == ':'
    ensures StartsWith(rest, " with Twitch Prime") <==> prime != []
  {
    if prime != [] {
      assert rest[..18] == prime;
    } else if months != [] {
      assert rest[1] == 'f';
    } else if tail != [] {
      assert rest[0] == ':';
    }
  }

  /** A headline followed by a tail that is empty or starts with ':' reads
      back clause by clause: after the username and the verb comes
      " with Twitch Prime" exactly for a Prime subscription, a
      resubscription continues with its months in a row, and the tail
      follows the headline. */
  lemma HeadlineReadBack(username: string, sub: Subscription, tail: string, r: string)
    requires tail == [] || tail[0] == ':'
    requires r == SubscriptionHeadline(username, sub) + tail
    ensures |username + SubscriptionVerb(sub) + PrimeClause(sub) + MonthsClause(sub)| <= |r|
    ensures StartsWith(r[|username + SubscriptionVerb(sub)|..], " with Twitch Prime") <==> sub.prime
    ensures sub.resub ==>
      StartsWith(r[|username + SubscriptionVerb(sub) + PrimeClause(sub)|..], " for " + IntToDecimal(sub.months) + " months in a row")
    ensures r[|username + SubscriptionVerb(sub) + PrimeClause(sub) + MonthsClause(sub)|..] == tail
  {
    var months := MonthsClause(sub);
    if sub.resub {
      assert months[1] == 'f';
    }
    ClauseSlices(username + SubscriptionVerb(sub), PrimeClause(sub), months, tail, r);
    PrimeReadBack(PrimeClause(sub), months, tail, r[|username + SubscriptionVerb(sub)|..]);
  }

  /** A notice is its headline, followed by ": " and the processed message
      when the message is non-empty. */
  lemma SubscriptionParts(username: string, sub: Subscription, sets: seq<EmoteSet>,
                          bttv: map<string, BttvEmote>, template: Option<string>, r: string)
    requires template.None? ==> bttv == map[]
    requires r == SubscriptionHtml(username, sub, sets, bttv, template)
    ensures HasMessage(sub) ==> r == SubscriptionHeadline(username, sub) + (": " + ProcessMessage(sub.message.value, None, [], sets, bttv, template))
    ensures !HasMessage(sub) ==> r == SubscriptionHeadline(username, sub)
  {
  }

  /** A whole notice read back: the headline clauses as in
      `HeadlineReadBack`, then ": " and the processed message exactly when
      the message is non-empty, and otherwise nothing more. */
  lemma SubscriptionReadBack(username: string, sub: Subscription, sets: seq<EmoteSet>,
                             bttv: map<string, BttvEmote>, template: Option<string>, r: string)
    requires template.None? ==> bttv == map[]
    requires r == SubscriptionHtml(username, sub, sets, bttv, template)
    ensures |username + SubscriptionVerb(sub) + PrimeClause(sub) + MonthsClause(sub)| <= |r|
    ensures StartsWith(r[|username + SubscriptionVerb(sub)|..], " with Twitch Prime") <==> sub.prime
    ensures sub.resub ==>
      StartsWith(r[|username + SubscriptionVerb(sub) + PrimeClause(sub)|..], " for " + IntToDecimal(sub.months) + " months in a row")
    ensures HasMessage(sub) ==>
      r[|username + SubscriptionVerb(sub) + PrimeClause(sub) + MonthsClause(sub)|..]
        == ": " + ProcessMessage(sub.message.value, None, [], sets, bttv, template)
    ensures !HasMessage(sub) ==> |r| == |username + SubscriptionVerb(sub) + PrimeClause(sub) + MonthsClause(sub)|
  {
    SubscriptionParts(username, sub, sets, bttv, template, r);
    var tail := if HasMessage(sub) then ": " + ProcessMessage(sub.message.value, None, [], sets, bttv, template) else [];
    assert r == SubscriptionHeadline(username, sub) + tail;
    HeadlineReadBack(username, sub, tail, r);
  }

  // ------------------------------------------------------------------ findings

  lemma EscapeTwo(x: char, y: char)
    ensures EscapeHtml([x, y]) == EscapeChar(x) + EscapeChar(y)
  {
    assert [x, y] == [x] + [y];
    EscapeHtmlAppend([x], [y]);
    EscapeHtmlChar(x);
    EscapeHtmlChar(y);
  }

  lemma EscapeHeart()
    ensures EscapeHtml("<3") == "&lt;3"
  {
    EscapeHeartChars("<3");
  }

  lemma EscapeHeartChars(heart: string)
    requires |heart| == 2 && heart[0] == '<' && heart[1] == '3'
    ensures EscapeHtml(heart) == "&lt;3"
  {
    EscapeTwo(heart[0], heart[1]);
    assert heart == [heart[0], heart[1]];
  }

  /** Two decimal numbers joined by a dash split back into the two. */
  lemma SplitRange(start: nat, end: nat)
    ensures Split(NatToDecimal(start) + "-" + NatToDecimal(end), '-') == [NatToDecimal(start), NatToDecimal(end)]
  {
    var a, b := NatToDecimal(start), NatToDecimal(end);
    assert '-' !in a by { assert forall i :: 0 <= i < |a| ==> IsDecimalDigit(a[i]); }
    assert '-' !in b by { assert forall i :: 0 <= i < |b| ==> IsDecimalDigit(b[i]); }
    assert a + "-" + b == a + ['-'] + b;
    SplitAtFirst(a, b, '-');
    SplitNoSeparator(b, '-');
  }

  /** A position string `"s-e"` selects the characters `s` to `e`,
      both included. */
  lemma CodeAtRange(origText: string, start: nat, end: nat)
    ensures CodeAt(origText, NatToDecimal(start) + "-" + NatToDecimal(end)) == Slice(origText, Int(start), Int(end + 1))
  {
    var a, b := NatToDecimal(start), NatToDecimal(end);
    SplitRange(start, end);
    assert IntToDecimal(start) == a && IntToDecimal(end) == b;
    ParseIntOfDecimal(start);
    ParseIntOfDecimal(end);
    assert Add(Int(end), 1) == Int(end + 1);
  }

  lemma HeartWords()
    ensures Words("&lt;3") == ["&lt;3"]
  {
    NoSpaceOfVisibleAscii("&lt;3");
    WordsOfNoSpace("&lt;3");
  }

  /** The position string `0-1` selects the whole of `<3`. */
  lemma HeartCode()
    ensures CodeAt("<3", "0-1") == "<3"
  {
    assert NatToDecimal(0) == "0" && NatToDecimal(1) == "1";
    assert NatToDecimal(0) + "-" + NatToDecimal(1) == "0-1";
    CodeAtRange("<3", 0, 1);
    assert SliceIndex(Int(0), 2) == 0 && SliceIndex(Int(2), 2) == 2;
    assert "<3"[0..2] == "<3";
  }

  lemma HeartSubstitutions()
    ensures PositionSubstitutions("<3", [EmotePositions("9", ["0-1"])]) == [Substitution("<3", OfficialEmoteHtml("9"))]
  {
    OneRangeSubstitution("<3", "9", "0-1");
    HeartCode();
  }

  /** One emote with one position string yields one substitution. */
  lemma OneRangeSubstitution(origText: string, id: string, range: string)
    ensures PositionSubstitutions(origText, [EmotePositions(id, [range])])
      == [Substitution(CodeAt(origText, range), OfficialEmoteHtml(id))]
  {
    var e := EmotePositions(id, [range]);
    assert [e][1..] == [];
    assert PositionSubstitutions(origText, [e]) == RangeSubstitutions(origText, id, [range]) + [];
  }

  /** The raw code `<3` matches no escaped word. */
  lemma HeartKept()
    ensures ApplySubstitutions(["&lt;3"], [Substitution("<3", OfficialEmoteHtml("9"))]) == ["&lt;3"]
  {
    var subs := [Substitution("<3", OfficialEmoteHtml("9"))];
    assert "&lt;3" != "<3" by { assert |"&lt;3"| != |"<3"|; }
    assert SubstituteWord(["&lt;3"], subs[0]) == ["&lt;3"];
    assert subs[1..] == [];
  }

  /** A heart `<3` with its position never becomes an emote as written: the
      code `<3` is looked for among the escaped words, which say `&lt;3`. */
  lemma HeartEmoteLost()
    ensures InjectOfficialEmotesAsWritten(EscapeHtml("<3"), "<3", [EmotePositions("9", ["0-1"])]) == "&lt;3"
  {
    EscapeHeart();
    HeartWords();
    HeartSubstitutions();
    HeartKept();
    assert Join(["&lt;3"], " ") == "&lt;3";
  }

  lemma HeartEscapedSubstitutions()
    ensures EscapedCodes(PositionSubstitutions("<3", [EmotePositions("9", ["0-1"])]))
      == [Substitution("&lt;3", OfficialEmoteHtml("9"))]
  {
    HeartSubstitutions();
    EscapeHeart();
  }

  lemma HeartApplied()
    ensures ApplySubstitutions(["&lt;3"], [Substitution("&lt;3", OfficialEmoteHtml("9"))]) == [OfficialEmoteHtml("9")]
  {
    var sub := Substitution("&lt;3", OfficialEmoteHtml("9"));
    assert SubstituteWord(["&lt;3"], sub) == [OfficialEmoteHtml("9")];
  }

  /** Escaping the code first finds the heart. */
  lemma HeartEmoteFound()
    ensures InjectOfficialEmotes(EscapeHtml("<3"), "<3", [EmotePositions("9", ["0-1"])]) == OfficialEmoteHtml("9")
  {
    EscapeHeart();
    HeartWords();
    HeartEscapedSubstitutions();
    HeartApplied();
  }
}
