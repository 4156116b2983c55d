/**
 * The pieces of View.js `doAutoComplete`: the word being completed, the
 * candidates offered for it and the text after a candidate is put in.
 * The record the view keeps between Tab presses is `AutoCompleteState`.
 */
module Autocomplete {
  import opened Wrappers
  import opened JsString
  import opened JsSort
  import opened Util

  /** The `autocomplete` record: `fragment` is `None` (null) when no session
      is running; `candidates` is `[]` where the record holds null. */
  datatype AutoCompleteState = AutoCompleteState(
    fragment: Option<string>,
    candidates: seq<string>,
    nextCandidate: nat,
    cursorPos: Option<int>,
    replaceStart: nat)

  const InitialState := AutoCompleteState(None, [], 0, None, 0)

  /** A running session has a candidate to offer, left the caret after the
      replacement start, and offers only words that start with its fragment
      regardless of case. */
  predicate Consistent(ac: AutoCompleteState) {
    ac.fragment.Some? ==>
      && ac.nextCandidate < |ac.candidates|
      && ac.cursorPos.Some? && ac.replaceStart < ac.cursorPos.value
      && forall x :: x in ac.candidates ==> StartsWithIgnoringCase(x, ac.fragment.value)
  }

  /** The record, the input box's text and the caret after a Tab press. */
  datatype TabResult = TabResult(state: AutoCompleteState, text: string, caret: Option<nat>)

  /** `text.lastIndexOf(" ", cursorPos - 2) + 1`: just after the last space
      at or before `cursorPos - 2`, or 0. */
  function ReplaceStart(text: string, caret: int): (r: nat)
    ensures r <= |text|
    ensures 0 < r ==> text[r - 1] == ' ' && r - 1 <= (if caret >= 2 then caret - 2 else 0)
    ensures forall j :: r <= j < |text| && j <= (if caret >= 2 then caret - 2 else 0) ==> text[j] != ' '
    ensures caret >= 1 ==> r <= caret
  {
    LastIndexOf(text, ' ', caret - 2) + 1
  }

  /** `text.substr(replaceStart, cursorPos).rtrim()`: `cursorPos` is taken
      as a length, so the fragment can run past the caret. */
  function Fragment(text: string, caret: nat): string {
    Rtrim(Substr(text, ReplaceStart(text, caret), caret))
  }

  /** `words.filter(w => w.toLowerCase().startsWith(fragment.toLowerCase()))`. */
  function Qualifying(words: seq<string>, fragment: string): (r: seq<string>)
    ensures forall x :: x in r <==> x in words && StartsWithIgnoringCase(x, fragment)
    ensures |r| <= |words|
    ensures forall x :: multiset(r)[x] == if StartsWithIgnoringCase(x, fragment) then multiset(words)[x] else 0
    decreases |words|
  {
    if |words| == 0 then []
    else
      var last := words[|words| - 1];
      assert words == words[..|words| - 1] + [last];
      Qualifying(words[..|words| - 1], fragment) + (if StartsWithIgnoringCase(last, fragment) then [last] else [])
  }

  /** `recentChatters.map(x => '@' + x)`. */
  function AtNames(chatters: seq<string>): seq<string> {
    seq(|chatters|, i requires 0 <= i < |chatters| => "@" + chatters[i])
  }

  /** The unsorted candidate list: `@`-prefixed chatters for a fragment that
      starts with `@`, otherwise the usable emotes followed by the chatters. */
  function Unsorted(fragment: string, chatters: seq<string>, emotes: seq<string>): seq<string> {
    if StartsWith(fragment, "@") then Qualifying(AtNames(chatters), fragment)
    else Qualifying(emotes, fragment) + Qualifying(chatters, fragment)
  }

  /** `candidates.sort()`. */
  function Candidates(fragment: string, chatters: seq<string>, emotes: seq<string>): seq<string> {
    SortStrings(Unsorted(fragment, chatters, emotes))
  }

  /** `text.substr(0, replaceStart).concat(candidate + " ", text.substr(cursorPos))`. */
  function Completed(text: string, replaceStart: nat, caret: nat, candidate: string): string {
    Substr(text, 0, replaceStart) + (candidate + " ") + SubstrFrom(text, caret)
  }

  /** `doAutoComplete` on the text and caret of the input box: nothing on
      empty text or a caret that is null or 0; otherwise the session is
      reset when the caret is not where the last completion left it, a new
      session is started when none runs (nothing happens for an empty
      fragment or when no candidate qualifies), and the next candidate is
      put in. */
  function TabPress(ac: AutoCompleteState, text: string, caret: Option<nat>,
                    chatters: seq<string>, emotes: seq<string>): TabResult
    requires Consistent(ac)
  {
    if |text| == 0 || caret.None? || caret.value == 0 then TabResult(ac, text, caret)
    else
      var c := caret.value;
      var current := if ac.cursorPos != Some(c as int) then ac.(fragment := None) else ac;
      if current.fragment.Some? then Advance(current, text, c)
      else
        var f := Fragment(text, c);
        var cs := Candidates(f, chatters, emotes);
        if |f| == 0 || |cs| == 0 then TabResult(current, text, caret)
        else Advance(AutoCompleteState(Some(f), cs, 0, current.cursorPos, ReplaceStart(text, c)), text, c)
  }

  /** Puts the session's next candidate in and moves on to the one after. */
  function Advance(ac: AutoCompleteState, text: string, caret: nat): TabResult
    requires ac.nextCandidate < |ac.candidates|
  {
    var candidate := ac.candidates[ac.nextCandidate];
    var pos := ac.replaceStart + |candidate| + 1;
    TabResult(
      ac.(cursorPos := Some(pos), nextCandidate := (ac.nextCandidate + 1) % |ac.candidates|),
      Completed(text, ac.replaceStart, caret, candidate),
      Some(pos))
  }

  // ----------------------------------------------------------------- lemmas

  /** The candidates are sorted, are as many as the filters pass, and are
      exactly the words starting with the fragment regardless of case: the
      `@`-prefixed chatter names for an `@` fragment, otherwise the usable
      emotes and the chatter names. */
  lemma CandidatesQualify(fragment: string, chatters: seq<string>, emotes: seq<string>)
    ensures var cs := Candidates(fragment, chatters, emotes);
      && Sorted(cs)
      && multiset(cs) == multiset(Unsorted(fragment, chatters, emotes))
      && forall c :: c in cs <==>
           && StartsWithIgnoringCase(c, fragment)
           && (if StartsWith(fragment, "@") then exists x :: x in chatters && c == "@" + x
               else c in emotes || c in chatters)
  {
    var cs := Candidates(fragment, chatters, emotes);
    var u := Unsorted(fragment, chatters, emotes);
    forall c
      ensures c in cs <==> c in u
    {
      assert c in cs <==> c in multiset(cs);
      assert c in u <==> c in multiset(u);
    }
    if StartsWith(fragment, "@") {
      var names := AtNames(chatters);
      forall c
        ensures c in names <==> exists x :: x in chatters && c == "@" + x
      {
        if c in names {
          var i :| 0 <= i < |names| && names[i] == c;
          assert chatters[i] in chatters;
        }
        if exists x :: x in chatters && c == "@" + x {
          var x :| x in chatters && c == "@" + x;
          var i :| 0 <= i < |chatters| && chatters[i] == x;
          assert names[i] == c;
        }
      }
    }
  }

  /** Putting a candidate in keeps the text before `replaceStart` and from
      the caret on, with the candidate and one space between them; the caret
      it leaves is right after that space. */
  lemma CompletedSplice(text: string, replaceStart: nat, caret: nat, candidate: string)
    requires replaceStart <= caret <= |text|
    ensures var r := Completed(text, replaceStart, caret, candidate);
      var newCaret := replaceStart + |candidate| + 1;
      && r == text[..replaceStart] + candidate + " " + text[caret..]
      && |r| == |text| - (caret - replaceStart) + |candidate| + 1
      && r[..newCaret] == text[..replaceStart] + candidate + " "
      && r[newCaret..] == text[caret..]
  {
    var r := Completed(text, replaceStart, caret, candidate);
    assert SubstrFrom(text, caret) == text[caret..];
    assert r == text[..replaceStart] + candidate + " " + text[caret..];
    assert r == (text[..replaceStart] + candidate + " ") + text[caret..];
  }

  /** The fragment reads past the caret: with the caret inside the
      space-free rest of the text that follows a space at `start - 1`, and
      `caret` at least that rest's length, the fragment is the whole rest
      rather than the part before the caret. */
  lemma FragmentRunsPastCaret(text: string, start: nat, caret: nat)
    requires 0 < start < caret && start <= |text| && |text| - start <= caret
    requires text[start - 1] == ' ' && NoSpace(text[start..])
    ensures Fragment(text, caret) == text[start..]
  {
    ReplaceStartAfterSpace(text, start, caret);
    assert Substr(text, start, caret) == text[start..];
    RtrimNoSpace(text[start..]);
  }

  /** Inside the space-free rest of the text after a space, the replacement
      starts just after that space. */
  lemma ReplaceStartAfterSpace(text: string, start: nat, caret: int)
    requires 0 < start <= |text| && start + 1 <= caret
    requires text[start - 1] == ' ' && NoSpace(text[start..])
    ensures ReplaceStart(text, caret) == start
  {
    assert forall k :: start <= k < |text| ==> !IsSpace(text[k]) by {
      forall k | start <= k < |text| ensures !IsSpace(text[k]) {
        assert text[k] == text[start..][k - start];
      }
    }
  }

  lemma RtrimNoSpace(word: string)
    requires NoSpace(word)
    ensures Rtrim(word) == word
  {
    if |word| > 0 {
      assert !IsSpace(word[|word| - 1]);
    }
  }

  /** With the text `x abc` and the caret after `ab`, the fragment is `abc`. */
  lemma FragmentRunsPastCaretExample()
    ensures Fragment("x abc", 4) == "abc"
  {
    FragmentOfOneLetterAndWord("x abc");
  }

  /** With a letter, a space and a three-letter word, and the caret after
      the word's second letter, the fragment is the whole word. */
  lemma FragmentOfOneLetterAndWord(text: string)
    requires |text| == 5 && text[0] != ' ' && text[1] == ' '
    requires '!' <= text[2] <= '~' && '!' <= text[3] <= '~' && '!' <= text[4] <= '~'
    ensures Fragment(text, 4) == text[2..]
  {
    NoSpaceOfVisibleAscii(text[2..]);
    FragmentRunsPastCaret(text, 2, 4);
  }

  /** A Tab press changes nothing on empty text, on a caret that is null
      or 0, and, when no session runs at the caret, on an empty fragment or
      when no candidate qualifies; then no session runs afterwards. */
  lemma TabPressNoOp(ac: AutoCompleteState, text: string, caret: Option<nat>,
                     chatters: seq<string>, emotes: seq<string>)
    requires Consistent(ac)
    ensures |text| == 0 || caret.None? || caret == Some(0) ==>
      TabPress(ac, text, caret, chatters, emotes) == TabResult(ac, text, caret)
    ensures |text| > 0 && caret.Some? && caret.value > 0 && !(ac.fragment.Some? && ac.cursorPos == Some(caret.value as int)) ==>
      var f := Fragment(text, caret.value);
      var r := TabPress(ac, text, caret, chatters, emotes);
      (|f| == 0 || |Candidates(f, chatters, emotes)| == 0) ==>
        r.text == text && r.caret == caret && r.state.fragment.None?
  {
  }

  /** The first Tab press of a session puts in the first of the sorted
      candidates for the fragment: the text keeps what precedes the
      replacement start and what follows the caret, and the caret ends up
      after the candidate and its space. */
  lemma TabPressStarts(ac: AutoCompleteState, text: string, c: nat, chatters: seq<string>, emotes: seq<string>)
    requires Consistent(ac)
    requires 0 < c <= |text|
    requires !(ac.fragment.Some? && ac.cursorPos == Some(c as int))
    requires |Fragment(text, c)| > 0 && |Candidates(Fragment(text, c), chatters, emotes)| > 0
    ensures var f := Fragment(text, c);
      var cs := Candidates(f, chatters, emotes);
      var rs := ReplaceStart(text, c);
      TabPress(ac, text, Some(c), chatters, emotes)
        == FirstCompletion(f, cs, rs, text, c)
  {
    TabPressStartsSession(ac, text, c, chatters, emotes);
    AdvanceFirst(TabPress(ac, text, Some(c), chatters, emotes), Fragment(text, c),
                 Candidates(Fragment(text, c), chatters, emotes), ac.cursorPos, ReplaceStart(text, c), text, c);
  }

  /** The three outcomes of a Tab press on text with the caret past its
      start: a session running at the caret advances; otherwise, after the
      record is reset, nothing happens without a fragment and candidates,
      and a new session is started and advanced with them. */
  lemma TabPressCases(r: TabResult, ac: AutoCompleteState, text: string, c: nat,
                      chatters: seq<string>, emotes: seq<string>)
    requires Consistent(ac) && 0 < c && 0 < |text|
    requires r == TabPress(ac, text, Some(c), chatters, emotes)
    ensures var current := if ac.cursorPos != Some(c as int) then ac.(fragment := None) else ac;
      var f := Fragment(text, c);
      var cs := Candidates(f, chatters, emotes);
      && (current.fragment.Some? ==> r == Advance(current, text, c))
      && (current.fragment.None? && (|f| == 0 || |cs| == 0) ==> r == TabResult(current, text, Some(c)))
      && (current.fragment.None? && |f| > 0 && |cs| > 0 ==>
            r == Advance(AutoCompleteState(Some(f), cs, 0, current.cursorPos, ReplaceStart(text, c)), text, c))
  {
  }

  /** With no session at the caret and a fragment that has candidates, a
      Tab press starts a session and advances it. */
  lemma TabPressStartsSession(ac: AutoCompleteState, text: string, c: nat,
                              chatters: seq<string>, emotes: seq<string>)
    requires Consistent(ac)
    requires 0 < c <= |text|
    requires !(ac.fragment.Some? && ac.cursorPos == Some(c as int))
    requires |Fragment(text, c)| > 0 && |Candidates(Fragment(text, c), chatters, emotes)| > 0
    ensures var f := Fragment(text, c);
      TabPress(ac, text, Some(c), chatters, emotes)
        == Advance(AutoCompleteState(Some(f), Candidates(f, chatters, emotes), 0, ac.cursorPos, ReplaceStart(text, c)), text, c)
  {
  }

  /** The outcome of the first Tab press of a session on fragment `f` with
      candidates `cs` replacing from `rs`: the first candidate and a space
      go in, the caret lands after them, and the next candidate is the
      second (or the first again when there is only one). */
  function FirstCompletion(f: string, cs: seq<string>, rs: nat, text: string, c: nat): (r: TabResult)
    requires 0 < |cs| && rs <= c <= |text|
    ensures r.state.fragment == Some(f) && r.state.candidates == cs && r.state.replaceStart == rs
    ensures r.state.nextCandidate == (if |cs| == 1 then 0 else 1)
    ensures r.text == text[..rs] + cs[0] + " " + text[c..]
    ensures r.caret == r.state.cursorPos == Some(rs + |cs[0]| + 1)
  {
    TabResult(AutoCompleteState(Some(f), cs, if |cs| == 1 then 0 else 1, Some(rs + |cs[0]| + 1), rs),
              text[..rs] + cs[0] + " " + text[c..], Some(rs + |cs[0]| + 1))
  }

  /** The first step of a new session puts in the first candidate. */
  lemma AdvanceFirst(r: TabResult, f: string, cs: seq<string>, cursor: Option<int>, rs: nat, text: string, c: nat)
    requires 0 < |cs| && rs <= c <= |text|
    requires r == Advance(AutoCompleteState(Some(f), cs, 0, cursor, rs), text, c)
    ensures r == FirstCompletion(f, cs, rs, text, c)
  {
    AdvanceSplices(AutoCompleteState(Some(f), cs, 0, cursor, rs), text, c);
  }

  /** What `Advance` puts in, in terms of the text around the candidate. */
  lemma AdvanceSplices(ac: AutoCompleteState, text: string, c: nat)
    requires ac.nextCandidate < |ac.candidates| && ac.replaceStart <= c <= |text|
    ensures var candidate := ac.candidates[ac.nextCandidate];
      var pos := ac.replaceStart + |candidate| + 1;
      Advance(ac, text, c) == TabResult(
        ac.(cursorPos := Some(pos), nextCandidate := (ac.nextCandidate + 1) % |ac.candidates|),
        text[..ac.replaceStart] + candidate + " " + text[c..],
        Some(pos))
  {
    CompletedSplice(text, ac.replaceStart, c, ac.candidates[ac.nextCandidate]);
  }

  /** Further Tab presses with the caret where the last one left it cycle
      through the candidates: the fragment, the candidates and the
      replacement start stay, the next candidate replaces the previous one,
      and the index advances modulo the candidate count. */
  lemma TabPressCycles(ac: AutoCompleteState, text: string, c: nat,
                       chatters: seq<string>, emotes: seq<string>)
    requires Consistent(ac) && ac.fragment.Some? && ac.cursorPos == Some(c as int)
    requires c <= |text|
    ensures var candidate := ac.candidates[ac.nextCandidate];
      var r := TabPress(ac, text, Some(c), chatters, emotes);
      && r.state.fragment == ac.fragment && r.state.candidates == ac.candidates
      && r.state.replaceStart == ac.replaceStart
      && r.state.nextCandidate == (ac.nextCandidate + 1) % |ac.candidates|
      && r.text == text[..ac.replaceStart] + candidate + " " + text[c..]
      && r.caret == r.state.cursorPos == Some(ac.replaceStart + |candidate| + 1)
  {
    AdvanceSplices(ac, text, c);
  }

  /** Advancing a session whose candidates all match its fragment leaves a
      consistent record. */
  lemma AdvanceConsistent(r: TabResult, ac: AutoCompleteState, text: string, c: nat)
    requires ac.fragment.Some? && ac.nextCandidate < |ac.candidates|
    requires forall x :: x in ac.candidates ==> StartsWithIgnoringCase(x, ac.fragment.value)
    requires r == Advance(ac, text, c)
    ensures Consistent(r.state)
  {
  }

  /** A Tab press keeps the record consistent. */
  lemma TabPressConsistent(ac: AutoCompleteState, text: string, caret: Option<nat>,
                           chatters: seq<string>, emotes: seq<string>)
    requires Consistent(ac)
    ensures Consistent(TabPress(ac, text, caret, chatters, emotes).state)
  {
    if |text| > 0 && caret.Some? && caret.value > 0 {
      var c := caret.value;
      var current := if ac.cursorPos != Some(c as int) then ac.(fragment := None) else ac;
      if current.fragment.Some? {
        AdvanceConsistent(TabPress(ac, text, caret, chatters, emotes), current, text, c);
      } else {
        var f := Fragment(text, c);
        var cs := Candidates(f, chatters, emotes);
        if |f| > 0 && |cs| > 0 {
          CandidatesQualify(f, chatters, emotes);
          AdvanceConsistent(TabPress(ac, text, caret, chatters, emotes),
                            AutoCompleteState(Some(f), cs, 0, current.cursorPos, ReplaceStart(text, c)), text, c);
        }
      }
    }
  }
}
