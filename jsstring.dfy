/**
 * The JavaScript string built-ins the chat client relies on, stated over
 * `seq<char>`: the `\s` character class, `trim`, `split`, `substr`,
 * `lastIndexOf`, `startsWith`, `includes`, `toLowerCase`, `replace` with a
 * string pattern, and `split(/\s+/)` / `join(' ')` on words.
 */
module JsString {
  import opened Wrappers

  /** The characters matched by `\s` in a JavaScript regular expression
      (WhiteSpace and LineTerminator); `trim` strips the same set. */
  predicate IsSpace(c: char) {
    c == ' ' || c == '\t' || c == '\n' || c == '\U{000B}' || c == '\U{000C}' || c == '\r'
    || c == '\U{00A0}' || c == '\U{1680}' || ('\U{2000}' <= c <= '\U{200A}')
    || c == '\U{2028}' || c == '\U{2029}' || c == '\U{202F}' || c == '\U{205F}'
    || c == '\U{3000}' || c == '\U{FEFF}'
  }

  predicate NoSpace(s: string) {
    forall i :: 0 <= i < |s| ==> !IsSpace(s[i])
  }

  /** Printable ASCII other than the space is never whitespace. */
  lemma NoSpaceOfVisibleAscii(s: string)
    requires forall i :: 0 <= i < |s| ==> '!' <= s[i] <= '~'
    ensures NoSpace(s)
  {
  }

  predicate AllSpace(s: string) {
    forall i :: 0 <= i < |s| ==> IsSpace(s[i])
  }

  /** The length of the whitespace run that starts `s`. */
  function LeadingSpaces(s: string): (n: nat)
    ensures n <= |s|
    ensures AllSpace(s[..n])
    ensures n < |s| ==> !IsSpace(s[n])
    decreases |s|
  {
    if |s| > 0 && IsSpace(s[0]) then 1 + LeadingSpaces(s[1..]) else 0
  }

  /** `s` with its leading whitespace removed. */
  function TrimStart(s: string): (r: string)
    ensures |r| <= |s| && r == s[|s| - |r|..]
    ensures AllSpace(s[..|s| - |r|])
    ensures r == [] || !IsSpace(r[0])
  {
    s[LeadingSpaces(s)..]
  }

  /** The length of the whitespace run that ends `s`. */
  function TrailingSpaces(s: string): (n: nat)
    ensures n <= |s|
    ensures forall i :: |s| - n <= i < |s| ==> IsSpace(s[i])
    ensures n < |s| ==> !IsSpace(s[|s| - n - 1])
    decreases |s|
  {
    if |s| > 0 && IsSpace(s[|s| - 1]) then 1 + TrailingSpaces(s[..|s| - 1]) else 0
  }

  /** `String.prototype.trim`. */
  function Trim(s: string): string {
    TrimStart(s[..|s| - TrailingSpaces(s)])
  }

  /** A string trims to nothing exactly when it is all whitespace. */
  lemma TrimEmptyIffAllSpace(s: string)
    ensures Trim(s) == [] <==> AllSpace(s)
  {
    if Trim(s) == [] {
      TrimEmptyIsAllSpace(s);
    } else {
      TrimNonEmptyHasVisible(s);
    }
  }

  /** Trimming to nothing means every character was whitespace. */
  lemma TrimEmptyIsAllSpace(s: string)
    requires Trim(s) == []
    ensures AllSpace(s)
  {
    var n := TrailingSpaces(s);
    var core := s[..|s| - n];
    assert AllSpace(core[..|core|]);
    assert |core| == 0;
    assert s == s[|s| - n..];
  }

  /** A non-empty trim starts with a character of `s` that is not whitespace. */
  lemma TrimNonEmptyHasVisible(s: string)
    requires Trim(s) != []
    ensures !AllSpace(s)
  {
    var n := TrailingSpaces(s);
    var core := s[..|s| - n];
    var r := Trim(s);
    assert r == core[|core| - |r|..];
    assert !IsSpace(r[0]) && r[0] == s[|core| - |r|];
  }

  /** `s.startsWith(p)`. */
  predicate StartsWith(s: string, p: string) {
    |p| <= |s| && s[..|p|] == p
  }

  /** A prefix of `s` stays a prefix of anything `s` is extended to. */
  lemma StartsWithExtended(s: string, t: string, p: string)
    requires StartsWith(s, p)
    ensures StartsWith(s + t, p)
  {
    assert (s + t)[..|p|] == s[..|p|];
  }

  /** `s.includes(sub)`. */
  predicate Contains(s: string, sub: string)
    decreases |s|
  {
    StartsWith(s, sub) || (|s| > 0 && Contains(s[1..], sub))
  }

  /** `s.substr(start, length)`, for a non-negative `start`. */
  function Substr(s: string, start: nat, length: int): (r: string)
    ensures start <= |s| && 0 <= length <= |s| - start ==> r == s[start..start + length]
    ensures start <= |s| && length > |s| - start ==> r == s[start..]
  {
    var from := if start < |s| then start else |s|;
    var len := if length < 0 then 0 else if length > |s| - from then |s| - from else length;
    s[from..from + len]
  }

  /** `s.substr(start)`: everything from `start` on. */
  function SubstrFrom(s: string, start: nat): string {
    if start < |s| then s[start..] else ""
  }

  /** `s.lastIndexOf(c, from)` for a one-character search string: the last
      position at or before `from` (a negative `from` counts as 0) that holds
      `c`, or -1. */
  function LastIndexOf(s: string, c: char, from: int): (k: int)
    ensures -1 <= k < |s|
    ensures k >= 0 ==> s[k] == c && k <= (if from < 0 then 0 else from)
    ensures forall j :: k < j < |s| && j <= (if from < 0 then 0 else from) ==> s[j] != c
  {
    var start := if from < 0 then 0 else from;
    LastBefore(s, c, if start + 1 < |s| then start + 1 else |s|)
  }

  /** The last index below `n` holding `c`, or -1. */
  function LastBefore(s: string, c: char, n: nat): (k: int)
    requires n <= |s|
    ensures -1 <= k < n
    ensures k >= 0 ==> s[k] == c
    ensures forall j :: k < j < n ==> s[j] != c
  {
    if n == 0 then -1 else if s[n - 1] == c then n - 1 else LastBefore(s, c, n - 1)
  }

  /** `toLowerCase` on the ASCII letters. */
  function LowerChar(c: char): char {
    if 'A' <= c <= 'Z' then (c as int + 32) as char else c
  }

  function Lower(s: string): (r: string)
    ensures |r| == |s|
  {
    seq(|s|, i requires 0 <= i < |s| => LowerChar(s[i]))
  }

  /** `x.toLowerCase().startsWith(fragment.toLowerCase())`. */
  predicate StartsWithIgnoringCase(x: string, fragment: string) {
    StartsWith(Lower(x), Lower(fragment))
  }

  /** `s.split(c)` for a one-character separator. */
  function Split(s: string, c: char): (parts: seq<string>)
    ensures |parts| >= 1
    decreases |s|
  {
    if |s| == 0 then [""]
    else
      var rest := Split(s[1..], c);
      if s[0] == c then [""] + rest else [[s[0]] + rest[0]] + rest[1..]
  }

  lemma {:induction false} SplitNoSeparator(s: string, c: char)
    requires c !in s
    ensures Split(s, c) == [s]
    decreases |s|
  {
    if |s| > 0 {
      SplitNoSeparator(s[1..], c);
      assert [s[0]] + s[1..] == s;
    }
  }

  /** Splitting `u c v` where `u` holds no `c` yields `u` followed by the parts of `v`. */
  lemma {:induction false} SplitAtFirst(u: string, v: string, c: char)
    requires c !in u
    ensures Split(u + [c] + v, c) == [u] + Split(v, c)
    decreases |u|
  {
    var s := u + [c] + v;
    if |u| == 0 {
      assert s[1..] == v;
    } else {
      assert s[1..] == u[1..] + [c] + v;
      SplitAtFirst(u[1..], v, c);
      assert [u[0]] + u[1..] == u;
    }
  }

  /** The index of the first occurrence of `pat` in `s`. */
  function IndexOf(s: string, pat: string): (r: Option<nat>)
    ensures r.Some? ==> r.value + |pat| <= |s| && s[r.value..r.value + |pat|] == pat
    ensures r.Some? ==> forall j :: 0 <= j < r.value ==> !StartsWith(s[j..], pat)
    ensures r.None? ==> forall j :: 0 <= j <= |s| ==> !StartsWith(s[j..], pat)
    decreases |s|
  {
    if StartsWith(s, pat) then Some(0)
    else if |s| == 0 then None
    else
      match IndexOf(s[1..], pat)
      case None => NoMatchShift(s, pat, |s|); None
      case Some(k) => NoMatchShift(s, pat, k); MatchShift(s, pat, k); Some(k + 1)
  }

  /** A match at `k` in the tail is a match at `k + 1`. */
  lemma MatchShift(s: string, pat: string, k: nat)
    requires 0 < |s| && k + |pat| <= |s| - 1 && s[1..][k..k + |pat|] == pat
    ensures s[k + 1..k + 1 + |pat|] == pat
  {
    assert s[1..][k..k + |pat|] == s[k + 1..k + 1 + |pat|];
  }

  /** No match among the first `n` positions of the tail and none at the
      head: no match among the first `n + 1` positions. */
  lemma NoMatchShift(s: string, pat: string, n: nat)
    requires 0 < |s| && n <= |s| && !StartsWith(s, pat)
    requires forall j :: 0 <= j < n ==> !StartsWith(s[1..][j..], pat)
    ensures forall j :: 0 <= j < n + 1 ==> !StartsWith(s[j..], pat)
  {
    forall j | 1 <= j < n + 1 ensures !StartsWith(s[j..], pat) {
      assert s[j..] == s[1..][j - 1..];
    }
  }

  /** `s.replace(pat, rep)` with a string pattern: only the first occurrence.
      The `$` patterns of a replacement string are not interpreted. */
  function ReplaceFirst(s: string, pat: string, rep: string): string {
    match IndexOf(s, pat)
    case None => s
    case Some(i) => s[..i] + rep + s[i + |pat|..]
  }

  /** Replacing the first occurrence of a pattern whose first character
      does not occur before it. */
  lemma ReplaceFirstAt(x: string, pat: string, y: string, rep: string)
    requires |pat| > 0 && pat[0] !in x
    ensures ReplaceFirst(x + pat + y, pat, rep) == x + rep + y
  {
    var s := x + pat + y;
    assert StartsWith(s[|x|..], pat) by { assert s[|x|..][..|pat|] == pat; }
    match IndexOf(s, pat)
    case None =>
    case Some(i) =>
      assert s[..|x|] == x && s[|x| + |pat|..] == y;
  }

  /** `words.join(sep)`. */
  function Join(ws: seq<string>, sep: string): string
    decreases |ws|
  {
    if |ws| == 0 then "" else if |ws| == 1 then ws[0] else ws[0] + sep + Join(ws[1..], sep)
  }

  /** `s.split(/\s+/)`: the pieces between maximal whitespace runs.  Only the
      first and the last piece can be empty (leading / trailing whitespace). */
  function Words(s: string): (ws: seq<string>)
    ensures |ws| >= 1
    ensures forall k :: 0 <= k < |ws| ==> NoSpace(ws[k])
    ensures forall k :: 0 < k < |ws| - 1 ==> ws[k] != ""
    ensures |s| > 0 && !IsSpace(s[0]) ==> ws[0] != ""
    decreases |s|
  {
    if |s| == 0 then [""]
    else if IsSpace(s[0]) then [""] + Words(TrimStart(s[1..]))
    else
      var rest := Words(s[1..]);
      [[s[0]] + rest[0]] + rest[1..]
  }

  /** What `Words` can produce: at least one piece, none holding whitespace,
      no empty piece in the interior. */
  predicate IsWordList(ws: seq<string>) {
    && |ws| >= 1
    && (forall k :: 0 <= k < |ws| ==> NoSpace(ws[k]))
    && (forall k :: 0 < k < |ws| - 1 ==> ws[k] != "")
  }

  lemma {:induction false} WordsBeforeSpace(w: string, t: string)
    requires NoSpace(w)
    requires t == [] || !IsSpace(t[0])
    ensures Words(w + " " + t) == [w] + Words(t)
    decreases |w|
  {
    var s := w + " " + t;
    if |w| == 0 {
      assert s[1..] == t;
    } else {
      assert s[1..] == w[1..] + " " + t;
      WordsBeforeSpace(w[1..], t);
      assert [w[0]] + w[1..] == w;
    }
  }

  lemma {:induction false} WordsOfNoSpace(w: string)
    requires NoSpace(w)
    ensures Words(w) == [w]
    decreases |w|
  {
    if |w| > 0 {
      WordsOfNoSpace(w[1..]);
      assert [w[0]] + w[1..] == w;
    }
  }

  /** Splitting a single-space join of a word list gives the list back. */
  lemma {:induction false} WordsOfJoin(ws: seq<string>)
    requires IsWordList(ws)
    ensures Words(Join(ws, " ")) == ws
    decreases |ws|
  {
    if |ws| == 1 {
      WordsOfNoSpace(ws[0]);
    } else {
      var rest := ws[1..];
      assert IsWordList(rest) by {
        forall k | 0 < k < |rest| - 1 ensures rest[k] != "" { assert rest[k] == ws[k + 1]; }
      }
      WordsOfJoin(rest);
      var t := Join(rest, " ");
      if rest[0] == "" {
        assert |rest| == 1;
      } else {
        JoinStartsWithFirst(rest);
      }
      WordsBeforeSpace(ws[0], t);
    }
  }

  lemma JoinStartsWithFirst(ws: seq<string>)
    requires |ws| >= 1 && ws[0] != ""
    ensures |Join(ws, " ")| > 0 && Join(ws, " ")[0] == ws[0][0]
  {
  }

  /** Splitting into words and re-joining with single spaces is idempotent. */
  lemma WordsJoinIdempotent(s: string)
    ensures Words(Join(Words(s), " ")) == Words(s)
  {
    WordsOfJoin(Words(s));
  }
}
