/**
 * Util.js: right-trimming, zero padding and HTML escaping.
 */
module Util {
  import opened JsString
  import opened JsNumber

  /** `s.replace(/\s+$/, '')`. */
  function Rtrim(s: string): string {
    s[..|s| - TrailingSpaces(s)]
  }

  /** Right-trimming keeps the longest prefix of `s` that does not end in
      whitespace; everything cut off is whitespace. */
  lemma RtrimTrims(s: string)
    ensures var r := Rtrim(s);
      && |r| <= |s| && r == s[..|r|]
      && AllSpace(s[|r|..])
      && (r == [] || !IsSpace(r[|r| - 1]))
  {
    var n := TrailingSpaces(s);
    assert Rtrim(s) == s[..|s| - n];
    if n < |s| {
      assert Rtrim(s)[|s| - n - 1] == s[|s| - n - 1];
    }
  }

  /** Right-trimming twice is right-trimming once. */
  lemma RtrimIdempotent(s: string)
    ensures Rtrim(Rtrim(s)) == Rtrim(s)
  {
    RtrimTrims(s);
    var r := Rtrim(s);
    assert TrailingSpaces(r) == 0 by {
      if |r| > 0 { assert !IsSpace(r[|r| - 1]); }
    }
    assert r[..|r|] == r;
  }

  /** `padZeros(num, size)`: the decimal form of `num` with '0' characters
      prepended until it is `size` characters long. */
  method PadZeros(num: int, size: int) returns (s: string)
    ensures var d := IntToDecimal(num);
      && |s| == (if |d| < size then size else |d|)
      && s[|s| - |d|..] == d
      && forall i :: 0 <= i < |s| - |d| ==> s[i] == '0'
  {
    ghost var d := IntToDecimal(num);
    s := IntToDecimal(num);
    while |s| < size
      invariant |d| <= |s| <= (if |d| < size then size else |d|)
      invariant s[|s| - |d|..] == d
      invariant forall i :: 0 <= i < |s| - |d| ==> s[i] == '0'
      decreases size - |s|
    {
      s := "0" + s;
    }
  }

  /** `s.replace(new RegExp(c, 'g'), rep)` for a one-character pattern. */
  function ReplaceAll(s: string, c: char, rep: string): string
    decreases |s|
  {
    if |s| == 0 then "" else (if s[0] == c then rep else [s[0]]) + ReplaceAll(s[1..], c, rep)
  }

  /** `escapeHtml(unsafe)`: the five replacements, `&` first. */
  function EscapeHtml(s: string): string {
    var a := ReplaceAll(s, '&', "&amp;");
    var b := ReplaceAll(a, '<', "&lt;");
    var c := ReplaceAll(b, '>', "&gt;");
    var d := ReplaceAll(c, '"', "&quot;");
    ReplaceAll(d, '\'', "&#039;")
  }

  predicate IsHtmlSpecial(c: char) {
    c == '&' || c == '<' || c == '>' || c == '"' || c == '\''
  }

  /** The entity each character becomes. */
  function EscapeChar(c: char): string {
    if c == '&' then "&amp;"
    else if c == '<' then "&lt;"
    else if c == '>' then "&gt;"
    else if c == '"' then "&quot;"
    else if c == '\'' then "&#039;"
    else [c]
  }

  /** Reference escaping: every character replaced by its entity, independently. */
  function EscapeEach(s: string): string
    decreases |s|
  {
    if |s| == 0 then "" else EscapeChar(s[0]) + EscapeEach(s[1..])
  }

  /** Reads entities back into the characters they stand for. */
  function Unescape(t: string): string
    decreases |t|
  {
    if |t| == 0 then ""
    else if StartsWith(t, "&amp;") then "&" + Unescape(t[5..])
    else if StartsWith(t, "&lt;") then "<" + Unescape(t[4..])
    else if StartsWith(t, "&gt;") then ">" + Unescape(t[4..])
    else if StartsWith(t, "&quot;") then "\"" + Unescape(t[6..])
    else if StartsWith(t, "&#039;") then "'" + Unescape(t[6..])
    else [t[0]] + Unescape(t[1..])
  }

  lemma {:induction false} ReplaceAllAppend(a: string, b: string, c: char, rep: string)
    ensures ReplaceAll(a + b, c, rep) == ReplaceAll(a, c, rep) + ReplaceAll(b, c, rep)
    decreases |a|
  {
    if |a| == 0 {
      assert a + b == b;
    } else {
      assert (a + b)[1..] == a[1..] + b;
      ReplaceAllAppend(a[1..], b, c, rep);
    }
  }

  lemma {:induction false} ReplaceAllAbsent(s: string, c: char, rep: string)
    requires c !in s
    ensures ReplaceAll(s, c, rep) == s
    decreases |s|
  {
    if |s| > 0 {
      ReplaceAllAbsent(s[1..], c, rep);
      assert [s[0]] + s[1..] == s;
    }
  }

  lemma ReplaceAllOne(x: char, c: char, rep: string)
    ensures ReplaceAll([x], c, rep) == if x == c then rep else [x]
  {
    assert [x][1..] == [];
  }

  /** The last four replacements leave `t` alone when it holds none of their characters. */
  lemma LaterStepsKeep(t: string, from: nat)
    requires 1 <= from <= 5
    requires from <= 1 ==> '<' !in t
    requires from <= 2 ==> '>' !in t
    requires from <= 3 ==> '"' !in t
    requires '\'' !in t
    ensures from <= 1 ==> ReplaceAll(t, '<', "&lt;") == t
    ensures from <= 2 ==> ReplaceAll(t, '>', "&gt;") == t
    ensures from <= 3 ==> ReplaceAll(t, '"', "&quot;") == t
    ensures ReplaceAll(t, '\'', "&#039;") == t
  {
    if from <= 1 { ReplaceAllAbsent(t, '<', "&lt;"); }
    if from <= 2 { ReplaceAllAbsent(t, '>', "&gt;"); }
    if from <= 3 { ReplaceAllAbsent(t, '"', "&quot;"); }
    ReplaceAllAbsent(t, '\'', "&#039;");
  }

  /** The replacement chain on a single character yields its entity: the
      entities written by an earlier replacement hold none of the characters
      a later one looks for. */
  lemma EscapeHtmlChar(x: char)
    ensures EscapeHtml([x]) == EscapeChar(x)
  {
    var e := EscapeChar(x);
    ReplaceAllOne(x, '&', "&amp;");
    ReplaceAllOne(x, '<', "&lt;");
    ReplaceAllOne(x, '>', "&gt;");
    ReplaceAllOne(x, '"', "&quot;");
    ReplaceAllOne(x, '\'', "&#039;");
    if x == '&' {
      LaterStepsKeep(e, 1);
    } else if x == '<' {
      LaterStepsKeep(e, 2);
    } else if x == '>' {
      LaterStepsKeep(e, 3);
    } else if x == '"' {
      LaterStepsKeep(e, 4);
    }
  }

  /** The replacement chain distributes over concatenation. */
  lemma EscapeHtmlAppend(a: string, b: string)
    ensures EscapeHtml(a + b) == EscapeHtml(a) + EscapeHtml(b)
  {
    ReplaceAllAppend(a, b, '&', "&amp;");
    var a1, b1 := ReplaceAll(a, '&', "&amp;"), ReplaceAll(b, '&', "&amp;");
    ReplaceAllAppend(a1, b1, '<', "&lt;");
    var a2, b2 := ReplaceAll(a1, '<', "&lt;"), ReplaceAll(b1, '<', "&lt;");
    ReplaceAllAppend(a2, b2, '>', "&gt;");
    var a3, b3 := ReplaceAll(a2, '>', "&gt;"), ReplaceAll(b2, '>', "&gt;");
    ReplaceAllAppend(a3, b3, '"', "&quot;");
    var a4, b4 := ReplaceAll(a3, '"', "&quot;"), ReplaceAll(b3, '"', "&quot;");
    ReplaceAllAppend(a4, b4, '\'', "&#039;");
  }

  /** Because `&` is replaced first, the chain escapes every character exactly
      once: no entity is escaped a second time. */
  lemma {:induction false} EscapeHtmlIsEscapeEach(s: string)
    ensures EscapeHtml(s) == EscapeEach(s)
    decreases |s|
  {
    if |s| == 0 {
    } else {
      assert s == [s[0]] + s[1..];
      EscapeHtmlAppend([s[0]], s[1..]);
      EscapeHtmlChar(s[0]);
      EscapeHtmlIsEscapeEach(s[1..]);
    }
  }

  lemma UnescapeEntity(c: char, t: string)
    ensures Unescape(EscapeChar(c) + t) == [c] + Unescape(t)
  {
    var e := EscapeChar(c);
    var u := e + t;
    assert u[..|e|] == e && u[|e|..] == t;
    if c == '&' {
      assert StartsWith(u, "&amp;");
    } else if c == '<' {
      assert !StartsWith(u, "&amp;") by { assert u[1] == 'l'; }
      assert StartsWith(u, "&lt;");
    } else if c == '>' {
      assert !StartsWith(u, "&amp;") && !StartsWith(u, "&lt;") by { assert u[1] == 'g'; }
      assert StartsWith(u, "&gt;");
    } else if c == '"' {
      assert !StartsWith(u, "&amp;") && !StartsWith(u, "&lt;") && !StartsWith(u, "&gt;") by { assert u[1] == 'q'; }
      assert StartsWith(u, "&quot;");
    } else if c == '\'' {
      assert !StartsWith(u, "&amp;") && !StartsWith(u, "&lt;") && !StartsWith(u, "&gt;") && !StartsWith(u, "&quot;") by { assert u[1] == '#'; }
      assert StartsWith(u, "&#039;");
    } else {
      assert u[0] == c && c != '&';
      assert !StartsWith(u, "&amp;") && !StartsWith(u, "&lt;") && !StartsWith(u, "&gt;") && !StartsWith(u, "&quot;") && !StartsWith(u, "&#039;");
      assert u[1..] == t;
    }
  }

  lemma {:induction false} UnescapeEscapeEach(s: string)
    ensures Unescape(EscapeEach(s)) == s
    decreases |s|
  {
    if |s| > 0 {
      UnescapeEntity(s[0], EscapeEach(s[1..]));
      UnescapeEscapeEach(s[1..]);
      assert [s[0]] + s[1..] == s;
    }
  }

  /** Escaping loses nothing: unescaping gives the input back. */
  lemma UnescapeEscapeHtml(s: string)
    ensures Unescape(EscapeHtml(s)) == s
  {
    EscapeHtmlIsEscapeEach(s);
    UnescapeEscapeEach(s);
  }

  lemma {:induction false} EscapeEachSafe(s: string)
    ensures forall i :: 0 <= i < |EscapeEach(s)| ==> var c := EscapeEach(s)[i]; c != '<' && c != '>' && c != '"' && c != '\''
    decreases |s|
  {
    if |s| > 0 {
      EscapeEachSafe(s[1..]);
      var e, t := EscapeChar(s[0]), EscapeEach(s[1..]);
      assert forall i :: |e| <= i < |e + t| ==> (e + t)[i] == t[i - |e|];
    }
  }

  /** The escaped text holds no `<`, `>`, `"` or `'`. */
  lemma EscapeHtmlSafe(s: string)
    ensures forall i :: 0 <= i < |EscapeHtml(s)| ==> var c := EscapeHtml(s)[i]; c != '<' && c != '>' && c != '"' && c != '\''
  {
    EscapeHtmlIsEscapeEach(s);
    EscapeEachSafe(s);
  }

  /** Text without any of the five characters is left as it is. */
  lemma {:induction false} EscapeEachPlain(s: string)
    requires forall i :: 0 <= i < |s| ==> !IsHtmlSpecial(s[i])
    ensures EscapeHtml(s) == s
    decreases |s|
  {
    EscapeHtmlIsEscapeEach(s);
    if |s| > 0 {
      EscapeEachPlain(s[1..]);
      EscapeHtmlIsEscapeEach(s[1..]);
      assert [s[0]] + s[1..] == s;
    }
  }
}
