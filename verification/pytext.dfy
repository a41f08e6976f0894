/**
 * Python string primitives shared by the models: the whitespace set that
 * `str.isspace`, `str.strip()` and the regex class `\s` use, ASCII character
 * classes, `sep.join(items)` and `str.strip(chars)`.
 */
module PyText {

  /** Every character for which Python's `str.isspace()` holds (and so `\s` in a `str` pattern). */
  predicate IsSpace(c: char) {
    || c == ' '
    || ('\t' <= c <= '\r')
    || ('\U{1C}' <= c <= '\U{1F}')
    || c == '\U{85}' || c == '\U{A0}' || c == '\U{1680}'
    || ('\U{2000}' <= c <= '\U{200A}')
    || c == '\U{2028}' || c == '\U{2029}' || c == '\U{202F}' || c == '\U{205F}' || c == '\U{3000}'
  }

  predicate IsAsciiLetter(c: char) {
    ('a' <= c <= 'z') || ('A' <= c <= 'Z')
  }

  predicate IsAsciiDigit(c: char) {
    '0' <= c <= '9'
  }

  /** The word characters of a regular expression (`\w`), restricted to ASCII. */
  predicate IsWordChar(c: char) {
    IsAsciiLetter(c) || IsAsciiDigit(c) || c == '_'
  }

  predicate IsAscii(c: char) {
    c < '\U{80}'
  }

  /** `sep.join(items)`. */
  function Join(sep: string, items: seq<string>): string
    decreases |items|
  {
    if |items| == 0 then ""
    else if |items| == 1 then items[0]
    else items[0] + sep + Join(sep, items[1..])
  }

  /** `s.lstrip(chars)`: drops the maximal prefix of characters that `drop` selects. */
  function LStrip(s: string, drop: char -> bool): (r: string)
    ensures |r| <= |s| && r == s[|s| - |r|..]
    ensures r == [] || !drop(r[0])
    ensures forall i :: 0 <= i < |s| - |r| ==> drop(s[i])
    decreases |s|
  {
    if s != [] && drop(s[0]) then LStrip(s[1..], drop) else s
  }

  /** `s.rstrip(chars)`: drops the maximal suffix of characters that `drop` selects. */
  function RStrip(s: string, drop: char -> bool): (r: string)
    ensures |r| <= |s| && r == s[..|r|]
    ensures r == [] || !drop(r[|r| - 1])
    ensures forall i :: |r| <= i < |s| ==> drop(s[i])
    decreases |s|
  {
    if s != [] && drop(s[|s| - 1]) then RStrip(s[..|s| - 1], drop) else s
  }

  /** `s.strip(chars)`; `s.strip()` is `Strip(s, IsSpace)`. */
  function Strip(s: string, drop: char -> bool): string {
    RStrip(LStrip(s, drop), drop)
  }

  /** Stripping text that already has kept ends, followed by strippable junk, gives back the text. */
  lemma StripTrailing(t: string, junk: string, drop: char -> bool)
    requires t != [] && !drop(t[0]) && !drop(t[|t| - 1])
    requires forall i :: 0 <= i < |junk| ==> drop(junk[i])
    ensures Strip(t + junk, drop) == t
  {
    var s := t + junk;
    var l := LStrip(s, drop);
    assert !drop(s[0]);
    assert l == s;
    var r := RStrip(l, drop);
    assert !drop(s[|t| - 1]);
    assert |r| >= |t|;
    assert forall k :: |t| <= k < |s| ==> drop(s[k]) by {
      forall k | |t| <= k < |s| ensures drop(s[k]) {
        assert s[k] == junk[k - |t|];
      }
    }
    assert r[|r| - 1] == s[|r| - 1];
    assert r == s[..|t|] == t;
  }
}
