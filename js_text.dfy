/** The two pieces of JavaScript string semantics the gallery relies on:
    `String.prototype.trim` and the `||` operator applied to strings. */
module JsText {

  /** The code points `trim` removes: ECMAScript's WhiteSpace (tab, vertical tab,
      form feed, space, no-break space, byte order mark and the Unicode space
      separators) and LineTerminator (line feed, carriage return, line and
      paragraph separators). */
  predicate IsSpace(c: char)
    ensures c == ' ' || c == '\t' || c == '\n' ==> IsSpace(c)
    ensures '!' <= c <= '~' ==> !IsSpace(c)
  {
    c == '\t' || c == '\U{000B}' || c == '\U{000C}' || c == ' ' || c == '\U{00A0}' ||
    c == '\U{FEFF}' || c == '\U{1680}' || ('\U{2000}' <= c <= '\U{200A}') ||
    c == '\U{202F}' || c == '\U{205F}' || c == '\U{3000}' ||
    c == '\n' || c == '\r' || c == '\U{2028}' || c == '\U{2029}'
  }

  /** Every character of `s` is white space (the empty string included). */
  predicate IsBlank(s: string) {
    forall k :: 0 <= k < |s| ==> IsSpace(s[k])
  }

  /** `s` neither starts nor ends with white space. */
  predicate IsTrimmed(s: string) {
    s == [] || (!IsSpace(s[0]) && !IsSpace(s[|s| - 1]))
  }

  /** `s` with its leading white space removed: a suffix of `s` that does not
      start with white space, and everything cut off is white space. */
  function TrimStart(s: string): (r: string)
    ensures |r| <= |s| && r == s[|s| - |r|..]
    ensures r == [] || !IsSpace(r[0])
    ensures forall k :: 0 <= k < |s| - |r| ==> IsSpace(s[k])
  {
    if s != [] && IsSpace(s[0]) then TrimStart(s[1..]) else s
  }

  /** `s` with its trailing white space removed: a prefix of `s` that does not
      end with white space, and everything cut off is white space. */
  function TrimEnd(s: string): (r: string)
    ensures |r| <= |s| && r == s[..|r|]
    ensures r == [] || !IsSpace(r[|r| - 1])
    ensures forall k :: |r| <= k < |s| ==> IsSpace(s[k])
  {
    if s != [] && IsSpace(s[|s| - 1]) then TrimEnd(s[..|s| - 1]) else s
  }

  /** `String.prototype.trim`: the result is `s` with a blank prefix (the
      leading white space `TrimStart` removes) and a blank suffix cut off,
      and has no white space at either end. It is empty exactly when `s` is
      blank, and an already trimmed string is left alone. */
  function Trim(s: string): (r: string)
    ensures |r| <= |s|
    ensures IsBlankCut(s, |s| - |TrimStart(s)|, r)
    ensures IsTrimmed(r)
    ensures r == [] <==> IsBlank(s)
    ensures IsTrimmed(s) ==> r == s
  {
    var t := TrimStart(s);
    var r := TrimEnd(t);
    TrimCutsBlankEnds(s, |s| - |t|, t, r);
    TrimEnds(s, t, r);
    r
  }

  /** The remaining facts about `trim`, from those of its two halves. */
  lemma TrimEnds(s: string, t: string, r: string)
    requires t == TrimStart(s) && r == TrimEnd(t)
    ensures IsTrimmed(r)
    ensures r == [] <==> IsBlank(s)
    ensures IsTrimmed(s) ==> r == s
  {
    assert t != [] ==> t[0] == s[|s| - |t|];
    if r != [] {
      assert r[0] == t[0];
    }
    if IsTrimmed(s) && s != [] {
      assert t == s;
    }
  }

  /** `r` is what is left of `s` once its first `a` characters and everything
      after the following `|r|` are cut off, and both cut ends are blank. */
  predicate IsBlankCut(s: string, a: int, r: string) {
    0 <= a <= |s| - |r| && r == s[a..a + |r|] && IsBlank(s[..a]) && IsBlank(s[a + |r|..])
  }

  /** Cutting `s` into a blank prefix of length `a`, the middle `r` and the rest
      of `t == s[a..]`, where `t` ends in white space after `r`. */
  lemma TrimCutsBlankEnds(s: string, a: int, t: string, r: string)
    requires 0 <= a <= |s| && t == s[a..] && (forall k :: 0 <= k < a ==> IsSpace(s[k]))
    requires |r| <= |t| && r == t[..|r|] && (forall k :: |r| <= k < |t| ==> IsSpace(t[k]))
    ensures IsBlankCut(s, a, r)
  {
    assert s[a + |r|..] == t[|r|..];
  }

  /** JavaScript's `a || b` where `a` is a string: the empty string is falsy,
      so the result is `a` unless `a` is empty, and then `b`. */
  function OrElse(a: string, b: string): (r: string)
    ensures a != "" ==> r == a
    ensures a == "" ==> r == b
    ensures r == "" <==> a == "" && b == ""
  {
    if a == "" then b else a
  }
}
