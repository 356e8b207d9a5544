/**
  Character classes and trimming with their JavaScript meaning. The regular
  expression class `\s` and `String.prototype.trim` use one and the same set
  of white-space and line-terminator characters; `\w` (no `u` flag) is the
  ASCII word class.
*/
module JsText {

  /**
    ECMAScript white space and line terminators, what `\s` matches and
    `trim` removes: tab, line feed, vertical tab, form feed, carriage
    return, space, no-break space, ogham space mark, the spaces U+2000 to
    U+200A, line and paragraph separator, narrow no-break space, medium
    mathematical space, ideographic space and the byte order mark.
  */
  predicate IsSpace(c: char) {
    || ('\t' <= c <= '\r')
    || c == ' ' || c == '\U{00A0}' || c == '\U{1680}'
    || ('\U{2000}' <= c <= '\U{200A}')
    || c == '\U{2028}' || c == '\U{2029}' || c == '\U{202F}' || c == '\U{205F}'
    || c == '\U{3000}' || c == '\U{FEFF}'
  }

  /** The word class `\w`: ASCII letters, digits and underscore. */
  predicate IsWordChar(c: char) {
    'a' <= c <= 'z' || 'A' <= c <= 'Z' || '0' <= c <= '9' || c == '_'
  }

  /** The end of the run of white space in `s` that starts at `i`. */
  function SpaceRunEnd(s: string, i: nat): (j: nat)
    requires i <= |s|
    ensures i <= j <= |s|
    ensures forall k :: i <= k < j ==> IsSpace(s[k])
    ensures j == |s| || !IsSpace(s[j])
    decreases |s| - i
  {
    if i < |s| && IsSpace(s[i]) then SpaceRunEnd(s, i + 1) else i
  }

  /** The start of the run of white space in `s` that ends just before `j`. */
  function SpaceRunStart(s: string, j: nat): (i: nat)
    requires j <= |s|
    ensures i <= j
    ensures forall k :: i <= k < j ==> IsSpace(s[k])
    ensures i == 0 || !IsSpace(s[i - 1])
  {
    if j > 0 && IsSpace(s[j - 1]) then SpaceRunStart(s, j - 1) else j
  }

  /**
    `s.trim()`: the infix of `s` that starts after its leading white space,
    with nothing but white space after it, and that neither starts nor ends
    with white space.
  */
  function Trim(s: string): (r: string)
    ensures var i := SpaceRunEnd(s, 0);
      && i + |r| <= |s|
      && r == s[i..i + |r|]
      && (forall k :: i + |r| <= k < |s| ==> IsSpace(s[k]))
    ensures r == [] || (!IsSpace(r[0]) && !IsSpace(r[|r| - 1]))
  {
    var i := SpaceRunEnd(s, 0);
    var e := SpaceRunStart(s, |s|);
    if e <= i then [] else s[i..e]
  }

  /** Trimming a trimmed string changes nothing: the relay trims keys twice. */
  lemma TrimIdempotent(s: string)
    ensures Trim(Trim(s)) == Trim(s)
  {
  }
}
