/**
  The JavaScript string built-ins the list view relies on: the white-space
  class shared by `String.prototype.trim` and the regular-expression escape
  `\s`, `toLowerCase`, `includes` and `trim`.
*/
module Text {

  /**
    ECMAScript's WhiteSpace and LineTerminator characters: tab, line feed,
    vertical tab, form feed and carriage return (U+0009 to U+000D), space,
    no-break space, the
    byte-order mark, the Unicode space separators (category Zs) and the line
    and paragraph separators. `trim` strips exactly these and `\s` matches
    exactly these.
  */
  predicate IsWhitespace(c: char) {
    if c < '\U{A0}' then '\t' <= c <= '\r' || c == ' '
    else
      || c == '\U{A0}' || c == '\U{1680}' || '\U{2000}' <= c <= '\U{200A}'
      || c == '\U{2028}' || c == '\U{2029}' || c == '\U{202F}' || c == '\U{205F}'
      || c == '\U{3000}' || c == '\U{FEFF}'
  }

  /** Every character of `s` is white space (the empty string included). */
  predicate IsBlank(s: string) {
    forall i :: 0 <= i < |s| ==> IsWhitespace(s[i])
  }

  predicate IsUpper(c: char) {
    'A' <= c <= 'Z'
  }

  /** The lower-case form of one character, for the ASCII letters. */
  function LowerChar(c: char): (d: char)
    ensures !IsUpper(d)
    ensures IsUpper(c) ==> d as int == c as int + 32
    ensures !IsUpper(c) ==> d == c
  {
    if IsUpper(c) then (c as int + 32) as char else c
  }

  /** No character of `s` is an upper-case ASCII letter. */
  predicate IsLowered(s: string) {
    forall i :: 0 <= i < |s| ==> !IsUpper(s[i])
  }

  /**
    `s.toLowerCase()`, for the ASCII letters: each letter A to Z becomes its
    lower-case form and every other character is kept.
  */
  function ToLower(s: string): (r: string)
    ensures |r| == |s| && IsLowered(r)
    ensures forall i :: 0 <= i < |s| ==>
      && (IsUpper(s[i]) ==> r[i] as int == s[i] as int + 32)
      && (!IsUpper(s[i]) ==> r[i] == s[i])
  {
    seq(|s|, i requires 0 <= i < |s| => LowerChar(s[i]))
  }

  /** Lower-casing a string that has no upper-case letter leaves it as it is. */
  lemma LoweredIsFixpoint(s: string)
    requires IsLowered(s)
    ensures ToLower(s) == s
  {
    forall i | 0 <= i < |s|
      ensures ToLower(s)[i] == s[i]
    {
      assert !IsUpper(s[i]);
    }
  }

  /** Lower-casing is idempotent. */
  lemma ToLowerIdempotent(s: string)
    ensures ToLower(ToLower(s)) == ToLower(s)
  {
    LoweredIsFixpoint(ToLower(s));
  }

  /** `t` occurs in `s` starting at index `i`. */
  predicate OccursAt(t: string, s: string, i: nat) {
    i + |t| <= |s| && s[i..i + |t|] == t
  }

  /** `t` occurs in `s` as a contiguous block (the empty string occurs everywhere). */
  ghost predicate IsInfix(t: string, s: string) {
    exists i: nat :: OccursAt(t, s, i)
  }

  /** An occurrence of `t` in `s` is either at the front or an occurrence in `s[1..]`, shifted by one. */
  lemma InfixOfTail(t: string, s: string)
    requires |s| > 0
    ensures IsInfix(t, s) <==> OccursAt(t, s, 0) || IsInfix(t, s[1..])
  {
    var tail := s[1..];
    if IsInfix(t, s) && !OccursAt(t, s, 0) {
      var i: nat :| OccursAt(t, s, i);
      assert i != 0;
      assert tail[i - 1..i - 1 + |t|] == s[i..i + |t|];
      assert OccursAt(t, tail, i - 1);
    }
    if IsInfix(t, tail) {
      var i: nat :| OccursAt(t, tail, i);
      assert s[i + 1..i + 1 + |t|] == tail[i..i + |t|];
      assert OccursAt(t, s, i + 1);
    }
  }

  /** `s.includes(t)`: the search is a left-to-right scan of the candidate start positions. */
  function Includes(s: string, t: string): (r: bool)
    ensures r <==> IsInfix(t, s)
    decreases |s|
  {
    if |t| > |s| then false
    else if s[..|t|] == t then
      assert OccursAt(t, s, 0);
      true
    else
      InfixOfTail(t, s);
      Includes(s[1..], t)
  }

  /** The empty string is included in every string. */
  lemma EmptyIsIncluded(s: string)
    ensures Includes(s, "")
  {
    assert OccursAt("", s, 0);
  }

  /** The index of the first character at or after `from` that is not white space, or `|s|`. */
  function SkipLeading(s: string, from: nat): (k: nat)
    requires from <= |s|
    ensures from <= k <= |s|
    ensures forall j :: from <= j < k ==> IsWhitespace(s[j])
    ensures k < |s| ==> !IsWhitespace(s[k])
    decreases |s| - from
  {
    if from < |s| && IsWhitespace(s[from]) then SkipLeading(s, from + 1) else from
  }

  /** The end of `s[lo..upto]` once its trailing white space is dropped. */
  function SkipTrailing(s: string, lo: nat, upto: nat): (m: nat)
    requires lo <= upto <= |s|
    ensures lo <= m <= upto
    ensures forall j :: m <= j < upto ==> IsWhitespace(s[j])
    ensures m > lo ==> !IsWhitespace(s[m - 1])
    decreases upto
  {
    if upto > lo && IsWhitespace(s[upto - 1]) then SkipTrailing(s, lo, upto - 1) else upto
  }

  /**
    `s.trim()`: the block of `s` that remains once the white space at both
    ends is removed. Only white space is removed, the result neither starts
    nor ends with white space, and it is empty exactly when `s` is blank.
  */
  function Trim(s: string): (r: string)
    ensures r == [] || (!IsWhitespace(r[0]) && !IsWhitespace(r[|r| - 1]))
    ensures r == [] <==> IsBlank(s)
    ensures exists k: nat :: OccursAt(r, s, k) && IsBlank(s[..k]) && IsBlank(s[k + |r|..])
    ensures IsInfix(r, s)
  {
    var k := SkipLeading(s, 0);
    var m := SkipTrailing(s, k, |s|);
    assert OccursAt(s[k..m], s, k);
    assert IsBlank(s[..k]) && IsBlank(s[m..]);
    s[k..m]
  }
}
