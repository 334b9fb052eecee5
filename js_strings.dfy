/**
  The string operations of the notes editor: `String.prototype.trim`,
  `String.prototype.toLowerCase` and `String.prototype.includes`.
  Strings are sequences of Unicode scalar values.
 */
module JsStrings {

  /**
    The characters `trim` removes: the WhiteSpace and LineTerminator code
    points of ECMAScript (section 12.2 and 12.3 of ECMA-262): tab, vertical
    tab, form feed, byte order mark, the space separators of Unicode
    category Zs, and line feed, carriage return, line and paragraph separator.
   */
  const WhiteSpace: set<char> := {
    '\t', '\n', '\U{000B}', '\U{000C}', '\r', ' ', '\U{00A0}', '\U{1680}',
    '\U{2000}', '\U{2001}', '\U{2002}', '\U{2003}', '\U{2004}', '\U{2005}',
    '\U{2006}', '\U{2007}', '\U{2008}', '\U{2009}', '\U{200A}',
    '\U{2028}', '\U{2029}', '\U{202F}', '\U{205F}', '\U{3000}', '\U{FEFF}'
  }

  predicate IsWhiteSpace(c: char) {
    c in WhiteSpace
  }

  /** Unicode general category Zs (space separators), as code point ranges. */
  predicate IsSpaceSeparator(c: char) {
    c == ' ' || c == '\U{00A0}' || c == '\U{1680}' || '\U{2000}' <= c <= '\U{200A}'
    || c == '\U{202F}' || c == '\U{205F}' || c == '\U{3000}'
  }

  /** The LineTerminator code points of ECMAScript: LF, CR, LS and PS. */
  predicate IsLineTerminator(c: char) {
    c == '\n' || c == '\r' || c == '\U{2028}' || c == '\U{2029}'
  }

  /**
    The set `trim` removes is ECMAScript's WhiteSpace (TAB, VT, FF, ZWNBSP
    and every Zs code point) together with its LineTerminators.
   */
  lemma WhiteSpaceIsEcmaScriptWhiteSpace(c: char)
    ensures IsWhiteSpace(c) <==>
              c == '\t' || c == '\U{000B}' || c == '\U{000C}' || c == '\U{FEFF}'
              || IsSpaceSeparator(c) || IsLineTerminator(c)
  {
  }

  /** Drops the leading white space: the result is the longest suffix that does not start with white space. */
  function TrimStart(s: string): (r: string)
    ensures |r| <= |s| && r == s[|s| - |r|..]
    ensures forall k :: 0 <= k < |s| - |r| ==> IsWhiteSpace(s[k])
    ensures r != [] ==> !IsWhiteSpace(r[0])
  {
    if s != [] && IsWhiteSpace(s[0]) then
      var r := TrimStart(s[1..]);
      assert s[1..][|s| - 1 - |r|..] == s[|s| - |r|..];
      assert forall k :: 1 <= k < |s| ==> s[k] == s[1..][k - 1];
      r
    else s
  }

  /** Drops the trailing white space: the result is the longest prefix that does not end with white space. */
  function TrimEnd(s: string): (r: string)
    ensures |r| <= |s| && r == s[..|r|]
    ensures forall k :: |r| <= k < |s| ==> IsWhiteSpace(s[k])
    ensures r != [] ==> !IsWhiteSpace(r[|r| - 1])
  {
    if s != [] && IsWhiteSpace(s[|s| - 1]) then
      var r := TrimEnd(s[..|s| - 1]);
      assert s[..|s| - 1][..|r|] == s[..|r|];
      assert forall k :: 0 <= k < |s| - 1 ==> s[k] == s[..|s| - 1][k];
      r
    else s
  }

  /** `r` is the slice of `s` starting at `start`, and everything of `s` outside it is white space. */
  ghost predicate IsTrimmedSlice(s: string, r: string, start: int) {
    && 0 <= start <= |s| - |r| && r == s[start..start + |r|]
    && (forall k :: 0 <= k < start ==> IsWhiteSpace(s[k]))
    && (forall k :: start + |r| <= k < |s| ==> IsWhiteSpace(s[k]))
  }

  /** `s.trim()`: a slice of `s` with only white space outside it and none at either end of it. */
  function Trim(s: string): (r: string)
    ensures exists start :: IsTrimmedSlice(s, r, start)
    ensures r != [] ==> !IsWhiteSpace(r[0]) && !IsWhiteSpace(r[|r| - 1])
  {
    var t := TrimStart(s);
    var r := TrimEnd(t);
    TrimmedSliceOfSlice(s, t, r);
    r
  }

  /** Trimming the front and then the back leaves a slice with only white space around it. */
  lemma TrimmedSliceOfSlice(s: string, t: string, r: string)
    requires |t| <= |s| && t == s[|s| - |t|..]
    requires forall k :: 0 <= k < |s| - |t| ==> IsWhiteSpace(s[k])
    requires |r| <= |t| && r == t[..|r|]
    requires forall k :: |r| <= k < |t| ==> IsWhiteSpace(t[k])
    ensures IsTrimmedSlice(s, r, |s| - |t|)
  {
    var start := |s| - |t|;
    assert r == s[start..start + |r|];
    forall k | start + |r| <= k < |s| ensures IsWhiteSpace(s[k]) {
      assert s[k] == t[k - start];
    }
  }

  /** `!s.trim()`: trimming leaves nothing exactly when every character is white space. */
  lemma TrimIsEmptyIffBlank(s: string)
    ensures Trim(s) == "" <==> forall k :: 0 <= k < |s| ==> IsWhiteSpace(s[k])
  {
    if Trim(s) != "" {
      var r := Trim(s);
      var start :| IsTrimmedSlice(s, r, start);
      assert r[0] == s[start];
    }
  }

  predicate IsAsciiUpper(c: char) {
    'A' <= c <= 'Z'
  }

  /** Lower-cases one character; only the 26 ASCII capitals are mapped. */
  function ToLowerChar(c: char): (d: char)
    ensures !IsAsciiUpper(d)
    ensures IsAsciiUpper(c) ==> d as int == c as int + 32
    ensures !IsAsciiUpper(c) ==> d == c
  {
    if IsAsciiUpper(c) then (c as int + 32) as char else c
  }

  /** `s.toLowerCase()`, restricted to ASCII letters. */
  function ToLowerCase(s: string): (r: string)
    ensures |r| == |s|
    ensures forall k :: 0 <= k < |s| ==> r[k] == ToLowerChar(s[k])
  {
    seq(|s|, k requires 0 <= k < |s| => ToLowerChar(s[k]))
  }

  /** Lower-casing twice is lower-casing once. */
  lemma ToLowerCaseIdempotent(s: string)
    ensures ToLowerCase(ToLowerCase(s)) == ToLowerCase(s)
  {
  }

  /** `sub` occurs in `s` at position `i`. */
  ghost predicate OccursAt(s: string, sub: string, i: int) {
    0 <= i && i + |sub| <= |s| && s[i..i + |sub|] == sub
  }

  /** `s.includes(sub)`, as a scan over start positions. */
  function Includes(s: string, sub: string): (b: bool)
    ensures sub == "" ==> b
    ensures b ==> |sub| <= |s|
  {
    if |sub| <= |s| && s[..|sub|] == sub then true
    else if s == [] then false
    else Includes(s[1..], sub)
  }

  /** The scan finds `sub` exactly when `sub` occurs somewhere in `s`. */
  lemma {:induction false} IncludesIffOccurs(s: string, sub: string)
    ensures Includes(s, sub) <==> exists i :: OccursAt(s, sub, i)
  {
    if |sub| <= |s| && s[..|sub|] == sub {
      assert OccursAt(s, sub, 0);
    } else if s != [] {
      IncludesIffOccurs(s[1..], sub);
      if Includes(s[1..], sub) {
        var i :| OccursAt(s[1..], sub, i);
        assert s[1..][i..i + |sub|] == s[i + 1..i + 1 + |sub|];
        assert OccursAt(s, sub, i + 1);
      }
      if exists i :: OccursAt(s, sub, i) {
        var i :| OccursAt(s, sub, i);
        assert i != 0 by {
          assert s[0..|sub|] == s[..|sub|];
        }
        assert s[1..][i - 1..i - 1 + |sub|] == s[i..i + |sub|];
        assert OccursAt(s[1..], sub, i - 1);
      }
    }
  }
}
