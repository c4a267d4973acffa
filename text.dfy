/**
 * The System.String operations the title filter uses: String.IsNullOrEmpty,
 * ToLower, Trim (with the whitespace set of Char.IsWhiteSpace) and Contains.
 */
module Text {
  import opened Wrappers

  /** String.IsNullOrEmpty on a nullable string. */
  predicate IsNullOrEmpty(s: Option<string>) {
    s.None? || s.value == ""
  }

  /** Char.IsWhiteSpace: U+0009..U+000D, U+0085 and the Unicode space, line and paragraph separators. */
  predicate IsWhiteSpace(c: char) {
    || ('\t' <= c <= '\r')
    || c == ' ' || c == '\U{85}' || c == '\U{A0}' || c == '\U{1680}'
    || ('\U{2000}' <= c <= '\U{200A}')
    || c == '\U{2028}' || c == '\U{2029}' || c == '\U{202F}' || c == '\U{205F}' || c == '\U{3000}'
  }

  /** Lower-case mapping of a single character (ASCII letters only). */
  function ToLowerChar(c: char): char {
    if 'A' <= c <= 'Z' then (c as int + 32) as char else c
  }

  /** ToLower: every character lower-cased, in place. */
  function ToLower(s: string): (r: string)
    ensures |r| == |s|
    ensures forall i :: 0 <= i < |s| ==> r[i] == ToLowerChar(s[i])
  {
    if s == [] then [] else [ToLowerChar(s[0])] + ToLower(s[1..])
  }

  /** Lower-casing twice is the same as lower-casing once. */
  lemma {:induction false} ToLowerIdempotent(s: string)
    ensures ToLower(ToLower(s)) == ToLower(s)
  {
    if s != [] {
      ToLowerIdempotent(s[1..]);
      assert ToLower(s)[1..] == ToLower(s[1..]);
    }
  }

  /** Lower-casing maps whitespace to whitespace and nothing else to whitespace. */
  lemma {:induction false} ToLowerKeepsWhiteSpace(s: string)
    ensures forall i :: 0 <= i < |s| ==> (IsWhiteSpace(ToLower(s)[i]) <==> IsWhiteSpace(s[i]))
  {
    if s != [] {
      ToLowerKeepsWhiteSpace(s[1..]);
      forall i | 1 <= i < |s| ensures ToLower(s)[i] == ToLower(s[1..])[i - 1] {}
    }
  }

  /** TrimStart: drops the leading whitespace. */
  function TrimStart(s: string): (r: string)
    ensures |r| <= |s| && r == s[|s| - |r|..]
    ensures r == [] || !IsWhiteSpace(r[0])
    ensures forall i :: 0 <= i < |s| - |r| ==> IsWhiteSpace(s[i])
  {
    if s != [] && IsWhiteSpace(s[0]) then TrimStart(s[1..]) else s
  }

  /** TrimEnd: drops the trailing whitespace. */
  function TrimEnd(s: string): (r: string)
    ensures |r| <= |s| && r == s[..|r|]
    ensures r == [] || !IsWhiteSpace(r[|r| - 1])
    ensures forall i :: |r| <= i < |s| ==> IsWhiteSpace(s[i])
  {
    if s != [] && IsWhiteSpace(s[|s| - 1]) then TrimEnd(s[..|s| - 1]) else s
  }

  /** Trim: drops leading and trailing whitespace. */
  function Trim(s: string): (r: string)
  {
    TrimEnd(TrimStart(s))
  }

  /** A string of whitespace only trims to the empty string. */
  lemma TrimAllWhiteSpace(s: string)
    requires forall i :: 0 <= i < |s| ==> IsWhiteSpace(s[i])
    ensures Trim(s) == []
  {
  }

  predicate StartsWith(s: string, prefix: string) {
    |prefix| <= |s| && s[..|prefix|] == prefix
  }

  /** String.Contains: `needle` occurs somewhere in `s` (the empty string occurs everywhere). */
  predicate Contains(s: string, needle: string)
  {
    StartsWith(s, needle) || (s != [] && Contains(s[1..], needle))
  }

  /** Contains holds exactly when `needle` starts at some position of `s`. */
  lemma {:induction false} ContainsAt(s: string, needle: string)
    ensures Contains(s, needle) <==> exists k :: 0 <= k <= |s| && StartsWith(s[k..], needle)
  {
    if s == [] {
      assert forall k :: 0 <= k <= |s| ==> s[k..] == s;
    } else {
      ContainsAt(s[1..], needle);
      if Contains(s, needle) {
        if StartsWith(s, needle) {
          assert s[0..] == s;
        } else {
          var k :| 0 <= k <= |s[1..]| && StartsWith(s[1..][k..], needle);
          assert s[1..][k..] == s[k + 1..];
        }
      } else {
        forall k | 0 <= k <= |s| ensures !StartsWith(s[k..], needle) {
          if k > 0 {
            assert s[1..][k - 1..] == s[k..];
          }
        }
      }
    }
  }

  /** Trim removes whitespace at both ends and nothing else: the result occurs in `s`. */
  lemma TrimSlice(s: string)
    ensures var r := Trim(s); r == [] || (!IsWhiteSpace(r[0]) && !IsWhiteSpace(r[|r| - 1]))
    ensures Contains(s, Trim(s))
  {
    var t := TrimStart(s);
    var r := TrimEnd(t);
    var k := |s| - |t|;
    assert StartsWith(s[k..], r);
    ContainsAt(s, r);
  }
}
