/**
 * The .NET string operations the core's decisions rest on: `char.IsWhiteSpace`,
 * `string.IsNullOrWhiteSpace`, `string.Length`, `string.Trim()` and ordinal case-insensitive
 * equality.
 */
module Text {
  import opened Wrappers

  /** The characters `char.IsWhiteSpace` accepts: the control range U+0009..U+000D, U+0085,
      and the space, line and paragraph separators of Unicode. */
  predicate IsWhiteSpace(c: char) {
    ('\t' <= c <= '\r') || c == ' ' || c == '\U{85}' || c == '\U{A0}' || c == '\U{1680}'
    || ('\U{2000}' <= c <= '\U{200A}') || c == '\U{2028}' || c == '\U{2029}'
    || c == '\U{202F}' || c == '\U{205F}' || c == '\U{3000}'
  }

  /** `string.IsNullOrWhiteSpace` on a string known to be non-null (the empty string included). */
  predicate IsBlank(s: string) {
    forall i :: 0 <= i < |s| ==> IsWhiteSpace(s[i])
  }

  /** `string.IsNullOrWhiteSpace` on a reference that may be null. */
  predicate IsNullOrWhiteSpace(s: Option<string>) {
    s.None? || IsBlank(s.value)
  }

  /** `string.Length`: the number of UTF-16 code units. A character beyond U+FFFF is stored
      as a surrogate pair, two units; every other character is one. */
  function Utf16Length(s: string): (n: nat)
    ensures |s| <= n <= 2 * |s|
  {
    if s == [] then 0
    else Utf16Length(s[..|s| - 1]) + (if s[|s| - 1] as int > 0xFFFF then 2 else 1)
  }

  /** A string with no character beyond U+FFFF has as many UTF-16 units as characters. */
  lemma {:induction false} Utf16LengthOfBmp(s: string)
    requires forall i :: 0 <= i < |s| ==> s[i] as int <= 0xFFFF
    ensures Utf16Length(s) == |s|
  {
    if s != [] {
      Utf16LengthOfBmp(s[..|s| - 1]);
    }
  }

  /** Four emoji are four characters but eight UTF-16 units. */
  lemma FourEmojiUtf16Length()
    ensures Utf16Length("\U{1F600}\U{1F600}\U{1F600}\U{1F600}") == 8
  {
    var p := "\U{1F600}\U{1F600}\U{1F600}\U{1F600}";
    assert p[..1][..0] == [];
    assert Utf16Length(p[..1]) == 2;
    assert p[..2][..1] == p[..1];
    assert Utf16Length(p[..2]) == 4;
    assert p[..3][..2] == p[..2];
    assert Utf16Length(p[..3]) == 6;
    assert p[..3] == p[..|p| - 1];
  }

  /** `string.Trim()`: drops white space at both ends. It leaves no white space at either end
      and leaves an unpadded string as it is. */
  function Trim(s: string): (r: string)
    ensures |r| <= |s|
    ensures r == [] || (!IsWhiteSpace(r[0]) && !IsWhiteSpace(r[|r| - 1]))
    ensures s != [] && !IsWhiteSpace(s[0]) && !IsWhiteSpace(s[|s| - 1]) ==> r == s
  {
    if s != [] && IsWhiteSpace(s[0]) then Trim(s[1..])
    else if s != [] && IsWhiteSpace(s[|s| - 1]) then Trim(s[..|s| - 1])
    else s
  }

  /** Trimming empties exactly the strings that are all white space. */
  lemma {:induction false} TrimEmptiesBlank(s: string)
    ensures Trim(s) == [] <==> IsBlank(s)
  {
    if s != [] && IsWhiteSpace(s[0]) {
      TrimEmptiesBlank(s[1..]);
      assert IsBlank(s) <==> IsBlank(s[1..]) by {
        assert forall i :: 0 < i < |s| ==> s[i] == s[1..][i - 1];
      }
    } else if s != [] && IsWhiteSpace(s[|s| - 1]) {
      TrimEmptiesBlank(s[..|s| - 1]);
      assert IsBlank(s) <==> IsBlank(s[..|s| - 1]) by {
        assert forall i :: 0 <= i < |s| - 1 ==> s[i] == s[..|s| - 1][i];
      }
    }
  }

  /** Trimming is idempotent. */
  lemma TrimIdempotent(s: string)
    ensures Trim(Trim(s)) == Trim(s)
  {
  }

  /** Upper-casing of one character, as ordinal case-insensitive comparison applies it
      (ASCII letters only; see README). */
  function UpperAscii(c: char): char {
    if 'a' <= c <= 'z' then (c as int - 32) as char else c
  }

  /** `a.Equals(b, StringComparison.OrdinalIgnoreCase)`. */
  predicate EqualsIgnoreCase(a: string, b: string) {
    |a| == |b| && forall i :: 0 <= i < |a| ==> UpperAscii(a[i]) == UpperAscii(b[i])
  }

  /** Equality ignoring case is an equivalence relation that contains exact equality. */
  lemma EqualsIgnoreCaseIsEquivalence(a: string, b: string, c: string)
    ensures EqualsIgnoreCase(a, a)
    ensures EqualsIgnoreCase(a, b) ==> EqualsIgnoreCase(b, a)
    ensures EqualsIgnoreCase(a, b) && EqualsIgnoreCase(b, c) ==> EqualsIgnoreCase(a, c)
  {
  }
}
