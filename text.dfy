/**
 * The string and byte helpers of the .NET library that the tool relies on,
 * stated as far as the tool depends on them: re-saving as UTF-8 without a
 * byte-order mark, `String.Trim`, `String.IsNullOrWhiteSpace`,
 * `Path.GetExtension`, `ToLowerInvariant` and `String.Replace("\"", "\\\"")`.
 */
module Text {

  newtype Byte = b: int | 0 <= b < 256

  type Bytes = seq<Byte>

  /** The UTF-8 encoding of U+FEFF. */
  const Bom: Bytes := [0xEF, 0xBB, 0xBF]

  predicate HasBom(b: Bytes) {
    |b| >= 3 && b[..3] == Bom
  }

  /**
   * Re-encoding as UTF-8 without a byte-order mark: reading drops one
   * leading mark and writing adds none; every other byte is kept.
   */
  function Normalize(b: Bytes): (r: Bytes)
    ensures b == (if HasBom(b) then Bom else []) + r
  {
    if HasBom(b) then b[3..] else b
  }

  /** Normalizing a marked text recovers the text behind the mark. */
  lemma NormalizeDropsOneMark(text: Bytes)
    ensures Normalize(Bom + text) == text
  {
    assert (Bom + text)[..3] == Bom;
  }

  /** The result is never longer, and never starts with the mark it removed unless the input carried two. */
  lemma NormalizeShape(b: Bytes)
    ensures |Normalize(b)| == (if HasBom(b) then |b| - 3 else |b|)
    ensures HasBom(Normalize(b)) ==> HasBom(b) && |b| >= 6 && b[3..6] == Bom
  {
    if HasBom(b) && HasBom(Normalize(b)) {
      assert b[3..6] == Normalize(b)[..3];
    }
  }

  /** `Char.IsWhiteSpace`: the Unicode separators Zs, Zl, Zp and the controls U+0009..U+000D, U+0085, U+00A0. */
  predicate IsWhiteSpace(c: char) {
    || c == ' '
    || ('\t' <= c <= '\r')
    || c == '\U{0085}'
    || c == '\U{00A0}'
    || c == '\U{1680}'
    || ('\U{2000}' <= c <= '\U{200A}')
    || c == '\U{2028}'
    || c == '\U{2029}'
    || c == '\U{202F}'
    || c == '\U{205F}'
    || c == '\U{3000}'
  }

  /** `String.IsNullOrWhiteSpace` (a null string is not modelled). */
  predicate IsBlank(s: string) {
    forall i :: 0 <= i < |s| ==> IsWhiteSpace(s[i])
  }

  /** `String.TrimStart()`: the longest all-white-space prefix removed. */
  function TrimStart(s: string): (r: string)
    ensures |r| <= |s| && r == s[|s| - |r|..]
    ensures r == [] || !IsWhiteSpace(r[0])
  {
    if s != [] && IsWhiteSpace(s[0]) then TrimStart(s[1..]) else s
  }

  /** What `TrimStart` removes is white space. */
  lemma {:induction false} TrimStartDropsBlank(s: string)
    ensures IsBlank(s[..|s| - |TrimStart(s)|])
  {
    if s != [] && IsWhiteSpace(s[0]) {
      TrimStartDropsBlank(s[1..]);
      var k := |s| - |TrimStart(s)|;
      forall i | 0 < i < k ensures IsWhiteSpace(s[i]) {
        assert s[i] == s[1..][..k - 1][i - 1];
      }
    }
  }

  /** `String.TrimEnd()`: the longest all-white-space suffix removed. */
  function TrimEnd(s: string): (r: string)
    ensures |r| <= |s| && r == s[..|r|]
    ensures r == [] || !IsWhiteSpace(r[|r| - 1])
  {
    if s != [] && IsWhiteSpace(s[|s| - 1]) then TrimEnd(s[..|s| - 1]) else s
  }

  /** What `TrimEnd` removes is white space. */
  lemma {:induction false} TrimEndDropsBlank(s: string)
    ensures IsBlank(s[|TrimEnd(s)|..])
  {
    if s != [] && IsWhiteSpace(s[|s| - 1]) {
      TrimEndDropsBlank(s[..|s| - 1]);
      var k := |TrimEnd(s)|;
      forall i | k <= i < |s| - 1 ensures IsWhiteSpace(s[i]) {
        assert s[i] == s[..|s| - 1][k..][i - k];
      }
    }
  }

  /** `String.Trim()`: white space removed from both ends. */
  function Trim(s: string): (r: string)
    ensures |r| <= |s|
    ensures r == [] || (!IsWhiteSpace(r[0]) && !IsWhiteSpace(r[|r| - 1]))
  {
    TrimEnd(TrimStart(s))
  }

  /** What `Trim` removes is white space, from the two ends only; the middle is kept as it was. */
  lemma TrimIsSlice(s: string)
    ensures exists a, b :: 0 <= a <= b <= |s| && Trim(s) == s[a..b] && IsBlank(s[..a]) && IsBlank(s[b..])
  {
    var t := TrimStart(s);
    var r := TrimEnd(t);
    TrimStartDropsBlank(s);
    TrimEndDropsBlank(t);
    TrimPieces(s, t, r);
    assert IsBlank(s[|s| - |t| + |r|..]);
  }

  /** A prefix `r` of a suffix `t` of `s` is a slice of `s`, and what follows `r` in `t` ends `s`. */
  lemma TrimPieces(s: string, t: string, r: string)
    requires |t| <= |s| && t == s[|s| - |t|..]
    requires |r| <= |t| && r == t[..|r|]
    ensures var a := |s| - |t|;
      0 <= a <= a + |r| <= |s| && r == s[a..a + |r|] && s[a + |r|..] == t[|r|..]
  {
  }

  /**
   * Trimming and then asking for white space: a trimmed string is blank
   * exactly when it is empty, and exactly when the untrimmed string was
   * blank.
   */
  lemma TrimBlank(s: string)
    ensures IsBlank(Trim(s)) <==> Trim(s) == []
    ensures IsBlank(Trim(s)) <==> IsBlank(s)
  {
    var r := Trim(s);
    TrimIsSlice(s);
    var a, b :| 0 <= a <= b <= |s| && r == s[a..b] && IsBlank(s[..a]) && IsBlank(s[b..]);
    if IsBlank(r) {
      assert a == b;
      forall i | 0 <= i < |s| ensures IsWhiteSpace(s[i]) {
        if i < a {
          assert s[i] == s[..a][i];
        } else {
          assert s[i] == s[b..][i - b];
        }
      }
    }
    assert r != [] ==> r[0] == s[a];
  }

  /** A string that neither starts nor ends with white space is left alone. */
  lemma TrimOfTrimmed(s: string)
    requires s == [] || (!IsWhiteSpace(s[0]) && !IsWhiteSpace(s[|s| - 1]))
    ensures Trim(s) == s
  {
    assert TrimStart(s) == s;
    assert TrimEnd(s) == s;
  }

  lemma TrimIdempotent(s: string)
    ensures Trim(Trim(s)) == Trim(s)
  {
    var r := Trim(s);
    assert TrimStart(r) == r;
    assert TrimEnd(r) == r;
  }

  /** ASCII upper case to lower case; every other character kept. */
  function LowerChar(c: char): (r: char)
    ensures 'A' <= c <= 'Z' ==> r as int == c as int + 32
    ensures !('A' <= c <= 'Z') ==> r == c
  {
    if 'A' <= c <= 'Z' then (c as int + 32) as char else c
  }

  function ToLowerInvariant(s: string): (r: string)
    ensures |r| == |s|
  {
    if s == [] then [] else [LowerChar(s[0])] + ToLowerInvariant(s[1..])
  }

  /** Lower-casing goes character by character. */
  lemma {:induction false} ToLowerInvariantChars(s: string)
    ensures forall i :: 0 <= i < |s| ==> ToLowerInvariant(s)[i] == LowerChar(s[i])
  {
    if s != [] {
      ToLowerInvariantChars(s[1..]);
      assert forall i :: 1 <= i < |s| ==> s[1..][i - 1] == s[i];
    }
  }

  /** The index of the last '.', or -1 when there is none. */
  function LastDot(s: string): (k: int)
    ensures -1 <= k < |s|
    ensures k >= 0 ==> s[k] == '.'
    ensures forall i :: k < i < |s| ==> s[i] != '.'
  {
    if s == [] then -1
    else if s[|s| - 1] == '.' then |s| - 1
    else LastDot(s[..|s| - 1])
  }

  /**
   * `Path.GetExtension` of a file name: from the last '.' to the end, or
   * empty when there is no '.' or the name ends in one.
   */
  function Extension(name: string): (r: string)
    ensures |r| <= |name|
  {
    var k := LastDot(name);
    if k < 0 || k == |name| - 1 then "" else name[k..]
  }

  /**
   * The extension is empty exactly when the name has no dot or ends in one;
   * otherwise it is a dot, at least one more character and no other dot,
   * and it ends the name.
   */
  lemma ExtensionShape(name: string)
    ensures var r := Extension(name);
      && (r == [] <==> (forall i :: 0 <= i < |name| ==> name[i] != '.') || (name != [] && name[|name| - 1] == '.'))
      && (r != [] ==> |r| >= 2 && r[0] == '.' && name == name[..|name| - |r|] + r)
      && (forall i :: 0 < i < |r| ==> r[i] != '.')
  {
    var k := LastDot(name);
    if k >= 0 && k != |name| - 1 {
      assert name == name[..k] + name[k..];
    }
  }

  /** `command.Replace("\"", "\\\"")`: every double quote gets a backslash in front. */
  function EscapeQuotes(s: string): (r: string)
    ensures forall i :: 0 <= i < |r| && r[i] == '"' ==> i > 0 && r[i - 1] == '\\'
    ensures |r| >= |s|
  {
    if s == [] then []
    else (if s[0] == '"' then "\\\"" else [s[0]]) + EscapeQuotes(s[1..])
  }

  /** The reverse reading: a backslash followed by a double quote stands for the quote. */
  function UnescapeQuotes(s: string): string {
    if s == [] then []
    else if |s| >= 2 && s[0] == '\\' && s[1] == '"' then "\"" + UnescapeQuotes(s[2..])
    else [s[0]] + UnescapeQuotes(s[1..])
  }

  /** Escaping loses nothing: removing the inserted backslashes gives the command back. */
  lemma {:induction false} EscapeRoundTrip(s: string)
    ensures UnescapeQuotes(EscapeQuotes(s)) == s
  {
    if s != [] {
      var rest := EscapeQuotes(s[1..]);
      EscapeRoundTrip(s[1..]);
      if s[0] == '"' {
        assert EscapeQuotes(s) == "\\\"" + rest;
        assert (("\\\"" + rest)[2..]) == rest;
      } else {
        assert EscapeQuotes(s) == [s[0]] + rest;
        assert ([s[0]] + rest)[1..] == rest;
        if s[0] == '\\' && rest != [] {
          assert rest[0] != '"';
        }
      }
      assert s == [s[0]] + s[1..];
    }
  }

  lemma EscapeWithoutQuotes(s: string)
    requires forall i :: 0 <= i < |s| ==> s[i] != '"'
    ensures EscapeQuotes(s) == s
  {
    if s != [] {
      EscapeWithoutQuotes(s[1..]);
    }
  }
}
