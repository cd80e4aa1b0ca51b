/**
  The .NET string operations the value objects rely on: char.IsWhiteSpace,
  string.Trim, ToLower on ASCII, string.Length counted in UTF-16 code units,
  IndexOf and Split.
 */
module Strings {
  import opened Wrappers

  /** char.IsWhiteSpace: the Unicode space separators, the controls
      U+0009 to U+000D and U+0085, and the line and paragraph separators. */
  predicate IsWhiteSpace(c: char) {
    || c == ' '
    || ('\t' <= c <= '\r')
    || c == '\U{0085}' || c == '\U{00A0}' || c == '\U{1680}'
    || ('\U{2000}' <= c <= '\U{200A}')
    || c == '\U{2028}' || c == '\U{2029}' || c == '\U{202F}' || c == '\U{205F}'
    || c == '\U{3000}'
  }

  predicate AllWhiteSpace(s: string) {
    forall i :: 0 <= i < |s| ==> IsWhiteSpace(s[i])
  }

  /** string.IsNullOrWhiteSpace: null, empty, or white space only. */
  predicate IsNullOrWhiteSpace(s: Option<string>): (b: bool)
    ensures b <==> s.None? || Trim(s.value) == []
  {
    if s.None? then true
    else
      TrimBlank(s.value);
      AllWhiteSpace(s.value)
  }

  /** Where string.TrimStart() cuts: the first position at or after i
      whose character is not white space, or |s|. */
  function TrimStartIndex(s: string, i: nat): (k: nat)
    requires i <= |s|
    ensures i <= k <= |s|
    ensures forall j :: i <= j < k ==> IsWhiteSpace(s[j])
    ensures k < |s| ==> !IsWhiteSpace(s[k])
    decreases |s| - i
  {
    if i == |s| || !IsWhiteSpace(s[i]) then i else TrimStartIndex(s, i + 1)
  }

  /** Where string.TrimEnd() cuts, looking no further left than lo: the
      position after the last character before j that is not white space,
      or lo. */
  function TrimEndIndex(s: string, lo: nat, j: nat): (k: nat)
    requires lo <= j <= |s|
    ensures lo <= k <= j
    ensures forall m :: k <= m < j ==> IsWhiteSpace(s[m])
    ensures k > lo ==> !IsWhiteSpace(s[k - 1])
    decreases j
  {
    if j == lo || !IsWhiteSpace(s[j - 1]) then j else TrimEndIndex(s, lo, j - 1)
  }

  /** string.Trim(): the result is a slice of the input that neither starts
      nor ends with white space, and everything cut away is white space. */
  function Trim(s: string): (r: string)
    ensures r == [] || (!IsWhiteSpace(r[0]) && !IsWhiteSpace(r[|r| - 1]))
    ensures exists i :: 0 <= i <= |s| - |r| && r == s[i..i + |r|]
                        && AllWhiteSpace(s[..i]) && AllWhiteSpace(s[i + |r|..])
  {
    var a := TrimStartIndex(s, 0);
    var e := TrimEndIndex(s, a, |s|);
    assert AllWhiteSpace(s[..a]) && AllWhiteSpace(s[e..]);
    s[a..e]
  }

  /** Trimming leaves nothing exactly when the string is all white space. */
  lemma TrimBlank(s: string)
    ensures Trim(s) == [] <==> AllWhiteSpace(s)
  {
    var a := TrimStartIndex(s, 0);
    var e := TrimEndIndex(s, a, |s|);
    if AllWhiteSpace(s) {
      assert a == |s|;
    }
    if e == a {
      assert forall j :: 0 <= j < |s| ==> IsWhiteSpace(s[j]);
    }
  }

  /** A string with nothing to trim is its own trimming. */
  lemma TrimUntrimmed(s: string)
    requires s == [] || (!IsWhiteSpace(s[0]) && !IsWhiteSpace(s[|s| - 1]))
    ensures Trim(s) == s
  {
    assert TrimStartIndex(s, 0) == 0;
    assert TrimEndIndex(s, 0, |s|) == |s|;
  }

  predicate IsAscii(s: string) {
    forall i :: 0 <= i < |s| ==> s[i] < '\U{80}'
  }

  predicate IsAsciiUpper(c: char) {
    'A' <= c <= 'Z'
  }

  /** Lower-cases one ASCII letter; every other character is left as it is. */
  function LowerChar(c: char): (l: char)
    ensures !IsAsciiUpper(l)
    ensures IsAsciiUpper(c) ==> l as int == c as int + 32
    ensures !IsAsciiUpper(c) ==> l == c
  {
    if IsAsciiUpper(c) then (c as int + 32) as char else c
  }

  /** string.ToLowerInvariant() restricted to ASCII letters. */
  function ToLower(s: string): (r: string)
    ensures |r| == |s|
    ensures forall i :: 0 <= i < |s| ==> r[i] == LowerChar(s[i])
  {
    if s == [] then [] else [LowerChar(s[0])] + ToLower(s[1..])
  }

  /** Lower-casing a string that has no upper-case ASCII letter changes nothing. */
  lemma ToLowerOfLower(s: string)
    requires forall i :: 0 <= i < |s| ==> !IsAsciiUpper(s[i])
    ensures ToLower(s) == s
  {
  }

  /** string.Length: the number of UTF-16 code units, two for every
      character outside the Basic Multilingual Plane. */
  function Utf16Length(s: string): (n: nat)
    ensures |s| <= n <= 2 * |s|
    ensures (forall i :: 0 <= i < |s| ==> s[i] <= '\U{FFFF}') ==> n == |s|
  {
    if s == [] then 0 else (if s[0] <= '\U{FFFF}' then 1 else 2) + Utf16Length(s[1..])
  }

  /** string.IndexOf(char): the first position of c in s, or None. */
  function IndexOf(s: string, c: char): (r: Option<nat>)
    ensures r.None? <==> c !in s
    ensures r.Some? ==> r.value < |s| && s[r.value] == c && c !in s[..r.value]
  {
    if s == [] then None
    else if s[0] == c then Some(0)
    else match IndexOf(s[1..], c)
      case None => None
      case Some(i) =>
        assert s[1..][..i] == s[1..i + 1];
        Some(i + 1)
  }

  /** string.Split(char): the pieces between the occurrences of sep. */
  function Split(s: string, sep: char): (parts: seq<string>)
    ensures |parts| >= 1
    ensures forall k :: 0 <= k < |parts| ==> sep !in parts[k]
    ensures Join(parts, sep) == s
    decreases |s|
  {
    match IndexOf(s, sep)
    case None => [s]
    case Some(i) =>
      var rest := Split(s[i + 1..], sep);
      assert ([s[..i]] + rest)[1..] == rest;
      assert s == s[..i] + [sep] + s[i + 1..];
      [s[..i]] + rest
  }

  /** string.Join(sep, parts), the inverse of Split. */
  function Join(parts: seq<string>, sep: char): string
    requires |parts| >= 1
  {
    if |parts| == 1 then parts[0] else parts[0] + [sep] + Join(parts[1..], sep)
  }

  /** Splitting a join of separator-free pieces gives the pieces back. */
  lemma {:induction false} SplitJoin(parts: seq<string>, sep: char)
    requires |parts| >= 1
    requires forall k :: 0 <= k < |parts| ==> sep !in parts[k]
    ensures Split(Join(parts, sep), sep) == parts
  {
    var s := Join(parts, sep);
    if |parts| == 1 {
      assert IndexOf(s, sep).None?;
    } else {
      var tail := Join(parts[1..], sep);
      assert s == parts[0] + [sep] + tail;
      assert s[|parts[0]|] == sep && s[..|parts[0]|] == parts[0];
      assert IndexOf(s, sep) == Some(|parts[0]|);
      assert s[|parts[0]| + 1..] == tail;
      SplitJoin(parts[1..], sep);
    }
  }

  /** Every character of a join satisfies ok when the separator and every
      character of every piece do. */
  lemma {:induction false} JoinChars(parts: seq<string>, sep: char, ok: char -> bool)
    requires |parts| >= 1 && ok(sep)
    requires forall k, i :: 0 <= k < |parts| && 0 <= i < |parts[k]| ==> ok(parts[k][i])
    ensures forall i :: 0 <= i < |Join(parts, sep)| ==> ok(Join(parts, sep)[i])
  {
    if |parts| > 1 {
      JoinChars(parts[1..], sep, ok);
      var tail := Join(parts[1..], sep);
      var s := parts[0] + [sep] + tail;
      forall i | 0 <= i < |s| ensures ok(s[i]) {
        if i < |parts[0]| {
          assert s[i] == parts[0][i];
        } else if i > |parts[0]| {
          assert s[i] == tail[i - |parts[0]| - 1];
        }
      }
    }
  }

  /** A join of non-empty, separator-free pieces neither starts nor ends with
      the separator and never holds two separators in a row. */
  lemma {:induction false} JoinOfNonEmpty(parts: seq<string>, sep: char)
    requires |parts| >= 1
    requires forall k :: 0 <= k < |parts| ==> parts[k] != [] && sep !in parts[k]
    ensures Join(parts, sep) != []
    ensures Join(parts, sep)[0] != sep && Join(parts, sep)[|Join(parts, sep)| - 1] != sep
    ensures forall i :: 0 <= i < |Join(parts, sep)| - 1 ==>
              Join(parts, sep)[i] != sep || Join(parts, sep)[i + 1] != sep
  {
    var p := parts[0];
    assert p[0] in p && p[|p| - 1] in p;
    if |parts| > 1 {
      JoinOfNonEmpty(parts[1..], sep);
      var tail := Join(parts[1..], sep);
      var s := p + [sep] + tail;
      assert s[|s| - 1] == tail[|tail| - 1];
      forall i | 0 <= i < |s| - 1 ensures s[i] != sep || s[i + 1] != sep {
        if i < |p| - 1 {
          assert s[i] == p[i] && p[i] in p;
        } else if i == |p| - 1 {
          assert s[i] == p[i];
        } else if i == |p| {
          assert s[i + 1] == tail[0];
        } else {
          assert s[i] == tail[i - |p| - 1] && s[i + 1] == tail[i - |p|];
        }
      }
    }
  }

  /** Trimming a string padded with one space on each side gives it back. */
  lemma TrimPadded(s: string)
    requires s != [] && !IsWhiteSpace(s[0]) && !IsWhiteSpace(s[|s| - 1])
    ensures Trim([' '] + s + [' ']) == s
  {
    var padded := [' '] + s + [' '];
    assert padded[1] == s[0] && padded[|padded| - 2] == s[|s| - 1];
    assert TrimStartIndex(padded, 1) == 1;
    assert TrimStartIndex(padded, 0) == 1;
    assert TrimEndIndex(padded, 1, |padded| - 1) == |padded| - 1;
    assert TrimEndIndex(padded, 1, |padded|) == |padded| - 1;
    assert padded[1..|padded| - 1] == s;
  }
}
