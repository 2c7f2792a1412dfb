/**
 * The string primitives the token extraction relies on: .NET's
 * `char.IsWhiteSpace` and `String.Trim()`, an ordinal case-insensitive
 * prefix test, and `Encoding.UTF8.GetBytes`.
 */
module Strings {

  type byte = x: int | 0 <= x < 256

  // ---------------------------------------------------------------------
  // Whitespace and trimming
  // ---------------------------------------------------------------------

  /** The characters .NET's `char.IsWhiteSpace` accepts: the control
      characters U+0009..U+000D and U+0085, and the Unicode space,
      line and paragraph separators. */
  predicate IsWhiteSpace(c: char) {
    ('\U{9}' <= c <= '\U{D}') || c == ' ' || c == '\U{85}' || c == '\U{A0}'
    || c == '\U{1680}' || ('\U{2000}' <= c <= '\U{200A}') || c == '\U{2028}'
    || c == '\U{2029}' || c == '\U{202F}' || c == '\U{205F}' || c == '\U{3000}'
  }

  predicate AllWhiteSpace(s: string) {
    forall i :: 0 <= i < |s| ==> IsWhiteSpace(s[i])
  }

  /** Neither end of `s` is whitespace. */
  predicate Trimmed(s: string) {
    s == [] || (!IsWhiteSpace(s[0]) && !IsWhiteSpace(s[|s| - 1]))
  }

  /** `s` with its leading whitespace removed: a suffix of `s`, whatever was
      cut off is whitespace, and the result does not start with whitespace. */
  function TrimStart(s: string): (r: string)
    ensures |r| <= |s| && r == s[|s| - |r|..]
    ensures AllWhiteSpace(s[..|s| - |r|])
    ensures r == [] || !IsWhiteSpace(r[0])
    decreases |s|
  {
    if s != [] && IsWhiteSpace(s[0]) then
      var r := TrimStart(s[1..]);
      var k := |s| - 1 - |r|;
      SliceOfSuffix(s, 1, k);
      WhiteSpaceCons(s[0], s[1..][..k]);
      assert s[..k + 1] == [s[0]] + s[1..][..k];
      r
    else s
  }

  /** Slices of a suffix are slices of the whole. */
  lemma SliceOfSuffix<T>(s: seq<T>, n: nat, k: nat)
    requires n + k <= |s|
    ensures s[n..][k..] == s[n + k..] && s[n..][..k] == s[n..n + k]
  {
  }

  lemma WhiteSpaceCons(c: char, t: string)
    requires IsWhiteSpace(c) && AllWhiteSpace(t)
    ensures AllWhiteSpace([c] + t)
  {
    forall i | 0 <= i < |[c] + t| ensures IsWhiteSpace(([c] + t)[i]) {
      if i > 0 { assert ([c] + t)[i] == t[i - 1]; }
    }
  }

  /** `s` with its trailing whitespace removed: a prefix of `s`, whatever was
      cut off is whitespace, and the result does not end with whitespace. */
  function TrimEnd(s: string): (r: string)
    ensures |r| <= |s| && r == s[..|r|]
    ensures AllWhiteSpace(s[|r|..])
    ensures r == [] || !IsWhiteSpace(r[|r| - 1])
    decreases |s|
  {
    if s != [] && IsWhiteSpace(s[|s| - 1]) then
      var r := TrimEnd(s[..|s| - 1]);
      assert s[|r|..] == s[..|s| - 1][|r|..] + [s[|s| - 1]];
      r
    else s
  }

  /** `String.Trim()`: whitespace cut off at both ends. */
  function Trim(s: string): (r: string)
    ensures Trimmed(r) && |r| <= |s|
  {
    TrimEnd(TrimStart(s))
  }

  /** What `Trim` leaves is the slice `s[i..j]`, with only whitespace on
      either side of it. */
  lemma TrimIsSlice(s: string)
    ensures exists i, j :: 0 <= i <= j <= |s| && Trim(s) == s[i..j]
                           && AllWhiteSpace(s[..i]) && AllWhiteSpace(s[j..])
  {
    assert s[0..] == s;
    var i, j := TrimOfSuffixIsSlice(s, 0);
    assert s[..i] == s[0..i];
  }

  /** Trimming what follows position `n` of `s` leaves the slice `s[i..j]`,
      with `n <= i`, and only whitespace cut off on either side. */
  lemma TrimOfSuffixIsSlice(s: string, n: nat) returns (i: nat, j: nat)
    requires n <= |s|
    ensures n <= i <= j <= |s| && Trim(s[n..]) == s[i..j]
    ensures AllWhiteSpace(s[n..i]) && AllWhiteSpace(s[j..])
  {
    i := TrimStartOfSuffix(s, n);
    j := TrimEndOfSuffix(s, i);
    assert Trim(s[n..]) == TrimEnd(TrimStart(s[n..]));
  }

  /** `TrimStart` applied to what follows position `n` of `s` is the suffix
      of `s` from some `i >= n`, with whitespace only between `n` and `i`. */
  lemma TrimStartOfSuffix(s: string, n: nat) returns (i: nat)
    requires n <= |s|
    ensures n <= i <= |s| && TrimStart(s[n..]) == s[i..] && AllWhiteSpace(s[n..i])
  {
    var rest := s[n..];
    i := SuffixParts(s, n, rest, TrimStart(rest));
  }

  /** A suffix `a` of the suffix `rest` of `s` from `n`, with only whitespace
      in front of it there, is the suffix of `s` from some `i >= n`, with
      only whitespace between `n` and `i`. */
  lemma SuffixParts(s: string, n: nat, rest: string, a: string) returns (i: nat)
    requires n <= |s| && rest == s[n..] && |a| <= |rest|
    requires a == rest[|rest| - |a|..] && AllWhiteSpace(rest[..|rest| - |a|])
    ensures n <= i <= |s| && a == s[i..] && AllWhiteSpace(s[n..i])
  {
    i := |s| - |a|;
    SliceOfSuffix(s, n, |rest| - |a|);
  }

  /** `TrimEnd` applied to the suffix of `s` from `i` is the slice `s[i..j]`,
      with whitespace only after `j`. */
  lemma TrimEndOfSuffix(s: string, i: nat) returns (j: nat)
    requires i <= |s|
    ensures i <= j <= |s| && TrimEnd(s[i..]) == s[i..j] && AllWhiteSpace(s[j..])
  {
    var a := s[i..];
    var t := TrimEnd(a);
    j := i + |t|;
    assert s[j..] == a[|t|..];
  }

  /** Trimming a string whose ends are not whitespace changes nothing. */
  lemma TrimOfTrimmed(s: string)
    requires Trimmed(s)
    ensures Trim(s) == s
  {
    assert TrimStart(s) == s;
  }

  /** Trimming twice is trimming once. */
  lemma TrimIdempotent(s: string)
    ensures Trim(Trim(s)) == Trim(s)
  {
    TrimOfTrimmed(Trim(s));
  }

  /** Whitespace around a trimmed string is exactly what `Trim` removes. */
  lemma TrimRemovesPadding(front: string, t: string, back: string)
    requires AllWhiteSpace(front) && AllWhiteSpace(back) && Trimmed(t)
    ensures Trim(front + t + back) == t
  {
    assert front + t + back == front + (t + back);
    if t == [] {
      assert t + back == back;
      TrimStartDropsPadding(front + back, []);
      assert front + back + [] == front + back;
    } else {
      assert (t + back)[0] == t[0];
      TrimStartDropsPadding(front, t + back);
      TrimEndDropsPadding(t, back);
    }
  }

  /** Leading whitespace in front of a non-blank start is what `TrimStart` removes. */
  lemma {:induction false} TrimStartDropsPadding(front: string, u: string)
    requires AllWhiteSpace(front) && (u == [] || !IsWhiteSpace(u[0]))
    ensures TrimStart(front + u) == u
    decreases |front|
  {
    if front != [] {
      assert (front + u)[1..] == front[1..] + u;
      assert (front + u)[0] == front[0];
      TrimStartDropsPadding(front[1..], u);
    } else {
      assert front + u == u;
    }
  }

  /** Trailing whitespace after a non-blank end is what `TrimEnd` removes. */
  lemma {:induction false} TrimEndDropsPadding(u: string, back: string)
    requires AllWhiteSpace(back) && (u == [] || !IsWhiteSpace(u[|u| - 1]))
    ensures TrimEnd(u + back) == u
    decreases |back|
  {
    if back != [] {
      var s := u + back;
      assert s[..|s| - 1] == u + back[..|back| - 1];
      assert s[|s| - 1] == back[|back| - 1];
      TrimEndDropsPadding(u, back[..|back| - 1]);
    } else {
      assert u + back == u;
    }
  }

  // ---------------------------------------------------------------------
  // Ordinal, case-insensitive comparison
  // ---------------------------------------------------------------------

  /** Upper-case fold of the ASCII letters; every other character is its
      own fold. */
  function AsciiUpper(c: char): (u: char) {
    if 'a' <= c <= 'z' then (c as int - 32) as char else c
  }

  predicate EqualIgnoringCase(a: char, b: char) {
    AsciiUpper(a) == AsciiUpper(b)
  }

  /** What matches a character of a pattern: a letter matches itself and the
      same letter in the other case; any other character matches only
      itself. */
  lemma EqualIgnoringCaseMatches(c: char, p: char)
    ensures 'a' <= p <= 'z' ==> (EqualIgnoringCase(c, p) <==> c == p || c as int == p as int - 32)
    ensures 'A' <= p <= 'Z' ==> (EqualIgnoringCase(c, p) <==> c == p || c as int == p as int + 32)
    ensures !('a' <= p <= 'z') && !('A' <= p <= 'Z') ==> (EqualIgnoringCase(c, p) <==> c == p)
  {
  }

  /** `s.StartsWith(prefix, StringComparison.OrdinalIgnoreCase)`. */
  predicate StartsWithIgnoreCase(s: string, prefix: string) {
    |prefix| <= |s| && forall i :: 0 <= i < |prefix| ==> EqualIgnoringCase(s[i], prefix[i])
  }

  /** The prefix test depends on `s` only up to case, position by position. */
  lemma StartsWithIgnoresCase(s: string, t: string, prefix: string)
    requires |s| == |t| && forall i :: 0 <= i < |s| ==> EqualIgnoringCase(s[i], t[i])
    ensures StartsWithIgnoreCase(s, prefix) <==> StartsWithIgnoreCase(t, prefix)
  {
  }

  // ---------------------------------------------------------------------
  // UTF-8
  // ---------------------------------------------------------------------

  /** UTF-8 encoding of one Unicode scalar value (RFC 3629, section 3). */
  function Utf8Char(c: char): (r: seq<byte>)
    ensures 1 <= |r| <= 4
    ensures (c as int < 0x80) <==> |r| == 1
    ensures |r| == 1 ==> r[0] == c as int
    ensures |r| > 1 ==> 0xC0 <= r[0] < 0xF8 && forall k :: 1 <= k < |r| ==> 0x80 <= r[k] < 0xC0
  {
    var n := c as int;
    if n < 0x80 then [n]
    else if n < 0x800 then [0xC0 + n / 0x40, 0x80 + n % 0x40]
    else if n < 0x10000 then [0xE0 + n / 0x1000, 0x80 + n / 0x40 % 0x40, 0x80 + n % 0x40]
    else [0xF0 + n / 0x40000, 0x80 + n / 0x1000 % 0x40, 0x80 + n / 0x40 % 0x40, 0x80 + n % 0x40]
  }

  /** `Encoding.UTF8.GetBytes(s)`. */
  function Utf8(s: string): (r: seq<byte>) {
    if s == [] then [] else Utf8Char(s[0]) + Utf8(s[1..])
  }

  /** Every character costs between one and four bytes. */
  lemma {:induction false} Utf8Length(s: string)
    ensures |s| <= |Utf8(s)| <= 4 * |s|
  {
    if s != [] { Utf8Length(s[1..]); }
  }

  /** An ASCII string encodes to its own code points, byte for byte. */
  lemma {:induction false} Utf8OfAscii(s: string)
    requires forall i :: 0 <= i < |s| ==> s[i] as int < 0x80
    ensures |Utf8(s)| == |s|
    ensures forall i :: 0 <= i < |s| ==> Utf8(s)[i] == s[i] as int
  {
    if s != [] {
      Utf8OfAscii(s[1..]);
      assert Utf8(s) == [s[0] as int] + Utf8(s[1..]);
    }
  }
}
