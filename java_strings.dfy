/**
  The few `java.lang.String` and `java.lang.Character` operations the domain
  model relies on: `isBlank`, `trim` and `toUpperCase(Locale.ROOT)`.
  A Java string is modelled as a sequence of characters.
*/
module JavaStrings {

  /** `Character.isWhitespace`: the ASCII separators, U+001C..U+001F and the
      Unicode space, line and paragraph separators except the no-break spaces. */
  predicate IsWhitespace(c: char) {
    || c == ' '
    || ('\t' <= c <= '\r')
    || ('\U{1C}' <= c <= '\U{1F}')
    || c == '\U{1680}'
    || ('\U{2000}' <= c <= '\U{2006}')
    || ('\U{2008}' <= c <= '\U{200A}')
    || c == '\U{2028}' || c == '\U{2029}' || c == '\U{205F}' || c == '\U{3000}'
  }

  /** `String.isBlank`: empty or whitespace only. */
  predicate IsBlank(s: string) {
    forall i | 0 <= i < |s| :: IsWhitespace(s[i])
  }

  /** The characters `String.trim` strips: every code point up to U+0020. */
  predicate IsTrimmable(c: char) {
    c <= ' '
  }

  /** The leading scan of `String.trim` from position `i`: the first position at or after
      `i` holding a character it keeps, or `|s|`. */
  function KeptFrom(s: string, i: nat): (n: nat)
    requires i <= |s|
    ensures i <= n <= |s|
    ensures forall k | i <= k < n :: IsTrimmable(s[k])
    ensures n == |s| || !IsTrimmable(s[n])
    decreases |s| - i
  {
    if i < |s| && IsTrimmable(s[i]) then KeptFrom(s, i + 1) else i
  }

  /** The trailing scan of `String.trim` below position `j`: the position just after the
      last character before `j` that it keeps, or 0. */
  function KeptUpTo(s: string, j: nat): (n: nat)
    requires j <= |s|
    ensures n <= j
    ensures forall k | n <= k < j :: IsTrimmable(s[k])
    ensures n == 0 || !IsTrimmable(s[n - 1])
    decreases j
  {
    if j > 0 && IsTrimmable(s[j - 1]) then KeptUpTo(s, j - 1) else j
  }

  /** `s` without its leading characters up to U+0020. */
  function TrimStart(s: string): (r: string)
    ensures |r| <= |s| && r == s[|s| - |r|..]
    ensures forall i | 0 <= i < |s| - |r| :: IsTrimmable(s[i])
    ensures r == [] || !IsTrimmable(r[0])
  {
    s[KeptFrom(s, 0)..]
  }

  /** `s` without its trailing characters up to U+0020. */
  function TrimEnd(s: string): (r: string)
    ensures |r| <= |s| && r == s[..|r|]
    ensures forall i | |r| <= i < |s| :: IsTrimmable(s[i])
    ensures r == [] || !IsTrimmable(r[|r| - 1])
  {
    s[..KeptUpTo(s, |s|)]
  }

  /** A string `trim` leaves as it is: empty, or neither starting nor ending with a
      character up to U+0020. */
  predicate IsTrimmed(s: string) {
    s == [] || (!IsTrimmable(s[0]) && !IsTrimmable(s[|s| - 1]))
  }

  /** `String.trim`: the longest infix of `s` that neither starts nor ends with a
      character up to U+0020. */
  function Trim(s: string): (r: string)
    ensures |r| <= |s|
    ensures IsTrimmed(r)
    ensures (forall i | 0 <= i < |s| :: IsTrimmable(s[i])) <==> r == []
    ensures exists i, j | 0 <= i <= j <= |s| ::
              && r == s[i..j]
              && (forall k | 0 <= k < i :: IsTrimmable(s[k]))
              && (forall k | j <= k < |s| :: IsTrimmable(s[k]))
  {
    TrimStartEndIsSlice(s);
    TrimEnd(TrimStart(s))
  }

  /** The two scans of `Trim` cut the string down to an infix whose surroundings are
      all characters up to U+0020. */
  lemma TrimStartEndIsSlice(s: string)
    ensures exists i, j | 0 <= i <= j <= |s| ::
              && TrimEnd(TrimStart(s)) == s[i..j]
              && (forall k | 0 <= k < i :: IsTrimmable(s[k]))
              && (forall k | j <= k < |s| :: IsTrimmable(s[k]))
  {
    var t := TrimStart(s);
    var r := TrimEnd(t);
    var i, j := |s| - |t|, |s| - |t| + |r|;
    assert r == s[i..j];
    forall k | j <= k < |s|
      ensures IsTrimmable(s[k])
    {
      assert s[k] == t[k - i];
    }
  }

  /** `Character.toUpperCase` on the Latin-1 range (ASCII letters, the accented
      letters, 'ÿ' and 'µ'); every other character is left as it is. */
  function ToUpperChar(c: char): char {
    if 'a' <= c <= 'z' then (c as int - 32) as char
    else if '\U{E0}' <= c <= '\U{FE}' && c != '\U{F7}' then (c as int - 32) as char
    else if c == '\U{FF}' then '\U{178}'
    else if c == '\U{B5}' then '\U{39C}'
    else c
  }

  /** `String.toUpperCase(Locale.ROOT)`, character by character. */
  function ToUpper(s: string): (r: string)
    ensures |r| == |s|
  {
    seq(|s|, i requires 0 <= i < |s| => ToUpperChar(s[i]))
  }

  /** Upper-casing never turns a character into one that `trim` strips, nor the reverse. */
  lemma ToUpperCharKeepsTrimmable(c: char)
    ensures IsTrimmable(ToUpperChar(c)) <==> IsTrimmable(c)
    ensures ToUpperChar(ToUpperChar(c)) == ToUpperChar(c)
  {
  }

  lemma ToUpperIdempotent(s: string)
    ensures ToUpper(ToUpper(s)) == ToUpper(s)
  {
    forall i | 0 <= i < |s| ensures ToUpper(ToUpper(s))[i] == ToUpper(s)[i] {
      ToUpperCharKeepsTrimmable(s[i]);
    }
  }

  /** A string that already starts and ends with a kept character is its own trim. */
  lemma TrimOfTrimmed(s: string)
    requires IsTrimmed(s)
    ensures Trim(s) == s
  {
  }

  /** The strings `trim` leaves unchanged are exactly the trimmed ones. */
  lemma TrimFixedIff(s: string)
    ensures Trim(s) == s <==> IsTrimmed(s)
  {
    if IsTrimmed(s) {
      TrimOfTrimmed(s);
    }
  }

  /** Trimming twice is trimming once. */
  lemma TrimIdempotent(s: string)
    ensures Trim(Trim(s)) == Trim(s)
  {
    TrimOfTrimmed(Trim(s));
  }

  /** Upper-casing does not move either scan of `trim`. */
  lemma {:induction false} KeptFromToUpper(s: string, i: nat)
    requires i <= |s|
    ensures KeptFrom(ToUpper(s), i) == KeptFrom(s, i)
    decreases |s| - i
  {
    if i < |s| {
      ToUpperCharKeepsTrimmable(s[i]);
      KeptFromToUpper(s, i + 1);
    }
  }

  lemma {:induction false} KeptUpToToUpper(s: string, j: nat)
    requires j <= |s|
    ensures KeptUpTo(ToUpper(s), j) == KeptUpTo(s, j)
    decreases j
  {
    if j > 0 {
      ToUpperCharKeepsTrimmable(s[j - 1]);
      KeptUpToToUpper(s, j - 1);
    }
  }

  lemma TrimStartToUpper(s: string)
    ensures TrimStart(ToUpper(s)) == ToUpper(TrimStart(s))
  {
    KeptFromToUpper(s, 0);
  }

  lemma TrimEndToUpper(s: string)
    ensures TrimEnd(ToUpper(s)) == ToUpper(TrimEnd(s))
  {
    KeptUpToToUpper(s, |s|);
  }

  /** Trimming and upper-casing commute. */
  lemma TrimToUpperCommute(s: string)
    ensures Trim(ToUpper(s)) == ToUpper(Trim(s))
  {
    TrimStartToUpper(s);
    TrimEndToUpper(TrimStart(s));
  }

  /** The number of UTF-16 code units of one character: two (a surrogate pair) above
      U+FFFF, one otherwise. */
  function Utf16Units(c: char): nat {
    if c as int > 0xFFFF then 2 else 1
  }

  /** `String.length()`: the UTF-16 code units of `s`, so a character outside the
      Basic Multilingual Plane counts twice. */
  function Utf16Length(s: string): (n: nat)
    ensures |s| <= n <= 2 * |s|
    ensures n == |s| <==> forall i | 0 <= i < |s| :: s[i] as int <= 0xFFFF
  {
    if s == [] then 0
    else
      var n := Utf16Units(s[0]) + Utf16Length(s[1..]);
      assert forall i | 1 <= i < |s| :: s[i] == s[1..][i - 1];
      n
  }

  /** `length()` of a concatenation is the sum of the lengths. */
  lemma {:induction false} Utf16LengthAppend(a: string, b: string)
    ensures Utf16Length(a + b) == Utf16Length(a) + Utf16Length(b)
  {
    if a == [] {
      assert a + b == b;
    } else {
      assert (a + b)[0] == a[0] && (a + b)[1..] == a[1..] + b;
      Utf16LengthAppend(a[1..], b);
    }
  }

  /** Two strings joined by one space can be split back at the space. */
  lemma SpaceJoinParts(a: string, b: string)
    ensures (a + " " + b)[..|a|] == a && (a + " " + b)[|a|] == ' ' && (a + " " + b)[|a| + 1..] == b
  {
    var f := a + " " + b;
    assert f[..|a|] == a;
    assert f[|a| + 1..] == b;
  }

  /** The leading scan over `[c] + s` from position `i + 1` is the scan over `s` from `i`,
      one position further on. */
  lemma {:induction false} KeptFromShift(c: char, s: string, i: nat)
    requires i <= |s|
    ensures KeptFrom([c] + s, i + 1) == KeptFrom(s, i) + 1
    decreases |s| - i
  {
    var p := [c] + s;
    if i < |s| {
      assert p[i + 1] == s[i];
      KeptFromShift(c, s, i + 1);
    }
  }

  /** A leading space makes no difference to `trim`. */
  lemma TrimLeadingSpace(s: string)
    ensures Trim(" " + s) == Trim(s)
  {
    var p := " " + s;
    KeptFromShift(' ', s, 0);
    assert KeptFrom(p, 0) == KeptFrom(p, 1);
    assert TrimStart(p) == TrimStart(s);
  }
}
