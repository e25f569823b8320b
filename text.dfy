/** Python `str` operations that the subtitle cleaner relies on, written out as
    functions on `string` (a `seq<char>` of Unicode scalar values). */
module Text {

  datatype Option<+T> = None | Some(value: T)

  /** Python's `str.isspace` for one character: the characters with Unicode
      bidirectional class WS, B or S, or general category Zs. */
  const SpaceChars: set<char> := {
    ' ', '\t', '\n', '\U{0B}', '\U{0C}', '\r', '\U{1C}', '\U{1D}', '\U{1E}', '\U{1F}',
    '\U{85}', '\U{A0}', '\U{1680}',
    '\U{2000}', '\U{2001}', '\U{2002}', '\U{2003}', '\U{2004}', '\U{2005}',
    '\U{2006}', '\U{2007}', '\U{2008}', '\U{2009}', '\U{200A}',
    '\U{2028}', '\U{2029}', '\U{202F}', '\U{205F}', '\U{3000}'
  }

  predicate IsSpace(c: char) {
    c in SpaceChars
  }

  predicate AllSpace(s: string) {
    forall i :: 0 <= i < |s| ==> IsSpace(s[i])
  }

  /** A string `strip()` leaves as it is. */
  predicate Trimmed(s: string) {
    |s| == 0 || (!IsSpace(s[0]) && !IsSpace(s[|s| - 1]))
  }

  /** Number of whitespace characters at the start of `s`. */
  function LeadingSpaces(s: string): (n: nat)
    ensures n <= |s| && AllSpace(s[..n])
    ensures n < |s| ==> !IsSpace(s[n])
  {
    if |s| == 0 || !IsSpace(s[0]) then 0
    else
      var n := 1 + LeadingSpaces(s[1..]);
      assert s[..n] == [s[0]] + s[1..][..n - 1];
      n
  }

  /** Number of whitespace characters at the end of `s`. */
  function TrailingSpaces(s: string): (n: nat)
    ensures n <= |s| && AllSpace(s[|s| - n..])
    ensures n < |s| ==> !IsSpace(s[|s| - n - 1])
  {
    if |s| == 0 || !IsSpace(s[|s| - 1]) then 0
    else
      var m := TrailingSpaces(s[..|s| - 1]);
      TrailingStep(s, m);
      1 + m
  }

  /** One more whitespace character at the end extends the trailing run. */
  lemma TrailingStep(s: string, m: nat)
    requires |s| > 0 && IsSpace(s[|s| - 1]) && m < |s|
    requires AllSpace(s[..|s| - 1][|s| - 1 - m..])
    requires m < |s| - 1 ==> !IsSpace(s[..|s| - 1][|s| - 1 - m - 1])
    ensures AllSpace(s[|s| - (m + 1)..])
    ensures m + 1 < |s| ==> !IsSpace(s[|s| - (m + 1) - 1])
  {
    var init := s[..|s| - 1];
    assert s[|s| - (m + 1)..] == init[|s| - 1 - m..] + [s[|s| - 1]];
    if m + 1 < |s| { assert init[|s| - 1 - m - 1] == s[|s| - (m + 1) - 1]; }
  }

  /** Python's `str.strip()`: `s` with its leading and trailing whitespace removed. */
  function Strip(s: string): (r: string)
    ensures Trimmed(r)
    ensures |r| <= |s|
  {
    var l := LeadingSpaces(s);
    var t := TrailingSpaces(s[l..]);
    MiddleTrimmed(s, l, t);
    s[l..|s| - t]
  }

  /** Cutting the leading run and then the trailing run leaves no whitespace
      at either end. */
  lemma MiddleTrimmed(s: string, l: nat, t: nat)
    requires l <= |s| && (l < |s| ==> !IsSpace(s[l]))
    requires t <= |s| - l && (t < |s| - l ==> !IsSpace(s[l..][|s| - l - t - 1]))
    ensures Trimmed(s[l..|s| - t])
  {
    var m := s[l..|s| - t];
    if |m| > 0 {
      assert m[0] == s[l];
      assert m[|m| - 1] == s[l..][|s| - l - t - 1];
    }
  }

  lemma {:induction false} LeadingSpacesBefore(a: string, y: string)
    requires AllSpace(a)
    requires |y| == 0 || !IsSpace(y[0])
    ensures LeadingSpaces(a + y) == |a|
    decreases |a|
  {
    if |a| == 0 {
      assert a + y == y;
    } else {
      assert (a + y)[1..] == a[1..] + y;
      LeadingSpacesBefore(a[1..], y);
    }
  }

  lemma {:induction false} TrailingSpacesAfter(y: string, b: string)
    requires AllSpace(b)
    requires |y| == 0 || !IsSpace(y[|y| - 1])
    ensures TrailingSpaces(y + b) == |b|
    decreases |b|
  {
    if |b| == 0 {
      assert y + b == y;
    } else {
      assert (y + b)[..|y + b| - 1] == y + b[..|b| - 1];
      TrailingSpacesAfter(y, b[..|b| - 1]);
    }
  }

  /** `strip()` is determined by the decomposition it undoes: whatever
      whitespace surrounds a trimmed string, stripping gives that string back. */
  lemma {:induction false} StripUnique(a: string, x: string, b: string)
    requires AllSpace(a) && AllSpace(b) && Trimmed(x)
    ensures Strip(a + x + b) == x
  {
    if |x| == 0 {
      assert a + x + b == a + b;
      StripAllSpace(a, b);
    } else {
      StripAroundText(a, x, b);
    }
  }

  /** Whitespace alone strips to nothing. */
  lemma {:induction false} StripAllSpace(a: string, b: string)
    requires AllSpace(a) && AllSpace(b)
    ensures Strip(a + b) == ""
  {
    var s := a + b;
    assert AllSpace(s) by {
      forall i | 0 <= i < |s| ensures IsSpace(s[i]) {
        if i < |a| { assert s[i] == a[i]; } else { assert s[i] == b[i - |a|]; }
      }
    }
    LeadingSpacesBefore(s, "");
    assert s + "" == s;
  }

  lemma {:induction false} StripAroundText(a: string, x: string, b: string)
    requires AllSpace(a) && AllSpace(b) && Trimmed(x) && |x| > 0
    ensures Strip(a + x + b) == x
  {
    var s := a + x + b;
    assert s == a + (x + b);
    LeadingSpacesBefore(a, x + b);
    assert s[|a|..] == x + b;
    TrailingSpacesAfter(x, b);
    assert s[|a|..|s| - |b|] == x;
  }

  lemma StripTrimmed(x: string)
    requires Trimmed(x)
    ensures Strip(x) == x
  {
    StripUnique("", x, "");
    assert "" + x + "" == x;
  }

  /** `pat` occurs in `s` starting at index `k`. */
  predicate OccursAt(s: string, pat: string, k: int) {
    0 <= k && k + |pat| <= |s| && s[k..k + |pat|] == pat
  }

  /** Position of the leftmost occurrence of `pat` in `s` at or after `from`
      (the search behind `str.find` and `str.split`). */
  function FindFrom(s: string, pat: string, from: nat): (r: Option<nat>)
    ensures r.Some? ==> from <= r.value && OccursAt(s, pat, r.value)
    ensures forall k :: from <= k && (r.None? || k < r.value) ==> !OccursAt(s, pat, k)
    decreases |s| - from
  {
    if from + |pat| > |s| then None
    else if s[from..from + |pat|] == pat then Some(from)
    else FindFrom(s, pat, from + 1)
  }

  function Find(s: string, pat: string): (r: Option<nat>)
    ensures r.Some? ==> OccursAt(s, pat, r.value)
    ensures forall k :: 0 <= k && (r.None? || k < r.value) ==> !OccursAt(s, pat, k)
  {
    FindFrom(s, pat, 0)
  }

  predicate Contains(s: string, pat: string) {
    exists k :: 0 <= k <= |s| && OccursAt(s, pat, k)
  }

  /** Python's `s.replace(pat, '')`: every non-overlapping occurrence of `pat`,
      found left to right, is deleted. */
  function RemoveAll(s: string, pat: string): (r: string)
    requires |pat| > 0
    ensures r == s || |r| < |s|
    ensures |pat| <= |s| && s[..|pat|] == pat ==> |r| <= |s| - |pat|
    decreases |s|
  {
    if |s| == 0 then s
    else if |pat| <= |s| && s[..|pat|] == pat then RemoveAll(s[|pat|..], pat)
    else
      assert [s[0]] + s[1..] == s;
      [s[0]] + RemoveAll(s[1..], pat)
  }

  /** A string without the pattern is left alone by `replace`; one that has it
      comes out strictly shorter. */
  lemma {:induction false} RemoveAllChanges(s: string, pat: string)
    requires |pat| > 0
    ensures RemoveAll(s, pat) == s <==> !Contains(s, pat)
  {
    if |s| == 0 {
    } else if |pat| <= |s| && s[..|pat|] == pat {
      assert OccursAt(s, pat, 0);
    } else {
      RemoveAllChanges(s[1..], pat);
      if |pat| <= |s| { assert s[0..|pat|] == s[..|pat|]; }
      ContainsInTail(s, pat);
      if RemoveAll(s, pat) == s {
        assert RemoveAll(s[1..], pat) == s[1..];
      }
    }
  }

  /** `replace` works left to right: when the first occurrence of `pat` starts
      right after `a`, the text before it is kept, that occurrence is deleted,
      and the rest is handled on its own. */
  lemma RemoveAllFirst(a: string, pat: string, b: string)
    requires |pat| > 0
    requires forall k :: 0 <= k < |a| ==> !OccursAt(a + pat + b, pat, k)
    ensures RemoveAll(a + pat + b, pat) == a + RemoveAll(b, pat)
  {
    var s := a + pat + b;
    assert s[|a|..|a| + |pat|] == pat;
    RemoveAllAt(s, pat, |a|);
    assert s[..|a|] == a;
    assert s[|a| + |pat|..] == b;
  }

  /** `RemoveAllFirst` for the first occurrence at index `i` of one string. */
  lemma {:induction false} RemoveAllAt(s: string, pat: string, i: nat)
    requires |pat| > 0 && OccursAt(s, pat, i)
    requires forall k :: 0 <= k < i ==> !OccursAt(s, pat, k)
    ensures RemoveAll(s, pat) == s[..i] + RemoveAll(s[i + |pat|..], pat)
    decreases i
  {
    if i == 0 {
      assert RemoveAll(s, pat) == RemoveAll(s[|pat|..], pat) by {
        assert s[..|pat|] == pat;
      }
      assert s[..0] + RemoveAll(s[|pat|..], pat) == RemoveAll(s[|pat|..], pat);
    } else {
      var front := s[1..][..i - 1];
      var rest := RemoveAll(s[i + |pat|..], pat);
      assert RemoveAll(s, pat) == [s[0]] + RemoveAll(s[1..], pat) by {
        RemoveAllPeel(s, pat);
      }
      assert RemoveAll(s[1..], pat) == front + rest by {
        NoneBeforeInTail(s, pat, i);
        RemoveAllAt(s[1..], pat, i - 1);
        assert s[1..][i - 1 + |pat|..] == s[i + |pat|..];
      }
      assert [s[0]] + front == s[..i];
      ConsChain(RemoveAll(s, pat), RemoveAll(s[1..], pat), s[0], front, rest, s[..i]);
    }
  }

  /** The occurrences of the tail are those of `s`, one place earlier. */
  lemma NoneBeforeInTail(s: string, pat: string, i: nat)
    requires 0 < i && OccursAt(s, pat, i)
    requires forall k :: 0 <= k < i ==> !OccursAt(s, pat, k)
    ensures OccursAt(s[1..], pat, i - 1)
    ensures forall k :: 0 <= k < i - 1 ==> !OccursAt(s[1..], pat, k)
  {
    OccursShift(s, pat, i - 1);
    forall k | 0 <= k < i - 1 ensures !OccursAt(s[1..], pat, k) {
      OccursShift(s, pat, k);
    }
  }

  /** If `x` is `c` before `y`, and `y` is `front` before `rest`, then `x` is
      `c` and `front` before `rest`. */
  lemma ConsChain(x: string, y: string, c: char, front: string, rest: string, prefix: string)
    requires x == [c] + y && y == front + rest && [c] + front == prefix
    ensures x == prefix + rest
  {
    assert [c] + (front + rest) == ([c] + front) + rest;
  }

  /** An occurrence one place further in `s` is one in the tail of `s`. */
  lemma OccursShift(s: string, pat: string, k: nat)
    requires |s| > 0
    ensures OccursAt(s, pat, k + 1) <==> OccursAt(s[1..], pat, k)
  {
    if k + 1 + |pat| <= |s| {
      assert s[k + 1..k + 1 + |pat|] == s[1..][k..k + |pat|];
    }
  }

  /** Without an occurrence at the start, `replace` keeps the first character. */
  lemma RemoveAllPeel(s: string, pat: string)
    requires |pat| > 0 && |s| > 0 && !OccursAt(s, pat, 0)
    ensures RemoveAll(s, pat) == [s[0]] + RemoveAll(s[1..], pat)
  {
    if |pat| <= |s| { assert s[0..|pat|] == s[..|pat|]; }
  }

  /** With no occurrence at the start, the occurrences are those of the tail. */
  lemma ContainsInTail(s: string, pat: string)
    requires |s| > 0 && !OccursAt(s, pat, 0)
    ensures Contains(s, pat) <==> Contains(s[1..], pat)
  {
    var t := s[1..];
    if Contains(t, pat) {
      var k :| 0 <= k <= |t| && OccursAt(t, pat, k);
      assert t[k..k + |pat|] == s[k + 1..k + 1 + |pat|];
      assert OccursAt(s, pat, k + 1);
    }
    if Contains(s, pat) {
      var k :| 0 <= k <= |s| && OccursAt(s, pat, k);
      assert t[k - 1..k - 1 + |pat|] == s[k..k + |pat|];
      assert OccursAt(t, pat, k - 1);
    }
  }

  /** Python's `str.split(sep)` for a one-character separator. */
  function Split(s: string, sep: char): (r: seq<string>)
    ensures |r| >= 1
    ensures forall i :: 0 <= i < |r| ==> sep !in r[i]
    decreases |s|
  {
    match Find(s, [sep])
    case None =>
      assert forall k :: 0 <= k < |s| ==> s[k] != sep by {
        forall k | 0 <= k < |s| ensures s[k] != sep { OccursAtChar(s, sep, k); }
      }
      [s]
    case Some(k) =>
      assert forall j :: 0 <= j < k ==> s[j] != sep by {
        forall j | 0 <= j < k ensures s[j] != sep { OccursAtChar(s, sep, j); }
      }
      [s[..k]] + Split(s[k + 1..], sep)
  }

  /** Python's `sep.join(parts)`: the pieces in order with `sep` between
      neighbours, so the text starts with the first piece (and, by
      `JoinEndsWithLast`, ends with the last). `SplitJoin` and `JoinSplit`
      relate it to `Split`. */
  function Join(parts: seq<string>, sep: string): (r: string)
    ensures |parts| == 0 ==> r == ""
    ensures |parts| > 0 ==> |parts[0]| <= |r| && r[..|parts[0]|] == parts[0]
    decreases |parts|
  {
    if |parts| == 0 then ""
    else if |parts| == 1 then parts[0]
    else parts[0] + sep + Join(parts[1..], sep)
  }

  lemma {:induction false} JoinEndsWithLast(parts: seq<string>, sep: string)
    requires |parts| > 0
    ensures var r := Join(parts, sep); var last := parts[|parts| - 1];
      |last| <= |r| && r[|r| - |last|..] == last
    decreases |parts|
  {
    if |parts| > 1 {
      var tail := Join(parts[1..], sep);
      JoinEndsWithLast(parts[1..], sep);
      assert parts[1..][|parts| - 2] == parts[|parts| - 1];
      var r := parts[0] + sep + tail;
      assert r[|r| - |tail|..] == tail;
    }
  }

  /** A one-character pattern occurs exactly where that character stands. */
  lemma OccursAtChar(s: string, c: char, k: int)
    ensures OccursAt(s, [c], k) <==> 0 <= k < |s| && s[k] == c
  {
    if 0 <= k < |s| { assert s[k..k + 1] == [s[k]]; }
  }

  /** In `p + [sep] + rest` with no `sep` inside `p`, the first separator is the one after `p`. */
  lemma FindSeparator(p: string, sep: char, rest: string)
    requires sep !in p
    ensures Find(p + [sep] + rest, [sep]) == Some(|p|)
  {
    var s := p + [sep] + rest;
    assert OccursAt(s, [sep], |p|) by { assert s[|p|..|p| + 1] == [sep]; }
    forall k | 0 <= k < |p| ensures !OccursAt(s, [sep], k) {
      OccursAtChar(s, sep, k);
      assert s[k] == p[k];
    }
  }

  /** A string without the separator has no occurrence of it. */
  lemma FindNoSeparator(p: string, sep: char)
    requires sep !in p
    ensures Find(p, [sep]) == None
  {
    forall k | 0 <= k ensures !OccursAt(p, [sep], k) {
      OccursAtChar(p, sep, k);
    }
  }

  /** Splitting undoes joining when no part contains the separator. */
  lemma {:induction false} SplitJoin(parts: seq<string>, sep: char)
    requires |parts| >= 1
    requires forall i :: 0 <= i < |parts| ==> sep !in parts[i]
    ensures Split(Join(parts, [sep]), sep) == parts
    decreases |parts|
  {
    var s := Join(parts, [sep]);
    var p := parts[0];
    if |parts| == 1 {
      FindNoSeparator(p, sep);
    } else {
      var rest := Join(parts[1..], [sep]);
      assert s == p + [sep] + rest;
      FindSeparator(p, sep, rest);
      assert s[..|p|] == p;
      assert s[|p| + 1..] == rest;
      SplitJoin(parts[1..], sep);
      assert Split(s, sep) == [p] + Split(rest, sep);
      assert parts == [p] + parts[1..];
    }
  }

  /** Joining the pieces of a split with the separator gives the string back. */
  lemma {:induction false} JoinSplit(s: string, sep: char)
    ensures Join(Split(s, sep), [sep]) == s
    decreases |s|
  {
    match Find(s, [sep])
    case None =>
    case Some(k) =>
      var rest := Split(s[k + 1..], sep);
      var parts := [s[..k]] + rest;
      assert parts[1..] == rest;
      calc {
        Join(parts, [sep]);
        s[..k] + [sep] + Join(rest, [sep]);
        { JoinSplit(s[k + 1..], sep); }
        s[..k] + [sep] + s[k + 1..];
        { assert s[k..k + 1] == [sep]; }
        s;
      }
  }

  // ---- case-insensitive matching (the `re.I` flag) -------------------------

  /** Under `re.IGNORECASE`, input character `c` matches pattern character `p`.
      Pattern characters are always lower case here; besides the upper-case
      forms of ASCII and Latin-1 letters, Python's matcher lets U+0130 and
      U+0131 match `i`, U+017F match `s` and the Kelvin sign U+212A match `k`. */
  predicate CharMatchesIgnoringCase(c: char, p: char) {
    c == p ||
    (('a' <= p <= 'z' || ('\U{E0}' <= p <= '\U{FE}' && p != '\U{F7}')) && c as int == p as int - 32) ||
    (p == 'i' && (c == '\U{130}' || c == '\U{131}')) ||
    (p == 's' && c == '\U{17F}') ||
    (p == 'k' && c == '\U{212A}')
  }

  /** `s` begins with `pat`, compared case-insensitively. */
  predicate StartsWithIgnoringCase(s: string, pat: string) {
    |pat| <= |s| && forall i :: 0 <= i < |pat| ==> CharMatchesIgnoringCase(s[i], pat[i])
  }

  /** `pat` occurs somewhere in `s`, compared case-insensitively: what
      `re.match('^.*?' + pat + '.*?$', s, re.I)` decides for a line without
      line breaks. */
  function ContainsIgnoringCase(s: string, pat: string): bool
    decreases |s|
  {
    StartsWithIgnoringCase(s, pat) || (|s| > 0 && ContainsIgnoringCase(s[1..], pat))
  }

  /** The scan above finds an occurrence exactly when there is one. */
  lemma {:induction false} ContainsIgnoringCaseMeans(s: string, pat: string)
    ensures ContainsIgnoringCase(s, pat) <==> exists k :: 0 <= k <= |s| && StartsWithIgnoringCase(s[k..], pat)
    decreases |s|
  {
    assert s[0..] == s;
    if |s| > 0 {
      ContainsIgnoringCaseMeans(s[1..], pat);
      forall k | 1 <= k <= |s| ensures s[1..][k - 1..] == s[k..] { }
      if ContainsIgnoringCase(s[1..], pat) {
        var k :| 0 <= k <= |s[1..]| && StartsWithIgnoringCase(s[1..][k..], pat);
        assert StartsWithIgnoringCase(s[k + 1..], pat);
      }
    }
  }

  // ---- Python's str(int) ---------------------------------------------------

  function DigitChar(d: nat): (c: char)
    requires d < 10
    ensures '0' <= c <= '9'
  {
    ('0' as int + d) as char
  }

  predicate IsDigit(c: char) {
    '0' <= c <= '9'
  }

  predicate AllDigits(s: string) {
    forall i :: 0 <= i < |s| ==> IsDigit(s[i])
  }

  /** Decimal digits of `n`, most significant first, without leading zeros. */
  function NatToString(n: nat): (r: string)
    ensures |r| >= 1 && AllDigits(r)
    ensures r[0] == '0' ==> n == 0
  {
    if n < 10 then [DigitChar(n)] else NatToString(n / 10) + [DigitChar(n % 10)]
  }

  /** The value of a string of decimal digits. */
  function DecimalValue(s: string): nat
    requires AllDigits(s)
  {
    if |s| == 0 then 0 else 10 * DecimalValue(s[..|s| - 1]) + (s[|s| - 1] as int - '0' as int)
  }

  lemma {:induction false} DecimalRoundTrip(n: nat)
    ensures DecimalValue(NatToString(n)) == n
  {
    if n >= 10 {
      DecimalRoundTrip(n / 10);
      var s := NatToString(n);
      assert s[..|s| - 1] == NatToString(n / 10);
    }
  }

  /** Python's `str(i)` for an integer. */
  function IntToString(i: int): (r: string)
    ensures |r| >= 1
    ensures i >= 0 <==> AllDigits(r)
    ensures '\n' !in r
  {
    if i < 0 then
      var r := "-" + NatToString(-i);
      assert !IsDigit(r[0]);
      r
    else NatToString(i)
  }
}
