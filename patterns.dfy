/** The regular expressions of denot.py's `Regex` class, each written out as
    the function that decides what `re.match` (anchored at the start of the
    line) or `re.sub` does with it, following the engine's leftmost,
    lazy-before-greedy backtracking order. Lines never contain a line break
    (they come from splitting on "\n"), so `.` is read as "any character". */
module Patterns {
  import opened Text
  import Blocks

  /** The byte-order mark as it reads after a wrong decoding: 'ï»¿'. */
  const Bom := "\U{EF}\U{BB}\U{BF}"

  /** The music note as it reads after a wrong decoding: 'â™ª'. */
  const MusicNote := "\U{E2}\U{2122}\U{AA}"

  /** `parse_line`: strip, then delete every byte-order-mark artifact. The
      stripped line is kept exactly when it holds no mark; otherwise it
      comes out shorter. */
  function ParseLine(line: string): (r: string)
    ensures r == Strip(line) <==> !Contains(Strip(line), Bom)
    ensures r != Strip(line) ==> |r| < |Strip(line)|
  {
    RemoveAllChanges(Strip(line), Bom);
    RemoveAll(Strip(line), Bom)
  }

  /** A stripped line without the mark's first character is its own parse. */
  lemma PlainLineParses(s: string)
    requires Trimmed(s) && Bom[0] !in s
    ensures ParseLine(s) == s
  {
    StripTrimmed(s);
    forall k | 0 <= k <= |s| ensures !OccursAt(s, Bom, k) {
      if k + 3 <= |s| { assert s[k..k + 3][0] == s[k]; }
    }
  }

  /** Stripping comes first, so a mark followed by spaces leaves the spaces. */
  lemma ParseLineStripsBeforeRemoving(rest: string)
    requires Trimmed(rest) && rest != "" && !Contains(rest, Bom)
    ensures ParseLine(Bom + "  " + rest) == "  " + rest
  {
    var s := Bom + "  " + rest;
    assert Trimmed(s) by { assert s[|s| - 1] == rest[|rest| - 1]; }
    StripTrimmed(s);
    var t := "  " + rest;
    assert s[..3] == Bom;
    assert s[|Bom|..] == t;
    assert RemoveAll(s, Bom) == RemoveAll(t, Bom);
    assert RemoveAll(t, Bom) == t by {
      SpacesKeepNoMark(rest);
      RemoveAllChanges(t, Bom);
    }
  }

  /** A mark between two stripped texts is cut out and the texts are joined,
      whether it sits at the start (`x` empty), at the end or in between. */
  lemma ParseLineCutsMark(x: string, y: string)
    requires Trimmed(x) && Trimmed(y)
    requires Bom[0] !in x && !Contains(y, Bom)
    ensures ParseLine(x + Bom + y) == x + y
  {
    var s := x + Bom + y;
    assert Trimmed(s) by {
      assert s[0] == if |x| > 0 then x[0] else Bom[0];
      assert s[|s| - 1] == if |y| > 0 then y[|y| - 1] else Bom[2];
    }
    StripTrimmed(s);
    forall k | 0 <= k < |x| ensures !OccursAt(s, Bom, k) {
      if k + 3 <= |s| { assert s[k..k + 3][0] == x[k]; }
    }
    RemoveAllFirst(x, Bom, y);
    RemoveAllChanges(y, Bom);
  }

  /** Two spaces in front of a text without the mark do not make one. */
  lemma SpacesKeepNoMark(rest: string)
    requires !Contains(rest, Bom)
    ensures !Contains("  " + rest, Bom)
  {
    var t := "  " + rest;
    forall k | 0 <= k <= |t| ensures !OccursAt(t, Bom, k) {
      if k + 3 <= |t| {
        assert t[k..k + 3][0] == t[k];
        if k >= 2 {
          assert t[k..k + 3] == rest[k - 2..k + 1];
          assert !OccursAt(rest, Bom, k - 2);
        }
      }
    }
  }

  // ---- INDEX and TIMEFRAME ----------------------------------------------------

  /** INDEX, `^[0-9]+$`: one or more ASCII digits and nothing else (`re.I`
      changes nothing for digits). Such a line is already stripped and has no
      colon. */
  predicate IsIndexLine(s: string)
    ensures IsIndexLine(s) ==> Trimmed(s) && ':' !in s
  {
    |s| > 0 && AllDigits(s)
  }

  /** The layout of `[0-9]{2}:[0-9]{2}:[0-9]{2},[0-9]{3}`: 'd' stands for
      `[0-9]`, every other character for itself. */
  const TimeLayout := "dd:dd:dd,ddd"

  predicate FitsLayout(p: char, c: char) {
    if p == 'd' then IsDigit(c) else c == p
  }

  /** A twelve-character time, character by character as `TimeLayout` says. */
  predicate IsTimestamp(t: string) {
    |t| == 12 && forall i :: 0 <= i < 12 ==> FitsLayout(TimeLayout[i], t[i])
  }

  /** Every character of a time is a digit, a colon or a comma. */
  lemma TimeChar(t: string, i: int)
    requires IsTimestamp(t) && 0 <= i < 12
    ensures IsDigit(t[i]) || t[i] == ':' || t[i] == ','
    ensures i == 0 || i == 11 ==> IsDigit(t[i])
    ensures i == 2 ==> t[i] == ':'
  {
    assert FitsLayout(TimeLayout[i], t[i]);
  }

  /** A time starts and ends with a digit, so `strip()` leaves it alone. */
  lemma TimestampTrimmed(t: string)
    requires IsTimestamp(t)
    ensures Trimmed(t)
  {
    TimeChar(t, 0);
    TimeChar(t, 11);
  }

  /** ` *--> *`: spaces (and only spaces), the arrow, spaces. */
  predicate IsArrowGap(m: string)
    decreases |m|
  {
    if |m| > 0 && m[0] == ' ' then IsArrowGap(m[1..])
    else |m| >= 3 && m[..3] == Blocks.Arrow && forall i :: 3 <= i < |m| ==> m[i] == ' '
  }

  /** TIMEFRAME: a time, an arrow gap, a time, and nothing else. Such a line
      begins and ends with a digit, so it is already stripped, and its third
      character is a colon, so it is never an index line. */
  predicate IsTimeframeLine(s: string)
    ensures IsTimeframeLine(s) ==> |s| >= 27 && IsDigit(s[0]) && s[2] == ':' && IsDigit(s[|s| - 1])
  {
    if |s| >= 27 && IsTimestamp(s[..12]) && IsTimestamp(s[|s| - 12..]) then
      TimeChar(s[..12], 0);
      TimeChar(s[..12], 2);
      TimeChar(s[|s| - 12..], 11);
      assert s[..12][0] == s[0] && s[..12][2] == s[2] && s[|s| - 12..][11] == s[|s| - 1];
      IsArrowGap(s[12..|s| - 12])
    else false
  }

  /** The second line `__str__` writes for two well-formed times is itself a
      timeframe line. */
  lemma SerialisedTimeframeIsRecognised(start: string, end: string)
    requires IsTimestamp(start) && IsTimestamp(end)
    ensures IsTimeframeLine(Join([start, end], Blocks.ArrowWithSpaces))
  {
    var s := Join([start, end], Blocks.ArrowWithSpaces);
    assert [start, end][1..] == [end];
    assert s == start + Blocks.ArrowWithSpaces + Join([end], Blocks.ArrowWithSpaces);
    assert Join([end], Blocks.ArrowWithSpaces) == end;
    assert s == start + " --> " + end;
    assert s[..12] == start;
    assert s[|s| - 12..] == end;
    var m := s[12..|s| - 12];
    assert m == " --> ";
    assert m[1..] == "--> ";
    assert IsArrowGap(m[1..]);
  }

  /** Number of spaces (not other whitespace) at the start of `m`. */
  function Blanks(m: string): (n: nat)
    ensures n <= |m| && forall i :: 0 <= i < n ==> m[i] == ' '
    ensures n < |m| ==> m[n] != ' '
  {
    if |m| > 0 && m[0] == ' ' then 1 + Blanks(m[1..]) else 0
  }

  lemma {:induction false} ArrowGapShape(m: string)
    requires IsArrowGap(m)
    ensures Blanks(m) + 3 <= |m| && m[Blanks(m)..Blanks(m) + 3] == Blocks.Arrow
    ensures forall i :: Blanks(m) + 3 <= i < |m| ==> m[i] == ' '
    decreases |m|
  {
    if |m| > 0 && m[0] == ' ' {
      ArrowGapShape(m[1..]);
      assert m[1..][Blanks(m[1..])..Blanks(m[1..]) + 3] == m[Blanks(m)..Blanks(m) + 3];
    }
  }

  /** Where the arrow of a timeframe line starts. */
  function ArrowPos(s: string): (k: nat)
    requires IsTimeframeLine(s)
    ensures 12 <= k && k + 3 <= |s| - 12 && s[k..k + 3] == Blocks.Arrow
    ensures forall i :: 12 <= i < k ==> s[i] == ' '
    ensures forall i :: k + 3 <= i < |s| - 12 ==> s[i] == ' '
  {
    ArrowPosShape(s);
    12 + Blanks(s[12..|s| - 12])
  }

  lemma ArrowPosShape(s: string)
    requires IsTimeframeLine(s)
    ensures var k := 12 + Blanks(s[12..|s| - 12]);
      k + 3 <= |s| - 12 && s[k..k + 3] == Blocks.Arrow &&
      (forall i :: 12 <= i < k ==> s[i] == ' ') &&
      (forall i :: k + 3 <= i < |s| - 12 ==> s[i] == ' ')
  {
    var m := s[12..|s| - 12];
    ArrowGapShape(m);
    var b := Blanks(m);
    var x, y := s[12 + b..12 + b + 3], m[b..b + 3];
    forall j | 0 <= j < 3 ensures x[j] == y[j] {
      assert m[b + j] == s[12 + b + j];
    }
    assert x == y;
    forall i | 12 <= i < 12 + b ensures s[i] == ' ' {
      assert m[i - 12] == s[i];
    }
    forall i | 12 + b + 3 <= i < |s| - 12 ensures s[i] == ' ' {
      assert m[i - 12] == s[i];
    }
  }

  /** A line the classifier takes for a timeframe always has the arrow that
      `timeframe` assignment needs, and assigning it stores the two times. */
  lemma TimeframeLineSplits(s: string)
    requires IsTimeframeLine(s)
    ensures Blocks.SplitTimeframe(s) == Some((s[..12], s[|s| - 12..]))
  {
    TimeframeLineShape(s);
    SplitOnSingleArrow(s, ArrowPos(s), s[..12], s[|s| - 12..]);
  }

  /** `t` is trimmed, its only arrow is at `k`, and the sides strip to `a` and `b`. */
  predicate SingleArrowAt(t: string, k: nat, a: string, b: string) {
    Strip(t) == t && Find(t, Blocks.Arrow) == Some(k) && k + 3 <= |t| && Find(t[k + 3..], Blocks.Arrow) == None &&
    Strip(t[..k]) == a && Strip(t[k + 3..]) == b
  }

  /** The facts about a timeframe line that its split needs. */
  lemma TimeframeLineShape(s: string)
    requires IsTimeframeLine(s)
    ensures SingleArrowAt(s, ArrowPos(s), s[..12], s[|s| - 12..])
  {
    TimeframeArrowAt(s);
    TimeframeHasOneArrow(s);
    TimeframeLineStripped(s);
    TimeframePiecesStrip(s);
  }

  /** A timeframe line starts and ends with a digit. */
  lemma TimeframeLineStripped(s: string)
    requires IsTimeframeLine(s)
    ensures Strip(s) == s
  {
    TimestampTrimmed(s[..12]);
    TimestampTrimmed(s[|s| - 12..]);
    assert s[..12][0] == s[0] && s[|s| - 12..][11] == s[|s| - 1];
    StripTrimmed(s);
  }

  /** Assigning a timeframe line to `timeframe` stores its two times. */
  lemma TimeframeLineAssigns(b: Blocks.Block, s: string)
    requires IsTimeframeLine(s)
    ensures b.AssignTimeframe(s) == (b.(start := Some(s[..12]), end := Some(s[|s| - 12..])), false)
  {
    TimeframeLineSplits(s);
  }

  /** `strip().split('-->')` of a trimmed line with exactly one arrow gives
      the two sides, stripped. */
  lemma SplitOnSingleArrow(t: string, k: nat, a: string, b: string)
    requires SingleArrowAt(t, k, a, b)
    ensures Blocks.SplitTimeframe(t) == Some((a, b))
  {
  }

  /** The arrow of a timeframe line is found after the first time and its spaces. */
  lemma TimeframeArrowAt(s: string)
    requires IsTimeframeLine(s)
    ensures Find(s, Blocks.Arrow) == Some(ArrowPos(s))
  {
    var k := ArrowPos(s);
    assert OccursAt(s, Blocks.Arrow, k);
    forall j | 0 <= j < k ensures !OccursAt(s, Blocks.Arrow, j) {
      if j + 3 <= |s| {
        if j < 12 {
          NoArrowBeforeTime(s, j);
        } else {
          Blocks.ArrowNotAtSpace(s, j, j);
        }
      }
    }
  }

  /** After the arrow of a timeframe line there is no second arrow. */
  lemma TimeframeHasOneArrow(s: string)
    requires IsTimeframeLine(s)
    ensures Find(s[ArrowPos(s) + 3..], Blocks.Arrow) == None
  {
    var k := ArrowPos(s);
    var rest := s[k + 3..];
    forall j | 0 <= j <= |rest| ensures !OccursAt(rest, Blocks.Arrow, j) {
      if j + 3 <= |rest| {
        if k + 3 + j < |s| - 12 {
          assert rest[j] == s[k + 3 + j];
          Blocks.ArrowNotAtSpace(rest, j, j);
        } else {
          NoArrowInTime(s, rest, k + 3, j);
        }
      }
    }
  }

  /** The pieces on either side of the arrow strip down to the two times. */
  lemma TimeframePiecesStrip(s: string)
    requires IsTimeframeLine(s)
    ensures Strip(s[..ArrowPos(s)]) == s[..12] && Strip(s[ArrowPos(s) + 3..]) == s[|s| - 12..]
  {
    FirstPieceStrips(s);
    SecondPieceStrips(s);
  }

  lemma FirstPieceStrips(s: string)
    requires IsTimeframeLine(s)
    ensures Strip(s[..ArrowPos(s)]) == s[..12]
  {
    var k := ArrowPos(s);
    var first := s[..k];
    assert first == s[..12] + s[12..k];
    assert AllSpace(s[12..k]) by {
      forall i | 0 <= i < k - 12 ensures IsSpace(s[12..k][i]) { assert s[12..k][i] == s[12 + i]; }
    }
    TimestampTrimmed(s[..12]);
    StripUnique("", s[..12], s[12..k]);
    assert "" + s[..12] + s[12..k] == first;
  }

  lemma SecondPieceStrips(s: string)
    requires IsTimeframeLine(s)
    ensures Strip(s[ArrowPos(s) + 3..]) == s[|s| - 12..]
  {
    TailAfterGap(s, ArrowPos(s) + 3);
  }

  /** Blanks followed by a time strip to the time. */
  lemma TailAfterGap(s: string, a: nat)
    requires a <= |s| - 12 && forall i :: a <= i < |s| - 12 ==> s[i] == ' '
    requires IsTimestamp(s[|s| - 12..])
    ensures Strip(s[a..]) == s[|s| - 12..]
  {
    TimestampTrimmed(s[|s| - 12..]);
    SliceAt(s, a, |s| - 12);
    BlanksAreSpace(s, a, |s| - 12);
    StripLeading(s[a..|s| - 12], s[|s| - 12..]);
  }

  lemma BlanksAreSpace(s: string, a: nat, b: nat)
    requires a <= b <= |s| && forall i :: a <= i < b ==> s[i] == ' '
    ensures AllSpace(s[a..b])
  {
    forall i | 0 <= i < b - a ensures IsSpace(s[a..b][i]) { assert s[a..b][i] == s[a + i]; }
  }

  lemma SliceAt(s: string, a: nat, b: nat)
    requires a <= b <= |s|
    ensures s[a..] == s[a..b] + s[b..]
  {
  }

  /** Stripping whitespace before a trimmed text gives the text. */
  lemma StripLeading(gap: string, t: string)
    requires AllSpace(gap) && Trimmed(t)
    ensures Strip(gap + t) == t
  {
    StripUnique(gap, t, "");
    assert gap + t + "" == gap + t;
  }

  /** No arrow starts inside the first time of a timeframe line. */
  lemma NoArrowBeforeTime(s: string, j: nat)
    requires IsTimeframeLine(s) && j < 12 && j + 3 <= |s|
    ensures !OccursAt(s, Blocks.Arrow, j)
  {
    var t := s[..12];
    assert s[j] == t[j];
    assert s[j..j + 3][0] == s[j];
    TimeChar(t, j);
  }

  /** No arrow starts inside the second time of a timeframe line. */
  lemma NoArrowInTime(s: string, rest: string, off: nat, j: nat)
    requires IsTimeframeLine(s) && off <= |s| && rest == s[off..]
    requires j + 3 <= |rest| && off + j >= |s| - 12
    ensures !OccursAt(rest, Blocks.Arrow, j)
  {
    var t := s[|s| - 12..];
    var i := off + j - (|s| - 12);
    assert rest[j] == s[off + j] == t[i];
    assert rest[j..j + 3][0] == rest[j];
    TimeChar(t, i);
  }

  // ---- AUTHOR and SYNC ---------------------------------------------------------

  /** The phrases AUTHOR (`subtitle(?:s|d) by`) and SYNC (`sync(?:ed)? by`)
      look for. */
  const CreditPhrases: seq<string> := ["subtitles by", "subtitled by", "sync by", "synced by"]

  /** AUTHOR or SYNC, both with `re.I`: the line mentions "subtitles by",
      "subtitled by", "sync by" or "synced by" in any letter case. */
  predicate IsCredit(s: string)
    ensures IsCredit(s) <==> exists i, k :: 0 <= i < |CreditPhrases| && 0 <= k <= |s| &&
                                            StartsWithIgnoringCase(s[k..], CreditPhrases[i])
  {
    ContainsIgnoringCaseMeans(s, CreditPhrases[0]);
    ContainsIgnoringCaseMeans(s, CreditPhrases[1]);
    ContainsIgnoringCaseMeans(s, CreditPhrases[2]);
    ContainsIgnoringCaseMeans(s, CreditPhrases[3]);
    ContainsIgnoringCase(s, "subtitles by") || ContainsIgnoringCase(s, "subtitled by") ||
    ContainsIgnoringCase(s, "sync by") || ContainsIgnoringCase(s, "synced by")
  }

  /** Any of the four phrases, in any letter case, anywhere in the line
      makes it a credit line. */
  lemma CreditAnywhere(before: string, w: string, after: string, i: nat)
    requires i < |CreditPhrases| && |w| == |CreditPhrases[i]|
    requires forall j :: 0 <= j < |w| ==> CharMatchesIgnoringCase(w[j], CreditPhrases[i][j])
    ensures IsCredit(before + w + after)
  {
    var s := before + w + after;
    var k := |before|;
    assert StartsWithIgnoringCase(s[k..], CreditPhrases[i]) by {
      forall j | 0 <= j < |w| ensures CharMatchesIgnoringCase(s[k..][j], CreditPhrases[i][j]) {
        assert s[k..][j] == w[j];
      }
    }
  }

  /** Every phrase starts with an "s" and is at least seven characters long,
      so a line with no "s" (in any case) early enough is no credit line. */
  lemma NoCreditWithoutS(s: string)
    requires forall k :: 0 <= k && k + 7 <= |s| ==> !CharMatchesIgnoringCase(s[k], 's')
    ensures !IsCredit(s)
  {
    forall i, k | 0 <= i < |CreditPhrases| && 0 <= k <= |s|
      ensures !StartsWithIgnoringCase(s[k..], CreditPhrases[i])
    {
      if k + 7 <= |s| {
        assert s[k..][0] == s[k];
      }
    }
  }

  // ---- FONT_COLOR_START and FONT_COLOR_END ----------------------------------

  datatype Tag = FontOpen | FontClose

  const FontOpenPrefix := "<font color=\""
  const FontOpenSuffix := "\">"
  const FontCloseTag := "</font>"

  /** `re.sub` is called with `re.I` in its `count` position; `re.I` is 2, so
      each tag pattern is replaced at most twice, and without ignoring case. */
  const SubCount := 2

  /** Length of the match of a tag's pattern at the very start of `s`:
      `</font>` literally, or `<font color="` followed by the shortest text
      that reaches `">`. A line that starts that way is always matched. */
  function TagMatch(tag: Tag, s: string): (r: Option<nat>)
    ensures r.Some? ==> 0 < r.value <= |s|
    ensures tag == FontClose ==>
      (r.Some? <==> |s| >= 7 && s[..7] == FontCloseTag) && (r.Some? ==> r.value == 7)
    ensures tag == FontOpen ==>
      (r.Some? <==> |s| >= 13 && s[..13] == FontOpenPrefix &&
                    exists j :: 13 <= j && OccursAt(s, FontOpenSuffix, j))
    ensures r.Some? && tag == FontClose ==> s[..r.value] == FontCloseTag
    ensures r.Some? && tag == FontOpen ==>
      r.value >= 15 && s[..13] == FontOpenPrefix && s[r.value - 2..r.value] == FontOpenSuffix &&
      forall j :: 13 <= j < r.value - 2 ==> !OccursAt(s, FontOpenSuffix, j)
  {
    match tag
    case FontClose => if |s| >= 7 && s[..7] == FontCloseTag then Some(7) else None
    case FontOpen =>
      if |s| >= 13 && s[..13] == FontOpenPrefix then
        match FindFrom(s, FontOpenSuffix, 13)
        case None => None
        case Some(j) => Some(j + 2)
      else None
  }

  /** `re.sub(pattern, '', s, count)` for a positive count: scanning left to
      right, each match is deleted while deletions are left; the rest is kept.
      `left` counts the deletions still allowed. The program always starts it
      at `SubCount`, so Python's count of 0 (no limit) never arises, and
      `left == 0` here means only that no deletion is left. */
  function SubTag(tag: Tag, s: string, left: nat): (r: string)
    ensures r == s || |r| < |s|
    ensures left == 0 ==> r == s
    decreases |s|
  {
    if |s| == 0 || left == 0 then s
    else match TagMatch(tag, s)
      case Some(n) => SubTag(tag, s[n..], left - 1)
      case None =>
        assert [s[0]] + s[1..] == s;
        [s[0]] + SubTag(tag, s[1..], left)
  }

  /** Some position of `s` starts a match of the tag's pattern. */
  predicate HasTag(tag: Tag, s: string) {
    exists i :: 0 <= i < |s| && TagMatch(tag, s[i..]).Some?
  }

  /** Substitution changes the line exactly when a tag is found and a
      deletion is left; a changed line is strictly shorter. */
  lemma {:induction false} SubTagChanges(tag: Tag, s: string, left: nat)
    ensures SubTag(tag, s, left) != s <==> left > 0 && HasTag(tag, s)
    ensures SubTag(tag, s, left) != s ==> |SubTag(tag, s, left)| < |s|
    decreases |s|
  {
    if |s| == 0 || left == 0 {
    } else {
      assert s[0..] == s;
      match TagMatch(tag, s)
      case Some(n) =>
        assert HasTag(tag, s);
      case None =>
        SubTagChanges(tag, s[1..], left);
        HasTagShift(tag, s);
        var r := SubTag(tag, s[1..], left);
        assert SubTag(tag, s, left) == [s[0]] + r;
        assert [s[0]] + r == s <==> r == s[1..] by {
          if [s[0]] + r == s { assert r == ([s[0]] + r)[1..]; }
        }
    }
  }

  /** A line whose first position starts no match has a match exactly when
      the line after its first character has one. */
  lemma HasTagShift(tag: Tag, s: string)
    requires |s| > 0 && TagMatch(tag, s).None?
    ensures HasTag(tag, s) <==> HasTag(tag, s[1..])
  {
    forall i | 1 <= i < |s| ensures s[1..][i - 1..] == s[i..] { }
    if HasTag(tag, s[1..]) {
      var i :| 0 <= i < |s[1..]| && TagMatch(tag, s[1..][i..]).Some?;
      assert TagMatch(tag, s[i + 1..]).Some?;
    }
    if HasTag(tag, s) {
      var i :| 0 <= i < |s| && TagMatch(tag, s[i..]).Some?;
      assert i != 0;
      assert TagMatch(tag, s[1..][i - 1..]).Some?;
    }
  }

  /** Text without the opening tag's prefix holds no opening tag. */
  lemma NoPrefixNoOpenTag(x: string)
    requires !Contains(x, FontOpenPrefix)
    ensures !HasTag(FontOpen, x)
  {
    forall i | 0 <= i < |x| ensures TagMatch(FontOpen, x[i..]).None? {
      if |x[i..]| >= 13 {
        assert x[i..][..13] == x[i..i + 13];
        assert !OccursAt(x, FontOpenPrefix, i);
      }
    }
  }

  /** Both tag patterns start with '<', so a line without one holds no tag. */
  lemma NoAngleNoTag(tag: Tag, s: string)
    ensures '<' !in s ==> !HasTag(tag, s)
  {
    forall i | 0 <= i < |s| && TagMatch(tag, s[i..]).Some? ensures '<' in s {
      assert s[i..][0] == s[i];
    }
  }

  /** The two substitutions of `process_file`: opening tags, then closing
      tags. The line only shrinks, and one without '<' is left alone. */
  function StripFontTags(s: string): (r: string)
    ensures r == s || |r| < |s|
    ensures '<' !in s ==> r == s
  {
    NoAngleNoTag(FontOpen, s);
    NoAngleNoTag(FontClose, s);
    SubTagChanges(FontOpen, s, SubCount);
    SubTagChanges(FontClose, SubTag(FontOpen, s, SubCount), SubCount);
    SubTag(FontClose, SubTag(FontOpen, s, SubCount), SubCount)
  }

  /** Closing tags are matched letter for letter, and only two of them go. */
  lemma CloseTagLimit(a: string, b: string, c: string)
    requires !HasTag(FontClose, a) && |a| > 0
    ensures SubTag(FontClose, FontCloseTag + a + FontCloseTag + b + FontCloseTag + c, SubCount)
         == a + b + FontCloseTag + c
  {
    var t := FontCloseTag;
    var s2 := t + (b + t + c);
    assert s2[..7] == t;
    calc {
      SubTag(FontClose, t + a + t + b + t + c, 2);
      { assert t + a + t + b + t + c == t + (a + s2); }
      SubTag(FontClose, t + (a + s2), 2);
      { LeadingCloseTag(a + s2, 1); }
      SubTag(FontClose, a + s2, 1);
      { SkipUntagged(a, s2, 1); }
      a + SubTag(FontClose, s2, 1);
      { LeadingCloseTag(b + t + c, 0); }
      a + (b + t + c);
    }
  }

  /** A closing tag at the start of the line is the first one deleted. */
  lemma LeadingCloseTag(x: string, count: nat)
    ensures SubTag(FontClose, FontCloseTag + x, count + 1) == SubTag(FontClose, x, count)
  {
    var s := FontCloseTag + x;
    assert s[..7] == FontCloseTag;
    assert s[7..] == x;
  }

  /** `<font color="c">text</font>` loses both tags, when the colour holds
      no `">` and the text no tag. */
  lemma FontWrapped(color: string, text: string)
    requires !Contains(color, FontOpenSuffix)
    requires !Contains(text + FontCloseTag, FontOpenPrefix) && !HasTag(FontClose, text)
    ensures StripFontTags(FontOpenPrefix + color + FontOpenSuffix + text + FontCloseTag) == text
  {
    var s := FontOpenPrefix + color + FontOpenSuffix + text + FontCloseTag;
    var e := 13 + |color|;
    assert s[..13] == FontOpenPrefix;
    forall j | 13 <= j < e ensures !OccursAt(s, FontOpenSuffix, j) {
      NoSuffixInColor(color, text, j);
    }
    assert s[e..e + 2] == FontOpenSuffix;
    assert OccursAt(s, FontOpenSuffix, e);
    assert FindFrom(s, FontOpenSuffix, 13) == Some(e);
    assert TagMatch(FontOpen, s) == Some(e + 2);
    var t := text + FontCloseTag;
    var head := FontOpenPrefix + color + FontOpenSuffix;
    assert s == head + t && |head| == e + 2;
    assert s[e + 2..] == t;
    assert SubTag(FontOpen, s, 2) == SubTag(FontOpen, t, 1);
    NoPrefixNoOpenTag(t);
    SubTagChanges(FontOpen, t, 1);
    assert FontCloseTag[..7] == FontCloseTag;
    SkipUntagged(text, FontCloseTag, 2);
    assert TagMatch(FontClose, FontCloseTag) == Some(7);
    assert FontCloseTag[7..] == "";
  }

  /** Inside the colour of an opening tag no `">` starts. */
  lemma NoSuffixInColor(color: string, text: string, j: nat)
    requires !Contains(color, FontOpenSuffix)
    requires 13 <= j < 13 + |color|
    ensures !OccursAt(FontOpenPrefix + color + FontOpenSuffix + text + FontCloseTag, FontOpenSuffix, j)
  {
    var s := FontOpenPrefix + color + FontOpenSuffix + text + FontCloseTag;
    var e := 13 + |color|;
    if j + 1 < e {
      assert s[j..j + 2] == color[j - 13..j - 11];
      assert !OccursAt(color, FontOpenSuffix, j - 13);
    } else {
      assert s[j + 1] == '"';
      assert s[j..j + 2][1] == s[j + 1];
    }
  }

  /** A line whose start holds no closing tag does not get one from what
      is appended after a closing tag. */
  lemma NoCloseTagAtStart(a: string, rest: string)
    requires !HasTag(FontClose, a) && |a| > 0
    requires |rest| >= 7 && rest[..7] == FontCloseTag
    ensures TagMatch(FontClose, a + rest) == None
  {
    var s := a + rest;
    assert a[0..] == a;
    assert TagMatch(FontClose, a[0..]) == None;
    if |a| >= 7 { assert s[..7] == a[..7]; }
    else {
      // a '<' of the closing tag would have to start inside `a` and reach into `rest`
      assert s[..7] != FontCloseTag by { CloseTagStraddle(a, rest); }
    }
  }

  /** The tail of a line without a tag has none either. */
  lemma NoTagInTail(a: string)
    requires !HasTag(FontClose, a) && |a| > 0
    ensures !HasTag(FontClose, a[1..])
  {
    forall i | 0 <= i < |a[1..]| ensures TagMatch(FontClose, a[1..][i..]).None? {
      assert a[1..][i..] == a[i + 1..];
    }
  }

  /** Text without a match, followed by more text, is copied through. */
  lemma {:induction false} SkipUntagged(a: string, rest: string, count: nat)
    requires !HasTag(FontClose, a) && count > 0
    requires |rest| >= 7 && rest[..7] == FontCloseTag
    ensures SubTag(FontClose, a + rest, count) == a + SubTag(FontClose, rest, count)
    decreases |a|
  {
    if |a| > 0 {
      var s := a + rest;
      assert TagMatch(FontClose, s) == None by { NoCloseTagAtStart(a, rest); }
      assert s[1..] == a[1..] + rest;
      assert !HasTag(FontClose, a[1..]) by { NoTagInTail(a); }
      SkipUntagged(a[1..], rest, count);
      assert SubTag(FontClose, s, count) == [s[0]] + SubTag(FontClose, s[1..], count);
      assert [a[0]] + a[1..] == a;
    } else {
      assert a + rest == rest;
    }
  }

  /** Where a short untagged prefix meets a closing tag, no closing tag starts
      at the prefix's first character. */
  lemma CloseTagStraddle(a: string, rest: string)
    requires 0 < |a| < 7 && |rest| >= 7 && rest[..7] == FontCloseTag
    ensures (a + rest)[..7] != FontCloseTag
  {
    var s := a + rest;
    var n := |a|;
    // the tag's '<' would be s[0], and its only other '<'-free position is the start of rest
    assert s[n] == rest[..7][0] == '<';
    assert FontCloseTag[n] != '<';
    assert s[..7][n] == s[n];
  }

  // ---- NAME ------------------------------------------------------------------

  /** NAME, `^(.*?: ?).*$`: group 1 is the line up to its first colon, with the
      space after the colon when there is one; no colon, no match. */
  function SpeakerLabel(s: string): (r: Option<string>)
    ensures r.None? <==> ':' !in s
    ensures r.Some? ==> 0 < |r.value| <= |s| && r.value == s[..|r.value|]
  {
    match Find(s, [':'])
    case None =>
      assert forall k :: 0 <= k < |s| ==> s[k] != ':' by {
        forall k | 0 <= k < |s| ensures s[k] != ':' { OccursAtChar(s, ':', k); }
      }
      None
    case Some(k) =>
      OccursAtChar(s, ':', k);
      if k + 1 < |s| && s[k + 1] == ' ' then Some(s[..k + 2]) else Some(s[..k + 1])
  }

  /** The label is the shortest colon-ended prefix, plus one space if present. */
  lemma SpeakerLabelShape(s: string)
    requires ':' in s
    ensures var g := SpeakerLabel(s).value;
      exists k :: 0 <= k < |s| && s[k] == ':' && ':' !in s[..k] &&
        g == s[..k + 1] + (if k + 1 < |s| && s[k + 1] == ' ' then " " else "")
  {
    var c :| 0 <= c < |s| && s[c] == ':';
    OccursAtChar(s, ':', c);
    var k := Find(s, [':']).value;
    OccursAtChar(s, ':', k);
    forall j | 0 <= j < k ensures s[j] != ':' { OccursAtChar(s, ':', j); }
    if k + 1 < |s| && s[k + 1] == ' ' { assert s[..k + 2] == s[..k + 1] + " "; }
    else { assert s[..k + 1] == s[..k + 1] + ""; }
  }

  /** For "name: rest" with a colon-free name, the label is "name: ", and
      when the rest does not repeat it, what is left is the stripped rest. */
  lemma LabelledLine(name: string, rest: string)
    requires ':' !in name && !Contains(rest, name + ": ")
    ensures SpeakerLabel(name + ": " + rest) == Some(name + ": ")
    ensures StripSpeaker(name + ": " + rest, name + ": ") == Strip(rest)
  {
    var s := name + ": " + rest;
    var tag := name + ": ";
    LabelOf(name, rest);
    assert s[..|tag|] == tag;
    assert s[|tag|..] == rest;
    RemoveAllChanges(rest, tag);
  }

  /** The label of "name: rest" with a colon-free name is "name: ". */
  lemma LabelOf(name: string, rest: string)
    requires ':' !in name
    ensures SpeakerLabel(name + ": " + rest) == Some(name + ": ")
  {
    var s := name + ": " + rest;
    var k := |name|;
    forall j | 0 <= j < k ensures !OccursAt(s, [':'], j) {
      OccursAtChar(s, ':', j);
      assert s[j] == name[j];
    }
    OccursAtChar(s, ':', k);
    assert Find(s, [':']) == Some(k);
    assert s[..k + 2] == name + ": ";
  }

  /** Every copy of the label is deleted, not only the leading one: for
      "name: x" followed by "name: y", with no other colon, what is left is
      the stripped "x" + "y". */
  lemma LabelledTwice(name: string, x: string, y: string)
    requires ':' !in name && ':' !in x && ':' !in y
    ensures Unlabelled(name + ": " + x + name + ": " + y) == Strip(x + y)
  {
    var tag := name + ": ";
    var t := x + tag + y;
    assert name + ": " + x + name + ": " + y == tag + t;
    LabelOf(name, t);
    calc {
      RemoveAll(tag + t, tag);
      { LeadingTagDeleted(tag, t); }
      RemoveAll(t, tag);
      { LaterTagDeleted(name, x, y); }
      x + y;
    }
  }

  /** An occurrence at the very start is deleted first. */
  lemma LeadingTagDeleted(tag: string, t: string)
    requires |tag| > 0
    ensures RemoveAll(tag + t, tag) == RemoveAll(t, tag)
  {
    assert tag + t == "" + tag + t;
    RemoveAllFirst("", tag, t);
  }

  /** In "x" + "name: " + "y" with no colon in `x`, `y` or `name`, the label
      occurs once, after `x`. */
  lemma LaterTagDeleted(name: string, x: string, y: string)
    requires ':' !in name && ':' !in x && ':' !in y
    ensures RemoveAll(x + (name + ": ") + y, name + ": ") == x + y
  {
    var tag := name + ": ";
    var t := x + tag + y;
    forall k | 0 <= k < |x| ensures !OccursAt(t, tag, k) {
      ColonInsideTag(name, x, y, k);
    }
    RemoveAllFirst(x, tag, y);
    NoLabelInside(y, name);
    RemoveAllChanges(y, tag);
  }

  lemma ColonInsideTag(name: string, x: string, y: string, k: int)
    requires ':' !in name && ':' !in x && 0 <= k < |x|
    ensures !OccursAt(x + (name + ": ") + y, name + ": ", k)
  {
    var tag := name + ": ";
    var t := x + tag + y;
    assert t[k + |name|] != ':' by {
      if k + |name| < |x| {
        assert t[k + |name|] == x[k + |name|];
      } else {
        assert t[k + |name|] == name[k + |name| - |x|];
      }
    }
    assert t[k..k + |tag|][|name|] == t[k + |name|];
    assert tag[|name|] == ':';
  }

  /** "A: x A: y" loses both labels and comes out as "x y". The pieces come
      in as parameters fixed by `requires`: applied to a literal string,
      `Unlabelled` would be unfolded on it character by character. */
  lemma RepeatedLabel(name: string, x: string, y: string)
    requires name == "A" && x == "x " && y == "y"
    ensures Unlabelled(name + ": " + x + name + ": " + y) == "x y"
  {
    NoColons(name, x, y);
    LabelledTwice(name, x, y);
    StrippedWords(x, y);
  }

  /** The facts about the example's pieces, kept apart from the lemma that
      uses them so that the literals stay out of its proof. */
  lemma NoColons(name: string, x: string, y: string)
    requires name == "A" && x == "x " && y == "y"
    ensures ':' !in name && ':' !in x && ':' !in y
  {
  }

  /** The stripped example text, proved apart for the same reason. */
  lemma StrippedWords(x: string, y: string)
    requires x == "x " && y == "y"
    ensures Strip(x + y) == "x y"
  {
    assert x + y == "x y";
    StripTrimmed(x + y);
  }




  /** The speaker step: every occurrence of the label is deleted, then the line
      is stripped. */
  function StripSpeaker(s: string, name: string): (r: string)
    requires |name| > 0
    ensures Trimmed(r) && |r| <= |s|
  {
    Strip(RemoveAll(s, name))
  }

  /** The line after the speaker step: with a label, every copy of it is
      deleted and the rest stripped, which always shortens the line; without
      a colon the line is left as it is. */
  function Unlabelled(s: string): (r: string)
    ensures ':' !in s ==> r == s
    ensures ':' in s ==> Trimmed(r) && |r| < |s|
  {
    match SpeakerLabel(s)
    case None => s
    case Some(name) =>
      RemoveAllChanges(s, name);
      StripSpeaker(s, name)
  }

  /** "name: rest" with a colon-free name is never a timeframe line: a time
      has its first colon at position 2 and a digit right after it. */
  lemma LabelledNotTimeframe(name: string, rest: string)
    requires name != "" && ':' !in name
    ensures !IsTimeframeLine(name + ": " + rest)
  {
    var s := name + ": " + rest;
    if |s| >= 12 {
      var i := if |name| == 2 then 3 else 2;
      if |name| > 2 { assert s[2] == name[2]; }
      assert s[..12][i] == s[i] && !FitsLayout(TimeLayout[i], s[i]);
    }
  }

  /** A colon-free text never holds a label "name: ". */
  lemma NoLabelInside(rest: string, name: string)
    requires ':' !in rest
    ensures !Contains(rest, name + ": ")
  {
    forall k | 0 <= k <= |rest| ensures !OccursAt(rest, name + ": ", k) {
      if k + |name| + 2 <= |rest| {
        assert rest[k..k + |name| + 2][|name|] == rest[k + |name|];
      }
    }
  }

  // ---- LINES: the bracket and music filters --------------------------------------

  datatype Filter = ParenClosed | ParenOpen | BracketClosed | BracketOpen | Music

  /** `Regex.LINES`, in the order `process_file` tries them. */
  const Filters: seq<Filter> := [ParenClosed, ParenOpen, BracketClosed, BracketOpen, Music]

  /** What a filter does to a line: nothing, replace it by its group 1, or
      (the music pattern, which has no group) drop it. */
  datatype FilterOutcome = NoMatch | Replace(rest: string) | Drop

  function OpenChar(f: Filter): char
    requires f != Music
  {
    if f == ParenClosed || f == ParenOpen then '(' else '['
  }

  function CloseChar(f: Filter): char
    requires f != Music
  {
    if f == ParenClosed || f == ParenOpen then ')' else ']'
  }

  /** The ends `.*?: *` can reach for one colon at `colon`: the greedy ` *`
      first takes every following space, then gives them back one by one. */
  function SpaceEnds(s: string, colon: nat): (r: seq<nat>)
    requires colon < |s|
    ensures forall i :: 0 <= i < |r| ==> colon < r[i] <= |s|
  {
    var n := Blanks(s[colon + 1..]);
    seq(n + 1, i requires 0 <= i <= n => colon + 1 + n - i)
  }

  /** The ends `.*?: *` can reach, in the order the lazy `.*?` meets the
      colons at or after `from`. */
  function LabelEnds(s: string, from: nat): (r: seq<nat>)
    ensures forall i :: 0 <= i < |r| ==> 0 < r[i] <= |s|
    decreases |s| - from
  {
    if from >= |s| then []
    else if s[from] == ':' then SpaceEnds(s, from) + LabelEnds(s, from + 1)
    else LabelEnds(s, from + 1)
  }

  /** Where the optional prefix `(?:- |.*?: *)?` may end, in the order the
      engine tries them: after "- ", after a label, or at the very start. */
  function PrefixEnds(s: string): (r: seq<nat>)
    ensures |r| > 0 && r[|r| - 1] == 0
    ensures forall i :: 0 <= i < |r| ==> r[i] <= |s|
    ensures |s| >= 2 && s[..2] == "- " ==> r[0] == 2
  {
    (if |s| >= 2 && s[..2] == "- " then [2] else []) + LabelEnds(s, 0) + [0]
  }

  /** Position of the first `c` at or after `from`. */
  function FindChar(s: string, c: char, from: nat): (r: Option<nat>)
    ensures r.Some? ==> from <= r.value < |s| && s[r.value] == c
    ensures forall k :: from <= k < |s| && (r.None? || k < r.value) ==> s[k] != c
    decreases |s| - from
  {
    if from >= |s| then None
    else if s[from] == c then Some(from)
    else FindChar(s, c, from + 1)
  }

  /** From prefix end `p`, where the bracket part of a filter ends when the rest
      of the pattern matches. `\(?.*?\)`: an optional opening bracket, then
      the shortest text up to a closing bracket. `\(.*?\)?`: an opening
      bracket, then (the lazy `.*?` being empty) a closing bracket if one
      follows at once. */
  function BracketEnd(f: Filter, s: string, p: nat): (r: Option<nat>)
    requires f != Music && p <= |s|
    ensures r.Some? ==> p < r.value <= |s|
    ensures r.Some? && (f == ParenClosed || f == BracketClosed) ==> s[r.value - 1] == CloseChar(f)
    ensures r.Some? && (f == ParenOpen || f == BracketOpen) ==>
      s[r.value - 1] == OpenChar(f) || s[r.value - 1] == CloseChar(f)
  {
    var o, c := OpenChar(f), CloseChar(f);
    if f == ParenClosed || f == BracketClosed then
      var found :=
        if p < |s| && s[p] == o && FindChar(s, c, p + 1).Some? then FindChar(s, c, p + 1)
        else FindChar(s, c, p);
      if found.Some? then Some(found.value + 1) else None
    else if p < |s| && s[p] == o then
      if p + 1 < |s| && s[p + 1] == c then Some(p + 2) else Some(p + 1)
    else None
  }

  /** The first prefix end, in the engine's order, from which the bracket
      part matches, and where that part ends. */
  function FirstBracketEnd(f: Filter, s: string, ends: seq<nat>): (r: Option<nat>)
    requires f != Music
    requires forall i :: 0 <= i < |ends| ==> ends[i] <= |s|
    ensures r.Some? ==> exists i :: (0 <= i < |ends| && BracketEnd(f, s, ends[i]) == r &&
                                     forall j :: 0 <= j < i ==> BracketEnd(f, s, ends[j]).None?)
    ensures r.None? ==> forall i :: 0 <= i < |ends| ==> BracketEnd(f, s, ends[i]).None?
    decreases |ends|
  {
    if |ends| == 0 then None
    else if BracketEnd(f, s, ends[0]).Some? then BracketEnd(f, s, ends[0])
    else
      var r := FirstBracketEnd(f, s, ends[1..]);
      assert forall i :: 1 <= i < |ends| ==> ends[1..][i - 1] == ends[i];
      r
  }

  /** `re.match(regex, s, re.I)` for one entry of `Regex.LINES`, turned into
      what `process_file` does with the match. The group `(.*)?` always takes
      part in a match and takes the rest of the line. */
  function ApplyFilter(f: Filter, s: string): (r: FilterOutcome)
    ensures r.Drop? <==> f == Music && ContainsIgnoringCase(s, MusicNote)
    ensures r.Replace? ==> f != Music && |r.rest| < |s| && r.rest == s[|s| - |r.rest|..]
  {
    if f == Music then
      if ContainsIgnoringCase(s, MusicNote) then Drop else NoMatch
    else
      match FirstBracketEnd(f, s, PrefixEnds(s))
      case None => NoMatch
      case Some(e) => Replace(s[e..])
  }

  /** The line up to its group 1 ends in a bracket character: a closing one
      for the first and third pattern, an opening or closing one for the
      second and fourth. */
  lemma ReplacedAfterBracket(f: Filter, s: string)
    requires f != Music && ApplyFilter(f, s).Replace?
    ensures var rest := ApplyFilter(f, s).rest;
      var b := s[|s| - |rest| - 1];
      (f == ParenClosed || f == BracketClosed ==> b == CloseChar(f)) &&
      (f == ParenOpen || f == BracketOpen ==> b == OpenChar(f) || b == CloseChar(f))
  {
    var e := FirstBracketEnd(f, s, PrefixEnds(s)).value;
    BracketBeforeEnd(f, s, PrefixEnds(s), e);
    RestAfterEnd(f, s, e);
    assert |s| - |ApplyFilter(f, s).rest| - 1 == e - 1;
  }

  /** A bracket pattern that matches keeps what follows its first match end. */
  lemma RestAfterEnd(f: Filter, s: string, e: nat)
    requires f != Music && FirstBracketEnd(f, s, PrefixEnds(s)) == Some(e)
    ensures ApplyFilter(f, s) == Replace(s[e..])
  {
  }

  /** Where the first matching prefix end's bracket part stops, the character
      before is a bracket of the filter. */
  lemma {:induction false} BracketBeforeEnd(f: Filter, s: string, ends: seq<nat>, e: nat)
    requires f != Music && forall i :: 0 <= i < |ends| ==> ends[i] <= |s|
    requires FirstBracketEnd(f, s, ends) == Some(e)
    ensures 0 < e <= |s|
    ensures f == ParenClosed || f == BracketClosed ==> s[e - 1] == CloseChar(f)
    ensures f == ParenOpen || f == BracketOpen ==> s[e - 1] == OpenChar(f) || s[e - 1] == CloseChar(f)
    decreases |ends|
  {
    if BracketEnd(f, s, ends[0]).None? {
      assert forall i :: 1 <= i < |ends| ==> ends[1..][i - 1] == ends[i];
      BracketBeforeEnd(f, s, ends[1..], e);
    }
  }

  /** The first and third patterns match exactly the lines that contain their
      closing bracket: the empty prefix is always tried last. */
  lemma {:induction false} ClosedFilterMatches(f: Filter, s: string)
    requires f == ParenClosed || f == BracketClosed
    ensures ApplyFilter(f, s).Replace? <==> CloseChar(f) in s
  {
    var ends := PrefixEnds(s);
    if CloseChar(f) in s {
      var k :| 0 <= k < |s| && s[k] == CloseChar(f);
      assert BracketEnd(f, s, ends[|ends| - 1]).Some?;
    } else {
      forall i | 0 <= i < |ends| ensures BracketEnd(f, s, ends[i]).None? { }
    }
  }

  /** Without a leading "- " and without a colon, the first pattern keeps what
      follows the first closing parenthesis. */
  lemma {:induction false} PlainParenthesis(s: string, k: nat)
    requires k < |s| && s[k] == ')' && ')' !in s[..k]
    requires ':' !in s && !(|s| >= 2 && s[..2] == "- ")
    ensures ApplyFilter(ParenClosed, s) == Replace(s[k + 1..])
  {
    assert LabelEnds(s, 0) == [] by { NoLabelEnds(s, 0); }
    assert PrefixEnds(s) == [0];
    forall j | 0 <= j < k ensures s[j] != ')' { assert s[..k][j] == s[j]; }
    assert FindChar(s, ')', 0) == Some(k);
    if |s| > 0 && s[0] == '(' {
      assert FindChar(s, ')', 1) == Some(k);
    }
  }

  /** The "- " alternative of the prefix: "- (w)" followed by anything
      leaves what follows the aside. */
  lemma DashAside(w: string, rest: string)
    requires ')' !in w
    ensures ApplyFilter(ParenClosed, "- (" + w + ")" + rest) == Replace(rest)
  {
    var s := "- (" + w + ")" + rest;
    var k := 3 + |w|;
    assert s[..2] == "- ";
    forall j | 2 <= j < k ensures s[j] != ')' {
      if j > 2 { assert s[j] == w[j - 3]; }
    }
    ClosedFromFirstEnd(s, k);
    assert s[k + 1..] == rest;
  }

  /** The label alternative of the prefix: in "x: (w)" followed by anything,
      with no colon and no ')' in `x`, the lazy `.*?` stops at the first colon
      and the aside is removed with the label. */
  lemma LabelledAside(x: string, w: string, rest: string)
    requires ':' !in x && ')' !in x && ')' !in w
    ensures ApplyFilter(ParenClosed, x + ": (" + w + ")" + rest) == Replace(rest)
  {
    var s := x + ": (" + w + ")" + rest;
    var k := |x| + 3 + |w|;
    assert s[k] == ')';
    forall j | 0 <= j < k ensures s[j] != ')' {
      if j < |x| { assert s[j] == x[j]; }
      else if j > |x| + 2 { assert s[j] == w[j - |x| - 3]; }
    }
    assert PrefixEnds(s)[0] <= |x| + 2 by { LabelFirstEnd(x, s); }
    ClosedFromFirstEnd(s, k);
    assert s[k + 1..] == rest;
  }

  /** In "x: (" followed by anything, with no colon in `x`, the first label
      end is right after ": ", unless the line starts with "- ". */
  lemma LabelFirstEnd(x: string, s: string)
    requires ':' !in x && |s| > |x| + 2 && s[..|x| + 3] == x + ": ("
    ensures PrefixEnds(s)[0] <= |x| + 2
  {
    assert s[|x|] == ':' && s[|x| + 1] == ' ' && s[|x| + 2] == '(';
    if |s| >= 2 && s[..2] == "- " {
    } else {
      forall j | 0 <= j < |x| ensures s[j] != ':' { assert s[j] == x[j]; }
      LabelEndsSkip(s, 0, |x|);
      var t := s[|x| + 1..];
      assert t[0] == ' ' && t[1] == '(';
      assert Blanks(t) == 1 by { assert t[1..][0] == '('; }
      assert SpaceEnds(s, |x|)[0] == |x| + 2;
    }
  }

  /** Colons are what `.*?` stops at; other characters are skipped. */
  lemma {:induction false} LabelEndsSkip(s: string, from: nat, c: nat)
    requires from <= c <= |s|
    requires forall j :: from <= j < c ==> s[j] != ':'
    ensures LabelEnds(s, from) == LabelEnds(s, c)
    decreases c - from
  {
    if from < c { LabelEndsSkip(s, from + 1, c); }
  }

  /** The first pattern, from the first prefix end the engine tries, keeps
      what follows the first ')' after that end. */
  lemma ClosedFromFirstEnd(s: string, k: nat)
    requires PrefixEnds(s)[0] <= k < |s| && s[k] == ')'
    requires forall j :: PrefixEnds(s)[0] <= j < k ==> s[j] != ')'
    ensures ApplyFilter(ParenClosed, s) == Replace(s[k + 1..])
  {
    var ends := PrefixEnds(s);
    ClosedEndAt(s, ends[0], k);
    assert FirstBracketEnd(ParenClosed, s, ends) == Some(k + 1);
  }

  /** From any end `p`, the first pattern's bracket part runs to the first
      ')' at or after `p`, whether or not an opening bracket stands at `p`. */
  lemma ClosedEndAt(s: string, p: nat, k: nat)
    requires p <= k < |s| && s[k] == ')'
    requires forall j :: p <= j < k ==> s[j] != ')'
    ensures BracketEnd(ParenClosed, s, p) == Some(k + 1)
  {
    FindCharAt(s, ')', p, k);
    if s[p] == '(' {
      FindCharAt(s, ')', p + 1, k);
    }
  }

  /** The first `c` at or after `from` is at `k`. */
  lemma FindCharAt(s: string, c: char, from: nat, k: nat)
    requires from <= k < |s| && s[k] == c
    requires forall j :: from <= j < k ==> s[j] != c
    ensures FindChar(s, c, from) == Some(k)
  {
    var r := FindChar(s, c, from);
    assert r.Some?;
  }

  lemma {:induction false} NoLabelEnds(s: string, from: nat)
    requires ':' !in s
    ensures LabelEnds(s, from) == []
    decreases |s| - from
  {
    if from < |s| { NoLabelEnds(s, from + 1); }
  }

  /** Patterns are tried in order and the first that matches is applied. */
  function FirstFilter(s: string, filters: seq<Filter>): (r: FilterOutcome)
    ensures r.NoMatch? <==> forall i :: 0 <= i < |filters| ==> ApplyFilter(filters[i], s).NoMatch?
    ensures r.Drop? ==> Music in filters
    decreases |filters|
  {
    if |filters| == 0 then NoMatch
    else if !ApplyFilter(filters[0], s).NoMatch? then ApplyFilter(filters[0], s)
    else
      assert forall i :: 1 <= i < |filters| ==> filters[1..][i - 1] == filters[i];
      FirstFilter(s, filters[1..])
  }

  /** The outcome is that of the first pattern that matches; no pattern after
      it is consulted. */
  lemma {:induction false} FirstFilterIsFirst(s: string, filters: seq<Filter>)
    requires !FirstFilter(s, filters).NoMatch?
    ensures exists i :: (0 <= i < |filters| && ApplyFilter(filters[i], s) == FirstFilter(s, filters) &&
                         forall j :: 0 <= j < i ==> ApplyFilter(filters[j], s).NoMatch?)
    decreases |filters|
  {
    if ApplyFilter(filters[0], s).NoMatch? {
      FirstFilterIsFirst(s, filters[1..]);
      var i :| 0 <= i < |filters[1..]| && ApplyFilter(filters[1..][i], s) == FirstFilter(s, filters[1..]) &&
        forall j :: 0 <= j < i ==> ApplyFilter(filters[1..][j], s).NoMatch?;
      FirstFilterShift(s, filters, i);
    }
  }

  /** The first match in the tail, moved one place along. */
  lemma FirstFilterShift(s: string, filters: seq<Filter>, i: nat)
    requires |filters| > 0 && ApplyFilter(filters[0], s).NoMatch? && i < |filters| - 1
    requires ApplyFilter(filters[1..][i], s) == FirstFilter(s, filters[1..])
    requires forall j :: 0 <= j < i ==> ApplyFilter(filters[1..][j], s).NoMatch?
    ensures ApplyFilter(filters[i + 1], s) == FirstFilter(s, filters)
    ensures forall j :: 0 <= j < i + 1 ==> ApplyFilter(filters[j], s).NoMatch?
  {
    assert filters[i + 1] == filters[1..][i];
    forall j | 0 <= j < i + 1 ensures ApplyFilter(filters[j], s).NoMatch? {
      if j > 0 { assert filters[j] == filters[1..][j - 1]; }
    }
  }

  /** A line with a closing parenthesis is always handled by the first pattern. */
  lemma ParenthesisFirst(s: string)
    requires ')' in s
    ensures FirstFilter(s, Filters) == ApplyFilter(ParenClosed, s)
  {
    ClosedFilterMatches(ParenClosed, s);
  }

  /** A line without brackets escapes the four bracket patterns. */
  lemma NoBracketNoReplace(f: Filter, s: string)
    requires f != Music
    requires '(' !in s && ')' !in s && '[' !in s && ']' !in s
    ensures ApplyFilter(f, s).NoMatch?
  {
    var ends := PrefixEnds(s);
    forall i | 0 <= i < |ends| ensures BracketEnd(f, s, ends[i]).None? {
      NoBracketEnd(f, s, ends[i]);
    }
  }

  lemma NoBracketEnd(f: Filter, s: string, p: nat)
    requires f != Music && p <= |s|
    requires OpenChar(f) !in s && CloseChar(f) !in s
    ensures BracketEnd(f, s, p).None?
  {
    assert FindChar(s, CloseChar(f), p).None?;
  }

  /** A plain ASCII line never contains the music note, whose first
      character is a non-ASCII letter. */
  lemma AsciiHasNoNote(s: string)
    requires forall k :: 0 <= k < |s| ==> s[k] as int < 128
    ensures !ContainsIgnoringCase(s, MusicNote)
  {
    ContainsIgnoringCaseMeans(s, MusicNote);
    forall k | 0 <= k <= |s| ensures !StartsWithIgnoringCase(s[k..], MusicNote) {
      if k < |s| { assert s[k..][0] == s[k]; }
    }
  }

  /** An ASCII line without brackets passes every pattern of `Regex.LINES`. */
  lemma PlainTextPassesFilters(s: string)
    requires forall k :: 0 <= k < |s| ==> s[k] as int < 128
    requires '(' !in s && ')' !in s && '[' !in s && ']' !in s
    ensures FirstFilter(s, Filters).NoMatch?
  {
    forall i | 0 <= i < |Filters| ensures ApplyFilter(Filters[i], s).NoMatch? {
      if Filters[i] == Music { AsciiHasNoNote(s); } else { NoBracketNoReplace(Filters[i], s); }
    }
  }

  /** The `for regex in Regex.LINES` loop of `process_file`: the first pattern
      that matches is applied and the loop stops. `hit` tells whether one
      matched (and the removal counter advances), `skip` whether the line is
      dropped, `line` what remains of it otherwise. */
  method ApplyFilters(s: string) returns (line: string, skip: bool, hit: bool)
    ensures hit <==> !FirstFilter(s, Filters).NoMatch?
    ensures skip <==> FirstFilter(s, Filters).Drop?
    ensures line == if FirstFilter(s, Filters).Replace? then FirstFilter(s, Filters).rest else s
  {
    line, skip, hit := s, false, false;
    var i := 0;
    while i < |Filters|
      invariant 0 <= i <= |Filters|
      invariant !hit && !skip && line == s
      invariant FirstFilter(s, Filters) == FirstFilter(s, Filters[i..])
    {
      assert Filters[i..][1..] == Filters[i + 1..];
      var outcome := ApplyFilter(Filters[i], s);
      if !outcome.NoMatch? {
        if outcome.Replace? {
          line := outcome.rest;
        } else {
          skip := true;
        }
        hit := true;
        return;
      }
      i := i + 1;
    }
  }
}
