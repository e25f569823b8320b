/** One SubRip cue: its index, start and end time and dialogue lines.
    `Block` is the value a `SubtitleBlock` object holds at any moment; the
    object's setters and `AddLine` are proved against the functions on `Block`. */
module Blocks {
  import opened Text

  /** The token `timeframe` assignment splits on. */
  const Arrow := "-->"

  /** The separator `__str__` puts between start and end time. */
  const ArrowWithSpaces := " --> "

  /** Dialogue lines as `add_line` leaves them: non-empty and stripped. */
  predicate CleanLines(lines: seq<string>) {
    forall i :: 0 <= i < |lines| ==> lines[i] != "" && Trimmed(lines[i])
  }

  /** `start` and `end` are None until a time is assigned (Python's None). */
  datatype Block = Block(index: int, start: Option<string>, end: Option<string>, lines: seq<string>)
  {
    /** `add_line`: the stripped line is appended when it is not empty. */
    function AddLine(line: string): (r: Block)
      ensures r.index == index && r.start == start && r.end == end
      ensures |lines| <= |r.lines| && r.lines[..|lines|] == lines
      ensures |r.lines| == |lines| + 1 <==> Strip(line) != ""
      ensures |r.lines| == |lines| + 1 ==> r.lines[|lines|] == Strip(line)
      ensures |r.lines| <= |lines| + 1
      ensures CleanLines(lines) ==> CleanLines(r.lines)
    {
      var s := Strip(line);
      if s != "" then this.(lines := lines + [s]) else this
    }

    /** Assignment to `timeframe`: the value is stripped and split on the
        arrow; the first piece, stripped, becomes the start time, and the
        second piece, stripped, the end time. With no arrow there is no
        second piece: the start time is already assigned when indexing the
        missing piece raises, and `raised` reports that. */
    function AssignTimeframe(value: string): (r: (Block, bool))
      ensures r.0.index == index && r.0.lines == lines
      ensures r.1 <==> SplitTimeframe(value).None?
      ensures !r.1 ==> r.0.start.Some? && r.0.end.Some? && Trimmed(r.0.start.value) && Trimmed(r.0.end.value)
      ensures forall p, q, rest {:trigger FirstPieces(p, q, rest)} :: Strip(value) == p + Arrow + q + rest && FirstPieces(p, q, rest) ==>
        !r.1 && r.0.start == Some(Strip(p)) && r.0.end == Some(Strip(q))
    {
      match SplitTimeframe(value)
      case None =>
        StripIdempotent(value);
        (this.(start := Some(Strip(Strip(value)))), true)
      case Some(times) => (this.(start := Some(times.0), end := Some(times.1)), false)
    }

    /** The setter raises exactly when the stripped value has no arrow, and
        then only the start time has been set, to the stripped value. */
    lemma TimeframeRaises(value: string)
      ensures AssignTimeframe(value).1 <==> !Contains(Strip(value), Arrow)
      ensures AssignTimeframe(value).1 ==> AssignTimeframe(value).0 == this.(start := Some(Strip(value)))
    {
      StripIdempotent(value);
      SplitOnArrowSingle(Strip(value));
    }

    /** `is_valid`: `self.timeframe and self.lines`. The timeframe is a pair
        and a pair is always truthy, so only the dialogue lines decide. */
    predicate IsValid() {
      |lines| > 0
    }

    /** `__str__`: the index, the times joined by " --> ", each dialogue line
        and a final "\n", all joined by "\n". Joining a missing time raises,
        which is None here. */
    function Serialise(): (r: Option<string>)
      ensures r.None? <==> start.None? || end.None?
    {
      if start.None? || end.None? then None
      else Some(Join([IntToString(index), Join([start.value, end.value], ArrowWithSpaces)] + lines + ["\n"], "\n"))
    }
  }

  /** `AssignTimeframe` written as statements. It exists only as a step
      without heap access for `SubtitleBlock.SetTimeframe`. */
  method AssignTimes(b: Block, value: string) returns (r: Block, raised: bool)
    ensures r.index == b.index && r.lines == b.lines
    ensures (r, raised) == b.AssignTimeframe(value)
  {
    var times := SplitTimeframe(value);
    if times.None? {
      r := b.(start := Some(Strip(Strip(value))));
      raised := true;
    } else {
      r := b.(start := Some(times.value.0), end := Some(times.value.1));
      raised := false;
    }
  }

  /** `str(value).strip().split('-->')`, each of the first two pieces
      stripped; None when the split gives a single piece. */
  function SplitTimeframe(value: string): (r: Option<(string, string)>)
    ensures r.Some? ==> Trimmed(r.value.0) && Trimmed(r.value.1)
    ensures forall p, q, rest {:trigger FirstPieces(p, q, rest)} :: Strip(value) == p + Arrow + q + rest && FirstPieces(p, q, rest) ==>
      r == Some((Strip(p), Strip(q)))
  {
    assert forall p, q, rest {:trigger FirstPieces(p, q, rest)} :: Strip(value) == p + Arrow + q + rest && FirstPieces(p, q, rest) ==>
      SplitOnArrow(Strip(value)) == Some((Strip(p), Strip(q))) by {
      forall p, q, rest | Strip(value) == p + Arrow + q + rest && FirstPieces(p, q, rest) {
        SplitOnArrowPieces(p, q, rest);
      }
    }
    SplitOnArrow(Strip(value))
  }

  /** `p + "-->" + q + rest` splits on the arrow into `p`, `q` and more:
      the arrow after `p` is the first one, and `rest` is empty or starts
      with the first arrow after `q`. */
  predicate FirstPieces(p: string, q: string, rest: string) {
    (forall k :: 0 <= k < |p| ==> !OccursAt(p + Arrow + q + rest, Arrow, k)) &&
    (forall k :: 0 <= k < |q| ==> !OccursAt(q + rest, Arrow, k)) &&
    (rest == [] || OccursAt(rest, Arrow, 0))
  }

  /** The first two pieces of `t.split('-->')`, stripped. */
  function SplitOnArrow(t: string): (r: Option<(string, string)>)
    ensures r.Some? ==> Trimmed(r.value.0) && Trimmed(r.value.1)
  {
    match Find(t, Arrow)
    case None => None
    case Some(k) =>
      var rest := t[k + |Arrow|..];
      var second := match Find(rest, Arrow) case None => rest case Some(j) => rest[..j];
      Some((Strip(t[..k]), Strip(second)))
  }

  /** The split keeps the first two pieces, stripped, however many arrows
      follow. */
  lemma SplitOnArrowPieces(p: string, q: string, rest: string)
    requires FirstPieces(p, q, rest)
    ensures SplitOnArrow(p + Arrow + q + rest) == Some((Strip(p), Strip(q)))
  {
    FirstPiecesFound(p, q, rest);
  }

  /** What the search for arrows sees in `t` when `p` and `q` are its first
      two pieces. */
  predicate FindsPieces(t: string, p: string, q: string) {
    |p| + 3 <= |t| && t[..|p|] == p && Find(t, Arrow) == Some(|p|) &&
    var after := t[|p| + 3..];
    |q| <= |after| && after[..|q|] == q &&
    (Find(after, Arrow) == None ==> after == q) &&
    (Find(after, Arrow) != None ==> Find(after, Arrow) == Some(|q|))
  }

  lemma FirstPiecesFound(p: string, q: string, rest: string)
    requires FirstPieces(p, q, rest)
    ensures FindsPieces(p + Arrow + q + rest, p, q)
  {
    var t := p + Arrow + q + rest;
    assert t[|p|..|p| + 3] == Arrow;
    assert OccursAt(t, Arrow, |p|);
    assert t[..|p|] == p;
    var after := t[|p| + 3..];
    assert after == q + rest;
    assert after[..|q|] == q;
    if rest == [] {
      assert after == q;
      forall k | |q| <= k ensures !OccursAt(after, Arrow, k) { }
    } else {
      assert after[|q|..|q| + 3] == rest[..3];
      assert OccursAt(after, Arrow, |q|);
    }
  }

  /** With a second arrow, Python keeps only the first two pieces:
      "a --> b --> c" sets the times "a" and "b". */
  lemma SplitSeveralArrows(a: string, b: string, c: string)
    requires Trimmed(a) && Trimmed(b) && '-' !in a && '-' !in b
    ensures SplitOnArrow(a + ArrowWithSpaces + b + ArrowWithSpaces + c) == Some((a, b))
  {
    TwoArrowLine(a, b, c);
    PaddedPieces(a, b, c);
    PaddedStrip(a, b);
    SplitOnArrowPieces(a + " ", " " + b + " ", "--> " + c);
  }

  lemma PaddedPieces(a: string, b: string, c: string)
    requires '-' !in a && '-' !in b
    ensures FirstPieces(a + " ", " " + b + " ", "--> " + c)
  {
    var rest := "--> " + c;
    assert rest[..3] == Arrow;
    SeveralArrowsPieces(a + " ", " " + b + " ", rest);
  }

  lemma PaddedStrip(a: string, b: string)
    requires Trimmed(a) && Trimmed(b)
    ensures Strip(a + " ") == a && Strip(" " + b + " ") == b
  {
    StripRightSpace(a);
    StripBothSpaces(b);
  }

  lemma StripRightSpace(a: string)
    requires Trimmed(a)
    ensures Strip(a + " ") == a
  {
    assert AllSpace(" ") && AllSpace("");
    assert "" + a + " " == a + " ";
    StripUnique("", a, " ");
  }

  lemma StripBothSpaces(b: string)
    requires Trimmed(b)
    ensures Strip(" " + b + " ") == b
  {
    assert AllSpace(" ");
    StripUnique(" ", b, " ");
  }

  lemma TwoArrowLine(a: string, b: string, c: string)
    ensures a + ArrowWithSpaces + b + ArrowWithSpaces + c == (a + " ") + Arrow + (" " + b + " ") + ("--> " + c)
  {
  }

  lemma SeveralArrowsPieces(p: string, q: string, rest: string)
    requires '-' !in p && '-' !in q
    requires |rest| >= 3 && rest[..3] == Arrow
    ensures FirstPieces(p, q, rest)
  {
    var t := p + Arrow + q + rest;
    assert forall i :: 0 <= i < |p| ==> t[i] == p[i];
    NoArrowBeforeDash(t, |p|);
    assert forall i :: 0 <= i < |q| ==> (q + rest)[i] == q[i];
    NoArrowBeforeDash(q + rest, |q|);
  }

  /** No arrow starts before `n` when no dash stands before `n`. */
  lemma NoArrowBeforeDash(t: string, n: nat)
    requires n <= |t| && forall i :: 0 <= i < n ==> t[i] != '-'
    ensures forall k :: 0 <= k < n ==> !OccursAt(t, Arrow, k)
  {
    forall k | 0 <= k < n ensures !OccursAt(t, Arrow, k) {
      if k + 3 <= |t| { assert t[k..k + 3][0] == t[k]; }
    }
  }

  /** When the split gives more than one piece, its first two pieces are
      `p` and `q` for some decomposition of the text. */
  lemma SplitOnArrowHasPieces(t: string)
    requires Contains(t, Arrow)
    ensures exists p, q, rest :: t == p + Arrow + q + rest && FirstPieces(p, q, rest)
  {
    var p, q, rest := PiecesAtFirstArrows(t);
  }

  /** Cutting at the first arrow and at the first arrow after it. */
  lemma PiecesAtFirstArrows(t: string) returns (p: string, q: string, rest: string)
    requires Contains(t, Arrow)
    ensures t == p + Arrow + q + rest && FirstPieces(p, q, rest)
  {
    var k := Find(t, Arrow).value;
    var after := t[k + 3..];
    CutAtArrow(t, k);
    var j := if Find(after, Arrow).Some? then Find(after, Arrow).value else |after|;
    RestStartsWithArrow(after, j);
    p, q, rest := t[..k], after[..j], after[j..];
    assert after == q + rest;
    assert t == p + Arrow + q + rest;
    FirstPiecesOf(t, p, q, rest);
  }

  /** The pieces around the first two arrows that the search finds. */
  lemma FirstPiecesOf(t: string, p: string, q: string, rest: string)
    requires t == p + Arrow + q + rest
    requires Find(t, Arrow) == Some(|p|)
    requires Find(q + rest, Arrow) == None || Find(q + rest, Arrow) == Some(|q|)
    requires rest == [] || OccursAt(rest, Arrow, 0)
    ensures FirstPieces(p, q, rest)
  {
  }

  lemma CutAtArrow(t: string, k: nat)
    requires OccursAt(t, Arrow, k)
    ensures t == t[..k] + Arrow + t[k + 3..]
  {
    assert t == t[..k] + t[k..k + 3] + t[k + 3..];
  }

  lemma RestStartsWithArrow(after: string, j: nat)
    requires j == if Find(after, Arrow).Some? then Find(after, Arrow).value else |after|
    ensures j <= |after| && (after[j..] == [] || OccursAt(after[j..], Arrow, 0))
  {
    if j < |after| {
      assert OccursAt(after, Arrow, j);
      assert after[j..][..3] == after[j..j + 3];
    }
  }

  /** The split gives a single piece exactly when there is no arrow. */
  lemma SplitOnArrowSingle(t: string)
    ensures SplitOnArrow(t).None? <==> !Contains(t, Arrow)
  {
    match Find(t, Arrow)
    case None =>
    case Some(k) => assert OccursAt(t, Arrow, k);
  }

  lemma StripIdempotent(s: string)
    ensures Strip(Strip(s)) == Strip(s)
  {
    StripTrimmed(Strip(s));
  }

  /** An occurrence of the arrow never covers a space. */
  lemma ArrowNotAtSpace(s: string, k: int, i: int)
    requires k <= i < k + 3 && 0 <= i < |s| && s[i] == ' '
    ensures !OccursAt(s, Arrow, k)
  {
    if 0 <= k && k + 3 <= |s| {
      assert s[k..k + 3][i - k] == s[i];
    }
  }

  /** `t` with a space after it, unless `t` is empty. */
  function SpaceAfter(t: string): string {
    if t == "" then "" else t + " "
  }

  /** `t` with a space before it, unless `t` is empty. */
  function SpaceBefore(t: string): string {
    if t == "" then "" else " " + t
  }

  /** Adding a space at either end of an arrow-free string adds no arrow. */
  lemma {:induction false} PaddedHasNoArrow(t: string)
    requires !Contains(t, Arrow)
    ensures !Contains(SpaceAfter(t), Arrow) && !Contains(SpaceBefore(t), Arrow)
  {
    if t != "" {
      var x := t + " ";
      forall k | 0 <= k <= |x| ensures !OccursAt(x, Arrow, k) {
        if k + 3 <= |t| {
          assert x[k..k + 3] == t[k..k + 3];
          assert !OccursAt(t, Arrow, k);
        } else if k < |x| && k + 3 <= |x| {
          ArrowNotAtSpace(x, k, |x| - 1);
        }
      }
      var y := " " + t;
      forall k | 0 <= k <= |y| ensures !OccursAt(y, Arrow, k) {
        if k == 0 {
          ArrowNotAtSpace(y, 0, 0);
        } else if k + 3 <= |y| {
          assert y[k..k + 3] == t[k - 1..k + 2];
          assert !OccursAt(t, Arrow, k - 1);
        }
      }
    }
  }

  /** What `strip()` keeps of "start --> end" for trimmed times. */
  lemma {:induction false} StripArrowLine(start: string, end: string)
    requires Trimmed(start) && Trimmed(end)
    ensures Strip(Join([start, end], ArrowWithSpaces)) == SpaceAfter(start) + Arrow + SpaceBefore(end)
  {
    var t := SpaceAfter(start) + Arrow + SpaceBefore(end);
    var a := if start == "" then " " else "";
    var b := if end == "" then " " else "";
    ArrowLineShape(start, end);
    ArrowLineTrimmed(start, end);
    StripUnique(a, t, b);
  }

  /** " --> " between the times is the arrow with a space on each side
      that a time does not already cover. */
  lemma {:induction false} ArrowLineShape(start: string, end: string)
    ensures Join([start, end], ArrowWithSpaces) ==
      (if start == "" then " " else "") + (SpaceAfter(start) + Arrow + SpaceBefore(end)) + (if end == "" then " " else "")
  {
    var a := if start == "" then " " else "";
    var b := if end == "" then " " else "";
    var x, y := SpaceAfter(start), SpaceBefore(end);
    assert Join([start, end], ArrowWithSpaces) == start + ArrowWithSpaces + end;
    Regroup(start, end, a, x, y, b);
  }

  lemma {:induction false} Regroup(start: string, end: string, a: string, x: string, y: string, b: string)
    requires start + " " == a + x && " " + end == y + b
    ensures start + ArrowWithSpaces + end == a + (x + Arrow + y) + b
  {
    calc {
      start + ArrowWithSpaces + end;
      (start + " ") + Arrow + (" " + end);
      (a + x) + Arrow + (y + b);
      a + (x + Arrow + y) + b;
    }
  }

  lemma {:induction false} ArrowLineTrimmed(start: string, end: string)
    requires Trimmed(start) && Trimmed(end)
    ensures Trimmed(SpaceAfter(start) + Arrow + SpaceBefore(end))
  {
    var t := SpaceAfter(start) + Arrow + SpaceBefore(end);
    if start != "" { assert t[0] == start[0]; } else { assert t[0] == '-'; }
    if end != "" { assert t[|t| - 1] == end[|end| - 1]; } else { assert t[|t| - 1] == '>'; }
  }

  /** The first arrow in `x + "-->" + y`, when `x` has none and is empty or
      ends in a space, is the one after `x`. */
  lemma FirstArrow(x: string, y: string)
    requires !Contains(x, Arrow)
    requires |x| == 0 || x[|x| - 1] == ' '
    ensures Find(x + Arrow + y, Arrow) == Some(|x|)
  {
    var s := x + Arrow + y;
    assert s[|x|..|x| + 3] == Arrow;
    assert OccursAt(s, Arrow, |x|);
    forall k | 0 <= k < |x| ensures !OccursAt(s, Arrow, k) {
      if k + 3 <= |x| {
        assert s[k..k + 3] == x[k..k + 3];
        assert !OccursAt(x, Arrow, k);
      } else {
        ArrowNotAtSpace(s, k, |x| - 1);
      }
    }
  }

  /** Assigning the second line of `str(block)` back to `timeframe` restores
      the start and end times, for times without surrounding whitespace and
      without an arrow of their own. */
  lemma {:induction false} TimeframeRoundTrip(start: string, end: string)
    requires Trimmed(start) && Trimmed(end)
    requires !Contains(start, Arrow) && !Contains(end, Arrow)
    ensures SplitTimeframe(Join([start, end], ArrowWithSpaces)) == Some((start, end))
  {
    StripArrowLine(start, end);
    PaddedHasNoArrow(start);
    PaddedHasNoArrow(end);
    SplitPaddedTimes(start, end);
  }

  lemma SplitPaddedTimes(start: string, end: string)
    requires Trimmed(start) && Trimmed(end)
    requires !Contains(SpaceAfter(start), Arrow) && !Contains(SpaceBefore(end), Arrow)
    ensures SplitOnArrow(SpaceAfter(start) + Arrow + SpaceBefore(end)) == Some((start, end))
  {
    var x, y := SpaceAfter(start), SpaceBefore(end);
    var t := x + Arrow + y;
    FirstArrow(x, y);
    assert t[..|x|] == x;
    assert t[|x| + 3..] == y;
    assert Find(y, Arrow) == None;
    StripPadded(start, end);
  }

  lemma StripPadded(start: string, end: string)
    requires Trimmed(start) && Trimmed(end)
    ensures Strip(SpaceAfter(start)) == start && Strip(SpaceBefore(end)) == end
  {
    StripSpaceAfter(start);
    StripSpaceBefore(end);
  }

  lemma StripSpaceAfter(t: string)
    requires Trimmed(t)
    ensures Strip(SpaceAfter(t)) == t
  {
    if t == "" {
      StripUnique("", "", "");
    } else {
      StripUnique("", t, " ");
      assert "" + t + " " == SpaceAfter(t);
    }
  }

  lemma StripSpaceBefore(t: string)
    requires Trimmed(t)
    ensures Strip(SpaceBefore(t)) == t
  {
    if t == "" {
      StripUnique("", "", "");
    } else {
      StripUnique(" ", t, "");
      assert " " + t + "" == SpaceBefore(t);
    }
  }

  lemma {:induction false} JoinAppend(parts: seq<string>, last: string, sep: string)
    requires |parts| >= 1
    ensures Join(parts + [last], sep) == Join(parts, sep) + sep + last
    decreases |parts|
  {
    if |parts| > 1 {
      assert (parts + [last])[1..] == parts[1..] + [last];
      JoinAppend(parts[1..], last, sep);
    }
  }

  /** Splitting `str(block)` on line breaks gives the index, the timeframe
      line, the dialogue lines and two empty strings: the text ends with a
      blank line. */
  lemma {:induction false} SerialisedLines(b: Block)
    requires b.start.Some? && b.end.Some?
    requires '\n' !in b.start.value && '\n' !in b.end.value
    requires forall i :: 0 <= i < |b.lines| ==> '\n' !in b.lines[i]
    ensures Split(b.Serialise().value, '\n') ==
      [IntToString(b.index), b.start.value + ArrowWithSpaces + b.end.value] + b.lines + ["", ""]
  {
    var head := [IntToString(b.index), Join([b.start.value, b.end.value], ArrowWithSpaces)] + b.lines;
    JoinAppend(head, "\n", "\n");
    JoinAppend(head, "", "\n");
    JoinAppend(head + [""], "", "\n");
    assert head + [""] + [""] == head + ["", ""];
    assert Join(head + ["\n"], "\n") == Join(head + ["", ""], "\n");
    assert head + ["\n"] == [IntToString(b.index), Join([b.start.value, b.end.value], ArrowWithSpaces)] + b.lines + ["\n"];
    var parts := head + ["", ""];
    forall i | 0 <= i < |parts| ensures '\n' !in parts[i] {
      if 2 <= i < 2 + |b.lines| { assert parts[i] == b.lines[i - 2]; }
    }
    SplitJoin(parts, '\n');
  }

  /** A block with dialogue but no timeframe passes `is_valid`, and
      serialising it raises. */
  lemma ValidWithoutTimeframe(b: Block)
    requires b.lines != [] && b.start.None?
    ensures b.IsValid() && b.Serialise().None?
  {
  }

  /** The object form of a block, whose setters and `add_line` update it in place. */
  class SubtitleBlock {
    var index: int
    var startTime: Option<string>
    var endTime: Option<string>
    var lines: seq<string>

    function Value(): Block
      reads this
    {
      Block(index, startTime, endTime, lines)
    }

    /** `SubtitleBlock(index=i)` */
    constructor (index: int)
      ensures Value() == Block(index, None, None, [])
    {
      this.index := index;
      startTime := None;
      endTime := None;
      lines := [];
    }

    /** `SubtitleBlock()`, whose index defaults to -1 */
    constructor Default()
      ensures Value() == Block(-1, None, None, [])
    {
      index := -1;
      startTime := None;
      endTime := None;
      lines := [];
    }

    /** The `timeframe` property: the pair of start and end time. */
    function Timeframe(): (r: (Option<string>, Option<string>))
      reads this
      ensures r.0 == Value().start && r.1 == Value().end
    {
      (startTime, endTime)
    }

    method SetIndex(value: int)
      modifies this
      ensures Value() == old(Value()).(index := value)
    {
      index := value;
    }

    method SetStartTime(value: string)
      modifies this
      ensures Value() == old(Value()).(start := Some(Strip(value)))
    {
      startTime := Some(Strip(value));
    }

    method SetEndTime(value: string)
      modifies this
      ensures Value() == old(Value()).(end := Some(Strip(value)))
    {
      endTime := Some(Strip(value));
    }

    /** Assignment to `timeframe`; `raised` is the IndexError of a value
        without an arrow, after which only the start time has changed. */
    method SetTimeframe(value: string) returns (raised: bool)
      modifies this
      ensures Value() == old(Value()).AssignTimeframe(value).0
      ensures raised == old(Value()).AssignTimeframe(value).1
      ensures !raised ==> (SplitTimeframe(value).Some? &&
                           Timeframe() == (Some(SplitTimeframe(value).value.0), Some(SplitTimeframe(value).value.1)))
    {
      var b;
      b, raised := AssignTimes(Value(), value);
      startTime := b.start;
      endTime := b.end;
    }

    /** Assignment to `lines` of a list: the list replaces the dialogue lines. */
    method SetLines(value: seq<string>)
      modifies this
      ensures Value() == old(Value()).(lines := value)
    {
      lines := value;
    }

    /** Assignment to `lines` of anything but a list: it becomes the only line. */
    method SetSingleLine(value: string)
      modifies this
      ensures Value() == old(Value()).(lines := [value])
    {
      lines := [value];
    }

    method AddLine(line: string)
      modifies this
      ensures Value() == old(Value()).AddLine(line)
    {
      var s := Strip(line);
      if s != "" {
        lines := lines + [s];
      }
    }

    method IsValid() returns (r: bool)
      ensures r == Value().IsValid()
      ensures r <==> lines != []
    {
      r := |lines| > 0;
    }

    /** `str(block)`; None where Python raises TypeError. */
    method ToString() returns (r: Option<string>)
      ensures r == Value().Serialise()
    {
      r := Value().Serialise();
    }
  }
}
