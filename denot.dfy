/** The cleaner itself: `write_block_to_file`, `process_file` and the file
    extension check of denot.py. `process_file` is specified by a pure state
    machine (`Step`, folded over the lines by `Run`), and the imperative
    `ProcessFile` is proved to compute what the machine computes. */
module Denot {
  import opened Text
  import opened Blocks
  import opened Patterns

  // ---- is_allowed_file_extension ---------------------------------------------

  /** The default of `allowed_extensions`. */
  const AllowedExtensions: seq<string> := ["srt"]

  predicate EndsWith(s: string, suffix: string) {
    |suffix| <= |s| && s[|s| - |suffix|..] == suffix
  }

  /** `any(file.endswith(ext) for ext in allowed_extensions)` */
  function IsAllowedFileExtension(file: string, allowed: seq<string> := AllowedExtensions): (r: bool)
    ensures r <==> exists i :: 0 <= i < |allowed| && EndsWith(file, allowed[i])
    decreases |allowed|
  {
    if |allowed| == 0 then false
    else
      assert forall i :: 1 <= i < |allowed| ==> allowed[1..][i - 1] == allowed[i];
      EndsWith(file, allowed[0]) || IsAllowedFileExtension(file, allowed[1..])
  }

  /** With the default list a name is accepted exactly when it ends in "srt";
      no dot is required. */
  lemma SrtOnly(file: string)
    ensures IsAllowedFileExtension(file) <==> |file| >= 3 && file[|file| - 3..] == "srt"
  {
  }

  // ---- write_block_to_file ---------------------------------------------------

  /** What `write_block_to_file` does: returns False (`Invalid`), returns True
      (`Written`), or raises from `str(block)` (`Raised`). */
  datatype WriteStatus = Invalid | Written | Raised

  /** The file as `open` leaves it: mode 'w' (index 1 or less) truncates,
      mode 'a' keeps what is there. */
  function Opened(file: string, index: int): string {
    if index > 1 then file else ""
  }

  /** `write_block_to_file` on file contents `file`: an invalid block leaves
      the file alone; otherwise the file is opened (truncated in mode 'w')
      and the block's text is written, unless serialising it raises, in
      which case the opened file is left as it is. */
  function WriteBlock(b: Block, file: string): (r: (WriteStatus, string))
    ensures r.0 == Invalid <==> !b.IsValid()
    ensures r.0 == Raised <==> b.IsValid() && (b.start.None? || b.end.None?)
    ensures r.0 == Invalid ==> r.1 == file
    ensures r.0 == Raised ==> r.1 == Opened(file, b.index)
    ensures r.0 == Written ==> b.Serialise().Some? && r.1 == Opened(file, b.index) + b.Serialise().value
  {
    if !b.IsValid() then (Invalid, file)
    else match b.Serialise()
      case None => (Raised, Opened(file, b.index))
      case Some(text) => (Written, Opened(file, b.index) + text)
  }

  /** The file `process_file` reads and rewrites in place. */
  class SrtFile {
    var text: string

    constructor (text: string)
      ensures this.text == text
    {
      this.text := text;
    }
  }

  /** `write_block_to_file(block, file)` */
  method WriteBlockToFile(block: SubtitleBlock, file: SrtFile) returns (status: WriteStatus)
    modifies file
    ensures status == WriteBlock(block.Value(), old(file.text)).0
    ensures file.text == WriteBlock(block.Value(), old(file.text)).1
  {
    var valid := block.IsValid();
    if !valid {
      return Invalid;
    }
    if block.index <= 1 {
      file.text := "";
    }
    var text := block.ToString();
    if text.None? {
      return Raised;
    }
    file.text := file.text + text.value;
    return Written;
  }

  // ---- process_file as a state machine -------------------------------------------

  /** The state `process_file` carries from line to line: the open block
      (`current_block`), `next_block_index`, `skip_next_line`, `total_removed`
      and the file. `written` records the blocks written so far and
      `crashed` that an exception ended the run. */
  datatype Machine = Machine(open: Option<Block>, next: int, skip: bool, removed: nat,
                             file: string, written: seq<Block>, crashed: bool)

  function Start(contents: string): Machine {
    Machine(None, 1, false, 0, contents, [], false)
  }

  /** What the dialogue pipeline makes of one text line: the line to add
      (None when the line is dropped), whether the next line is to be
      skipped, and how many removals were counted. */
  datatype Cleaned = Cleaned(line: Option<string>, skipNext: bool, removed: nat)

  /** The dialogue pipeline for a line of an open block whose skip flag is
      clear: font tags, then the credit test, then the speaker label, then
      the bracket and music filters. */
  function CleanText(s: string): (r: Cleaned)
    ensures r.removed <= 3
    ensures r.skipNext <==> IsCredit(StripFontTags(s))
    ensures r.skipNext ==> r.line.None? && r.removed >= 1
    ensures r.removed == 0 && s != "" ==> r.line == Some(s)
  {
    var t := StripFontTags(s);
    var tagHit := if t != s then 1 else 0;
    if IsCredit(t) then Cleaned(None, true, tagHit + 1)
    else
      var name := SpeakerLabel(t);
      var u := if name.Some? then StripSpeaker(t, name.value) else t;
      var nameHit := if name.Some? then 1 else 0;
      if u == "" then Cleaned(None, false, tagHit + nameHit)
      else match FirstFilter(u, Filters)
        case NoMatch => Cleaned(Some(u), false, tagHit + nameHit)
        case Replace(rest) => Cleaned(Some(rest), false, tagHit + nameHit + 1)
        case Drop => Cleaned(None, false, tagHit + nameHit + 1)
  }

  /** What one rule adds to the count: 1 when it fired, else 0. */
  function Hit(fired: bool): nat {
    if fired then 1 else 0
  }

  /** The count of the pipeline rule by rule, for a line that is no
      credit: tag removal counts once and only if it changed the line; a
      speaker label counts once; a filter counts once when one matches,
      and none is tried on a line the label left empty. */
  lemma CleanTextRules(s: string)
    requires !IsCredit(StripFontTags(s))
    ensures var t := StripFontTags(s); var u := Unlabelled(t); var c := CleanText(s);
      !c.skipNext &&
      c.removed == Hit(t != s) + Hit(':' in t) + Hit(u != "" && !FirstFilter(u, Filters).NoMatch?)
  {
  }

  /** The line the pipeline keeps, for a line that is no credit: none when
      the label left nothing or the music filter matched; the unlabelled
      line when no filter matches; a strictly shorter tail of it when a
      bracket filter matches. */
  lemma CleanTextKeeps(s: string)
    requires !IsCredit(StripFontTags(s))
    ensures var u := Unlabelled(StripFontTags(s)); var c := CleanText(s);
      (c.line.None? <==> u == "" || FirstFilter(u, Filters).Drop?) &&
      (u != "" && FirstFilter(u, Filters).NoMatch? ==> c.line == Some(u)) &&
      (u != "" && FirstFilter(u, Filters).Replace? ==>
         c.line.Some? && |c.line.value| < |u| && c.line.value == u[|u| - |c.line.value|..])
  {
    CleanTextLine(s);
    KeptLineShape(Unlabelled(StripFontTags(s)));
  }

  lemma KeptLineShape(u: string)
    ensures var k := KeptLine(u);
      (k.None? <==> u == "" || FirstFilter(u, Filters).Drop?) &&
      (u != "" && FirstFilter(u, Filters).NoMatch? ==> k == Some(u)) &&
      (u != "" && FirstFilter(u, Filters).Replace? ==>
         k.Some? && |k.value| < |u| && k.value == u[|u| - |k.value|..])
  {
    if u != "" && FirstFilter(u, Filters).Replace? {
      FilterKeepsTail(u);
    }
  }

  lemma CleanTextLine(s: string)
    requires !IsCredit(StripFontTags(s))
    ensures CleanText(s).line == KeptLine(Unlabelled(StripFontTags(s)))
  {
  }

  /** The line kept from the unlabelled line `u`. */
  function KeptLine(u: string): Option<string> {
    if u == "" then None
    else match FirstFilter(u, Filters)
      case NoMatch => Some(u)
      case Replace(rest) => Some(rest)
      case Drop => None
  }

  /** What a bracket filter keeps is a strictly shorter tail of the line. */
  lemma FilterKeepsTail(u: string)
    requires FirstFilter(u, Filters).Replace?
    ensures var rest := FirstFilter(u, Filters).rest; |rest| < |u| && rest == u[|u| - |rest|..]
  {
    FirstFilterIsFirst(u, Filters);
  }

  /** One iteration of the `for line in lines` loop. */
  function Step(m: Machine, raw: string): (r: Machine)
    ensures m.removed <= r.removed <= m.removed + 3
    ensures m.crashed ==> r == m
    ensures |m.written| <= |r.written| && r.written[..|m.written|] == m.written
  {
    if m.crashed then m
    else
      var s := ParseLine(raw);
      if s == "" then m.(skip := false)
      else if IsIndexLine(s) then
        match m.open
        case None => m.(open := Some(Block(m.next, None, None, [])))
        case Some(b) =>
          var w := WriteBlock(b, m.file);
          if w.0 == Raised then m.(file := w.1, crashed := true)
          else if w.0 == Written then
            m.(open := Some(Block(m.next + 1, None, None, [])), next := m.next + 1,
               file := w.1, written := m.written + [b])
          else m.(open := Some(Block(m.next, None, None, [])))
      else if IsTimeframeLine(s) then
        match m.open
        case None => m
        case Some(b) => m.(open := Some(b.AssignTimeframe(s).0))
      else
        match m.open
        case None => m
        case Some(b) =>
          if m.skip then m.(skip := false, removed := m.removed + 1)
          else
            var c := CleanText(s);
            m.(open := Some(if c.line.Some? then b.AddLine(c.line.value) else b),
               skip := c.skipNext, removed := m.removed + c.removed)
  }

  /** The loop over `lines`, one `Step` per line. */
  function Run(m: Machine, lines: seq<string>): (r: Machine)
    ensures m.removed <= r.removed <= m.removed + 3 * |lines|
    ensures |m.written| <= |r.written| && r.written[..|m.written|] == m.written
    decreases |lines|
  {
    if |lines| == 0 then m
    else Step(Run(m, lines[..|lines| - 1]), lines[|lines| - 1])
  }

  /** After the loop: the open block, if any, is written (the result is
      ignored, an exception still ends the run). */
  function Finish(m: Machine): (r: Machine)
    ensures r.removed == m.removed
    ensures m.crashed ==> r == m
    ensures |m.written| <= |r.written| <= |m.written| + 1 && r.written[..|m.written|] == m.written
  {
    if m.crashed then m
    else match m.open
      case None => m
      case Some(b) =>
        var w := WriteBlock(b, m.file);
        m.(file := w.1, crashed := w.0 == Raised,
           written := if w.0 == Written then m.written + [b] else m.written)
  }

  function Final(contents: string): Machine {
    Finish(Run(Start(contents), Split(contents, '\n')))
  }

  /** The value `process_file` returns, or the exception it ends with. */
  datatype Outcome = Done(removed: nat) | Crashed

  /** `process_file` on a file holding `contents`: its result and what the
      file holds afterwards. An empty file returns 0 at once. */
  function Process(contents: string): (r: (Outcome, string))
    ensures contents == "" ==> r == (Done(0), contents)
  {
    if contents == "" then (Done(0), contents)
    else
      var m := Final(contents);
      (if m.crashed then Crashed else Done(m.removed), m.file)
  }

  // ---- process_file, imperatively -----------------------------------------

  /** The statements of `process_file` that clean one dialogue line of an
      open block whose skip flag is clear. */
  method CleanLine(text: string) returns (line: Option<string>, skipNext: bool, removed: nat)
    ensures line == CleanText(text).line
    ensures skipNext == CleanText(text).skipNext
    ensures removed == CleanText(text).removed
  {
    var s := text;
    removed := 0;
    s := SubTag(FontOpen, s, SubCount);
    s := SubTag(FontClose, s, SubCount);
    if s != text {
      removed := removed + 1;
    }
    assert s == StripFontTags(text);
    if IsCredit(s) {
      return None, true, removed + 1;
    }
    CleanTextRules(text);
    CleanTextLine(text);
    var name := SpeakerLabel(s);
    if name.Some? {
      s := StripSpeaker(s, name.value);
      removed := removed + 1;
    }
    assert s == Unlabelled(StripFontTags(text));
    if s == "" {
      return None, false, removed;
    }
    var rest, skip, hit := ApplyFilters(s);
    if hit {
      removed := removed + 1;
    }
    line := if skip then None else Some(rest);
    skipNext := false;
  }


  /** One pass of the loop of `process_file` over the line `raw`, on the
      state held in `current`, `next`, `skip`, `removed` and the file. The
      new state is the one `Step` gives; `crashed` says the pass raised. */
  method ProcessLine(file: SrtFile, current: SubtitleBlock?, next: int, skip: bool, removed: nat,
                     ghost written: seq<Block>, raw: string)
    returns (current': SubtitleBlock?, next': int, skip': bool, removed': nat,
             ghost written': seq<Block>, crashed: bool)
    modifies file, current
    ensures current' != null ==> current' == current || fresh(current')
    ensures crashed ==>
      Step(old(Snapshot(current, next, skip, removed, file.text, written)), raw) ==
      old(Snapshot(current, next, skip, removed, file.text, written)).(file := file.text, crashed := true)
    ensures !crashed ==>
      Step(old(Snapshot(current, next, skip, removed, file.text, written)), raw) ==
      Snapshot(current', next', skip', removed', file.text, written')
  {
    current', next', skip', removed', written', crashed := current, next, skip, removed, written, false;
    ghost var before := Snapshot(current, next, skip, removed, file.text, written);
    var s := ParseLine(raw);
    if s == "" {
      skip' := false;
      BlankLineClearsSkip(before, raw);
    } else if IsIndexLine(s) {
      IndexLineFlushes(before, raw);
      current', next', written', crashed := OpenNextBlock(file, current, next, written);
    } else if IsTimeframeLine(s) {
      if current != null {
        TimeframeLineSetsTimes(before, raw, ParseLine(raw));
        TimeframeLineSplits(s);
        var raised := current.SetTimeframe(s);
        assert !raised;
      } else {
        OrphanLineDropped(before, raw);
      }
    } else if current != null {
      if skip {
        SkippedLineDropped(before, raw);
        skip' := false;
        removed' := removed + 1;
      } else {
        DialogueLineCleaned(before, raw);
        var line, skipNext, count := CleanLine(s);
        skip' := skipNext;
        removed' := removed + count;
        if line.Some? {
          current.AddLine(line.value);
        }
      }
    } else {
      OrphanLineDropped(before, raw);
    }
  }

  /** An index line: the open block, if any, is written (advancing the
      number when it was valid) and a fresh block takes its place. */
  method OpenNextBlock(file: SrtFile, current: SubtitleBlock?, next: int, ghost written: seq<Block>)
    returns (block: SubtitleBlock?, next': int, ghost written': seq<Block>, crashed: bool)
    modifies file
    ensures crashed <==> current != null && WriteBlock(current.Value(), old(file.text)).0 == Raised
    ensures crashed ==> block == current && file.text == WriteBlock(current.Value(), old(file.text)).1
    ensures !crashed ==> block != null && fresh(block) && block.Value() == Block(next', None, None, [])
    ensures !crashed && current != null && current.Value().IsValid() ==>
      file.text == WriteBlock(current.Value(), old(file.text)).1 &&
      next' == next + 1 && written' == written + [current.Value()]
    ensures !crashed && (current == null || !current.Value().IsValid()) ==>
      file.text == old(file.text) && next' == next && written' == written
  {
    block, next', written', crashed := current, next, written, false;
    if current != null {
      var status := WriteBlockToFile(current, file);
      if status == Raised {
        crashed := true;
        return;
      }
      if status == Written {
        next' := next + 1;
        written' := written + [current.Value()];
      }
    }
    block := new SubtitleBlock(next');
  }

  /** `process_file(file)`: the returned value and the file contents are
      those `Process` gives. */
  method ProcessFile(file: SrtFile) returns (r: Outcome)
    modifies file
    ensures r == Process(old(file.text)).0
    ensures file.text == Process(old(file.text)).1
  {
    var contents := file.text;
    if contents == "" {
      return Done(0);
    }
    var totalRemoved: nat := 0;
    var current: SubtitleBlock? := null;
    var nextBlockIndex := 1;
    var skipNextLine := false;
    ghost var written: seq<Block> := [];
    var lines := Split(contents, '\n');
    var i := 0;
    assert lines[..0] == [];
    assert Run(Start(contents), lines[..0]) == Start(contents);
    while i < |lines|
      invariant 0 <= i <= |lines|
      invariant current != null ==> fresh(current)
      invariant Run(Start(contents), lines[..i]) ==
        Snapshot(current, nextBlockIndex, skipNextLine, totalRemoved, file.text, written)
    {
      RunLast(Start(contents), lines, i);
      var crashed;
      current, nextBlockIndex, skipNextLine, totalRemoved, written, crashed :=
        ProcessLine(file, current, nextBlockIndex, skipNextLine, totalRemoved, written, lines[i]);
      if crashed {
        CrashIsFinal(contents, lines, i + 1);
        return Crashed;
      }
      i := i + 1;
    }
    assert lines[..|lines|] == lines;
    var crashed := FlushLastBlock(file, current, nextBlockIndex, skipNextLine, totalRemoved, written);
    return if crashed then Crashed else Done(totalRemoved);
  }

  /** After the loop: the open block, if any, is written; only an exception
      matters. */
  method FlushLastBlock(file: SrtFile, current: SubtitleBlock?, next: int, skip: bool, removed: nat,
                        ghost written: seq<Block>)
    returns (crashed: bool)
    modifies file
    ensures crashed == Finish(old(Snapshot(current, next, skip, removed, file.text, written))).crashed
    ensures file.text == Finish(old(Snapshot(current, next, skip, removed, file.text, written))).file
  {
    crashed := false;
    if current != null {
      var status := WriteBlockToFile(current, file);
      crashed := status == Raised;
    }
  }

  // ---- what process_file guarantees ------------------------------------------

  /** The text of one written block; only blocks with both times are written. */
  function Rendered(b: Block): string {
    match b.Serialise()
    case Some(text) => text
    case None => ""
  }

  /** The text a run of written blocks leaves in the file, one after another. */
  function Output(blocks: seq<Block>): string
    decreases |blocks|
  {
    if |blocks| == 0 then ""
    else Output(blocks[..|blocks| - 1]) + Rendered(blocks[|blocks| - 1])
  }

  /** Times as the classifier stores them: each is a `HH:MM:SS,mmm` time. */
  predicate WellTimed(b: Block) {
    (b.start.Some? ==> IsTimestamp(b.start.value)) && (b.end.Some? ==> IsTimestamp(b.end.value))
  }

  /** A block as it reaches the file as its `index`-th block: numbered
      `index`, with both times and at least one clean dialogue line. */
  predicate WrittenAs(b: Block, index: int) {
    b.index == index && b.start.Some? && b.end.Some? && WellTimed(b) && b.IsValid() && CleanLines(b.lines)
  }

  /** What holds between lines: written blocks are numbered 1, 2, 3, ...;
      the next number is one past the last written block and is the open
      block's; the file is untouched until the first write (or a failed
      one) and afterwards holds exactly the written blocks. */
  predicate Coherent(m: Machine, original: string) {
    m.next == |m.written| + 1 &&
    (forall k :: 0 <= k < |m.written| ==> WrittenAs(m.written[k], k + 1)) &&
    (m.open.Some? ==> m.open.value.index == m.next && WellTimed(m.open.value) && CleanLines(m.open.value.lines)) &&
    m.file == (if m.written == [] && !m.crashed then original else Output(m.written))
  }

  lemma OutputAppend(blocks: seq<Block>, b: Block)
    ensures Output(blocks + [b]) == Output(blocks) + Rendered(b)
  {
    assert (blocks + [b])[..|blocks|] == blocks;
  }

  /** Writing the open block keeps the file equal to the written blocks: the
      first block (number 1) is written in mode 'w', every later one in
      mode 'a'. */
  lemma WriteCoherent(m: Machine, original: string)
    requires Coherent(m, original) && !m.crashed && m.open.Some?
    ensures var w := WriteBlock(m.open.value, m.file);
      w.0 == Written ==> (WrittenAs(m.open.value, m.next) && w.1 == Output(m.written + [m.open.value]))
    ensures var w := WriteBlock(m.open.value, m.file);
      w.0 == Raised ==> w.1 == Output(m.written)
    ensures var w := WriteBlock(m.open.value, m.file);
      w.0 == Invalid ==> w.1 == m.file
  {
    var b := m.open.value;
    OutputAppend(m.written, b);
    if b.index > 1 {
      assert m.written != [];
    } else {
      assert m.written == [];
    }
  }

  lemma StepCoherent(m: Machine, raw: string, original: string)
    requires Coherent(m, original)
    ensures Coherent(Step(m, raw), original)
  {
    if !m.crashed {
      var s := ParseLine(raw);
      if s == "" {
        BlankLineClearsSkip(m, raw);
        CoherentFrame(m, Step(m, raw), original);
      } else if IsIndexLine(s) {
        if m.open.Some? {
          IndexStepCoherent(m, raw, original);
        } else {
          OpenStepCoherent(m, raw, original);
        }
      } else if m.open.None? {
        OrphanLineDropped(m, raw);
      } else if IsTimeframeLine(s) {
        TimeframeStepCoherent(m, raw, original);
      } else {
        TextStepCoherent(m, raw, original);
      }
    }
  }

  lemma OpenStepCoherent(m: Machine, raw: string, original: string)
    requires Coherent(m, original) && !m.crashed && m.open.None? && IsIndexLine(ParseLine(raw))
    ensures Coherent(Step(m, raw), original)
  {
    IndexLineFlushes(m, raw);
    CoherentFrame(m, Step(m, raw), original);
  }

  lemma TimeframeStepCoherent(m: Machine, raw: string, original: string)
    requires Coherent(m, original) && !m.crashed && m.open.Some? && IsTimeframeLine(ParseLine(raw))
    ensures Coherent(Step(m, raw), original)
  {
    TimeframeLineSetsTimes(m, raw, ParseLine(raw));
    CoherentFrame(m, Step(m, raw), original);
  }

  lemma TextStepCoherent(m: Machine, raw: string, original: string)
    requires Coherent(m, original) && !m.crashed && m.open.Some? && IsTextLine(raw)
    ensures Coherent(Step(m, raw), original)
  {
    if m.skip {
      SkippedLineDropped(m, raw);
    } else {
      DialogueLineCleaned(m, raw);
    }
    CoherentFrame(m, Step(m, raw), original);
  }

  /** Coherence only looks at the numbering, the written blocks, the file
      and the open block: a step that keeps the first three and leaves a
      well-formed open block with the next number keeps it. */
  lemma CoherentFrame(m: Machine, r: Machine, original: string)
    requires Coherent(m, original)
    requires r.next == m.next && r.written == m.written && r.file == m.file && r.crashed == m.crashed
    requires r.open.Some? ==> r.open.value.index == m.next && WellTimed(r.open.value) && CleanLines(r.open.value.lines)
    ensures Coherent(r, original)
  {
  }

  lemma IndexStepCoherent(m: Machine, raw: string, original: string)
    requires Coherent(m, original) && !m.crashed && m.open.Some? && IsIndexLine(ParseLine(raw))
    ensures Coherent(Step(m, raw), original)
  {
    WriteCoherent(m, original);
    var w := WriteBlock(m.open.value, m.file);
    IndexStep(m, raw);
    if w.0 == Written {
      WrittenCoherent(m, m.(open := Some(Block(m.next + 1, None, None, [])), next := m.next + 1,
                            file := w.1, written := m.written + [m.open.value]), original);
    } else if w.0 == Raised {
      CrashedCoherent(m, m.(file := w.1, crashed := true), original);
    } else {
      CoherentFrame(m, m.(open := Some(Block(m.next, None, None, []))), original);
    }
  }

  /** Writing the open block keeps coherence when the file then holds the
      written blocks and the open block after them. */
  lemma WrittenCoherent(m: Machine, r: Machine, original: string)
    requires Coherent(m, original) && m.open.Some? && WrittenAs(m.open.value, m.next)
    requires r.written == m.written + [m.open.value] && r.next == m.next + 1
    requires r.file == Output(r.written) && r.crashed == m.crashed
    requires r.open.Some? ==> r.open.value.index == r.next && WellTimed(r.open.value) && CleanLines(r.open.value.lines)
    ensures Coherent(r, original)
  {
    forall k | 0 <= k < |r.written| ensures WrittenAs(r.written[k], k + 1) {
      if k < |m.written| { assert r.written[k] == m.written[k]; }
      else { assert r.written[k] == m.open.value; }
    }
    assert r.written != [];
  }

  /** A failed write leaves coherence intact when the file holds the blocks
      written before it. */
  lemma CrashedCoherent(m: Machine, r: Machine, original: string)
    requires Coherent(m, original)
    requires r.written == m.written && r.next == m.next && r.crashed
    requires r.file == Output(m.written) && r.open == m.open
    ensures Coherent(r, original)
  {
  }

  /** What an index line does to a machine with an open block. */
  lemma IndexStep(m: Machine, raw: string)
    requires !m.crashed && m.open.Some? && IsIndexLine(ParseLine(raw))
    ensures var w := WriteBlock(m.open.value, m.file);
      Step(m, raw) ==
        if w.0 == Raised then m.(file := w.1, crashed := true)
        else if w.0 == Written then
          m.(open := Some(Block(m.next + 1, None, None, [])), next := m.next + 1,
             file := w.1, written := m.written + [m.open.value])
        else m.(open := Some(Block(m.next, None, None, [])))
  {
  }

  lemma {:induction false} RunCoherent(m: Machine, lines: seq<string>, original: string)
    requires Coherent(m, original)
    ensures Coherent(Run(m, lines), original)
    decreases |lines|
  {
    if |lines| > 0 {
      RunCoherent(m, lines[..|lines| - 1], original);
      StepCoherent(Run(m, lines[..|lines| - 1]), lines[|lines| - 1], original);
    }
  }

  lemma FinishCoherent(m: Machine, original: string)
    requires Coherent(m, original)
    ensures var r := Finish(m);
      (forall k :: 0 <= k < |r.written| ==> WrittenAs(r.written[k], k + 1)) &&
      r.file == (if r.written == [] && !r.crashed then original else Output(r.written))
  {
    if !m.crashed && m.open.Some? {
      WriteCoherent(m, original);
      var w := WriteBlock(m.open.value, m.file);
      var r := m.(file := w.1, crashed := w.0 == Raised,
                  written := if w.0 == Written then m.written + [m.open.value] else m.written);
      FinishWrites(m);
      if w.0 == Written {
        WrittenCoherent(m, r.(next := m.next + 1, open := None), original);
      } else if w.0 == Raised {
        CrashedCoherent(m, r, original);
      }
    }
  }

  /** After the loop, an open block goes through `write_block_to_file`. */
  lemma FinishWrites(m: Machine)
    requires !m.crashed && m.open.Some?
    ensures var w := WriteBlock(m.open.value, m.file);
      Finish(m) == m.(file := w.1, crashed := w.0 == Raised,
                      written := if w.0 == Written then m.written + [m.open.value] else m.written)
  {
  }

  /** Renumbering: the blocks `process_file` writes are numbered 1, 2, 3, ...
      without gaps, each has both times and dialogue, and afterwards the
      file holds exactly their serialisations in order. When no block was
      written (and nothing raised), the file is never opened and keeps its
      contents. */
  lemma ProcessRenumbers(contents: string)
    requires contents != ""
    ensures var m := Final(contents);
      (forall k :: 0 <= k < |m.written| ==> WrittenAs(m.written[k], k + 1)) &&
      Process(contents).1 == (if m.written == [] && !m.crashed then contents else Output(m.written))
  {
    var lines := Split(contents, '\n');
    RunCoherent(Start(contents), lines, contents);
    FinishCoherent(Run(Start(contents), lines), contents);
  }

  /** Each line adds at most 3 to the count (font tags, label, filter). */
  lemma RemovalBound(contents: string)
    ensures Process(contents).0.Done? ==> Process(contents).0.removed <= 3 * |Split(contents, '\n')|
  {
  }

  /** An empty line clears the skip flag and changes nothing else. */
  lemma BlankLineClearsSkip(m: Machine, raw: string)
    requires !m.crashed && ParseLine(raw) == ""
    ensures Step(m, raw) == m.(skip := false)
  {
  }

  /** Before the first index line, timeframe and text lines are dropped
      without being counted. */
  lemma OrphanLineDropped(m: Machine, raw: string)
    requires m.open.None? && ParseLine(raw) != "" && !IsIndexLine(ParseLine(raw))
    ensures Step(m, raw) == m
  {
  }

  /** An index line writes the open block if it is valid, and only then
      advances the number; it raises when the valid block lacks a time. It
      opens a fresh, empty block with the current number, and never becomes
      dialogue. The skip flag and the count are left as they are. */
  lemma IndexLineFlushes(m: Machine, raw: string)
    requires !m.crashed && IsIndexLine(ParseLine(raw))
    ensures var r := Step(m, raw);
      r.crashed <==> m.open.Some? && m.open.value.IsValid() && (m.open.value.start.None? || m.open.value.end.None?)
    ensures var r := Step(m, raw);
      !r.crashed ==> r.open == Some(Block(r.next, None, None, [])) && r.skip == m.skip && r.removed == m.removed
    ensures var r := Step(m, raw);
      !r.crashed && m.open.Some? && m.open.value.IsValid() ==>
        r.written == m.written + [m.open.value] && r.next == m.next + 1
    ensures var r := Step(m, raw);
      !r.crashed && (m.open.None? || !m.open.value.IsValid()) ==>
        r.written == m.written && r.next == m.next && r.file == m.file
  {
  }

  /** A timeframe line sets both times of the open block to its two times,
      whatever they were: the last timeframe line of a block wins. The skip
      flag, the count and the dialogue stay as they are. */
  lemma TimeframeLineSetsTimes(m: Machine, raw: string, s: string)
    requires !m.crashed && m.open.Some? && s == ParseLine(raw) && IsTimeframeLine(s)
    ensures Step(m, raw) == m.(open := Some(m.open.value.(start := Some(s[..12]), end := Some(s[|s| - 12..]))))
  {
    TimeframeStep(m, raw);
    TimeframeLineAssigns(m.open.value, s);
  }

  lemma TimeframeStep(m: Machine, raw: string)
    requires !m.crashed && m.open.Some? && IsTimeframeLine(ParseLine(raw))
    ensures Step(m, raw) == m.(open := Some(m.open.value.AssignTimeframe(ParseLine(raw)).0))
  {
    var s := ParseLine(raw);
    assert s != "" && !IsIndexLine(s) by { assert s[2] == ':'; }
  }

  /** A text line that parses to a text line: not empty, no index, no timeframe. */
  predicate IsTextLine(raw: string) {
    var s := ParseLine(raw);
    s != "" && !IsIndexLine(s) && !IsTimeframeLine(s)
  }

  /** With the skip flag set, the next text line of an open block is
      dropped whatever it holds, counted once, and the flag is cleared. */
  lemma SkippedLineDropped(m: Machine, raw: string)
    requires !m.crashed && m.open.Some? && m.skip && IsTextLine(raw)
    ensures Step(m, raw) == m.(skip := false, removed := m.removed + 1)
  {
    var s := ParseLine(raw);
    assert s != "" && !IsIndexLine(s) && !IsTimeframeLine(s);
  }

  /** Only an empty line clears the skip flag: index and timeframe lines
      keep it. */
  lemma SkipSurvivesStructure(m: Machine, raw: string)
    requires !m.crashed && m.skip && ParseLine(raw) != "" && !IsTextLine(raw)
    ensures Step(m, raw).skip
  {
    var s := ParseLine(raw);
    if !IsIndexLine(s) {
      assert IsTimeframeLine(s);
      if m.open.Some? { TimeframeStep(m, raw); }
    }
  }

  /** A credit line is dropped and sets the skip flag; it counts one, plus
      one more if font tags were removed from it first. */
  lemma CreditLineDropped(m: Machine, raw: string)
    requires !m.crashed && m.open.Some? && !m.skip && IsTextLine(raw)
    requires IsCredit(StripFontTags(ParseLine(raw)))
    ensures var s := ParseLine(raw);
      Step(m, raw) == m.(skip := true, removed := m.removed + if StripFontTags(s) != s then 2 else 1)
  {
  }

  /** A credit line and the line after it both go, two removals in all,
      and the block is left as it was. */
  lemma CreditAndNextLineDropped(m: Machine, credit: string, next: string)
    requires !m.crashed && m.open.Some? && !m.skip && IsTextLine(credit) && IsTextLine(next)
    requires IsCredit(ParseLine(credit)) && StripFontTags(ParseLine(credit)) == ParseLine(credit)
    ensures Run(m, [credit, next]) == m.(removed := m.removed + 2)
  {
    assert [credit, next][..1] == [credit];
    assert [credit][..0] == [];
    assert Run(m, [credit]) == Step(m, credit);
    CreditLineDropped(m, credit);
    var m1 := m.(skip := true, removed := m.removed + 1);
    assert Step(m, credit) == m1;
    SkippedLineDropped(m1, next);
    assert Run(m, [credit, next]) == Step(m1, next);
  }

  /** A dialogue line of an open block with the skip flag clear goes
      through the pipeline: what is left of it is added, and the flag and
      the count are set from the pipeline. */
  lemma DialogueLineCleaned(m: Machine, raw: string)
    requires !m.crashed && m.open.Some? && !m.skip && IsTextLine(raw)
    ensures var c := CleanText(ParseLine(raw));
      Step(m, raw) == m.(open := Some(if c.line.Some? then m.open.value.AddLine(c.line.value) else m.open.value),
                         skip := c.skipNext, removed := m.removed + c.removed)
  {
  }

  /** A plain ASCII aside in parentheses parses to itself and is a text line. */
  lemma AsideIsText(w: string)
    requires forall k :: 0 <= k < |w| ==> w[k] as int < 128
    ensures var s := "(" + w + ")"; ParseLine(s) == s && IsTextLine(s)
  {
    var s := "(" + w + ")";
    assert Trimmed(s) && s[0] == '(' && s[|s| - 1] == ')';
    assert Bom[0] !in s by {
      forall k | 0 <= k < |s| ensures s[k] as int < 128 {
        if 0 < k < |s| - 1 { assert s[k] == w[k - 1]; }
      }
    }
    PlainLineParses(s);
    assert !IsIndexLine(s) by { assert !IsDigit(s[0]); }
  }

  /** The pipeline takes the whole aside: the first bracket pattern leaves
      an empty line and counts one. */
  lemma AsideCleaned(w: string)
    requires ')' !in w && ':' !in w && '<' !in w
    requires !IsCredit("(" + w + ")")
    ensures CleanText("(" + w + ")") == Cleaned(Some(""), false, 1)
  {
    var s := "(" + w + ")";
    assert s[0] == '(' && s[|s| - 1] == ')';
    assert ':' !in s && '<' !in s;
    assert StripFontTags(s) == s;
    assert SpeakerLabel(s).None?;
    var opening := s[..|w| + 1];
    assert ')' !in opening by {
      forall k | 0 <= k < |opening| ensures opening[k] != ')' {
        if k > 0 { assert opening[k] == w[k - 1]; }
      }
    }
    assert s[..2][0] == '(';
    ParenthesisFirst(s);
    PlainParenthesis(s, |w| + 1);
  }

  /** An aside in parentheses, "(" + w + ")", is all the first bracket
      pattern takes: nothing is left to add and one removal is counted. */
  lemma AsideDropped(m: Machine, w: string)
    requires !m.crashed && m.open.Some? && !m.skip
    requires forall k :: 0 <= k < |w| ==> w[k] as int < 128
    requires ')' !in w && ':' !in w && '<' !in w
    requires !IsCredit("(" + w + ")")
    ensures Step(m, "(" + w + ")") == m.(removed := m.removed + 1)
  {
    AsideIsText(w);
    AsideCleaned(w);
    DialogueLineCleaned(m, "(" + w + ")");
    var b := m.open.value;
    assert b.AddLine("").lines == b.lines;
  }

  /** A line "(laughs)" leaves the block as it was and counts one removal. */
  lemma LaughsDropped(m: Machine, raw: string)
    requires !m.crashed && m.open.Some? && !m.skip && raw == "(laughs)"
    ensures Step(m, raw) == m.(removed := m.removed + 1)
  {
    var w := raw[1..|raw| - 1];
    assert "(" + w + ")" == raw;
    assert forall k :: 0 <= k < |w| ==> w[k] as int < 128 && w[k] != ')' && w[k] != ':' && w[k] != '<';
    assert !IsCredit(raw) by { NoCreditWithoutS(raw); }
    AsideDropped(m, w);
  }

  /** "name: rest" with an ASCII, colon-free name parses to itself and is a
      text line. */
  lemma LabelledIsText(name: string, rest: string)
    requires name != "" && rest != "" && Trimmed(name) && Trimmed(rest) && ':' !in name
    requires forall k :: 0 <= k < |name| ==> name[k] as int < 128
    requires forall k :: 0 <= k < |rest| ==> rest[k] as int < 128
    ensures var s := name + ": " + rest; ParseLine(s) == s && IsTextLine(s)
  {
    var s := name + ": " + rest;
    assert s[0] == name[0] && s[|s| - 1] == rest[|rest| - 1];
    assert Bom[0] !in s by {
      forall k | 0 <= k < |s| ensures s[k] as int < 128 {
        if k < |name| { assert s[k] == name[k]; }
        else if k >= |name| + 2 { assert s[k] == rest[k - |name| - 2]; }
      }
    }
    PlainLineParses(s);
    assert s[|name|] == ':';
    LabelledNotTimeframe(name, rest);
  }

  /** The pipeline on "name: rest" with a plain rest: the label goes, no
      filter matches the rest, and one removal is counted. */
  lemma LabelledCleaned(name: string, rest: string)
    requires name != "" && Trimmed(rest) && rest != ""
    requires forall k :: 0 <= k < |rest| ==> rest[k] as int < 128
    requires ':' !in name && '<' !in name && ':' !in rest && '<' !in rest
    requires '(' !in rest && ')' !in rest && '[' !in rest && ']' !in rest
    requires !IsCredit(name + ": " + rest)
    ensures CleanText(name + ": " + rest) == Cleaned(Some(rest), false, 1)
  {
    var s := name + ": " + rest;
    assert StripFontTags(s) == s by { assert '<' !in s; }
    NoLabelInside(rest, name);
    LabelledLine(name, rest);
    StripTrimmed(rest);
    PlainTextPassesFilters(rest);
  }

  /** "name: rest" with a plain rest: the label goes, the rest is added
      and one removal is counted. */
  lemma LabelledLineKept(m: Machine, name: string, rest: string)
    requires !m.crashed && m.open.Some? && !m.skip
    requires name != "" && rest != "" && Trimmed(name) && Trimmed(rest)
    requires forall k :: 0 <= k < |name| ==> name[k] as int < 128
    requires forall k :: 0 <= k < |rest| ==> rest[k] as int < 128
    requires ':' !in name && '<' !in name && ':' !in rest && '<' !in rest
    requires '(' !in rest && ')' !in rest && '[' !in rest && ']' !in rest
    requires !IsCredit(name + ": " + rest)
    ensures Step(m, name + ": " + rest) ==
      m.(open := Some(m.open.value.(lines := m.open.value.lines + [rest])), removed := m.removed + 1)
  {
    LabelledIsText(name, rest);
    LabelledCleaned(name, rest);
    DialogueLineCleaned(m, name + ": " + rest);
    StripTrimmed(rest);
  }

  /** "John: Hello there" adds "Hello there" and counts one removal. */
  lemma JohnLineKept(m: Machine, raw: string)
    requires !m.crashed && m.open.Some? && !m.skip && raw == "John: Hello there"
    ensures Step(m, raw) == m.(open := Some(m.open.value.(lines := m.open.value.lines + ["Hello there"])),
                               removed := m.removed + 1)
  {
    var name, rest := JohnLineParts(raw);
    JohnLineShape(name, rest);
    JohnLineNoCredit(raw);
    LabelledLineKept(m, name, rest);
  }

  /** "John: Hello there" is the label "John: " and the rest "Hello there".
      Like the two lemmas below, it exists to keep the literal strings out of
      `JohnLineKept`, where the solver would unfold `Step` on them. */
  lemma JohnLineParts(raw: string) returns (name: string, rest: string)
    requires raw == "John: Hello there"
    ensures name == "John" && rest == "Hello there" && raw == name + ": " + rest
  {
    name, rest := "John", "Hello there";
  }

  /** Both parts are plain words. */
  lemma JohnLineShape(name: string, rest: string)
    requires name == "John" && rest == "Hello there"
    ensures name != "" && rest != "" && Trimmed(name) && Trimmed(rest)
    ensures (forall k :: 0 <= k < |name| ==> name[k] as int < 128) &&
      (forall k :: 0 <= k < |rest| ==> rest[k] as int < 128)
    ensures ':' !in name && '<' !in name && ':' !in rest && '<' !in rest &&
      '(' !in rest && ')' !in rest && '[' !in rest && ']' !in rest
  {
    JohnLineTrimmed(name, rest);
    PlainWord(name);
    PlainWord(rest);
  }

  /** The trimmed half of `JohnLineShape`, proved apart for the same reason. */
  lemma JohnLineTrimmed(name: string, rest: string)
    requires name == "John" && rest == "Hello there"
    ensures Trimmed(name) && Trimmed(rest)
  {
  }

  /** No credit phrase: the line has no "s" early enough. */
  lemma JohnLineNoCredit(raw: string)
    requires raw == "John: Hello there"
    ensures !IsCredit(raw)
  {
    NoCreditWithoutS(raw);
  }

  /** A word of ASCII letters and blanks holds no character the pipeline
      reacts to. */
  lemma PlainWord(w: string)
    requires forall k :: 0 <= k < |w| ==> 'A' <= w[k] <= 'Z' || 'a' <= w[k] <= 'z' || w[k] == ' '
    ensures forall k :: 0 <= k < |w| ==> w[k] as int < 128
    ensures ':' !in w && '<' !in w && '(' !in w && ')' !in w && '[' !in w && ']' !in w
  {
    assert forall k :: 0 <= k < |w| ==> w[k] != ':' && w[k] != '<' && w[k] != '(' && w[k] != ')' && w[k] != '[' && w[k] != ']';
  }

  /** A dialogue line that no rule touches is added as it is, and nothing
      is counted. */
  lemma UntouchedLineKept(m: Machine, raw: string)
    requires !m.crashed && m.open.Some? && !m.skip && IsTextLine(raw)
    requires CleanText(ParseLine(raw)).removed == 0
    ensures Step(m, raw) == m.(open := Some(m.open.value.AddLine(ParseLine(raw))))
  {
  }

  /** A file without any index line is left as it was and 0 is returned. */
  lemma NoIndexLineNoChange(contents: string)
    requires forall i :: 0 <= i < |Split(contents, '\n')| ==> !IsIndexLine(ParseLine(Split(contents, '\n')[i]))
    ensures Process(contents) == (Done(0), contents)
  {
    var lines := Split(contents, '\n');
    RunWithoutIndex(contents, lines);
  }

  lemma {:induction false} RunWithoutIndex(contents: string, lines: seq<string>)
    requires forall i :: 0 <= i < |lines| ==> !IsIndexLine(ParseLine(lines[i]))
    ensures Run(Start(contents), lines) == Start(contents)
    decreases |lines|
  {
    if |lines| > 0 {
      RunWithoutIndex(contents, lines[..|lines| - 1]);
    }
  }

  /** The machine state held by the variables of `ProcessFile`. */
  ghost function Snapshot(current: SubtitleBlock?, next: int, skip: bool, removed: nat,
                          file: string, written: seq<Block>): Machine
    reads current
  {
    Machine(if current == null then None else Some(current.Value()), next, skip, removed, file, written, false)
  }

  lemma RunLast(m: Machine, lines: seq<string>, i: nat)
    requires i < |lines|
    ensures Run(m, lines[..i + 1]) == Step(Run(m, lines[..i]), lines[i])
  {
    assert lines[..i + 1][..i] == lines[..i];
  }

  /** Once an exception is raised nothing more happens: the rest of the
      lines and the final write leave the machine as it is. */
  lemma CrashIsFinal(contents: string, lines: seq<string>, i: nat)
    requires lines == Split(contents, '\n') && i <= |lines|
    requires Run(Start(contents), lines[..i]).crashed
    ensures Final(contents) == Run(Start(contents), lines[..i])
  {
    CrashedPrefix(Start(contents), lines, i);
  }

  /** A run that has crashed after its first `i` lines ends as it was then. */
  lemma CrashedPrefix(m: Machine, lines: seq<string>, i: nat)
    requires i <= |lines| && Run(m, lines[..i]).crashed
    ensures Run(m, lines) == Run(m, lines[..i])
  {
    assert lines == lines[..i] + lines[i..];
    RunAppend(m, lines[..i], lines[i..]);
    RunCrashed(Run(m, lines[..i]), lines[i..]);
  }

  lemma {:induction false} RunAppend(m: Machine, a: seq<string>, b: seq<string>)
    ensures Run(m, a + b) == Run(Run(m, a), b)
    decreases |b|
  {
    if |b| == 0 {
      assert a + b == a;
    } else {
      assert (a + b)[..|a + b| - 1] == a + b[..|b| - 1];
      RunAppend(m, a, b[..|b| - 1]);
    }
  }

  lemma {:induction false} RunCrashed(m: Machine, lines: seq<string>)
    requires m.crashed
    ensures Run(m, lines) == m
    decreases |lines|
  {
    if |lines| > 0 {
      RunCrashed(m, lines[..|lines| - 1]);
    }
  }
}
