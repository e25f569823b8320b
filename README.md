# denot — a verified model of the SubRip subtitle cleaner

denot cleans SubRip (`.srt`) subtitle files in place. It reads a file and
splits it into lines. It then rebuilds the file block by block. Along the
way it drops credit lines and the line after each one. It strips
`<font color="...">` tags, speaker labels (`John: `), bracketed
annotations (`(laughs)`, `[door slams]`) and music lines. It renumbers the
blocks it keeps 1, 2, 3, ..., and returns how many annotations it removed.

The model has four modules:

- `Text` (text.dfy) holds the Python string operations the program relies on:
  - `str.strip`, with Python's whitespace set;
  - `str.replace(pat, '')`;
  - `str.split` on one character, and `str.join`;
  - `str(int)`;
  - case-insensitive substring search.
- `Blocks` (subtitle_block.py → subtitle_block.dfy) models `SubtitleBlock`:
  - the value the object holds is the datatype `Block`, and its operations
    are functions on it;
  - the class `SubtitleBlock` has the same four fields, and its setters,
    `add_line`, `is_valid` and `__str__` are methods proved against those
    functions.
- `Patterns` (denot.py:9-24, 72-73, 128-158) writes each regular expression
  of `Regex` out as a string function. Each one follows the backtracking
  order of Python's `re`: anchored `match`, lazy before greedy, alternatives
  left to right. The module also covers `parse_line` and the
  `for regex in Regex.LINES` loop (`ApplyFilters`).
- `Denot` (denot.py:34-35, 76-163) models `write_block_to_file`,
  `process_file` and `is_allowed_file_extension`:
  - `process_file` is specified as a state machine. `Step` handles one line,
    and `Run` folds `Step` over the lines. `Finish` performs the write at the
    end of the file, and `Process` gives the returned value and the final
    file contents.
  - The imperative `ProcessFile` is proved to compute exactly that.
  - The file is a class `SrtFile` whose `text` field is replaced when the
    file is opened in mode 'w' and appended to in mode 'a'.

Two exceptions of the program are modelled as outcomes rather than left out:

- Serialising a block with dialogue but without a timeframe raises
  TypeError, because `' --> '.join((None, None))` fails. `is_valid` does
  not catch this: a 2-tuple is always truthy. By then the file has already
  been opened, which truncates it when the block is the first one. The
  model returns `Raised` from `WriteBlock` and `Crashed` from `Process`,
  with the file as the failed write leaves it.
- Assigning a value without `-->` to `timeframe` raises IndexError after
  the start time has been stored (`AssignTimeframe`). `TimeframeLineSplits`
  proves this never happens inside `process_file`: every line the
  classifier takes for a timeframe contains the arrow.

Behaviours of the code worth knowing:

- A block with unset times still counts as valid, and writing it raises.
- A file with no index line is never opened for writing and keeps its
  contents (`NoIndexLineNoChange`).
- Only spaces, not other whitespace, may surround the arrow of a timeframe
  line.
- `re.I` is passed as the `count` argument of `re.sub` (re.I is 2). So each
  font tag is removed at most twice per line, and case-sensitively
  (`CloseTagLimit`).
- Running the cleaner twice can remove more the second time. `LabelledLine`
  shows that "A: B: hi" becomes "B: hi", which still has a label.

## Model

| member | source | states |
|---|---|---|
| Text.Strip | subtitle_block.py:51 | the result has no leading or trailing Python whitespace and is no longer than the input |
| Text.StripUnique | subtitle_block.py:51 | stripping whitespace-only padding from a trimmed text gives back that text |
| Text.RemoveAllChanges | denot.py:73 | `replace(pat, '')` leaves a text unchanged exactly when the pattern does not occur in it |
| Text.Split | denot.py:97 | `split('\n')` gives at least one piece and no piece contains the separator |
| Text.SplitJoin | denot.py:97 | splitting the join of separator-free pieces gives the pieces back |
| Text.JoinSplit | denot.py:97 | joining the pieces of a split gives the text back |
| Text.Join | subtitle_block.py:59-61 | `sep.join` of no pieces is empty, and the result starts with the first piece; `SplitJoin` and `JoinSplit` are its inverse laws |
| Text.JoinEndsWithLast | subtitle_block.py:59-61 | the result of `sep.join` ends with the last piece |
| Text.ContainsIgnoringCaseMeans | denot.py:133 | the case-insensitive search succeeds exactly when some position starts a case-insensitive match |
| Text.IntToString | subtitle_block.py:60 | `str(index)` is non-empty, all digits exactly for non-negative numbers, and has no line break |
| Text.DecimalRoundTrip | subtitle_block.py:60 | the decimal text of a natural number reads back as that number |
| Blocks.SubtitleBlock.constructor | subtitle_block.py:2-6 | a new block has the given index, no start or end time and no lines |
| Blocks.SubtitleBlock.Default | subtitle_block.py:2-6 | without an argument the index is -1 |
| Blocks.SubtitleBlock.SetIndex | subtitle_block.py:12-14 | only the index changes, to the given integer |
| Blocks.SubtitleBlock.SetStartTime | subtitle_block.py:20-22 | only the start time changes, to the stripped value |
| Blocks.SubtitleBlock.SetEndTime | subtitle_block.py:28-30 | only the end time changes, to the stripped value |
| Blocks.SubtitleBlock.Timeframe | subtitle_block.py:32-34 | the getter returns the start and end time the object holds, in that order |
| Blocks.Block.AssignTimeframe | subtitle_block.py:36-40 | index and lines are untouched; it raises exactly when the split gives a single piece; otherwise both times are set, trimmed; when the stripped value is `p + '-->' + q + rest`, with that arrow the first one and `rest` empty or starting at the next arrow, the times become `p` and `q` stripped, however many arrows follow |
| Blocks.Block.TimeframeRaises | subtitle_block.py:36-40 | it raises exactly when the stripped value has no arrow, and then only the start time has been set, to the stripped value |
| Blocks.SplitTimeframe | subtitle_block.py:38-40 | the pieces are trimmed, and they are the first two pieces of the stripped value's `split('-->')`, each stripped, whatever follows the second arrow |
| Blocks.SplitOnArrow | subtitle_block.py:38-40 | both pieces it gives are trimmed |
| Blocks.SplitOnArrowPieces | subtitle_block.py:38-40 | the pieces are `p` and `q` stripped, where `p` runs to the first arrow and `q` to the next arrow or the end |
| Blocks.SplitOnArrowHasPieces | subtitle_block.py:38-40 | every text with an arrow is `p + '-->' + q + rest` for such first pieces, so the lemma above covers every split that succeeds |
| Blocks.SplitSeveralArrows | subtitle_block.py:38-40 | "a --> b --> c" gives `a` and `b`: pieces after the second are ignored |
| Blocks.SplitOnArrowSingle | subtitle_block.py:38-40 | `split('-->')` gives a single piece exactly when the text has no arrow |
| Blocks.SubtitleBlock.SetTimeframe | subtitle_block.py:36-40 | the object changes as `AssignTimeframe` says, and the exception is reported; without it, the `timeframe` getter returns the two pieces of the split |
| Blocks.TimeframeRoundTrip | subtitle_block.py:38-61 | assigning the timeframe line that `__str__` writes restores start and end, for trimmed times without an arrow |
| Blocks.SubtitleBlock.SetLines | subtitle_block.py:46-48 | a list replaces the dialogue lines, nothing else changes |
| Blocks.SubtitleBlock.SetSingleLine | subtitle_block.py:46-48 | a non-list value becomes the only dialogue line |
| Blocks.Block.AddLine | subtitle_block.py:50-53 | the list grows by one exactly when the stripped line is non-empty, the new last line is the stripped line, earlier lines are kept, index and times are untouched, and clean lines stay clean |
| Blocks.SubtitleBlock.AddLine | subtitle_block.py:50-53 | the object changes as `Block.AddLine` says |
| Blocks.SubtitleBlock.IsValid | subtitle_block.py:55-56 | valid exactly when there is at least one dialogue line, whatever the times |
| Blocks.ValidWithoutTimeframe | subtitle_block.py:55-62 | a block with dialogue and no start time is valid, and serialising it raises |
| Blocks.Block.Serialise | subtitle_block.py:58-62 | serialising raises exactly when a time is missing |
| Blocks.SubtitleBlock.ToString | subtitle_block.py:58-62 | `str(block)` of the object is the serialisation of its value |
| Blocks.SerialisedLines | subtitle_block.py:58-62 | split on line breaks, `str(block)` is the index, "start --> end", the lines, and two empty strings, so it ends in a blank line |
| Text.RemoveAll | denot.py:73 | `replace(pat, '')` never lengthens a text, and removes at least the pattern's length from a text that starts with it |
| Text.RemoveAllFirst | denot.py:73 | `replace(pat, '')` keeps the text before the first occurrence, deletes that occurrence and goes on with the rest |
| Text.RemoveAllAt | denot.py:73 | the same for the first occurrence at index `i` of one string: the first `i` characters are kept and the occurrence is deleted |
| Patterns.ParseLine | denot.py:72-73 | the stripped line is kept exactly when it holds no mark; otherwise the result is shorter |
| Patterns.PlainLineParses | denot.py:72-73 | a stripped line without the mark's first character is its own parse |
| Patterns.ParseLineStripsBeforeRemoving | denot.py:72-73 | a byte-order mark followed by spaces leaves the spaces, because stripping happens first |
| Patterns.ParseLineCutsMark | denot.py:72-73 | a byte-order mark at the start, the end or inside a stripped line is cut out and the two sides are joined |
| Patterns.IsIndexLine | denot.py:10 | an index line is stripped and has no colon |
| Patterns.IsTimeframeLine | denot.py:11 | a timeframe line has at least 27 characters, starts and ends with a digit, and has a colon third, so it is never an index line |
| Patterns.SplitOnSingleArrow | subtitle_block.py:38-40 | a stripped text with exactly one arrow splits into the two sides, stripped |
| Patterns.SerialisedTimeframeIsRecognised | denot.py:11 | the timeframe line `__str__` writes for two well-formed times matches TIMEFRAME |
| Patterns.ArrowPos | denot.py:11 | a timeframe line has its arrow after the first time, with only spaces around it |
| Patterns.TimestampTrimmed | denot.py:11 | a time matched by TIMEFRAME starts and ends with a digit, so stripping leaves it alone |
| Patterns.TimeframeLineAssigns | denot.py:114-117 | assigning a timeframe line to an open block stores its first and last twelve characters as the times and does not raise |
| Patterns.TimeframeLineSplits | denot.py:114-117 | assigning a timeframe line stores exactly its first and its last twelve characters and never raises |
| Patterns.IsCredit | denot.py:14-15 | a line is a credit line exactly when one of "subtitles by", "subtitled by", "sync by", "synced by" starts at some position, compared case-insensitively |
| Patterns.CreditAnywhere | denot.py:14-15 | any of the four phrases, in any letter case, anywhere in the line makes it a credit line |
| Patterns.NoCreditWithoutS | denot.py:14-15 | a line with no "s" (in any case) at a position with seven characters after it is no credit line |
| Patterns.TagMatch | denot.py:16-17 | the closing pattern matches exactly when the line starts with `</font>`, and takes those 7 characters; the opening pattern matches exactly when the line starts with `<font color="` and `">` follows, and takes the shortest such text |
| Patterns.SubTag | denot.py:128-129 | `re.sub` with a positive count never lengthens the line; the count is the number of deletions still allowed, starting at 2 |
| Patterns.NoAngleNoTag | denot.py:16-17 | a line without '<' holds neither tag |
| Patterns.SubTagChanges | denot.py:128-131 | substitution changes the line exactly when a deletion is still allowed and a tag occurs; a changed line is shorter |
| Patterns.CloseTagLimit | denot.py:128-129 | with three closing tags, only the first two are removed |
| Patterns.FontWrapped | denot.py:128-131 | `<font color="c">text</font>` comes out as `text` |
| Patterns.StripFontTags | denot.py:128-129 | the two substitutions never lengthen the line and leave a line without '<' alone |
| Patterns.SpeakerLabel | denot.py:12 | there is a label exactly when the line has a colon; the label is a prefix of the line |
| Patterns.SpeakerLabelShape | denot.py:12 | the label runs to the first colon, plus one following space when there is one |
| Patterns.LabelledLine | denot.py:138-141 | "name: rest" has the label "name: " and leaves the stripped rest when the rest does not repeat the label |
| Patterns.StripSpeaker | denot.py:138-141 | what is left after the label is removed is stripped and no longer than the line |
| Patterns.Unlabelled | denot.py:138-141 | a line without a colon is left alone; a line with one comes out stripped and strictly shorter |
| Patterns.LabelOf | denot.py:12 | the label of "name: rest" with a colon-free name is "name: ", whatever the rest |
| Patterns.LabelledTwice | denot.py:138-141 | a label that appears twice is deleted both times, leaving the two texts joined and stripped |
| Patterns.RepeatedLabel | denot.py:138-141 | "A: x A: y" comes out as "x y" |
| Patterns.LabelledNotTimeframe | denot.py:11-12 | "name: rest" with a colon-free name is never a timeframe line |
| Patterns.NoLabelInside | denot.py:140 | a colon-free text holds no "name: ", so deleting the label leaves it whole |
| Patterns.PrefixEnds | denot.py:19-22 | the prefix ends are tried in the engine's order: after "- " first when the line starts with it, the empty prefix last, and every end within the line |
| Patterns.LabelEndsSkip | denot.py:19-22 | the lazy `.*?` of the label alternative passes over every character that is not a colon |
| Patterns.LabelFirstEnd | denot.py:19-22 | in "x: (" with a colon-free `x`, the first end tried is at most the one right after ": " |
| Patterns.ClosedFromFirstEnd | denot.py:19 | the first pattern, from the first prefix end the engine tries, keeps what follows the first ')' after that end |
| Patterns.ClosedEndAt | denot.py:19 | from any prefix end, `\(?.*?\)` runs to the first ')' after it, whether or not '(' stands there |
| Patterns.DashAside | denot.py:19 | the "- " alternative: "- (w)" followed by any text leaves that text |
| Patterns.LabelledAside | denot.py:19 | the label alternative: "x: (w)" followed by any text, with no colon or ')' in `x`, leaves that text, so the label goes with the aside |
| Patterns.BracketEnd | denot.py:19-22 | a closed pattern's bracket part ends in its closing bracket; an open pattern's ends in its opening or closing bracket |
| Patterns.FirstBracketEnd | denot.py:19-22 | a result comes from the first prefix end, in the engine's order, whose bracket part matches: every earlier end fails; none means no end matches |
| Patterns.ApplyFilter | denot.py:18-24 | the music pattern drops exactly the lines with a music note; a bracket pattern replaces the line by a strictly shorter suffix |
| Patterns.ReplacedAfterBracket | denot.py:19-22 | the kept suffix directly follows a bracket character of the pattern |
| Patterns.BracketBeforeEnd | denot.py:19-22 | wherever the first matching prefix end's bracket part stops, the character before it is a bracket of the pattern: the closing one for the first and third pattern, either one for the second and fourth |
| Patterns.ClosedFilterMatches | denot.py:19-21 | the first and third patterns match exactly the lines that contain their closing bracket |
| Patterns.PlainParenthesis | denot.py:19 | with no "- " and no colon, the first pattern keeps what follows the first ")" |
| Patterns.FirstFilter | denot.py:146-155 | no filter fires exactly when no pattern matches; only the music pattern drops the line |
| Patterns.FirstFilterIsFirst | denot.py:146-155 | the outcome is that of the first matching pattern, and all earlier ones fail |
| Patterns.ParenthesisFirst | denot.py:18-19 | any line with ")" is handled by the first pattern |
| Patterns.NoBracketNoReplace | denot.py:19-22 | a line without brackets matches none of the four bracket patterns |
| Patterns.AsciiHasNoNote | denot.py:13 | an ASCII line never contains the music note |
| Patterns.PlainTextPassesFilters | denot.py:146-155 | an ASCII line without brackets passes every pattern of `Regex.LINES` |
| Patterns.ApplyFilters | denot.py:146-156 | the loop reports a hit exactly when a pattern matches, drops exactly for music, and otherwise keeps the replaced or unchanged line |
| Denot.IsAllowedFileExtension | denot.py:34-35 | accepted exactly when the name ends with one of the allowed extensions |
| Denot.SrtOnly | denot.py:34-35 | with the default list, accepted exactly when the name ends in "srt" |
| Denot.WriteBlock | denot.py:76-82 | invalid blocks leave the file alone; mode 'w' (index 1 or less) truncates and mode 'a' appends; a valid block without times raises after opening |
| Denot.WriteBlockToFile | denot.py:76-82 | the result and the new file are those of `WriteBlock` |
| Denot.CleanText | denot.py:127-158 | at most 3 removals per line; the next line is skipped exactly for credit lines, which are dropped; a line no rule touches is kept as it is |
| Denot.CleanTextRules | denot.py:127-155 | for a line that is no credit: tag removal counts 1 only when it changed the line, a speaker label counts exactly 1, a filter counts exactly 1 when one matches, and none is tried on a line the label left empty; the skip flag stays clear |
| Denot.CleanTextKeeps | denot.py:143-158 | for a line that is no credit: nothing is kept when the label left it empty or the music pattern matched; the unlabelled line is kept when no pattern matches; a strictly shorter tail of it when a bracket pattern matches |
| Denot.FilterKeepsTail | denot.py:149-151 | what a bracket pattern keeps is a strictly shorter tail of the line |
| Denot.Step | denot.py:98-158 | one line adds at most 3 to the count, nothing happens after an exception, and written blocks are never taken back |
| Denot.Run | denot.py:97-158 | the count grows by at most 3 per line, and the log of written blocks only grows |
| Denot.Finish | denot.py:160-161 | the final write adds at most one block and does not change the count |
| Denot.Process | denot.py:85-89 | an empty file returns 0 and is left alone |
| Denot.CleanLine | denot.py:127-158 | the cleaned line, the new skip flag and the count are those `CleanText` gives |
| Denot.ProcessLine | denot.py:99-158 | one pass of the loop moves the state exactly as `Step` does, or reports the exception with the file as the failed write left it |
| Denot.OpenNextBlock | denot.py:109-113 | the open block is written when valid and the number advances; an invalid or missing block leaves the file alone; the new block is fresh, empty and numbered with the current number; it raises exactly when the write does |
| Denot.FlushLastBlock | denot.py:160-161 | the write after the loop raises and changes the file exactly as `Finish` says |
| Denot.ProcessFile | denot.py:85-163 | the result and the new file are those of `Process` |
| Denot.WriteCoherent | denot.py:80 | the first block is written in mode 'w' and later ones in mode 'a', so the file holds exactly the written blocks |
| Denot.StepCoherent | denot.py:98-158 | every line keeps the numbering, times and file invariant |
| Denot.RunCoherent | denot.py:97-158 | the loop keeps the numbering, times and file invariant |
| Denot.FinishCoherent | denot.py:160-161 | the final write keeps the numbering and file invariant |
| Denot.ProcessRenumbers | denot.py:95-161 | written blocks are numbered 1, 2, 3, ... without gaps, each has both times and dialogue, the file holds exactly their serialisations, and a file with no written block keeps its contents |
| Denot.RemovalBound | denot.py:93-163 | the returned count is at most 3 per line of the file |
| Denot.BlankLineClearsSkip | denot.py:105-107 | an empty line clears the skip flag and nothing else |
| Denot.OrphanLineDropped | denot.py:114-120 | before the first index line, timeframe and text lines change nothing and are not counted |
| Denot.IndexLineFlushes | denot.py:109-113 | an index line writes a valid open block and only then advances the number, raises for a valid block without times, and opens an empty block with the current number |
| Denot.TimeframeLineSetsTimes | denot.py:114-117 | a timeframe line replaces both times of the open block, so the last one wins |
| Denot.SkippedLineDropped | denot.py:122-125 | with the flag set, the next text line is dropped, counted once, and the flag is cleared |
| Denot.SkipSurvivesStructure | denot.py:105-117 | index and timeframe lines keep the skip flag set |
| Denot.CreditLineDropped | denot.py:127-136 | a credit line is dropped and sets the flag, counting one plus one more if font tags were removed |
| Denot.CreditAndNextLineDropped | denot.py:122-136 | a credit line and the text line after it are both dropped, for two removals |
| Denot.UntouchedLineKept | denot.py:127-158 | a line no rule touches is added unchanged and not counted |
| Denot.AsideIsText | denot.py:99-118 | "(" + w + ")" with an ASCII `w` parses to itself and reaches the dialogue branch |
| Denot.AsideCleaned | denot.py:127-155 | the pipeline takes all of "(" + w + ")": the first pattern leaves an empty line and counts 1 |
| Denot.AsideDropped | denot.py:98-158 | an aside in parentheses adds nothing to the open block and counts one removal |
| Denot.LaughsDropped | denot.py:98-158 | the line "(laughs)" leaves the block as it was and counts one removal |
| Denot.LabelledIsText | denot.py:99-118 | "name: rest" with ASCII parts parses to itself and reaches the dialogue branch |
| Denot.LabelledCleaned | denot.py:127-155 | the pipeline strips the label of "name: rest", no pattern matches a plain rest, and the count is 1 |
| Denot.LabelledLineKept | denot.py:98-158 | "name: rest" with a plain rest appends the rest to the open block and counts one removal |
| Denot.JohnLineKept | denot.py:98-158 | the line "John: Hello there" appends "Hello there" and counts one removal |
| Denot.JohnLineShape | denot.py:138-141 | "John: Hello there" is a plain label followed by a plain rest |
| Denot.JohnLineNoCredit | denot.py:133 | "John: Hello there" is no credit line |
| Denot.PlainWord | denot.py:12-24 | a word of ASCII letters and blanks holds no character the patterns react to |
| Denot.NoIndexLineNoChange | denot.py:85-161 | a file without index lines returns 0 and is left as it was |
| Denot.CrashIsFinal | denot.py:111 | once serialising raises, no later line and no final write changes anything |
| Denot.CrashedPrefix | denot.py:98-161 | a run that has crashed after its first lines ends as it was then |

## Left out

- `main`, option parsing, `usage` and the interactive confirmation (denot.py:27-31, 166-224). These are command-line and terminal I/O.
- `scan_directory`, `validate_file` and `validate_directory` (denot.py:38-69). They depend on the file system; only the pure extension check is modelled.
- Reading and writing real files. The file is the string field `SrtFile.text`. Decoding, and the newline translation `read_text` does, are not modelled: the contents are the text as read.
- The debug echo controlled by `print_first_n_lines = 0` (denot.py:91-103). It only prints and is switched off.
- Character encoding. The mis-decoded byte-order mark and music note are opaque constant strings.
- A general regular-expression engine. Only the patterns of `Regex` are modelled, each as its own function. `.` is read as any character, because lines never hold a line break.
- Blocks.SubtitleBlock.SetIndex: takes an integer. `int(value)` parsing of text, and its ValueError, are not modelled. The same holds for the constructor's `int(index)` (subtitle_block.py:3): Blocks.SubtitleBlock.constructor takes an integer.
- Blocks.SubtitleBlock.SetStartTime: takes a string. `str(value)` of other objects is not modelled. The same holds for SetEndTime and SetTimeframe.
- Blocks.SubtitleBlock.SetLines: stores a copy of the list. Python stores the list object itself, so later changes to the caller's list show through; that aliasing is not modelled.
- Text.CharMatchesIgnoringCase: covers ASCII and Latin-1 letters and the four letters that Python folds onto ASCII ones (U+0130, U+0131, U+017F, U+212A). That is every case pair that can meet the patterns' letters; other scripts are not modelled.
- Exceptions other than the TypeError of `__str__` and the IndexError of the `timeframe` setter, such as I/O errors.
