# LogTailDisplay, modelled in Dafny

This project models the core of the dashboard's log-tail widget, `LogTailDisplay` in
`LogTailWidget.cpp`. The widget shows the tail of one log source: either a plain file
that it follows, or the standard output of `journalctl -f`. Each line is coloured by a
severity keyword, and the view keeps at most `maxLines` lines. The model is split into
six modules:

- `Classifier`: `colorForLine`. It upper-cases the first 40 UTF-16 units of a line and
  tests four keyword groups in a fixed order. Each of the five colours is modelled as the
  severity it stands for:
  - `#ff5555` is `Error`.
  - `#ffb86c` is `Warning`.
  - `#6272a4` is `Debug`.
  - `#8be9fd` is `Info`.
  - `#c8cee8` is `Plain`.
- `Lines`: how raw text becomes display lines.
  - `QByteArray::split('\n')`, `QString::trimmed` and dropping empty results, as in the
    file path.
  - The `canReadLine`/`readLine` loop of the journal path, which takes complete lines only
    and leaves a trailing fragment in the process's buffer.
- `TailConfig`: `LogTailConfig` and its JSON form (`saveConfig` and `loadConfig`), the
  header label (`updateSourceLabel`), and the journalctl argument list.
- `View`: the `QPlainTextEdit`. It is a class holding a sequence of coloured blocks and the
  maximum block count. When appended blocks exceed a positive count, the oldest are
  dropped at the end of the edit block; zero or less means no limit.
  - `insertText` starts a new block at every line feed, carriage return, paragraph
    separator (U+2029) and Qt frame marker (U+FDD0, U+FDD1); "\r\n" counts as one.
    One line can therefore become several blocks. All of them get the colour
    `colorForLine` picks for the whole line, and each counts against the limit.
  - `cursor.position()` at the end counts every character and every separator between
    blocks. It is 0 only for an empty document, or one whose single block is empty. An
    empty document still has one empty block; the model writes no blocks for it.
- `LogTail`: the widget itself, as a class with the fields the C++ object updates:
  - the configuration, the label text and which stacked page is shown;
  - whether the file watcher and the journalctl process exist, and the process's
    arguments and unread standard output;
  - the read position in the file.

  Its methods are `stopSource`, `applySource`, `startFileTail`, `onFileChanged`,
  `startJournalctl`, `onJournalOutput`, `appendLines` and `appendLine`. The class
  invariant `Valid` says two things:
  - at most one source runs, and it is the configured one;
  - the label, the page and the view limit follow the configuration.
- `Seqs`: generic sequence facts used by the proofs.

Inputs and outputs are parameters:
- What opening the file gives, written `FileRead`: either `CannotOpen` or the file's whole
  current `Contents(data)`.
- Each chunk of journalctl output, as it arrives.
- The JSON object that `loadConfig` receives.

Characters stand for bytes. UTF-8 decoding is the identity, so file positions count
characters.

Three behaviours of the code are worth stating:
- The rotation marker `─── log rotated ───` is drawn in `#6272a4`, which is the debug
  colour, not the info colour (`LogTailWidget.cpp:271`).
- The file path reads whatever lies past the read position and splits it on `'\n'`, so a
  line still being written when the watcher fires becomes a line of its own. Its remainder
  becomes a second line (`Lines.FileTailSplitsPartialLine`). Only the journal path keeps
  partial lines back until they are complete.
- `maxLines` is read with `toInt(500)`, so any whole number in the range of `int` is
  accepted, including zero and negative values. The dialog's 50–5000 range applies only
  when editing. A value of zero or less shows no seeded lines, because `QList::mid` is
  then past the end, and leaves the view unlimited.

## Model

| member | source | states |
|---|---|---|
| Classifier.HeadShape | LogTailWidget.cpp:57 | `left(40)` keeps the longest prefix of the line that is at most 40 UTF-16 units wide |
| Classifier.HeadIgnoresTail | LogTailWidget.cpp:56-57 | once a line is 40 units wide, text appended after it leaves the inspected head unchanged |
| Classifier.ClassifyIgnoresTail | LogTailWidget.cpp:56-57 | only the first 40 units decide the colour: appending text to such a line never changes it |
| Classifier.UpperOfAscii | LogTailWidget.cpp:57 | `toUpper` maps every ASCII letter to its capital, character by character |
| Classifier.UpperCharAscii | LogTailWidget.cpp:57 | an ASCII letter upper-cases to exactly one letter, its capital |
| Classifier.UpperCons | LogTailWidget.cpp:57 | `toUpper` acts on the first character and then on the rest |
| Classifier.UpperPrefix | LogTailWidget.cpp:57 | `toUpper` of a string is `toUpper` of any prefix followed by `toUpper` of the rest |
| Classifier.AsciiWidth | LogTailWidget.cpp:57 | a prefix made only of one-unit characters is as wide as it is long |
| Classifier.UpperError | LogTailWidget.cpp:57-58 | "error" upper-cases to the keyword "ERROR" |
| Classifier.ContainsOccurs | LogTailWidget.cpp:58-66 | `contains` is true exactly when the word occurs at some position of the head |
| Classifier.ContainsAnyMentions | LogTailWidget.cpp:58-66 | a group test is true exactly when some word of the group occurs in the head |
| Classifier.ClassifyPrecedence | LogTailWidget.cpp:55-69 | in both directions, each colour holds exactly when the keywords of its group are present and no group before it matches; the order is error, warning, debug, info, then plain |
| Classifier.LowerCaseKeyword | LogTailWidget.cpp:57-61 | a line starting with lower-case "error" is an error line |
| Classifier.CaseInsensitive | LogTailWidget.cpp:55-67 | two lines whose characters upper-case alike and are equally wide in UTF-16, position by position, are inspected alike and get the same colour |
| Classifier.HeadsAgree | LogTailWidget.cpp:56 | for any width limit, such lines have the same upper-cased head |
| Classifier.AsciiCaseInsensitive | LogTailWidget.cpp:55-67 | changing the case of any ASCII letters anywhere in a line never changes its colour, so keywords match in any letter case |
| TailConfig.LoadSaveRoundTrip | LogTailWidget.cpp:85-106 | loading what `saveConfig` wrote gives back exactly the same configuration |
| TailConfig.SaveKeys | LogTailWidget.cpp:85-96 | `saveConfig` writes exactly the four keys: three strings and a whole number within the range of `int` |
| TailConfig.LoadSource | LogTailWidget.cpp:99-102 | in both directions, only "file" and "journalctl" select a source; any other value or type, or a missing key, means none |
| TailConfig.LoadMaxLines | LogTailWidget.cpp:106 | `maxLines` is the stored number exactly when it is a whole number within the range of `int`; otherwise it is 500 |
| TailConfig.LoadIgnoresOtherKeys | LogTailWidget.cpp:98-106 | keys other than the four have no effect on the loaded configuration |
| TailConfig.LoadEmpty | LogTailWidget.cpp:98-106 | an object without any of the keys loads to the default configuration: no source, empty path and unit, 500 lines |
| TailConfig.FileNameShape | LogTailWidget.cpp:215 | `fileName()` is the part of the path after its last '/'; it contains no '/' and is a suffix of the path |
| TailConfig.FileLabel | LogTailWidget.cpp:214-216 | a file source's label is a '/'-free suffix of the configured path |
| TailConfig.JournalLabelNamesUnit | LogTailWidget.cpp:217-221 | two journalctl labels are equal exactly when the units are equal; "journalctl" alone means no unit |
| TailConfig.JournalArgsShape | LogTailWidget.cpp:294-296 | the arguments are always the five fixed options, followed by "-u" and the unit exactly when a unit is set |
| Lines.TrimStart | LogTailWidget.cpp:245 | removing leading whitespace never makes the text longer |
| Lines.TrimEnd | LogTailWidget.cpp:245 | removing trailing whitespace never makes the text longer |
| Lines.TrimStartShape | LogTailWidget.cpp:245 | only a run of leading whitespace is removed, and the rest is kept |
| Lines.TrimEndShape | LogTailWidget.cpp:245 | only a run of trailing whitespace is removed, and the rest is kept |
| Lines.TrimShape | LogTailWidget.cpp:245 | the input is leading whitespace, then the trimmed result, then trailing whitespace; the result is trimmed |
| Lines.TrimUnique | LogTailWidget.cpp:245 | any trimmed core surrounded by whitespace is what `trimmed()` returns |
| Lines.TrimStartAppend | LogTailWidget.cpp:245 | trimming the front of a concatenation cuts only into the first part, unless that part is all whitespace |
| Lines.TrimEndPrepend | LogTailWidget.cpp:245 | trimming the back of a concatenation cuts only into the last part, unless that part is all whitespace |
| Lines.TrimStartOfSpace | LogTailWidget.cpp:245 | text that is all whitespace trims to nothing at the front |
| Lines.TrimEndOfSpace | LogTailWidget.cpp:245 | text that is all whitespace trims to nothing at the back |
| Lines.TrimDropsTrailingSpace | LogTailWidget.cpp:312 | the '\n' that `readLine` keeps does not change the trimmed line |
| Lines.TrimOfTrimmed | LogTailWidget.cpp:245 | trimming a trimmed string changes nothing |
| Lines.Split | LogTailWidget.cpp:244 | `split('\n')` always gives at least one piece |
| Lines.SplitNoNewlines | LogTailWidget.cpp:244 | no piece of a split contains '\n' |
| Lines.JoinSplit | LogTailWidget.cpp:244 | putting the pieces back together with '\n' between them gives the original text |
| Lines.SplitJoin | LogTailWidget.cpp:244 | splitting newline-free pieces joined by '\n' gives back those pieces |
| Lines.SplitNoNewline | LogTailWidget.cpp:244 | text without '\n' splits into itself alone |
| Lines.SplitAppend | LogTailWidget.cpp:244 | text joined by a '\n' splits into the pieces of one side, then of the other |
| Lines.JoinLast | LogTailWidget.cpp:244 | joined pieces end with '\n' and then the last piece |
| Lines.NonEmptyTrimmedConcat | LogTailWidget.cpp:244-247 | the trim-and-filter loop distributes over concatenation of its pieces |
| Lines.NonEmptyTrimmedSingle | LogTailWidget.cpp:244-247 | one piece contributes its trimmed text if that is not empty, and nothing otherwise |
| Lines.KeptWellFormed | LogTailWidget.cpp:245-246 | a kept line is non-empty, trimmed and free of '\n' |
| Lines.NonEmptyTrimmedWellFormed | LogTailWidget.cpp:244-247 | every line taken from newline-free pieces is non-empty, trimmed and newline-free |
| Lines.FileLinesWellFormed | LogTailWidget.cpp:243-247 | every line the file path appends is non-empty, trimmed and free of '\n' |
| Lines.FileLinesConcat | LogTailWidget.cpp:280-284 | reading two '\n'-separated parts gives the lines of one part, then of the other |
| Lines.FileTailSplitsPartialLine | LogTailWidget.cpp:276-284 | a line read in two parts, the second ending in '\n', shows as two lines, while read at once it shows as one |
| Lines.OneLine | LogTailWidget.cpp:243-247 | one trimmed, non-empty, newline-free line reads as itself, with or without a final '\n' |
| Lines.NoLinesInEmptyFile | LogTailWidget.cpp:243-247 | empty data gives no lines |
| Lines.PendingIsTail | LogTailWidget.cpp:311-312 | the unread rest of the buffer is its newline-free tail, after the last '\n' |
| Lines.CompleteLinesThenPending | LogTailWidget.cpp:309-316 | the journal path's lines, then the pending fragment if not blank, are what the file path takes from the same text |
| Lines.ChunkedReadsAgree | LogTailWidget.cpp:309-316 | chunk boundaries do not matter: draining per chunk gives the same lines and leaves the same rest as draining once |
| Lines.CompleteLinesPrefixed | LogTailWidget.cpp:311-313 | text after complete pieces and a '\n' adds its own complete lines and keeps its own pending text |
| Lines.IndexOf | LogTailWidget.cpp:312 | the position of the first '\n', which is where `readLine` stops |
| Lines.CompleteLinesCons | LogTailWidget.cpp:311-313 | a newline-free line in front of the buffer is its first complete line |
| Lines.ReadLineStep | LogTailWidget.cpp:311-313 | one `readLine` gives the first complete line, if not blank; the rest of the buffer holds the remaining lines and the same pending text |
| Lines.NoCompleteLine | LogTailWidget.cpp:311 | without '\n' in the buffer there is no complete line, and all of it stays pending |
| View.PiecesSeparatorFree | LogTailWidget.cpp:335 | no block that `insertText` makes holds a separator |
| View.PiecesKeepText | LogTailWidget.cpp:335 | the blocks' texts, one after the other, are the inserted text with its separators removed |
| View.PiecesOfPlain | LogTailWidget.cpp:335 | in both directions, text stays in one block exactly when it holds no separator |
| View.PlainPieces | LogTailWidget.cpp:335 | separator-free text is one block |
| View.PiecesSingle | LogTailWidget.cpp:335 | text that makes one block is that block |
| View.PiecesAfterSeparator | LogTailWidget.cpp:335 | a separator ends the block before it, and the rest goes on in new blocks; a carriage return counts alone when no line feed follows |
| View.PiecesAfterCrLf | LogTailWidget.cpp:335 | "\r\n" ends the block before it as one separator |
| View.CarriageReturnSplits | LogTailWidget.cpp:335 | "a\rb" becomes the two blocks "a" and "b" |
| View.SeparatorFreeConcat | LogTailWidget.cpp:335 | joining separator-free texts gives separator-free text |
| View.ColouredLength | LogTailWidget.cpp:332-335 | one block per piece |
| View.ColouredAt | LogTailWidget.cpp:332-335 | block i holds piece i, in the one colour set before `insertText` |
| View.LineBlocks | LogTailWidget.cpp:329-335 | a line becomes one block per piece, and every one of them is in the colour `colorForLine` picks for the whole line |
| View.ColouredOne | LogTailWidget.cpp:332-335 | one piece is one block in the given colour |
| View.TaggedByLast | LogTailWidget.cpp:329-335 | the last line's blocks come after the blocks of the lines before it |
| View.TaggedSnoc | LogTailWidget.cpp:329-335 | inserting one more line adds exactly its blocks at the end |
| View.TaggedOne | LogTailWidget.cpp:349 | a single line becomes its own blocks |
| View.TaggedLength | LogTailWidget.cpp:329-335 | lines make at least as many blocks as there are lines |
| View.TaggedByLength | LogTailWidget.cpp:329-335 | at least one block per line, and exactly one per line when no line holds a separator |
| View.TaggedConcat | LogTailWidget.cpp:329-335 | the blocks of two batches of lines are those of the first, then those of the second |
| View.TaggedByConcat | LogTailWidget.cpp:329-335 | the same for any choice of colour per line |
| View.TaggedPlain | LogTailWidget.cpp:329-335 | separator-free lines make one block each: block i holds line i in the colour `colorForLine` picks |
| View.TaggedByAt | LogTailWidget.cpp:329-335 | the same for any choice of colour per line |
| View.PlainEntries | LogTailWidget.cpp:329-335 | a separator-free line is one block in its colour |
| View.EndPositionZero | LogTailWidget.cpp:330 | in both directions, the cursor at the end is at position 0 exactly when the document is empty or its only block is empty |
| View.NotAtStartAfter | LogTailWidget.cpp:330-335 | after a non-empty line is inserted, the cursor is past position 0 |
| View.EvictKeepsNewest | LogTailWidget.cpp:195 | a positive limit keeps the newest blocks, in order, as many as it allows; zero or less keeps all |
| View.EvictIdempotent | LogTailWidget.cpp:195 | enforcing the limit twice is the same as enforcing it once |
| View.EvictAppend | LogTailWidget.cpp:328-338 | enforcing the limit after each insertion or once at the end gives the same view |
| View.EvictAwayFromStart | LogTailWidget.cpp:195 | a limit other than 1 never brings a view past position 0 back to position 0 |
| View.EvictToOne | LogTailWidget.cpp:195 | a limit of 1 keeps only the newest block |
| View.ShownWhole | LogTailWidget.cpp:195-196 | separator-free lines added to a view cleared by `applySource` that fit its limit are all shown, one block each |
| View.FitsWhole | LogTailWidget.cpp:195-196 | lines whose blocks fit the limit of a cleared view are all shown |
| View.EvictShowsLast | LogTailWidget.cpp:348-357 | the block appended last is always shown, whatever the limit |
| View.EvictReplaceLast | LogTailWidget.cpp:348-357 | recolouring the newest block after the limit is enforced equals appending it in the new colour |
| View.AppendedConcat | LogTailWidget.cpp:319-346 | appending two batches of non-empty lines one after the other gives the view appending them together gives |
| View.AppendLineShows | LogTailWidget.cpp:348-357 | a separator-free line that `appendLine` shows is one block in the given colour, after the blocks before it, with the limit enforced |
| View.LogView.constructor | LogTailWidget.cpp:168-171 | an empty view with a limit of 500 |
| View.LogView.SetMaximumBlockCount | LogTailWidget.cpp:195 | the new limit takes effect at once and drops the oldest blocks over it |
| View.LogView.Clear | LogTailWidget.cpp:196 | no blocks remain; the limit stays |
| View.LogView.InsertBlock | LogTailWidget.cpp:330 | an empty block is added at the end, after the one empty block of an empty document; the limit stays |
| View.LogView.InsertText | LogTailWidget.cpp:332-335 | the text's pieces, all in the current colour, replace the empty last block and follow it as new blocks |
| View.LogView.EndEditBlock | LogTailWidget.cpp:338 | the limit is enforced on the blocks inserted during the edit block |
| View.LogView.RecolorLast | LogTailWidget.cpp:350-356 | the last block gets the new colour; its text, every other block and the limit stay as they were |
| LogTail.SeekWindow | LogTailWidget.cpp:239-241 | the seed starts 100 KiB before the end, or at the start of a smaller file |
| LogTail.KeepLastShape | LogTailWidget.cpp:250-251 | keeps the last maxLines lines in order: all when there are no more, none when maxLines is not positive |
| LogTail.SmallFileSeed | LogTailWidget.cpp:238-251 | a file of at most 100 KiB seeds with the last maxLines lines of the whole file |
| LogTail.SeedFits | LogTailWidget.cpp:243-251 | seeded lines are display lines, and no more than a positive limit |
| LogTail.IncrementalReadsAgree | LogTailWidget.cpp:276-284 | if the part read so far ends in '\n', reading the rest later shows the same lines as reading everything at once |
| LogTail.SeedShown | LogTailWidget.cpp:238-251 | separator-free seed lines in a cleared view are all shown, one block each |
| LogTail.IncrementalShowsAgree | LogTailWidget.cpp:276-285 | if the part read so far ends in '\n', showing the rest later gives the view showing everything at once gives |
| LogTail.JournalShowsAgree | LogTailWidget.cpp:309-316 | showing journalctl's output chunk by chunk gives the view showing all of it at once gives |
| LogTail.MessagesPlain | LogTailWidget.cpp:271 | the rotation marker, and the journalctl failure line of line 303, hold no separator |
| LogTail.CannotOpenPlain | LogTailWidget.cpp:233 | the open-failure line holds a separator exactly when the path does |
| LogTail.CollectLines | LogTailWidget.cpp:243-247 | the split-trim-filter loop returns exactly the display lines of the data |
| LogTail.ReadSeed | LogTailWidget.cpp:238-251 | the seed read returns the last maxLines display lines of the last 100 KiB |
| LogTail.DrainStep | LogTailWidget.cpp:311-313 | one pass of the `readLine` loop keeps its account of the buffer |
| LogTail.DrainDone | LogTailWidget.cpp:311-315 | when no '\n' is left, the lines taken are all the complete lines of the buffer, and what is left is its pending text |
| LogTail.TakenKept | LogTailWidget.cpp:312-313 | adding a read line when it is not empty is the same as adding its kept line |
| LogTail.DrainLines | LogTailWidget.cpp:310-314 | the loop returns exactly the complete lines of the buffer, all non-empty, and leaves the newline-free pending text |
| LogTail.LogTailDisplay.constructor | LogTailWidget.cpp:113-175 | no source, the label "not configured", the placeholder page, an empty view with a limit of 500 |
| LogTail.LogTailDisplay.SaveConfig | LogTailWidget.cpp:85-96 | loading the returned object gives back the current configuration |
| LogTail.LogTailDisplay.LoadConfig | LogTailWidget.cpp:98-109 | the configuration becomes what the object holds, then it is applied |
| LogTail.LogTailDisplay.StopSource | LogTailWidget.cpp:178-190 | neither watcher nor process remains and nothing else changes; stopping twice is stopping once |
| LogTail.LogTailDisplay.ApplySource | LogTailWidget.cpp:192-210 | stops the old source, sets the label and limit, and clears the view; then by source: the placeholder page only; the file seed or the error line with the watcher; or the journalctl process with its arguments |
| LogTail.LogTailDisplay.StartFileTail | LogTailWidget.cpp:230-260 | on open failure the "Cannot open: path" line, its last block in the error colour, position 0, no watcher; otherwise the seed lines, the position at the end of the file and a watcher |
| LogTail.LogTailDisplay.OnFileChanged | LogTailWidget.cpp:262-290 | a failed open changes nothing; a shorter file restarts with the marker and the whole file; an unchanged size changes nothing; a longer file appends the lines past the position and moves it to the end |
| LogTail.LogTailDisplay.RestartAfterRotation | LogTailWidget.cpp:267-272 | the position is reset to 0 and the view holds only the marker line, in the debug colour |
| LogTail.LogTailDisplay.ShowAppended | LogTailWidget.cpp:276-285 | the lines of the data past the position are appended; the position moves to the end |
| LogTail.LogTailDisplay.StartJournalctl | LogTailWidget.cpp:293-307 | the process exists, with the argument list for the configured unit |
| LogTail.LogTailDisplay.OnJournalError | LogTailWidget.cpp:301-305 | one block is appended: the line about the failed start, in the error colour |
| LogTail.LogTailDisplay.OnJournalOutput | LogTailWidget.cpp:309-316 | the complete lines of the pending output plus the chunk are appended; the rest stays pending |
| LogTail.LogTailDisplay.AppendLines | LogTailWidget.cpp:319-346 | the lines' blocks follow the view's blocks in the colours `colorForLine` picks, the first line filling the empty block of an empty document; the limit is enforced once at the end; nothing happens for no lines |
| LogTail.LogTailDisplay.InsertLines | LogTailWidget.cpp:329-336 | the insertion loop adds the lines' blocks in order, without enforcing the limit |
| LogTail.LogTailDisplay.InsertLine | LogTailWidget.cpp:330-335 | one pass of the loop: a new block unless the cursor is at position 0, then the line's blocks |
| LogTail.LogTailDisplay.AppendLine | LogTailWidget.cpp:348-357 | the line is appended, then its last block is recoloured |
| LogTail.LineShownAlone | LogTailWidget.cpp:269-271 | a separator-free line appended to a cleared view is all the view holds, in the given colour |
| LogTail.InsertedSoFar | LogTailWidget.cpp:329-335 | one pass of the loop extends the blocks of the lines before it by the line's blocks |

## Left out

- The layout, style sheets, fonts, the header's button and the dialog `openConfig`
  (`LogTailWidget.cpp:360-441`) are not modelled. They are user interface only. The
  dialog ends by calling `applySource`, which is modelled.
- The scroll-to-bottom heuristic in `appendLines` (`atBottom` and the queued
  `setValue`) and `setUpdatesEnabled` are not modelled. They affect only scrolling and
  repainting.
- The plugin glue `LogTailWidget` (`LogTailWidget.cpp:458-488`) is not modelled. It only
  forwards to `loadConfig` and `saveConfig`.
- File and process I/O are inputs (`FileRead`, output chunks). The model does not cover:
  - a file that changes between `size()` and `readAll()`;
  - the timing of `waitForFinished(500)`;
  - the watcher re-adding a path that editors replaced (`LogTailWidget.cpp:288-289`),
    since the watcher stays active either way.
- Standard error of journalctl is not modelled: the code never reads it.
- The `errorOccurred` signal after `stopSource` kills a running journalctl is not
  modelled. Its error line is followed at once by `applySource` clearing the view, or by
  the widget's destruction.
- UTF-8 decoding is not modelled: bytes are characters, and `fromUtf8` is the identity.
- Colours are modelled as severities, not as RGB values.
- Classifier.UpperChar: covers ASCII letters and every special case of Unicode upper-casing
  whose result contains an ASCII letter. Any other character is kept as it is; it can never
  take part in an ASCII keyword.
- Classifier.Head: where `left(40)` would split a surrogate pair, the whole character is
  dropped. A lone surrogate cannot be part of a keyword.
- LogTail.LogTailDisplay.AppendLines: requires non-empty lines. Every caller passes only
  non-empty lines. Qt's behaviour for an empty line, which leaves the cursor at position 0
  for the line after it, is not modelled.
- View.LogView.InsertText: requires the last block to be empty, as it always is in
  `appendLines`. Inserting into a block that already holds text is not modelled.
- The colour of an empty block made by `insertBlock` is not modelled; it holds no text to
  show. Nor is the format of the separator in front of the block that `appendLine`
  recolours with `BlockUnderCursor`: only the characters of its last block change colour.
- `updateSourceLabel` is not a separate method: `applySource` assigns `SourceLabel(config)`
  in its place.
- TailConfig.JsonValue: JSON numbers are real numbers, so the rounding of doubles is not
  modelled.
