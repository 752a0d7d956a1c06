/**
 * LogTailDisplay: the widget that shows the tail of a log file or the output of
 * journalctl.  The file it reads, and the chunks of journalctl's standard output, are
 * inputs of the methods that react to them; the file system watcher and the child
 * process are modelled by whether they exist and, for the process, its argument list.
 */
module LogTail {
  import opened Lines
  import opened Classifier
  import opened TailConfig
  import opened View
  import opened Seqs

  /** What opening the configured file and reading it gives: a failure to open, or the
      whole of its current contents. */
  datatype FileRead = CannotOpen | Contents(data: string)

  /** The seed reads at most the last 100 KiB of the file. */
  const SeedWindow: nat := 100 * 1024

  const RotationMarker := "\U{2500}\U{2500}\U{2500} log rotated \U{2500}\U{2500}\U{2500}"
  const JournalFailure := "journalctl: failed " + "to start \U{2014} " + "is systemd available?"

  /** The line shown when the file cannot be opened. */
  function CannotOpenMessage(path: string): string {
    "Cannot open: " + path
  }

  /** Where the seed starts reading: qMax(0, size - 100 KiB). */
  function SeekOffset(size: nat): nat {
    if size > SeedWindow then size - SeedWindow else 0
  }

  /** QList::mid(pos): the elements from pos on, none when pos is past the end. */
  function Mid<T>(xs: seq<T>, pos: nat): seq<T> {
    if pos >= |xs| then [] else xs[pos..]
  }

  /** Keeps the last n lines when there are more than n. */
  function KeepLast(lines: seq<string>, n: int): seq<string> {
    if |lines| > n then Mid(lines, |lines| - n) else lines
  }

  /** The lines startFileTail shows for a file with the given contents. */
  function SeedLines(data: string, maxLines: int): seq<string> {
    KeepLast(FileLines(data[SeekOffset(|data|)..]), maxLines)
  }

  /** The seed window is the last 100 KiB of the file, or all of a smaller file. */
  lemma SeekWindow(size: nat)
    ensures SeekOffset(size) <= size
    ensures size <= SeedWindow ==> SeekOffset(size) == 0
    ensures size >= SeedWindow ==> size - SeekOffset(size) == SeedWindow
  {
  }

  /** The last n lines, in order: all of them when there are at most n, none when n is not
      positive. */
  lemma KeepLastShape(lines: seq<string>, n: int)
    ensures var r := KeepLast(lines, n);
      && |r| <= |lines| && r == lines[|lines| - |r|..]
      && (n > 0 ==> |r| == if |lines| <= n then |lines| else n)
      && (n <= 0 ==> |r| == 0)
  {
  }

  /** The seed of a file of at most 100 KiB is the last lines of the whole file. */
  lemma SmallFileSeed(data: string, maxLines: int)
    requires |data| <= SeedWindow
    ensures SeedLines(data, maxLines) == KeepLast(FileLines(data), maxLines)
  {
    assert data[0..] == data;
  }

  /** Seeded lines are display lines, and no more of them than the view may hold. */
  lemma SeedFits(data: string, maxLines: int)
    ensures DisplayLines(SeedLines(data, maxLines))
    ensures maxLines > 0 ==> |SeedLines(data, maxLines)| <= maxLines
  {
    var all := FileLines(data[SeekOffset(|data|)..]);
    FileLinesWellFormed(data[SeekOffset(|data|)..]);
    KeepLastShape(all, maxLines);
    var r := KeepLast(all, maxLines);
    assert forall i :: 0 <= i < |r| ==> r[i] == all[|all| - |r| + i];
  }

  /** When what was read so far ends with a newline, reading the rest later shows the same
      lines as reading the whole file at once. */
  lemma IncrementalReadsAgree(x: string, y: string)
    requires |x| > 0 && x[|x| - 1] == '\n'
    ensures FileLines(x) + FileLines(y) == FileLines(x + y)
  {
    var x' := x[..|x| - 1];
    assert x == x' + "\n" + [];
    assert x + y == x' + "\n" + y;
    FileLinesConcat(x', []);
    FileLinesConcat(x', y);
    NoLinesInEmptyFile();
  }

  /** A seed whose lines hold no block separator is shown whole, one block per line, on the
      view applySource has just cleared. */
  lemma SeedShown(data: string, maxLines: int)
    requires forall i :: 0 <= i < |SeedLines(data, maxLines)| ==> SeparatorFree(SeedLines(data, maxLines)[i])
    ensures Appended([], SeedLines(data, maxLines), maxLines) == Tagged(SeedLines(data, maxLines))
    ensures |Tagged(SeedLines(data, maxLines))| == |SeedLines(data, maxLines)|
  {
    SeedFits(data, maxLines);
    ShownWhole(SeedLines(data, maxLines), maxLines);
    TaggedPlain(SeedLines(data, maxLines));
  }

  /** Showing what was read so far, when it ends with a newline, and later the rest gives
      the view that showing everything at once gives. */
  lemma IncrementalShowsAgree(blocks: seq<Entry>, x: string, y: string, n: int)
    requires |x| > 0 && x[|x| - 1] == '\n'
    ensures Appended(Appended(blocks, FileLines(x), n), FileLines(y), n) == Appended(blocks, FileLines(x + y), n)
  {
    FileLinesWellFormed(x);
    AppendedConcat(blocks, FileLines(x), FileLines(y), n);
    IncrementalReadsAgree(x, y);
  }

  /** Showing the complete lines of journalctl's output chunk by chunk gives the view that
      showing the complete lines of all of it at once gives. */
  lemma JournalShowsAgree(blocks: seq<Entry>, a: string, b: string, n: int)
    ensures Appended(Appended(blocks, CompleteLines(a), n), CompleteLines(Pending(a) + b), n)
      == Appended(blocks, CompleteLines(a + b), n)
  {
    CompleteLinesThenPending(a);
    FileLinesWellFormed(a);
    var c := CompleteLines(a);
    assert forall i :: 0 <= i < |c| ==> FileLines(a)[i] == c[i];
    AppendedConcat(blocks, c, CompleteLines(Pending(a) + b), n);
    ChunkedReadsAgree(a, b);
  }

  /** The rotation marker and the journalctl failure line are one block each. */
  lemma MessagesPlain()
    ensures SeparatorFree(RotationMarker) && SeparatorFree(JournalFailure)
  {
    forall i | 0 <= i < |RotationMarker| ensures !IsBlockSeparator(RotationMarker[i]) {
    }
    var p, q, r := "journalctl: failed ", "to start \U{2014} ", "is systemd available?";
    forall i | 0 <= i < |p| ensures !IsBlockSeparator(p[i]) {
    }
    forall i | 0 <= i < |q| ensures !IsBlockSeparator(q[i]) {
    }
    forall i | 0 <= i < |r| ensures !IsBlockSeparator(r[i]) {
    }
    SeparatorFreeConcat(p, q);
    SeparatorFreeConcat(p + q, r);
  }

  /** The open-failure line holds a block separator exactly when the path does. */
  lemma CannotOpenPlain(path: string)
    ensures SeparatorFree(CannotOpenMessage(path)) <==> SeparatorFree(path)
  {
    var m := CannotOpenMessage(path);
    var k := |"Cannot open: "|;
    assert forall i :: 0 <= i < |path| ==> m[k + i] == path[i];
  }

  /** The split-trim-filter loop of startFileTail and onFileChanged. */
  method CollectLines(data: string) returns (lines: seq<string>)
    ensures lines == FileLines(data)
  {
    var pieces := Split(data);
    lines := [];
    for i := 0 to |pieces|
      invariant lines == NonEmptyTrimmed(pieces[..i])
    {
      var line := Trim(pieces[i]);
      if |line| > 0 {
        lines := lines + [line];
      }
      assert pieces[..i + 1][..i] == pieces[..i];
    }
    assert pieces[..|pieces|] == pieces;
  }

  /** The reading part of startFileTail: seek to 100 KiB before the end (or the start),
      read to the end, split into lines, and keep the last maxLines of them. */
  method ReadSeed(data: string, maxLines: int) returns (lines: seq<string>)
    ensures lines == SeedLines(data, maxLines)
  {
    var fileSize := |data|;
    var seekTo := if fileSize - SeedWindow > 0 then fileSize - SeedWindow else 0;
    lines := CollectLines(data[seekTo..]);
    if |lines| > maxLines {
      lines := Mid(lines, |lines| - maxLines);
    }
  }

  /** The readLine loop's account of the buffer: the lines taken so far, all non-empty, and
      the complete lines still in what is left make up the complete lines of what arrived,
      and the pending text is the same. */
  ghost predicate Drained(buffer: string, lines: seq<string>, rest: string) {
    && CompleteLines(buffer) == lines + CompleteLines(rest)
    && Pending(buffer) == Pending(rest)
    && forall i :: 0 <= i < |lines| ==> |lines[i]| > 0
  }

  /** The lines list after one readLine, which keeps its line only if it is not blank. */
  function Taken(lines: seq<string>, line: string): seq<string> {
    if |line| > 0 then lines + [line] else lines
  }

  /** One readLine, up to the first newline at k, keeps the loop's account of the buffer. */
  lemma DrainStep(buffer: string, lines: seq<string>, rest: string, k: nat, line: string)
    requires '\n' in rest && k == IndexOf(rest, '\n') && line == Trim(rest[..k + 1])
    requires Drained(buffer, lines, rest)
    ensures Drained(buffer, Taken(lines, line), rest[k + 1..])
  {
    ReadLineStep(rest);
    var raw, tail := rest[..k + 1], rest[k + 1..];
    var kept, later := Kept(raw), CompleteLines(tail);
    assert CompleteLines(buffer) == lines + (kept + later);
    AppendAssoc(lines, kept, later);
    TakenKept(lines, raw);
    assert CompleteLines(buffer) == Taken(lines, line) + later;
  }

  /** Adding a piece's display line, if any, is what one readLine does to the list. */
  lemma TakenKept(lines: seq<string>, piece: string)
    ensures lines + Kept(piece) == Taken(lines, Trim(piece))
  {
    AppendEmpty(lines);
  }

  /** Once no newline is left, the account says the loop has taken every complete line. */
  lemma DrainDone(buffer: string, lines: seq<string>, rest: string)
    requires '\n' !in rest && Drained(buffer, lines, rest)
    ensures lines == CompleteLines(buffer) && rest == Pending(buffer)
  {
    NoCompleteLine(rest);
    AppendEmpty(lines);
  }

  /** The readLine loop of onJournalOutput over the process's read buffer: while the buffer
      holds a newline, the text up to and including it is taken, trimmed, and kept when
      non-empty.  What is left holds no newline. */
  method DrainLines(buffer: string) returns (lines: seq<string>, rest: string)
    ensures lines == CompleteLines(buffer) && rest == Pending(buffer)
    ensures '\n' !in rest
    ensures forall i :: 0 <= i < |lines| ==> |lines[i]| > 0
  {
    rest := buffer;
    lines := [];
    AppendEmpty(CompleteLines(buffer));
    while '\n' in rest
      invariant Drained(buffer, lines, rest)
      decreases |rest|
    {
      var k := IndexOf(rest, '\n');
      var line := Trim(rest[..k + 1]);
      DrainStep(buffer, lines, rest, k, line);
      lines, rest := Taken(lines, line), rest[k + 1..];
    }
    DrainDone(buffer, lines, rest);
  }

  class LogTailDisplay {
    var config: Config
    /** The header label's text. */
    var sourceLabel: string
    /** Whether the stack shows the log view (page 1) rather than the placeholder (page 0). */
    var showingLog: bool
    const view: LogView
    /** Whether a file system watcher exists. */
    var watcherActive: bool
    /** Whether a journalctl process exists, and the arguments it was started with. */
    var processActive: bool
    var processArgs: seq<string>
    /** What the process has written to standard output and the widget has not read yet. */
    var stdoutPending: string
    /** How far into the file the widget has read. */
    var filePos: nat

    /** At most one source is active and it is the configured one; the label, the page and
        the view's limit follow the configuration. */
    ghost predicate Valid()
      reads this, view
    {
      && view.Valid()
      && view.maxBlocks == config.maxLines
      && sourceLabel == SourceLabel(config)
      && showingLog == (config.source != None)
      && (watcherActive ==> config.source == File)
      && (processActive <==> config.source == Journalctl)
      && (processActive ==> processArgs == JournalArgs(config.journalUnit))
      && (!processActive ==> |stdoutPending| == 0)
      && '\n' !in stdoutPending
    }

    /** The widget as setupUi leaves it: no source, an empty view holding 500 lines. */
    constructor()
      ensures Valid()
      ensures config == Default && sourceLabel == "not configured" && !showingLog
      ensures |view.blocks| == 0 && !watcherActive && !processActive && filePos == 0
    {
      config := Default;
      sourceLabel := "not configured";
      showingLog := false;
      view := new LogView();
      watcherActive := false;
      processActive := false;
      processArgs := [];
      stdoutPending := [];
      filePos := 0;
    }

    /** saveConfig. */
    function SaveConfig(): (obj: JsonObject)
      reads this
      ensures Load(obj) == config
    {
      LoadSaveRoundTrip(config);
      Save(config)
    }

    /** loadConfig: takes over the stored configuration and applies it. */
    method LoadConfig(obj: JsonObject, file: FileRead)
      modifies this, view
      ensures config == Load(obj)
      ensures Valid() && Applied(file)
    {
      config := Load(obj);
      ApplySource(file);
    }

    /** What applySource leaves behind, given what opening the file gives. */
    ghost predicate Applied(file: FileRead)
      reads this, view
    {
      && sourceLabel == SourceLabel(config)
      && showingLog == (config.source != None)
      && view.maxBlocks == config.maxLines
      && (config.source == None ==> |view.blocks| == 0 && !watcherActive && !processActive)
      && (config.source == Journalctl ==>
            |view.blocks| == 0 && !watcherActive && processActive &&
            processArgs == JournalArgs(config.journalUnit) && |stdoutPending| == 0)
      && (config.source == File ==> !processActive && Seeded(file))
    }

    /** What startFileTail leaves behind on a cleared view. */
    ghost predicate Seeded(file: FileRead)
      reads this, view
    {
      && (file.CannotOpen? ==>
            view.blocks == Recoloured(Appended([], [CannotOpenMessage(config.filePath)], view.maxBlocks), Error) &&
            filePos == 0 && !watcherActive)
      && (file.Contents? ==>
            view.blocks == Appended([], SeedLines(file.data, config.maxLines), view.maxBlocks) &&
            filePos == |file.data| && watcherActive)
    }

    /** stopSource: the watcher and the process are gone; nothing else changes. */
    method StopSource()
      modifies this
      ensures !watcherActive && !processActive && |processArgs| == 0 && |stdoutPending| == 0
      ensures config == old(config) && sourceLabel == old(sourceLabel) && showingLog == old(showingLog)
      ensures filePos == old(filePos)
      ensures old(!watcherActive && !processActive && |processArgs| == 0 && |stdoutPending| == 0) ==>
        unchanged(this)
    {
      watcherActive := false;
      processActive := false;
      processArgs := [];
      stdoutPending := [];
    }

    /** applySource: stops the old source, then starts the configured one on a cleared view
        whose limit is the configured maxLines. */
    method ApplySource(file: FileRead)
      modifies this, view
      ensures config == old(config)
      ensures Valid() && Applied(file)
      ensures config.source != File ==> filePos == old(filePos)
    {
      StopSource();
      sourceLabel := SourceLabel(config);
      view.SetMaximumBlockCount(config.maxLines);
      view.Clear();

      if config.source == None {
        showingLog := false;
        return;
      }

      showingLog := true;

      if config.source == File {
        StartFileTail(file);
      } else {
        StartJournalctl();
      }
    }

    /** startFileTail: on failure one error line and no watcher; otherwise the last
        maxLines lines of the file's last 100 KiB, the read position at the end of the
        file, and a watcher. */
    method StartFileTail(file: FileRead)
      requires config.source == File && !watcherActive && !processActive
      requires view.Valid()
      modifies this, view
      ensures view.Valid() && view.maxBlocks == old(view.maxBlocks)
      ensures config == old(config) && sourceLabel == old(sourceLabel) && showingLog == old(showingLog)
      ensures !processActive && processArgs == old(processArgs) && stdoutPending == old(stdoutPending)
      ensures file.CannotOpen? ==>
        && view.blocks ==
             Recoloured(Appended(old(view.blocks), [CannotOpenMessage(config.filePath)], view.maxBlocks), Error)
        && filePos == 0 && !watcherActive
      ensures file.Contents? ==>
        && view.blocks == Appended(old(view.blocks), SeedLines(file.data, config.maxLines), view.maxBlocks)
        && filePos == |file.data| && watcherActive
    {
      if file.CannotOpen? {
        AppendLine(CannotOpenMessage(config.filePath), Error);
        filePos := 0;
        return;
      }
      var data := file.data;
      var lines := ReadSeed(data, config.maxLines);
      SeedFits(data, config.maxLines);
      AppendLines(lines);
      filePos := |data|;
      watcherActive := true;
    }

    /** onFileChanged: a file that cannot be opened is ignored; a file shorter than the read
        position was rotated, so the view restarts with a marker line and the file is read
        from its start; otherwise whatever lies past the read position is shown and the
        position moves to the end. */
    method OnFileChanged(file: FileRead)
      requires Valid() && watcherActive
      modifies this, view
      ensures Valid() && watcherActive
      ensures config == old(config) && sourceLabel == old(sourceLabel) && showingLog == old(showingLog)
      ensures processActive == old(processActive) && stdoutPending == old(stdoutPending)
      ensures processArgs == old(processArgs)
      ensures file.CannotOpen? ==> view.blocks == old(view.blocks) && filePos == old(filePos)
      ensures file.Contents? && |file.data| < old(filePos) ==>
        && filePos == |file.data|
        && view.blocks == Appended([Entry(RotationMarker, Debug)], FileLines(file.data), view.maxBlocks)
      ensures file.Contents? && |file.data| == old(filePos) ==>
        view.blocks == old(view.blocks) && filePos == old(filePos)
      ensures file.Contents? && |file.data| > old(filePos) ==>
        && filePos == |file.data|
        && view.blocks == Appended(old(view.blocks), FileLines(file.data[old(filePos)..]), view.maxBlocks)
    {
      if file.CannotOpen? {
        return;
      }
      var data := file.data;
      var currentSize := |data|;
      if currentSize < filePos {
        RestartAfterRotation();
      }
      if filePos == currentSize {
        NoLinesInEmptyFile();
        return;
      }
      ghost var pos := filePos;
      ShowAppended(data);
      assert pos == 0 ==> data[pos..] == data;
    }

    /** The rotation branch of onFileChanged: reading restarts at the beginning and the view
        holds nothing but the marker line. */
    method RestartAfterRotation()
      requires Valid() && watcherActive
      modifies this, view
      ensures Valid() && watcherActive && filePos == 0
      ensures view.blocks == [Entry(RotationMarker, Debug)]
      ensures config == old(config) && sourceLabel == old(sourceLabel) && showingLog == old(showingLog)
      ensures processActive == old(processActive) && stdoutPending == old(stdoutPending)
      ensures processArgs == old(processArgs)
    {
      filePos := 0;
      view.Clear();
      AppendLine(RotationMarker, Debug);
      assert view.blocks == [Entry(RotationMarker, Debug)] by {
        MessagesPlain();
        LineShownAlone(RotationMarker, Debug, view.maxBlocks);
      }
    }

    /** The reading branch of onFileChanged: the lines of what lies past the read position
        are shown and the position moves to the end. */
    method ShowAppended(data: string)
      requires Valid() && watcherActive && filePos < |data|
      modifies this, view
      ensures Valid() && watcherActive && filePos == |data|
      ensures view.blocks == Appended(old(view.blocks), FileLines(data[old(filePos)..]), view.maxBlocks)
      ensures config == old(config) && sourceLabel == old(sourceLabel) && showingLog == old(showingLog)
      ensures processActive == old(processActive) && stdoutPending == old(stdoutPending)
      ensures processArgs == old(processArgs)
    {
      var newData := data[filePos..];
      filePos := |data|;
      var lines := CollectLines(newData);
      FileLinesWellFormed(newData);
      AppendLines(lines);
    }

    /** startJournalctl: the process is started with the configured unit filter. */
    method StartJournalctl()
      requires config.source == Journalctl && !processActive
      modifies this
      ensures processActive && processArgs == JournalArgs(config.journalUnit)
      ensures stdoutPending == old(stdoutPending)
      ensures config == old(config) && sourceLabel == old(sourceLabel) && showingLog == old(showingLog)
      ensures watcherActive == old(watcherActive) && filePos == old(filePos)
    {
      var args := BaseArgs;
      if |config.journalUnit| > 0 {
        args := args + ["-u", config.journalUnit];
      }
      processArgs := args;
      processActive := true;
    }

    /** The errorOccurred handler: one error line. */
    method OnJournalError()
      requires Valid() && processActive
      modifies view
      ensures Valid()
      ensures view.blocks == Evict(Before(old(view.blocks)) + [Entry(JournalFailure, Error)], view.maxBlocks)
    {
      ghost var before := view.blocks;
      AppendLine(JournalFailure, Error);
      MessagesPlain();
      AppendLineShows(before, JournalFailure, Error, view.maxBlocks);
    }

    /** onJournalOutput, given the chunk that has just arrived on standard output: every
        complete line in the buffer is shown and removed from it; a trailing partial line
        waits for the rest. */
    method OnJournalOutput(chunk: string)
      requires Valid() && processActive
      modifies this, view
      ensures Valid() && processActive
      ensures config == old(config) && sourceLabel == old(sourceLabel) && showingLog == old(showingLog)
      ensures watcherActive == old(watcherActive) && filePos == old(filePos)
      ensures processArgs == old(processArgs)
      ensures stdoutPending == Pending(old(stdoutPending) + chunk)
      ensures view.blocks ==
        Appended(old(view.blocks), CompleteLines(old(stdoutPending) + chunk), view.maxBlocks)
    {
      var lines, rest := DrainLines(stdoutPending + chunk);
      stdoutPending := rest;
      AppendLines(lines);
    }

    /** appendLines: each line's blocks follow the view's blocks, coloured by colorForLine;
        the view's limit is enforced once all are in. */
    method AppendLines(lines: seq<string>)
      requires forall i :: 0 <= i < |lines| ==> |lines[i]| > 0
      requires view.Valid()
      modifies view
      ensures view.Valid() && view.maxBlocks == old(view.maxBlocks)
      ensures view.blocks == Appended(old(view.blocks), lines, view.maxBlocks)
    {
      if |lines| == 0 {
        return;
      }
      InsertLines(lines);
      view.EndEditBlock();
    }

    /** The loop of appendLines, between beginEditBlock and endEditBlock: a new block unless
        the cursor is at position 0, then the line's text in the colour colorForLine picks;
        the limit is not yet enforced. */
    method InsertLines(lines: seq<string>)
      requires |lines| > 0 && forall i :: 0 <= i < |lines| ==> |lines[i]| > 0
      modifies view
      ensures view.blocks == Before(old(view.blocks)) + Tagged(lines)
      ensures view.maxBlocks == old(view.maxBlocks)
    {
      ghost var start := view.blocks;
      var i := 0;
      while i < |lines|
        invariant 0 <= i <= |lines|
        invariant i == 0 ==> view.blocks == start
        invariant i > 0 ==> view.blocks == Before(start) + Tagged(lines[..i]) && !AtStart(view.blocks)
        invariant view.maxBlocks == old(view.maxBlocks)
      {
        ghost var before := view.blocks;
        InsertLine(lines[i]);
        InsertedSoFar(start, lines, i, before);
        i := i + 1;
      }
      TakeAll(lines);
    }

    /** One pass of appendLines' loop: a new block unless the cursor is at position 0, then
        the line's text in the colour colorForLine picks. */
    method InsertLine(line: string)
      modifies view
      ensures view.blocks == Before(old(view.blocks)) + EntriesFor(line)
      ensures view.maxBlocks == old(view.maxBlocks)
    {
      EndPositionZero(view.blocks);
      if EndPosition(view.blocks) > 0 {
        view.InsertBlock();
      }
      view.InsertText(line, ClassifyLine(line));
    }

    /** appendLine: the line is appended, then the last block is recoloured. */
    method AppendLine(line: string, s: Severity)
      requires |line| > 0
      requires view.Valid()
      modifies view
      ensures view.Valid() && view.maxBlocks == old(view.maxBlocks)
      ensures view.blocks == Recoloured(Appended(old(view.blocks), [line], view.maxBlocks), s)
    {
      AppendLines([line]);
      view.RecolorLast(s);
    }
  }

  /** A separator-free line that appendLine shows in an empty view is all the view holds. */
  lemma LineShownAlone(line: string, s: Severity, n: int)
    requires SeparatorFree(line)
    ensures Recoloured(Appended([], [line], n), s) == [Entry(line, s)]
  {
    AppendLineShows([], line, s, n);
    assert Before([]) + [Entry(line, s)] == [Entry(line, s)];
  }

  /** One pass of appendLines' loop: with the blocks before line i as the loop found them,
      the line's blocks extend the blocks of the lines before it. */
  lemma InsertedSoFar(start: seq<Entry>, lines: seq<string>, i: nat, before: seq<Entry>)
    requires i < |lines| && |lines[i]| > 0
    requires i == 0 ==> before == start
    requires i > 0 ==> before == Before(start) + Tagged(lines[..i]) && !AtStart(before)
    ensures Before(before) + EntriesFor(lines[i]) == Before(start) + Tagged(lines[..i + 1])
    ensures !AtStart(Before(before) + EntriesFor(lines[i]))
  {
    TaggedSnoc(lines, i);
    if i == 0 {
      assert lines[..0] == [];
      AppendEmpty(Before(start));
    }
    AppendAssoc(Before(start), Tagged(lines[..i]), EntriesFor(lines[i]));
    NotAtStartAfter(Before(before), lines[i]);
  }
}
