/**
 * LogTailConfig and the parts of LogTailDisplay that are pure functions of it: the JSON
 * form written by saveConfig and read back by loadConfig, the header label chosen by
 * updateSourceLabel, and the argument list startJournalctl passes to journalctl.
 */
module TailConfig {

  /** A C++ int. */
  const Int32Min: int := -0x8000_0000
  const Int32Max: int := 0x7FFF_FFFF
  type Int32 = x: int | Int32Min <= x <= Int32Max

  /** LogTailConfig::Source. */
  datatype Source = None | File | Journalctl

  /** LogTailConfig; an empty journalUnit means no unit filter. */
  datatype Config = Config(source: Source, filePath: string, journalUnit: string, maxLines: Int32)

  /** The member initialisers of LogTailConfig. */
  const DefaultMaxLines: Int32 := 500
  const Default: Config := Config(None, "", "", DefaultMaxLines)

  /** A QJsonValue, as far as the configuration reads it: a string, a number (JSON numbers
      are doubles; every double is a real, rounding is never at stake for the values
      involved here), or anything else. */
  datatype JsonValue = JString(str: string) | JNumber(num: real) | JOther

  /** A QJsonObject; a key that is absent reads as an undefined value. */
  type JsonObject = map<string, JsonValue>

  const SourceKey := "sourceType"
  const PathKey := "filePath"
  const UnitKey := "journalUnit"
  const MaxLinesKey := "maxLines"

  /** The sourceType string written for each source. */
  function SourceName(s: Source): string {
    match s
    case File => "file"
    case Journalctl => "journalctl"
    case None => ""
  }

  /** The source a sourceType string stands for; any other string means no source. */
  function ParseSource(name: string): Source {
    if name == "file" then File
    else if name == "journalctl" then Journalctl
    else None
  }

  /** obj[key].toString(): the string held there, or "" when the key is missing or holds
      something else. */
  function StringAt(obj: JsonObject, key: string): string {
    if key in obj && obj[key].JString? then obj[key].str else ""
  }

  /** A real that is a whole number inside the range of int. */
  predicate IsInt32(x: real) {
    x == x.Floor as real && Int32Min <= x.Floor <= Int32Max
  }

  /** obj.value(key).toInt(default): a number that is whole and fits in an int, else the
      default. */
  function IntAt(obj: JsonObject, key: string, default: Int32): Int32 {
    if key in obj && obj[key].JNumber? && IsInt32(obj[key].num) then obj[key].num.Floor
    else default
  }

  /** saveConfig. */
  function Save(c: Config): JsonObject {
    map[SourceKey := JString(SourceName(c.source)),
        PathKey := JString(c.filePath),
        UnitKey := JString(c.journalUnit),
        MaxLinesKey := JNumber(c.maxLines as real)]
  }

  /** The configuration part of loadConfig (the call to applySource is in LogTail). */
  function Load(obj: JsonObject): Config {
    Config(ParseSource(StringAt(obj, SourceKey)),
           StringAt(obj, PathKey),
           StringAt(obj, UnitKey),
           IntAt(obj, MaxLinesKey, DefaultMaxLines))
  }

  /** Saving and loading again gives back exactly the configuration that was saved. */
  lemma LoadSaveRoundTrip(c: Config)
    ensures Load(Save(c)) == c
  {
    var obj := Save(c);
    assert (c.maxLines as real).Floor == c.maxLines;
    assert ParseSource(SourceName(c.source)) == c.source by {
      match c.source
      case File =>
      case Journalctl =>
      case None =>
    }
  }

  /** Saving writes exactly the four keys, each holding a value of the type loading reads. */
  lemma SaveKeys(c: Config)
    ensures Save(c).Keys == {SourceKey, PathKey, UnitKey, MaxLinesKey}
    ensures Save(c)[SourceKey].JString? && Save(c)[PathKey].JString? && Save(c)[UnitKey].JString?
    ensures Save(c)[MaxLinesKey].JNumber? && IsInt32(Save(c)[MaxLinesKey].num)
  {
    assert (c.maxLines as real).Floor == c.maxLines;
  }

  /** Only the strings "file" and "journalctl" select a source; a missing sourceType, one
      that is not a string and any other string all mean no source. */
  lemma LoadSource(obj: JsonObject)
    ensures Load(obj).source == File <==> SourceKey in obj && obj[SourceKey] == JString("file")
    ensures Load(obj).source == Journalctl <==>
      SourceKey in obj && obj[SourceKey] == JString("journalctl")
    ensures Load(obj).source == None <==>
      SourceKey !in obj || obj[SourceKey] !in {JString("file"), JString("journalctl")}
  {
  }

  /** maxLines falls back to 500 exactly when the stored value is not a whole number that
      fits in an int: missing, not a number, fractional or out of range. */
  lemma LoadMaxLines(obj: JsonObject)
    ensures MaxLinesKey !in obj ==> Load(obj).maxLines == 500
    ensures MaxLinesKey in obj && obj[MaxLinesKey].JNumber? && IsInt32(obj[MaxLinesKey].num) ==>
      Load(obj).maxLines as real == obj[MaxLinesKey].num
    ensures !(MaxLinesKey in obj && obj[MaxLinesKey].JNumber? && IsInt32(obj[MaxLinesKey].num)) ==>
      Load(obj).maxLines == 500
  {
  }

  /** Keys other than the four are ignored. */
  lemma LoadIgnoresOtherKeys(obj: JsonObject, key: string, v: JsonValue)
    requires key !in {SourceKey, PathKey, UnitKey, MaxLinesKey}
    ensures Load(obj[key := v]) == Load(obj)
  {
  }

  /** Loading an object that has none of the keys gives the default configuration. */
  lemma LoadEmpty()
    ensures Load(map[]) == Default
  {
  }

  /** QFileInfo::fileName: what follows the last '/'. */
  function FileName(path: string): string {
    if |path| == 0 || path[|path| - 1] == '/' then []
    else FileName(path[..|path| - 1]) + [path[|path| - 1]]
  }

  /** The file name is the part of the path after its last '/': the whole path when it has
      no '/', and empty when it ends in one. */
  lemma {:induction false} FileNameShape(path: string)
    ensures var name := FileName(path);
      && '/' !in name
      && |name| <= |path| && name == path[|path| - |name|..]
      && (|name| == |path| || path[|path| - |name| - 1] == '/')
  {
    if |path| > 0 && path[|path| - 1] != '/' {
      var front := path[..|path| - 1];
      FileNameShape(front);
      var name, f := FileName(path), FileName(front);
      assert name == f + [path[|path| - 1]];
      assert front[|front| - |f|..] == path[|path| - |name|..|path| - 1];
    }
  }

  const JournalLabel := "journalctl"
  const UnitLabelPrefix := "journalctl -u "

  /** updateSourceLabel: the text of the header label. */
  function SourceLabel(c: Config): string {
    match c.source
    case File => FileName(c.filePath)
    case Journalctl => if |c.journalUnit| == 0 then JournalLabel else UnitLabelPrefix + c.journalUnit
    case None => "not configured"
  }

  /** The label of a file source names the file and never its directory. */
  lemma FileLabel(c: Config)
    requires c.source == File
    ensures '/' !in SourceLabel(c)
    ensures var l := SourceLabel(c); |c.filePath| >= |l| && c.filePath[|c.filePath| - |l|..] == l
  {
    FileNameShape(c.filePath);
  }

  /** The label of a journalctl source tells the unit filter, if any, apart: two journalctl
      configurations with the same label follow the same unit. */
  lemma JournalLabelNamesUnit(c: Config, d: Config)
    requires c.source == Journalctl && d.source == Journalctl
    ensures SourceLabel(c) == SourceLabel(d) <==> c.journalUnit == d.journalUnit
  {
    var p := UnitLabelPrefix;
    assert |c.journalUnit| > 0 ==> c.journalUnit == SourceLabel(c)[|p|..];
    assert |d.journalUnit| > 0 ==> d.journalUnit == SourceLabel(d)[|p|..];
  }

  /** The options startJournalctl always passes. */
  const BaseArgs: seq<string> := ["-f", "-n", "50", "--no-pager", "--output=short-iso"]

  /** startJournalctl's argument list: follow the journal, start with its last 50 entries,
      no pager, ISO timestamps, and "-u unit" exactly when a unit is configured. */
  function JournalArgs(unit: string): seq<string> {
    if |unit| == 0 then BaseArgs else BaseArgs + ["-u", unit]
  }

  /** The arguments always start with the fixed options, and "-u unit" follows exactly when a
      unit is configured. */
  lemma JournalArgsShape(unit: string)
    ensures var args := JournalArgs(unit);
      && |args| >= |BaseArgs| && args[..|BaseArgs|] == BaseArgs
      && ("-u" in args <==> |unit| > 0)
      && (|unit| == 0 ==> args == BaseArgs)
      && (|unit| > 0 ==> args[|BaseArgs|..] == ["-u", unit])
  {
    var args := JournalArgs(unit);
    assert args[..|BaseArgs|] == BaseArgs;
    assert "-u" !in BaseArgs;
    if |unit| > 0 {
      assert args[|BaseArgs|] == "-u";
    }
  }
}
