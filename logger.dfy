/**
 * The logging front end: a priority filter, the choice of default
 * priority, the computation of a log's name, and the registry that maps
 * log names to file loggers.
 *
 * `Logger.cs` keeps all of this in static fields of a static class; here
 * one `Logger` object holds that state. The caller's type name (read from
 * the stack trace) and the date (read from the clock) are parameters, and
 * the file a `FileLogger` appends to is modelled by the sequence of lines
 * it has been given.
 */
module Log {
  import opened Wrappers
  import opened Enums

  /** A log file: its path and the lines appended to it so far. */
  class FileLogger {
    const filePath: string
    var lines: seq<string>

    constructor (filePath: string)
      ensures this.filePath == filePath && lines == []
    {
      this.filePath := filePath;
      lines := [];
    }

    /** Appends one line: the abstract form of the file write. */
    method Write(line: string)
      modifies this
      ensures lines == old(lines) + [line]
    {
      lines := lines + [line];
    }
  }

  /** The object handed to `Write`: null, or a value with its `ToString` text. */
  datatype LogObject = Null | Object(text: string, isException: bool)

  /**
   * What a call to `Write` did. `NullReference` is the exception
   * `null.ToString()` throws; `InvalidPath` is the `ArgumentException`
   * `Path.Combine` throws on a log name it refuses.
   */
  datatype WriteOutcome = Dropped | Written | NullReference | InvalidPath

  /**
   * A character the .NET Framework path check refuses: `"`, `<`, `>`, `|`
   * or a control character below U+0020.
   */
  predicate InvalidPathChar(c: char) { c == '"' || c == '<' || c == '>' || c == '|' || c < ' ' }

  /** A string with no character the path check refuses. */
  predicate PathText(s: string) { forall i :: 0 <= i < |s| ==> !InvalidPathChar(s[i]) }

  /**
   * `Path.Combine(dir, file)` checks both arguments and throws
   * `ArgumentException` when either holds a refused character.
   */
  predicate CombineAccepts(dir: string, file: string) { PathText(dir) && PathText(file) }

  lemma PathTextConcat(a: string, b: string)
    ensures PathText(a + b) <==> PathText(a) && PathText(b)
  {
    if PathText(a) && PathText(b) {
      forall i | 0 <= i < |a + b|
        ensures !InvalidPathChar((a + b)[i])
      {
        if i < |a| {
          assert (a + b)[i] == a[i];
        } else {
          assert (a + b)[i] == b[i - |a|];
        }
      }
    }
    if PathText(a + b) {
      forall i | 0 <= i < |a|
        ensures !InvalidPathChar(a[i])
      {
        assert (a + b)[i] == a[i];
      }
      forall i | 0 <= i < |b|
        ensures !InvalidPathChar(b[i])
      {
        assert (a + b)[|a| + i] == b[i];
      }
    }
  }

  /**
   * `Path.Combine(dir, file)` for a relative `file`: a directory separator
   * is put between the two unless `dir` is empty or already ends in one.
   */
  function CombinePath(dir: string, file: string): (r: string)
    ensures |r| >= |dir| + |file| && r[..|dir|] == dir && r[|r| - |file|..] == file
  {
    if dir == [] then file
    else if dir[|dir| - 1] in {'\\', '/', ':'} then dir + file
    else dir + "\\" + file
  }

  /**
   * The name of the log: empty when everything goes to one file; otherwise
   * the explicit name if there is one (without a date, since `??` binds
   * more loosely than `+`), or the caller's type name and the date.
   */
  function LogName(inOneFile: bool, name: Option<string>, callerType: string, date: string): (r: string)
    ensures inOneFile ==> r == ""
    ensures !inOneFile && name.Some? ==> r == name.value
    ensures !inOneFile && name.None? ==> r == callerType + "_" + date
  {
    if inOneFile then ""
    else match name
      case Some(n) => n
      case None => callerType + "_" + date
  }

  /**
   * A record is kept unless its priority is below the minimum: `High`
   * passes every minimum, every priority passes `Insignificant`, and only
   * `High` passes a minimum of `High`.
   */
  function Admits(priority: LogWritePriority, minimum: LogWritePriority): (b: bool)
    ensures priority == High ==> b
    ensures minimum == Insignificant ==> b
    ensures minimum == High ==> (b <==> priority == High)
    ensures priority == minimum ==> b
  {
    !(priority.Value() < minimum.Value())
  }

  /** Lowering the minimum never drops a record that a higher minimum kept. */
  lemma AdmitsLowerMinimum(priority: LogWritePriority, minimum: LogWritePriority, lower: LogWritePriority)
    requires Admits(priority, minimum) && Admits(minimum, lower)
    ensures Admits(priority, lower)
  {
  }

  /** The priority `Write(object)` uses: one for exceptions, another for everything else. */
  function ChosenPriority(obj: LogObject, forExceptions: LogWritePriority, default: LogWritePriority): (p: LogWritePriority)
    ensures obj.Object? && obj.isException ==> p == forExceptions
    ensures !(obj.Object? && obj.isException) ==> p == default
  {
    if obj.Object? && obj.isException then forExceptions else default
  }

  /**
   * The type whose name the one-argument `Write` passes on: the stack frame
   * `GetLogger` inspects is then `Write(object)` itself.
   */
  const LoggerTypeName: string := "Logger"

  /**
   * A dated log name is accepted by `Path.Combine` exactly when the
   * directory, the caller's type name and the date all are: `"_"` and
   * `".log"` hold no refused character.
   */
  lemma DatedNameAccepted(dir: string, callerType: string, date: string)
    ensures CombineAccepts(dir, LogName(false, None, callerType, date) + ".log")
        <==> PathText(dir) && PathText(callerType) && PathText(date)
  {
    assert PathText("_") && PathText(".log");
    PathTextConcat(callerType, "_");
    PathTextConcat(callerType + "_", date);
    PathTextConcat(callerType + "_" + date, ".log");
  }

  /**
   * The nested types the compiler makes for lambdas that capture locals,
   * non-capturing lambdas, iterators and async methods (`<>c`,
   * `<>c__DisplayClass1_0`, `<Run>d__3`) have names that start with `'<'`,
   * so a dated log named after one of them is refused.
   */
  lemma CompilerGeneratedCallerRefused(dir: string, callerType: string, date: string)
    requires |callerType| > 0 && callerType[0] == '<'
    ensures !CombineAccepts(dir, LogName(false, None, callerType, date) + ".log")
  {
    DatedNameAccepted(dir, callerType, date);
  }

  class Logger {
    const fileDir: string
    var tbl: map<string, FileLogger>
    var priority: LogWritePriority
    var inOneFile: bool
    var priorityForExceptions: LogWritePriority
    var defaultPriority: LogWritePriority

    /**
     * Each logger sits at the path made from its name, a path `Path.Combine`
     * accepted; no logger is shared by two names.
     */
    ghost predicate Valid()
      reads this
    {
      && (forall k :: k in tbl ==> CombineAccepts(fileDir, k + ".log"))
      && (forall k :: k in tbl ==> tbl[k].filePath == CombinePath(fileDir, k + ".log"))
      && (forall k1, k2 :: k1 in tbl && k2 in tbl && k1 != k2 ==> tbl[k1] != tbl[k2])
    }

    /** The static initialisers: an empty table and the default settings. */
    constructor (fileDir: string)
      ensures Valid() && this.fileDir == fileDir && tbl == map[]
      ensures priority == Medium && !inOneFile
      ensures priorityForExceptions == High && defaultPriority == Insignificant
    {
      this.fileDir := fileDir;
      tbl := map[];
      priority := Medium;
      inOneFile := false;
      priorityForExceptions := High;
      defaultPriority := Insignificant;
    }

    /**
     * `GetLogger`: the logger registered under the computed name, created
     * and registered first when there is none. `None` stands for the
     * `ArgumentException` of `Path.Combine`, which leaves the table as it
     * was; a registered name never reaches `Path.Combine` again.
     */
    method GetLogger(name: Option<string>, callerType: string, date: string) returns (result: Option<FileLogger>)
      requires Valid()
      modifies this`tbl
      ensures Valid()
      ensures var n := LogName(inOneFile, name, callerType, date);
              && (result.Some? <==> CombineAccepts(fileDir, n + ".log"))
              && (result.None? ==> tbl == old(tbl))
              && (result.Some? ==> n in tbl && result.value == tbl[n]
                                   && result.value.filePath == CombinePath(fileDir, n + ".log"))
              && (n in old(tbl) ==> tbl == old(tbl))
              && (n !in old(tbl) && result.Some? ==>
                    fresh(result.value) && result.value.lines == [] && tbl == old(tbl)[n := result.value])
    {
      var logName := LogName(inOneFile, name, callerType, date);
      if logName in tbl {
        result := Some(tbl[logName]);
      } else if !CombineAccepts(fileDir, logName + ".log") {
        result := None;
      } else {
        var logger := new FileLogger(CombinePath(fileDir, logName + ".log"));
        tbl := tbl[logName := logger];
        result := Some(logger);
      }
    }

    /**
     * `Write(object, priority)`: nothing happens below the minimum priority;
     * otherwise the object's text becomes one more line of the caller's log,
     * unless `null.ToString()` or `Path.Combine` throws first.
     */
    method Write(obj: LogObject, p: LogWritePriority, callerType: string, date: string)
      returns (outcome: WriteOutcome)
      requires Valid()
      modifies this`tbl, tbl.Values
      ensures Valid()
      ensures outcome == if !Admits(p, priority) then Dropped
                         else if obj.Null? then NullReference
                         else if !CombineAccepts(fileDir, LogName(inOneFile, None, callerType, date) + ".log") then InvalidPath
                         else Written
      ensures outcome != Written ==> tbl == old(tbl) && forall k :: k in tbl ==> tbl[k].lines == old(tbl[k].lines)
      ensures outcome == Written ==>
                var n := LogName(inOneFile, None, callerType, date);
                && n in tbl && tbl.Keys == old(tbl).Keys + {n}
                && (forall k :: k in old(tbl) ==> tbl[k] == old(tbl)[k])
                && (forall k :: k in old(tbl) && k != n ==> tbl[k].lines == old(tbl[k].lines))
                && tbl[n].lines == (if n in old(tbl) then old(tbl[n].lines) else []) + [obj.text]
    {
      if !Admits(p, priority) {
        return Dropped;
      }
      if obj.Null? {
        return NullReference;
      }
      var info := obj.text;
      var logger := GetLogger(None, callerType, date);
      match logger {
        case None =>
          outcome := InvalidPath;
        case Some(l) =>
          l.Write(info);
          outcome := Written;
      }
    }

    /**
     * `Write(object)`: exceptions at `priorityForExceptions`, anything else
     * at `defaultPriority`. Because of the extra stack frame, the log it
     * selects is named after `Logger` rather than after the caller.
     */
    method WriteObject(obj: LogObject, date: string) returns (outcome: WriteOutcome)
      requires Valid()
      modifies this`tbl, tbl.Values
      ensures Valid()
      ensures outcome == if !Admits(ChosenPriority(obj, priorityForExceptions, defaultPriority), priority) then Dropped
                         else if obj.Null? then NullReference
                         else if !CombineAccepts(fileDir, LogName(inOneFile, None, LoggerTypeName, date) + ".log") then InvalidPath
                         else Written
      ensures outcome != Written ==> tbl == old(tbl) && forall k :: k in tbl ==> tbl[k].lines == old(tbl[k].lines)
      ensures outcome == Written ==>
                var n := LogName(inOneFile, None, LoggerTypeName, date);
                && n in tbl && tbl.Keys == old(tbl).Keys + {n}
                && (forall k :: k in old(tbl) ==> tbl[k] == old(tbl)[k])
                && (forall k :: k in old(tbl) && k != n ==> tbl[k].lines == old(tbl[k].lines))
                && tbl[n].lines == (if n in old(tbl) then old(tbl[n].lines) else []) + [obj.text]
    {
      outcome := Write(obj, ChosenPriority(obj, priorityForExceptions, defaultPriority), LoggerTypeName, date);
    }
  }

  // ---------------------------------------------------------------------
  // Properties of the settings and names
  // ---------------------------------------------------------------------

  /**
   * Under the initial settings (minimum Medium, exceptions High, default
   * Insignificant) an exception is logged and any other object is dropped.
   */
  lemma DefaultSettingsFilter(obj: LogObject)
    ensures Admits(ChosenPriority(obj, High, Insignificant), Medium) <==> obj.Object? && obj.isException
  {
  }

  /**
   * An explicit name carries neither the caller nor the date: every caller
   * writes to the same log on every day. In one-file mode even the name is
   * ignored.
   */
  lemma ExplicitNameIgnoresCallerAndDate(name: string, t1: string, t2: string, d1: string, d2: string)
    ensures LogName(false, Some(name), t1, d1) == LogName(false, Some(name), t2, d2)
    ensures forall n1: Option<string>, n2: Option<string> :: LogName(true, n1, t1, d1) == LogName(true, n2, t2, d2)
  {
  }

  /** Without an explicit name, each caller type gets one log per date. */
  lemma DatedNamesDistinct(callerType: string, d1: string, d2: string)
    requires d1 != d2
    ensures LogName(false, None, callerType, d1) != LogName(false, None, callerType, d2)
  {
    var n1 := LogName(false, None, callerType, d1);
    assert n1[|callerType| + 1..] == d1;
  }

  /**
   * A fresh registry under the default settings drops an ordinary object
   * and logs an exception, in a directory and on a date the path check
   * accepts.
   */
  method DefaultSettingsScenario(dir: string, date: string) returns (first: WriteOutcome, second: WriteOutcome, lines: seq<string>)
    requires PathText(dir) && PathText(date)
    ensures first == Dropped && second == Written && lines == ["boom"]
  {
    DatedNameAccepted(dir, LoggerTypeName, date);
    var log := new Logger(dir);
    first := log.WriteObject(Object("hello", false), date);
    second := log.WriteObject(Object("boom", true), date);
    var logger := log.GetLogger(None, LoggerTypeName, date);
    lines := match logger case Some(l) => l.lines case None => [];
  }

  /**
   * A `High` record written from a non-capturing lambda (caller type `<>c`) is let
   * through by the filter, but `Path.Combine` refuses its log name: the
   * call throws and nothing is registered.
   */
  method CompilerGeneratedCallerScenario(dir: string, date: string) returns (outcome: WriteOutcome, size: nat)
    ensures outcome == InvalidPath && size == 0
  {
    CompilerGeneratedCallerRefused(dir, "<>c", date);
    var log := new Logger(dir);
    outcome := log.Write(Object("x", false), High, "<>c", date);
    size := |log.tbl|;
  }

  /**
   * Asking twice for the same name gives the same logger the second time;
   * a name `Path.Combine` refuses is never registered.
   */
  method SameNameSameLogger(dir: string, name: Option<string>, callerType: string, date: string)
    returns (same: bool, size: nat)
    ensures same
    ensures size == if CombineAccepts(dir, LogName(false, name, callerType, date) + ".log") then 1 else 0
  {
    var log := new Logger(dir);
    var a := log.GetLogger(name, callerType, date);
    var b := log.GetLogger(name, callerType, date);
    same := a == b;
    size := |log.tbl|;
  }
}
