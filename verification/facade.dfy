/** The small rules of the `InLogger` and `Logger` façades: the crash flag
    that survives a restart, which sinks a message goes to, and the text of
    a log line. */
module Facade {
  import opened Text
  import opened Timestamp
  import LogFileWriter

  // ---------------------------------------------------------------------------
  // The crash flag

  /** `CRASH_PREF_KEY`. */
  const CrashKey := "WAS_CRASH"

  /** The boolean entries of the application's shared preferences. */
  type Preferences = map<string, bool>

  /** The uncaught-exception handler's `putBoolean(CRASH_PREF_KEY, true)`. */
  function RecordCrash(prefs: Preferences): (r: Preferences)
    ensures CrashKey in r && r[CrashKey]
    ensures forall k :: k != CrashKey ==> (k in r <==> k in prefs)
    ensures forall k :: k in prefs && k != CrashKey ==> r[k] == prefs[k]
  {
    prefs[CrashKey := true]
  }

  /** `hasUncheckedCrashes()`: the stored flag, if there is one, which is
      then removed; `false` when there is none. */
  function HasUncheckedCrashes(prefs: Preferences): (r: (bool, Preferences))
    ensures r.0 <==> CrashKey in prefs && prefs[CrashKey]
    ensures CrashKey !in r.1
    ensures forall k :: k != CrashKey ==> (k in r.1 <==> k in prefs)
    ensures forall k :: k in prefs && k != CrashKey ==> r.1[k] == prefs[k]
  {
    if CrashKey in prefs then (prefs[CrashKey], prefs - {CrashKey}) else (false, prefs)
  }

  /** The check is read-once: asking again, with no crash in between,
      answers `false` and changes nothing. */
  lemma CheckIsReadOnce(prefs: Preferences)
    ensures var second := HasUncheckedCrashes(HasUncheckedCrashes(prefs).1);
            !second.0 && second.1 == HasUncheckedCrashes(prefs).1
  {
  }

  /** A crash recorded in one run is reported by the next check, exactly
      once, and leaves the other preferences as they were. */
  lemma CrashIsReportedOnce(prefs: Preferences)
    ensures var first := HasUncheckedCrashes(RecordCrash(prefs));
            first.0 && !HasUncheckedCrashes(first.1).0
    ensures HasUncheckedCrashes(RecordCrash(prefs)).1 == HasUncheckedCrashes(prefs).1
  {
    var a, b := HasUncheckedCrashes(RecordCrash(prefs)).1, HasUncheckedCrashes(prefs).1;
    assert forall k :: k in a <==> k in b;
  }

  // ---------------------------------------------------------------------------
  // Text of a message

  /** What `%s` prints for a string that may be `null`. */
  function Shown(s: Option<string>): (r: string)
  {
    match s
    case Some(v) => v
    case None => "null"
  }

  /** `tag != null ? tag : appTag`. */
  function ResolveTag(tag: Option<string>, appTag: Option<string>): (r: Option<string>)
    ensures r.None? <==> tag.None? && appTag.None?
    ensures tag.Some? ==> r == tag
    ensures tag.None? ==> r == appTag
  {
    if tag.Some? then tag else appTag
  }

  /** `String.format("%s: %s", context, message)`, the form of a message
      logged with an object context (the same in both façades). */
  function WithContext(context: Option<string>, message: string): (r: string)
  {
    Shown(context) + ": " + message
  }

  /** The message a context form carries is what follows the first `": "`
      when the context itself holds no colon. */
  lemma ContextMessageRecoverable(context: string, message: string)
    requires ':' !in context
    ensures var r := WithContext(Some(context), message);
            IndexOf(r, ':') == |context| && r[|context| + 2..] == message
  {
    var r := WithContext(Some(context), message);
    assert r == context + [':'] + (" " + message);
    IndexOfAfter(context, ':', " " + message);
    assert r[|context| + 2..] == message;
  }

  /** Position of the first `c` in `s`, or `|s|` if there is none. */
  function IndexOf(s: string, c: char): (k: nat)
    ensures k <= |s|
    ensures forall i :: 0 <= i < k ==> s[i] != c
    ensures k < |s| ==> s[k] == c
  {
    if |s| == 0 then 0
    else if s[0] == c then 0
    else 1 + IndexOf(s[1..], c)
  }

  lemma IndexOfAfter(a: string, c: char, b: string)
    requires c !in a
    ensures IndexOf(a + [c] + b, c) == |a|
  {
    var s := a + [c] + b;
    var k := IndexOf(s, c);
    assert s[|a|] == c;
  }

  // ---------------------------------------------------------------------------
  // Log lines

  /** Length of a line stamp, `dd.MM.yyyy HH:mm:ss.SSS`. */
  const StampWidth := 23

  /** A line of a log file split into its parts: the stamp text, the tag
      (`InLogger` lines only) and the message. */
  datatype Parts = Parts(stamp: string, tag: Option<string>, message: string)

  /** A line as a reader recovers it: the time it was logged, the tag and
      the message. */
  datatype Entry = Entry(at: DateTime, millis: Millis, tag: Option<string>, message: string)

  /** `InLogger.logToFile`: `String.format("%s:[%s]:\t%s", stamp, tag, message)`
      with the tag already resolved. */
  function InLoggerLine(stamp: string, tag: string, message: string): (r: string)
    ensures |r| == |stamp| + |tag| + |message| + 5
  {
    stamp + ":[" + tag + "]:\t" + message
  }

  /** `Logger.logToFile`: `String.format("%s - %s", stamp, message)`. */
  function LoggerLine(stamp: string, message: string): (r: string)
    ensures |r| == |stamp| + |message| + 3
  {
    stamp + " - " + message
  }

  /** Splits an `InLogger` line: the stamp's width of text, then `:[`, the
      tag up to the first `]`, then `]:` and a tab, then the message. */
  function SplitInLoggerLine(line: string): (r: Option<Parts>)
    ensures r.Some? ==> |r.value.stamp| == StampWidth
    ensures r.Some? ==> r.value.tag.Some? && ']' !in r.value.tag.value
  {
    if |line| < StampWidth + 2 || line[StampWidth..StampWidth + 2] != ":[" then None
    else
      var rest := line[StampWidth + 2..];
      var k := IndexOf(rest, ']');
      if k + 3 <= |rest| && rest[k..k + 3] == "]:\t" then
        assert forall i :: 0 <= i < k ==> rest[..k][i] == rest[i];
        Some(Parts(line[..StampWidth], Some(rest[..k]), rest[k + 3..]))
      else None
  }

  /** Splits a `Logger` line: the stamp's width of text, ` - `, the message. */
  function SplitLoggerLine(line: string): (r: Option<Parts>)
    ensures r.Some? ==> |r.value.stamp| == StampWidth && r.value.tag.None?
  {
    if |line| < StampWidth + 3 || line[StampWidth..StampWidth + 3] != " - " then None
    else Some(Parts(line[..StampWidth], None, line[StampWidth + 3..]))
  }

  /** An `InLogger` line splits back into what it was made of, provided the
      tag holds no `]` (a tag that does makes the line ambiguous). */
  lemma InLoggerLineSplits(stamp: string, tag: string, message: string)
    requires |stamp| == StampWidth && ']' !in tag
    ensures SplitInLoggerLine(InLoggerLine(stamp, tag, message)) == Some(Parts(stamp, Some(tag), message))
  {
    var line := InLoggerLine(stamp, tag, message);
    assert line == stamp + (":[" + (tag + [']'] + (":\t" + message)));
    var rest := line[StampWidth + 2..];
    assert line[StampWidth..StampWidth + 2] == ":[";
    assert rest == tag + [']'] + (":\t" + message);
    IndexOfAfter(tag, ']', ":\t" + message);
    assert rest[..|tag|] == tag;
    assert rest[|tag| + 3..] == message;
  }

  /** Conversely, a line that splits is exactly the line of its parts: one
      spelling per entry. */
  lemma InLoggerLineCanonical(line: string)
    requires SplitInLoggerLine(line).Some?
    ensures var p := SplitInLoggerLine(line).value;
            InLoggerLine(p.stamp, p.tag.value, p.message) == line
  {
    var p := SplitInLoggerLine(line).value;
    InLoggerSplitParts(line);
    var rest := line[StampWidth + 2..];
    var k := |p.tag.value|;
    assert rest == p.tag.value + "]:\t" + p.message by {
      assert rest == rest[..k] + rest[k..k + 3] + rest[k + 3..];
    }
    assert line == line[..StampWidth] + line[StampWidth..StampWidth + 2] + rest;
  }

  /** Where the parts of a split `InLogger` line sit in the line. */
  lemma InLoggerSplitParts(line: string)
    requires SplitInLoggerLine(line).Some?
    ensures var p, rest := SplitInLoggerLine(line).value, line[StampWidth + 2..];
            && |line| >= StampWidth + 2 && line[StampWidth..StampWidth + 2] == ":["
            && p.stamp == line[..StampWidth] && p.tag.Some?
            && |p.tag.value| + 3 <= |rest| && p.tag.value == rest[..|p.tag.value|]
            && rest[|p.tag.value|..|p.tag.value| + 3] == "]:\t" && p.message == rest[|p.tag.value| + 3..]
  {
  }

  /** A `Logger` line splits back into what it was made of, whatever the
      message. */
  lemma LoggerLineSplits(stamp: string, message: string)
    requires |stamp| == StampWidth
    ensures SplitLoggerLine(LoggerLine(stamp, message)) == Some(Parts(stamp, None, message))
  {
    var line := LoggerLine(stamp, message);
    assert line[..StampWidth] == stamp;
    assert line[StampWidth..StampWidth + 3] == " - ";
    assert line[StampWidth + 3..] == message;
  }

  /** Conversely, a line that splits as a `Logger` line is exactly the line
      of its parts. */
  lemma LoggerLineCanonical(line: string)
    requires SplitLoggerLine(line).Some?
    ensures var p := SplitLoggerLine(line).value;
            LoggerLine(p.stamp, p.message) == line
  {
    assert line == line[..StampWidth] + line[StampWidth..StampWidth + 3] + line[StampWidth + 3..];
  }

  /** The time, tag and message of a line's parts, if its stamp parses. */
  function ReadParts(p: Parts): (r: Option<Entry>)
    ensures r.Some? ==> Valid(r.value.at) && r.value.tag == p.tag && r.value.message == p.message
    ensures r.Some? <==> ParseLineStamp(p.stamp).Some?
  {
    match ParseLineStamp(p.stamp)
    case None => None
    case Some(t) => Some(Entry(t.0, t.1, p.tag, p.message))
  }

  /** A line `InLogger` writes at `dt`/`ms` reads back as its time, tag and
      message; together with `InLoggerLineCanonical` and `FormatParseLineStamp`,
      reading is the inverse of writing. */
  lemma InLoggerLineRoundTrip(dt: DateTime, ms: Millis, tag: string, message: string)
    requires Valid(dt) && ']' !in tag
    ensures && SplitInLoggerLine(InLoggerLine(FormatLineStamp(dt, ms), tag, message)).Some?
            && ReadParts(SplitInLoggerLine(InLoggerLine(FormatLineStamp(dt, ms), tag, message)).value)
               == Some(Entry(dt, ms, Some(tag), message))
  {
    var stamp := FormatLineStamp(dt, ms);
    LineStampLength(dt, ms);
    ParseFormatLineStamp(dt, ms);
    InLoggerLineSplits(stamp, tag, message);
  }

  /** A line `Logger` writes at `dt`/`ms` reads back as its time and message. */
  lemma LoggerLineRoundTrip(dt: DateTime, ms: Millis, message: string)
    requires Valid(dt)
    ensures && SplitLoggerLine(LoggerLine(FormatLineStamp(dt, ms), message)).Some?
            && ReadParts(SplitLoggerLine(LoggerLine(FormatLineStamp(dt, ms), message)).value)
               == Some(Entry(dt, ms, None, message))
  {
    var stamp := FormatLineStamp(dt, ms);
    LineStampLength(dt, ms);
    ParseFormatLineStamp(dt, ms);
    LoggerLineSplits(stamp, message);
  }

  /** `Logger.appendToFile(text)`: a line separator, then the text; when the
      file cannot be opened (`canOpen` false) the failure is swallowed and
      the file is unchanged. */
  function AppendToFile(file: string, text: string, canOpen: bool): (r: string)
    ensures canOpen ==> r == file + "\n" + text
    ensures !canOpen ==> r == file
  {
    if canOpen then LogFileWriter.AppendEach(file, [text]) else file
  }

  // ---------------------------------------------------------------------------
  // Dispatch

  /** A message handed to a sink that takes a tag (Android's `Log.i`, the
      external logger); the text is `None` for a `null` message. */
  datatype Tagged = Tagged(tag: Option<string>, text: Option<string>)

  /** Where one message goes: to the console, as a line to the log file,
      to the external logger; `None` for a sink it does not reach. */
  datatype Routed = Routed(console: Option<Tagged>, fileLine: Option<string>, external: Option<Tagged>)

  /** What a `Logger.logMessage` call does: it returns after routing the
      message, or the console call throws and the exception reaches the
      caller before anything else happens. */
  datatype Outcome = Returned(routed: Routed) | Threw

  /** The settings `logMessage` consults; `hasWriter` is whether a
      `LogFileWriter` exists (`InLogger` only), `hasExternal` whether an
      external logger is set. */
  datatype Settings = Settings(writeToConsole: bool, writeToFile: bool, hasWriter: bool,
                               hasExternal: bool, appTag: Option<string>)

  /** Whether Android's `Log.i` throws for this message: it rejects a
      `null` message with a `NullPointerException`. */
  predicate ConsoleThrows(s: Settings, message: Option<string>) {
    s.writeToConsole && message.None?
  }

  /** `InLogger.logMessage(tag, message, external)`, with `stamp` the
      formatted time of the call. The three outputs run in order inside one
      `try`: when the console call throws, the exception is caught and the
      file and the external logger get nothing. Otherwise each enabled sink
      gets the message under the same resolved tag, and the file gets a
      line that splits back into the stamp, that tag and the message as
      `%s` prints it. */
  function Dispatch(s: Settings, tag: Option<string>, message: Option<string>, external: bool,
                    stamp: string): (r: Routed)
    ensures r.console.Some? <==> s.writeToConsole && message.Some?
    ensures r.fileLine.Some? <==> s.writeToFile && s.hasWriter && !ConsoleThrows(s, message)
    ensures r.external.Some? <==> external && s.hasExternal && !ConsoleThrows(s, message)
    ensures r.console.Some? ==> r.console.value == Tagged(ResolveTag(tag, s.appTag), message)
    ensures r.external.Some? ==> r.external.value == Tagged(ResolveTag(tag, s.appTag), message)
    ensures r.fileLine.Some? && |stamp| == StampWidth && ']' !in Shown(ResolveTag(tag, s.appTag)) ==>
              SplitInLoggerLine(r.fileLine.value)
                == Some(Parts(stamp, Some(Shown(ResolveTag(tag, s.appTag))), Shown(message)))
  {
    var t := ResolveTag(tag, s.appTag);
    var line := InLoggerLine(stamp, Shown(t), Shown(message));
    assert |stamp| == StampWidth && ']' !in Shown(t) ==>
             SplitInLoggerLine(line) == Some(Parts(stamp, Some(Shown(t)), Shown(message))) by {
      if |stamp| == StampWidth && ']' !in Shown(t) {
        InLoggerLineSplits(stamp, Shown(t), Shown(message));
      }
    }
    if ConsoleThrows(s, message) then Routed(None, None, None)
    else
      Routed(if s.writeToConsole then Some(Tagged(t, message)) else None,
             if s.writeToFile && s.hasWriter then Some(line) else None,
             if external && s.hasExternal then Some(Tagged(t, message)) else None)
  }

  /** `Logger.logMessage(message, external)`: the console under the
      application tag, a line to the file (there is no writer to be
      missing), and the external logger without a tag. Nothing catches a
      throwing console call, so it escapes to the caller. */
  function LoggerDispatch(s: Settings, message: Option<string>, external: bool, stamp: string): (r: Outcome)
    ensures r.Threw? <==> ConsoleThrows(s, message)
    ensures r.Returned? ==> && (r.routed.console.Some? <==> s.writeToConsole)
                            && (r.routed.fileLine.Some? <==> s.writeToFile)
                            && (r.routed.external.Some? <==> external && s.hasExternal)
    ensures r.Returned? && r.routed.console.Some? ==> r.routed.console.value == Tagged(s.appTag, message)
    ensures r.Returned? && r.routed.external.Some? ==> r.routed.external.value == Tagged(None, message)
    ensures r.Returned? && r.routed.fileLine.Some? && |stamp| == StampWidth ==>
              SplitLoggerLine(r.routed.fileLine.value) == Some(Parts(stamp, None, Shown(message)))
  {
    var line := LoggerLine(stamp, Shown(message));
    assert |stamp| == StampWidth ==> SplitLoggerLine(line) == Some(Parts(stamp, None, Shown(message))) by {
      if |stamp| == StampWidth {
        LoggerLineSplits(stamp, Shown(message));
      }
    }
    if ConsoleThrows(s, message) then Threw
    else
      Returned(Routed(if s.writeToConsole then Some(Tagged(s.appTag, message)) else None,
                      if s.writeToFile then Some(line) else None,
                      if external && s.hasExternal then Some(Tagged(None, message)) else None))
  }
}
