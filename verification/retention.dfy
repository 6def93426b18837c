/** The start-up retention pass of file logging (`setWriteToFile`, the same
    code in `InLogger` and in `Logger`): drop every directory entry that is
    not a `.log` file, sort the `.log` names, delete expired files from the
    oldest end while more than `minCount` remain, then name this run's file
    after the current time. */
module Retention {
  import opened Text
  import opened Timestamp
  import opened Sorting
  import opened Pruning
  import opened Sweep

  /** `LOG_TO_FILE_MAX_DAYS_DEFAULT_VALUE` and `LOG_TO_FILE_MIN_COUNT_DEFAULT_VALUE`. */
  const DefaultMaxDays := 1
  const DefaultMinCount := 2

  // ---------------------------------------------------------------------------
  // Parameters

  /** `Initializer.writeToFile(maxDays, minCount)`: the parameters the pass
      actually runs with. */
  function EffectiveRetention(maxDays: int, minCount: int): (r: (int, int))
    ensures r.0 >= DefaultMaxDays && r.0 >= maxDays && (r.0 == maxDays || r.0 == DefaultMaxDays)
    ensures r.1 >= DefaultMinCount && r.1 >= minCount && (r.1 == minCount || r.1 == DefaultMinCount)
  {
    (Max(maxDays, DefaultMaxDays), Max(minCount, DefaultMinCount))
  }

  // ---------------------------------------------------------------------------
  // File names

  /** `fileNameDateTimeFormat.format(dt) + ".log"`. */
  function LogFileName(dt: DateTime): (name: string)
    requires Valid(dt)
    ensures IsLogName(name)
  {
    var stamp := FormatStamp(dt);
    assert (stamp + LogSuffix)[|stamp|..] == LogSuffix;
    stamp + LogSuffix
  }

  /** The time a `.log` name carries: its name without the suffix, read
      strictly as a zero-padded `yyyy.MM.dd HH:mm:ss` stamp of a valid date.
      This is the subset of names on which the lenient `SimpleDateFormat`
      parse agrees with the formatter; names it accepts only leniently
      (trailing text, unpadded or rolled-over fields) read as no time. */
  function FileTime(name: string): (t: Option<DateTime>)
    ensures t.Some? ==> IsLogName(name) && Valid(t.value)
  {
    if IsLogName(name) then ParseStamp(name[..|name| - |LogSuffix|]) else None
  }

  lemma FileTimeOfLogFileName(dt: DateTime)
    requires Valid(dt)
    ensures FileTime(LogFileName(dt)) == Some(dt)
  {
    var stamp := FormatStamp(dt);
    assert LogFileName(dt)[..|LogFileName(dt)| - |LogSuffix|] == stamp;
    ParseFormat(dt);
  }

  /** A name that carries a time is the name of that time. */
  lemma {:induction false} LogFileNameOfFileTime(name: string)
    requires FileTime(name).Some?
    ensures LogFileName(FileTime(name).value) == name
  {
    var stem := name[..|name| - |LogSuffix|];
    FormatParse(stem);
    assert name == stem + name[|name| - |LogSuffix|..];
  }

  /** Sorting names that carry times sorts them by time: the string order of
      two such names is the numeric order of their epoch seconds. */
  lemma {:induction false} NameOrderIsTimeOrder(a: string, b: string)
    requires FileTime(a).Some? && FileTime(b).Some?
    ensures LexLess(a, b) <==>
            EpochSeconds(FileTime(a).value) < EpochSeconds(FileTime(b).value)
  {
    var ta, tb := FileTime(a).value, FileTime(b).value;
    LogFileNameOfFileTime(a);
    LogFileNameOfFileTime(b);
    StampLength(ta);
    StampLength(tb);
    LexLessConcat(FormatStamp(ta), LogSuffix, FormatStamp(tb), LogSuffix);
    LexLessIrreflexive(LogSuffix);
    StampOrderIsTimeOrder(ta, tb);
  }

  // ---------------------------------------------------------------------------
  // Expiry

  /** `calendar.add(DAY_OF_MONTH, -maxDays)` applied to the clock reading,
      as epoch milliseconds. */
  function Cutoff(now: DateTime, nowMs: Millis, maxDays: int): (cutoff: int)
    requires Valid(now)
  {
    EpochMillis(now, nowMs) - maxDays * 86_400_000
  }

  /** What the pruning loop learns from a name: `parse` of the name without
      its suffix throws, or `fileDate.before(min)` holds, or it does not. */
  function AgeOf(name: string, cutoff: int): (age: Age) {
    match FileTime(name)
    case None => Unparseable
    case Some(t) => if EpochSeconds(t) * 1000 < cutoff then Old else Young
  }

  function Ages(cutoff: int): (age: string -> Age) {
    name => AgeOf(name, cutoff)
  }

  /** The name parses and its time is strictly earlier than the cutoff. */
  predicate Expired(name: string, cutoff: int) {
    AgeOf(name, cutoff) == Old
  }

  /** A name carrying the current time never expires once `maxDays >= 1`.
      (With `maxDays == 0` it would: the name drops the milliseconds that the
      cutoff keeps.) */
  lemma NowNotExpired(name: string, now: DateTime, nowMs: Millis, maxDays: int)
    requires Valid(now) && maxDays >= 1 && FileTime(name) == Some(now)
    ensures !Expired(name, Cutoff(now, nowMs, maxDays))
  {
  }

  lemma CurrentNameNotExpired(now: DateTime, nowMs: Millis, maxDays: int)
    requires Valid(now) && maxDays >= 1
    ensures !Expired(LogFileName(now), Cutoff(now, nowMs, maxDays))
  {
    FileTimeOfLogFileName(now);
    NowNotExpired(LogFileName(now), now, nowMs, maxDays);
  }

  // ---------------------------------------------------------------------------
  // Sorted names put the old ones first

  /** Every name carries a time. */
  predicate AllTimed(names: seq<string>) {
    forall i :: 0 <= i < |names| ==> FileTime(names[i]).Some?
  }

  lemma TimedNamesParse(names: seq<string>, cutoff: int)
    requires AllTimed(names)
    ensures AllParse(names, Ages(cutoff))
  {
  }

  /** In a sorted list of timed names, expiry is closed downwards: whatever
      sorts before an expired name is expired too. */
  lemma ExpiredDownwardClosed(names: seq<string>, cutoff: int, i: int, j: int)
    requires Sorted(names) && AllTimed(names)
    requires 0 <= i <= j < |names| && Expired(names[j], cutoff)
    ensures Expired(names[i], cutoff)
  {
    if i < j {
      NameOrderIsTimeOrder(names[i], names[j]);
    }
  }

  lemma SortedIsOldFirst(names: seq<string>, cutoff: int)
    requires Sorted(names) && AllTimed(names)
    ensures OldFirst(names, Ages(cutoff))
  {
    var age := Ages(cutoff);
    var e := OldPrefix(names, age);
    OldPrefixBounds(names, age);
    forall j | 0 <= j < |names| && age(names[j]) == Old
      ensures j < e
    {
      if e <= j {
        ExpiredDownwardClosed(names, cutoff, e, j);
      }
    }
    OldFirstIffOnlyAtHead(names, age);
  }


  /** Both names carry a time and the first is no newer than the second. */
  predicate NoNewer(a: string, b: string) {
    && FileTime(a).Some? && FileTime(b).Some?
    && !Before(FileTime(b).value, FileTime(a).value)
  }

  /** Of two names that carry times, the one that sorts first is no newer. */
  lemma SortedPairIsTimeOrder(a: string, b: string)
    requires FileTime(a).Some? && FileTime(b).Some? && LexLe(a, b)
    ensures NoNewer(a, b)
  {
    if a != b {
      NameOrderIsTimeOrder(a, b);
    }
    EpochOrder(FileTime(b).value, FileTime(a).value);
  }

  // ---------------------------------------------------------------------------
  // The pass with the ages the clock gives

  /** `setWriteToFile(context, maxDays, minCount)` at time `now`: the sweep
      with the age cutoff `maxDays` before now, naming this run's file for
      now. It hangs only on a `.log` name that `FileTime` does not read, and
      the file it names is never among those it deletes. */
  function SetWriteToFile(listing: seq<string>, maxDays: int, minCount: int,
                          now: DateTime, nowMs: Millis, created: bool): (r: Prepared)
    requires maxDays >= DefaultMaxDays && minCount >= DefaultMinCount
    requires Valid(now)
    ensures r.Ready? ==> |r.kept| >= Min(|LogNames(listing)|, minCount)
    ensures r.Ready? ==> r.current == LogFileName(now) && r.current !in r.Deleted()
    ensures r.Hung? ==> r.stuck in listing && IsLogName(r.stuck) && FileTime(r.stuck).None?
  {
    var cutoff := Cutoff(now, nowMs, maxDays);
    var r := Pass(listing, minCount, Ages(cutoff), LogFileName(now), created);
    if r.Ready? then
      CurrentNameNotExpired(now, nowMs, maxDays);
      PassDeletesOnlyOld(listing, minCount, Ages(cutoff), LogFileName(now), created);
      r
    else
      assert AgeOf(r.stuck, cutoff) == Unparseable;
      r
  }

  /** Exactly the expired `.log` files are pruned, as far as the floor
      allows: every pruned file is expired and every listed `.log` file that
      is not expired is kept; this run's file replaces an existing one
      exactly when a file of that name was listed. */
  lemma SetWriteToFileDeletesOnlyExpired(listing: seq<string>, maxDays: int, minCount: int,
                                         now: DateTime, nowMs: Millis, created: bool)
    requires maxDays >= DefaultMaxDays && minCount >= DefaultMinCount && Valid(now)
    requires SetWriteToFile(listing, maxDays, minCount, now, nowMs, created).Ready?
    ensures var r := SetWriteToFile(listing, maxDays, minCount, now, nowMs, created);
            forall i :: 0 <= i < |r.pruned| ==> Expired(r.pruned[i], Cutoff(now, nowMs, maxDays))
    ensures var r := SetWriteToFile(listing, maxDays, minCount, now, nowMs, created);
            forall n :: n in listing && IsLogName(n) && !Expired(n, Cutoff(now, nowMs, maxDays)) ==> n in r.kept
    ensures var r := SetWriteToFile(listing, maxDays, minCount, now, nowMs, created);
            r.replaced <==> LogFileName(now) in listing
  {
    var cutoff := Cutoff(now, nowMs, maxDays);
    CurrentNameNotExpired(now, nowMs, maxDays);
    PassDeletesOnlyOld(listing, minCount, Ages(cutoff), LogFileName(now), created);
    PassKeepsAllButOld(listing, minCount, Ages(cutoff), LogFileName(now), created);
  }

  /** The pass hangs exactly when the pruning loop reaches, above the floor,
      a `.log` name that `FileTime` does not read before it reaches one that
      is not expired. */
  lemma SetWriteToFileHangsExactly(listing: seq<string>, maxDays: int, minCount: int,
                                   now: DateTime, nowMs: Millis, created: bool)
    requires maxDays >= DefaultMaxDays && minCount >= DefaultMinCount && Valid(now)
    ensures var c := Candidates(listing);
            var e := OldPrefix(c, Ages(Cutoff(now, nowMs, maxDays)));
            SetWriteToFile(listing, maxDays, minCount, now, nowMs, created).Hung? <==>
              e < Removable(|c|, minCount) && FileTime(c[e]).None?
  {
    var cutoff := Cutoff(now, nowMs, maxDays);
    var c := Candidates(listing);
    var e := OldPrefix(c, Ages(cutoff));
    PassHangsExactly(listing, minCount, Ages(cutoff), LogFileName(now), created);
    if e < |c| {
      assert Ages(cutoff)(c[e]) == Unparseable <==> FileTime(c[e]).None?;
    }
  }

  /** When every `.log` name in the directory carries a time, so does every
      candidate. */
  lemma CandidatesTimed(listing: seq<string>)
    requires forall n :: n in listing && IsLogName(n) ==> FileTime(n).Some?
    ensures AllTimed(Candidates(listing))
  {
    var c := Candidates(listing);
    forall i | 0 <= i < |c|
      ensures FileTime(c[i]).Some?
    {
      InCandidates(listing, c[i]);
    }
  }

  /** When every `.log` name in the directory carries a time, the pass
      finishes and keeps exactly the files within the age window, or the
      floor's worth of newest files if that is more; above the floor no
      kept file is expired. `cutoff` is this run's cutoff. */
  lemma SetWriteToFileKeepsNewest(listing: seq<string>, maxDays: int, minCount: int,
                                  now: DateTime, nowMs: Millis, created: bool, cutoff: int)
    requires maxDays >= DefaultMaxDays && minCount >= DefaultMinCount && Valid(now)
    requires cutoff == Cutoff(now, nowMs, maxDays)
    requires forall n :: n in listing && IsLogName(n) ==> FileTime(n).Some?
    ensures SetWriteToFile(listing, maxDays, minCount, now, nowMs, created).Ready?
    ensures var r, c := SetWriteToFile(listing, maxDays, minCount, now, nowMs, created), Candidates(listing);
            |r.kept| == Max(|c| - CountOld(c, Ages(cutoff)), Min(|c|, minCount))
    ensures var r := SetWriteToFile(listing, maxDays, minCount, now, nowMs, created);
            |r.kept| > minCount ==> forall i :: 0 <= i < |r.kept| ==> !Expired(r.kept[i], cutoff)
  {
    SetWriteToFileKeptCount(listing, maxDays, minCount, now, nowMs, created, cutoff);
    SetWriteToFileKeptYoung(listing, maxDays, minCount, now, nowMs, created);
  }

  /** With every name timed, the sorted candidates all parse and list the
      expired ones first. */
  lemma CandidatesAgeOldFirst(listing: seq<string>, cutoff: int)
    requires forall n :: n in listing && IsLogName(n) ==> FileTime(n).Some?
    ensures AllParse(Candidates(listing), Ages(cutoff)) && OldFirst(Candidates(listing), Ages(cutoff))
  {
    CandidatesTimed(listing);
    TimedNamesParse(Candidates(listing), cutoff);
    SortedIsOldFirst(Candidates(listing), cutoff);
  }

  /** A finished pass at `cutoff` is the sweep over the ages it assigns. */
  lemma SetWriteToFileIsPass(listing: seq<string>, maxDays: int, minCount: int,
                             now: DateTime, nowMs: Millis, created: bool)
    requires maxDays >= DefaultMaxDays && minCount >= DefaultMinCount && Valid(now)
    ensures SetWriteToFile(listing, maxDays, minCount, now, nowMs, created)
         == Pass(listing, minCount, Ages(Cutoff(now, nowMs, maxDays)), LogFileName(now), created)
  {
  }

  /** The kept count of a sweep over parsed, old-first candidates. */
  lemma AgedPassCount(listing: seq<string>, minCount: int, cutoff: int, current: string, created: bool)
    requires minCount >= 0
    requires AllParse(Candidates(listing), Ages(cutoff)) && OldFirst(Candidates(listing), Ages(cutoff))
    ensures Pass(listing, minCount, Ages(cutoff), current, created).Ready?
    ensures var r, c := Pass(listing, minCount, Ages(cutoff), current, created), Candidates(listing);
            |r.kept| == Max(|c| - CountOld(c, Ages(cutoff)), Min(|c|, minCount))
  {
    PassKeptCount(listing, minCount, Ages(cutoff), current, created);
  }

  /** The kept count of a pass over timed names. */
  lemma SetWriteToFileKeptCount(listing: seq<string>, maxDays: int, minCount: int,
                                now: DateTime, nowMs: Millis, created: bool, cutoff: int)
    requires maxDays >= DefaultMaxDays && minCount >= DefaultMinCount && Valid(now)
    requires cutoff == Cutoff(now, nowMs, maxDays)
    requires forall n :: n in listing && IsLogName(n) ==> FileTime(n).Some?
    ensures SetWriteToFile(listing, maxDays, minCount, now, nowMs, created).Ready?
    ensures var r, c := SetWriteToFile(listing, maxDays, minCount, now, nowMs, created), Candidates(listing);
            |r.kept| == Max(|c| - CountOld(c, Ages(cutoff)), Min(|c|, minCount))
  {
    CandidatesAgeOldFirst(listing, cutoff);
    AgedPassCount(listing, minCount, cutoff, LogFileName(now), created);
    SetWriteToFileIsPass(listing, maxDays, minCount, now, nowMs, created);
  }

  /** Above the floor, a pass over timed names keeps no expired file. */
  lemma SetWriteToFileKeptYoung(listing: seq<string>, maxDays: int, minCount: int,
                                now: DateTime, nowMs: Millis, created: bool)
    requires maxDays >= DefaultMaxDays && minCount >= DefaultMinCount && Valid(now)
    requires forall n :: n in listing && IsLogName(n) ==> FileTime(n).Some?
    ensures var r := SetWriteToFile(listing, maxDays, minCount, now, nowMs, created);
            |r.kept| > minCount ==>
              forall i :: 0 <= i < |r.kept| ==> !Expired(r.kept[i], Cutoff(now, nowMs, maxDays))
  {
    var cutoff := Cutoff(now, nowMs, maxDays);
    CandidatesAgeOldFirst(listing, cutoff);
    PassKeptYoung(listing, minCount, Ages(cutoff), LogFileName(now), created);
    var r := Pass(listing, minCount, Ages(cutoff), LogFileName(now), created);
    assert SetWriteToFile(listing, maxDays, minCount, now, nowMs, created) == r;
    forall i | 0 <= i < |r.kept|
      ensures |r.kept| > minCount ==> !Expired(r.kept[i], cutoff)
    {
      if |r.kept| > minCount {
        assert Ages(cutoff)(r.kept[i]) == Young;
      }
    }
  }

  /** When every `.log` name in the directory carries a time, no pruned
      file is newer than a kept one. */
  lemma SetWriteToFilePrunesOldest(listing: seq<string>, maxDays: int, minCount: int,
                                   now: DateTime, nowMs: Millis, created: bool)
    requires maxDays >= DefaultMaxDays && minCount >= DefaultMinCount && Valid(now)
    requires forall n :: n in listing && IsLogName(n) ==> FileTime(n).Some?
    requires SetWriteToFile(listing, maxDays, minCount, now, nowMs, created).Ready?
    ensures var r := SetWriteToFile(listing, maxDays, minCount, now, nowMs, created);
            forall i, j :: 0 <= i < |r.pruned| && 0 <= j < |r.kept| ==> NoNewer(r.pruned[i], r.kept[j])
  {
    var cutoff := Cutoff(now, nowMs, maxDays);
    var r := Pass(listing, minCount, Ages(cutoff), LogFileName(now), created);
    assert SetWriteToFile(listing, maxDays, minCount, now, nowMs, created) == r;
    forall i, j | 0 <= i < |r.pruned| && 0 <= j < |r.kept|
      ensures NoNewer(r.pruned[i], r.kept[j])
    {
      PassPositions(listing, minCount, Ages(cutoff), LogFileName(now), created, i, j);
      CandidatesInTimeOrder(listing, i, |r.pruned| + j);
    }
  }

  /** Of two timed candidates, the one the loop visits first is no newer. */
  lemma CandidatesInTimeOrder(listing: seq<string>, i: int, j: int)
    requires forall n :: n in listing && IsLogName(n) ==> FileTime(n).Some?
    requires 0 <= i < j < |Candidates(listing)|
    ensures NoNewer(Candidates(listing)[i], Candidates(listing)[j])
  {
    var c := Candidates(listing);
    InCandidates(listing, c[i]);
    InCandidates(listing, c[j]);
    SortedPairIsTimeOrder(c[i], c[j]);
  }

  /** `Initializer.writeToFile(maxDays, minCount)`: clamp, then run the pass.
      At least the clamped floor of files survives (when that many existed),
      so at least two when at least two `.log` files were listed; this run's
      file is never among the deleted, and the pass hangs only on an unread name. */
  function WriteToFile(listing: seq<string>, maxDays: int, minCount: int,
                       now: DateTime, nowMs: Millis, created: bool): (r: Prepared)
    requires Valid(now)
    ensures r.Ready? ==> |r.kept| >= Min(|LogNames(listing)|, EffectiveRetention(maxDays, minCount).1)
    ensures r.Ready? ==> |r.kept| >= Min(|LogNames(listing)|, DefaultMinCount)
    ensures r.Ready? ==> r.current == LogFileName(now) && r.current !in r.Deleted()
    ensures r.Hung? ==> r.stuck in listing && IsLogName(r.stuck) && FileTime(r.stuck).None?
  {
    var p := EffectiveRetention(maxDays, minCount);
    SetWriteToFile(listing, p.0, p.1, now, nowMs, created)
  }
}
