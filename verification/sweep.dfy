/** The directory sweep of the retention pass, for any way of telling a
    name's age: split the listing into `.log` names and the rest, sort the
    `.log` names, prune them from the oldest end, and create this run's
    file. `Retention` supplies the age from the time a name carries. */
module Sweep {
  import opened Text
  import opened Sorting
  import opened Pruning

  const LogSuffix := ".log"
  const ZipFileName := "log.zip"

  predicate IsLogName(name: string) {
    EndsWith(name, LogSuffix)
  }

  // ---------------------------------------------------------------------------
  // Partition of the directory listing

  /** The entries that become pruning candidates. */
  function LogNames(listing: seq<string>): (r: seq<string>)
    ensures |r| <= |listing|
  {
    if |listing| == 0 then []
    else (if IsLogName(listing[0]) then [listing[0]] else []) + LogNames(listing[1..])
  }

  /** The entries deleted at once for not being `.log` files. */
  function OtherNames(listing: seq<string>): (r: seq<string>)
    ensures |r| <= |listing|
  {
    if |listing| == 0 then []
    else (if IsLogName(listing[0]) then [] else [listing[0]]) + OtherNames(listing[1..])
  }

  lemma {:induction false} InLogNames(listing: seq<string>, n: string)
    ensures n in LogNames(listing) <==> n in listing && IsLogName(n)
  {
    if |listing| > 0 {
      InLogNames(listing[1..], n);
      assert listing == [listing[0]] + listing[1..];
    }
  }

  lemma {:induction false} InOtherNames(listing: seq<string>, n: string)
    ensures n in OtherNames(listing) <==> n in listing && !IsLogName(n)
  {
    if |listing| > 0 {
      InOtherNames(listing[1..], n);
      assert listing == [listing[0]] + listing[1..];
    }
  }

  /** Each entry lands on exactly one side, as often as it was listed. */
  lemma {:induction false} PartitionByName(listing: seq<string>)
    ensures multiset(LogNames(listing)) + multiset(OtherNames(listing)) == multiset(listing)
  {
    if |listing| > 0 {
      var head, tail := listing[0], listing[1..];
      PartitionByName(tail);
      assert listing == [head] + tail;
      if IsLogName(head) {
        assert LogNames(listing) == [head] + LogNames(tail);
        assert OtherNames(listing) == OtherNames(tail);
      } else {
        assert LogNames(listing) == LogNames(tail);
        assert OtherNames(listing) == [head] + OtherNames(tail);
      }
    }
  }

  // ---------------------------------------------------------------------------
  // The sweep

  /** What the pass leaves behind: it hangs, or it has asked to delete the
      entries that are not `.log` files (`junk`; `log.zip` is deleted before
      the listing, so it shows up here only if that first delete failed) and
      the expired candidates (`pruned`), kept the other candidates, and
      created this run's file `current`, deleting it first when a file of
      that name was kept (`replaced`); `fileLogging` is false when
      `createNewFile` threw. */
  datatype Prepared =
    | Hung(stuck: string)
    | Ready(junk: seq<string>, pruned: seq<string>, kept: seq<string>,
            current: string, replaced: bool, fileLogging: bool)
  {
    function Deleted(): (deleted: seq<string>)
      requires Ready?
    {
      junk + pruned
    }
  }

  /** The pruning candidates, in the order the loop visits them. */
  function Candidates(listing: seq<string>): (c: seq<string>)
    ensures Sorted(c)
    ensures multiset(c) == multiset(LogNames(listing))
    ensures |c| == |LogNames(listing)|
  {
    var c := SortNames(LogNames(listing));
    assert |c| == |multiset(c)|;
    c
  }

  lemma InCandidates(listing: seq<string>, n: string)
    ensures n in Candidates(listing) <==> n in listing && IsLogName(n)
  {
    assert n in Candidates(listing) <==> n in multiset(LogNames(listing));
    InLogNames(listing, n);
  }

  /** The sweep over the names listed in the log directory (an absent
      listing is the empty one), telling ages by `age`, for this run's file
      name `current`; `created` is false when `createNewFile` throws. */
  function Pass(listing: seq<string>, minCount: int, age: string -> Age,
                current: string, created: bool): (r: Prepared)
    requires minCount >= 0
    ensures r.Ready? ==> |r.kept| >= Min(|LogNames(listing)|, minCount)
    ensures r.Ready? ==> r.current == current && r.fileLogging == created
    ensures r.Hung? ==> r.stuck in listing && IsLogName(r.stuck) && age(r.stuck) == Unparseable
  {
    var candidates := Candidates(listing);
    match Prune(candidates, minCount, age)
    case Hangs(name) =>
      InCandidates(listing, name);
      Hung(name)
    case Kept(survivors) =>
      Ready(OtherNames(listing), candidates[..|candidates| - |survivors|],
            survivors, current, current in survivors, created)
  }

  /** The pruned and kept names of a finished pass, in terms of the loop. */
  lemma PassParts(listing: seq<string>, minCount: int, age: string -> Age,
                  current: string, created: bool)
    requires minCount >= 0
    requires Pass(listing, minCount, age, current, created).Ready?
    ensures var r, c := Pass(listing, minCount, age, current, created), Candidates(listing);
            && Prune(c, minCount, age).Kept?
            && r.junk == OtherNames(listing)
            && r.kept == Prune(c, minCount, age).survivors
            && r.pruned == c[..|c| - |r.kept|]
  {
  }

  /** The sorted candidates split into the pruned prefix and the kept
      suffix. */
  lemma PassSplitsCandidates(listing: seq<string>, minCount: int, age: string -> Age,
                             current: string, created: bool)
    requires minCount >= 0
    requires Pass(listing, minCount, age, current, created).Ready?
    ensures var r := Pass(listing, minCount, age, current, created);
            Candidates(listing) == r.pruned + r.kept
  {
    var c := Candidates(listing);
    PassParts(listing, minCount, age, current, created);
    PruneKeepsSuffix(c, minCount, age);
  }

  /** Where a pruned and a kept name stand among the candidates. */
  lemma PassPositions(listing: seq<string>, minCount: int, age: string -> Age,
                      current: string, created: bool, i: int, j: int)
    requires minCount >= 0
    requires Pass(listing, minCount, age, current, created).Ready?
    requires var r := Pass(listing, minCount, age, current, created);
             0 <= i < |r.pruned| && 0 <= j < |r.kept|
    ensures var r, c := Pass(listing, minCount, age, current, created), Candidates(listing);
            && |r.pruned| + j < |c|
            && r.pruned[i] == c[i] && r.kept[j] == c[|r.pruned| + j]
  {
    PassSplitsCandidates(listing, minCount, age, current, created);
  }

  /** Every listed entry is deleted or kept, as often as it was listed;
      the entries that are not `.log` files are exactly the junk, and the
      sorted candidates split into a pruned prefix and a kept suffix. */
  lemma PassAccountsForEveryEntry(listing: seq<string>, minCount: int, age: string -> Age,
                                  current: string, created: bool)
    requires minCount >= 0
    requires Pass(listing, minCount, age, current, created).Ready?
    ensures var r := Pass(listing, minCount, age, current, created);
            multiset(r.junk) + multiset(r.pruned) + multiset(r.kept) == multiset(listing)
    ensures var r := Pass(listing, minCount, age, current, created);
            forall n :: n in r.junk <==> n in listing && !IsLogName(n)
    ensures var r := Pass(listing, minCount, age, current, created);
            forall n :: n in r.pruned || n in r.kept ==> IsLogName(n)
    ensures var r := Pass(listing, minCount, age, current, created);
            Candidates(listing) == r.pruned + r.kept
  {
    var r := Pass(listing, minCount, age, current, created);
    PassParts(listing, minCount, age, current, created);
    PassSplitsCandidates(listing, minCount, age, current, created);
    assert multiset(r.pruned) + multiset(r.kept) == multiset(LogNames(listing)) by {
      assert multiset(r.pruned + r.kept) == multiset(Candidates(listing));
    }
    PartitionByName(listing);
    forall n
      ensures n in r.junk <==> n in listing && !IsLogName(n)
    {
      InOtherNames(listing, n);
    }
    forall n | n in r.pruned || n in r.kept
      ensures IsLogName(n)
    {
      InCandidates(listing, n);
    }
  }

  /** A `.log` file is deleted only if it was old, so a `.log` name that is
      not old, such as this run's own, is never deleted; it is replaced
      exactly when it was already listed. */
  lemma PassDeletesOnlyOld(listing: seq<string>, minCount: int, age: string -> Age,
                           current: string, created: bool)
    requires minCount >= 0 && IsLogName(current) && age(current) != Old
    requires Pass(listing, minCount, age, current, created).Ready?
    ensures var r := Pass(listing, minCount, age, current, created);
            forall i :: 0 <= i < |r.pruned| ==> age(r.pruned[i]) == Old
    ensures var r := Pass(listing, minCount, age, current, created);
            r.current !in r.Deleted() && (r.replaced <==> r.current in listing)
  {
    var r := Pass(listing, minCount, age, current, created);
    var c := Candidates(listing);
    PassParts(listing, minCount, age, current, created);
    PassSplitsCandidates(listing, minCount, age, current, created);
    PruneRemovesOnlyOld(c, minCount, age);
    forall i | 0 <= i < |r.pruned|
      ensures age(r.pruned[i]) == Old
    {
      assert r.pruned[i] == c[i];
    }
    InOtherNames(listing, current);
    InCandidates(listing, current);
  }

  /** Conversely, every listed `.log` name that is not old is kept. */
  lemma PassKeepsAllButOld(listing: seq<string>, minCount: int, age: string -> Age,
                           current: string, created: bool)
    requires minCount >= 0
    requires Pass(listing, minCount, age, current, created).Ready?
    ensures var r := Pass(listing, minCount, age, current, created);
            forall n :: n in listing && IsLogName(n) && age(n) != Old ==> n in r.kept
  {
    var r := Pass(listing, minCount, age, current, created);
    var c := Candidates(listing);
    PassParts(listing, minCount, age, current, created);
    PassSplitsCandidates(listing, minCount, age, current, created);
    PruneRemovesOnlyOld(c, minCount, age);
    forall n | n in listing && IsLogName(n) && age(n) != Old
      ensures n in r.kept
    {
      InCandidates(listing, n);
      var k :| 0 <= k < |c| && c[k] == n;
      assert k >= |r.pruned|;
      assert r.kept[k - |r.pruned|] == n;
    }
  }

  /** The pass hangs exactly when the pruning loop reaches, above the floor,
      a name that does not parse before it reaches one that is not old. */
  lemma PassHangsExactly(listing: seq<string>, minCount: int, age: string -> Age,
                         current: string, created: bool)
    requires minCount >= 0
    ensures var c := Candidates(listing);
            var e := OldPrefix(c, age);
            Pass(listing, minCount, age, current, created).Hung? <==>
              e < Removable(|c|, minCount) && age(c[e]) == Unparseable
  {
    PruneHangsExactly(Candidates(listing), minCount, age);
  }

  /** When every candidate parses the pass finishes, keeping what the
      pruning loop leaves. */
  lemma PassFinishesWhenParsed(listing: seq<string>, minCount: int, age: string -> Age,
                               current: string, created: bool)
    requires minCount >= 0 && AllParse(Candidates(listing), age)
    ensures var r := Pass(listing, minCount, age, current, created);
            r.Ready? && r.kept == Prune(Candidates(listing), minCount, age).survivors
  {
    ParsedNamesNeverHang(Candidates(listing), minCount, age);
  }

  /** The survivor count for the candidates of a listing. */
  lemma CandidatesSurvivorCount(listing: seq<string>, minCount: int, age: string -> Age)
    requires minCount >= 0
    requires AllParse(Candidates(listing), age) && OldFirst(Candidates(listing), age)
    ensures var c := Candidates(listing);
            |Prune(c, minCount, age).survivors| == Max(|c| - CountOld(c, age), Min(|c|, minCount))
  {
    SurvivorCount(Candidates(listing), minCount, age);
  }

  /** How many files a pass over parsed, old-first candidates keeps. */
  lemma PassKeptCount(listing: seq<string>, minCount: int, age: string -> Age,
                      current: string, created: bool)
    requires minCount >= 0
    requires AllParse(Candidates(listing), age) && OldFirst(Candidates(listing), age)
    ensures Pass(listing, minCount, age, current, created).Ready?
    ensures var r, c := Pass(listing, minCount, age, current, created), Candidates(listing);
            |r.kept| == Max(|c| - CountOld(c, age), Min(|c|, minCount))
  {
    PassFinishesWhenParsed(listing, minCount, age, current, created);
    CandidatesSurvivorCount(listing, minCount, age);
  }

  /** Above the floor, a pass over parsed, old-first candidates keeps only
      young files. */
  lemma PassKeptYoung(listing: seq<string>, minCount: int, age: string -> Age,
                      current: string, created: bool)
    requires minCount >= 0
    requires AllParse(Candidates(listing), age) && OldFirst(Candidates(listing), age)
    ensures var r := Pass(listing, minCount, age, current, created);
            r.Ready? && (|r.kept| > minCount ==> forall i :: 0 <= i < |r.kept| ==> age(r.kept[i]) == Young)
  {
    PassFinishesWhenParsed(listing, minCount, age, current, created);
    SurvivorsAreYoung(Candidates(listing), minCount, age);
  }

  /** When the candidates all parse and the old ones come first, the pass
      finishes and keeps exactly the young files, or the floor's worth of
      newest files if that is more; above the floor nothing old is kept. */
  lemma PassKeepsNewest(listing: seq<string>, minCount: int, age: string -> Age,
                        current: string, created: bool)
    requires minCount >= 0
    requires AllParse(Candidates(listing), age) && OldFirst(Candidates(listing), age)
    ensures Pass(listing, minCount, age, current, created).Ready?
    ensures var r, c := Pass(listing, minCount, age, current, created), Candidates(listing);
            |r.kept| == Max(|c| - CountOld(c, age), Min(|c|, minCount))
    ensures var r := Pass(listing, minCount, age, current, created);
            |r.kept| > minCount ==> forall i :: 0 <= i < |r.kept| ==> age(r.kept[i]) == Young
  {
    PassFinishesWhenParsed(listing, minCount, age, current, created);
    PassKeptCount(listing, minCount, age, current, created);
    PassKeptYoung(listing, minCount, age, current, created);
  }
}
