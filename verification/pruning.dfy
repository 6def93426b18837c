/** The pruning loop of the retention pass, over sorted candidate names:

      while (logFiles.size() > minCount) { parse the head's time;
        older than the cutoff: delete it and drop it; otherwise: stop;
        unparseable: swallow the exception and look at the same head again }

    What the loop learns from one name is abstracted as its `Age`, so that
    this module says nothing about calendars; `Retention` supplies the age
    of a name from its time stamp and the cutoff. */
module Pruning {

  /** What the loop learns from the head: its name does not parse, or its
      time is before the cutoff, or it is not. */
  datatype Age = Unparseable | Old | Young

  /** How the loop ends: with the surviving candidates, or not at all,
      spinning on a head whose parse throws (the exception is swallowed and
      the same head comes round again). */
  datatype PruneOutcome = Kept(survivors: seq<string>) | Hangs(stuck: string)

  function Min(a: int, b: int): (m: int) {
    if a <= b then a else b
  }

  function Max(a: int, b: int): (m: int) {
    if a >= b then a else b
  }

  /** How many candidates the loop may remove before it reaches the floor. */
  function Removable(n: int, minCount: int): (k: nat) {
    if n > minCount then n - minCount else 0
  }

  /** The loop over `candidates` with floor `minCount`. */
  function Prune(candidates: seq<string>, minCount: int, age: string -> Age): (r: PruneOutcome)
    requires minCount >= 0
    ensures r.Kept? ==> |r.survivors| <= |candidates|
    ensures r.Kept? ==> |r.survivors| >= Min(|candidates|, minCount)
    ensures r.Hangs? ==> r.stuck in candidates && age(r.stuck) == Unparseable
    decreases |candidates|
  {
    if |candidates| <= minCount then Kept(candidates)
    else match age(candidates[0])
      case Unparseable => Hangs(candidates[0])
      case Old => Prune(candidates[1..], minCount, age)
      case Young => Kept(candidates)
  }

  /** Length of the longest prefix of old names. */
  function OldPrefix(names: seq<string>, age: string -> Age): (e: nat)
    ensures e <= |names|
  {
    if |names| == 0 || age(names[0]) != Old then 0
    else 1 + OldPrefix(names[1..], age)
  }

  /** The prefix is all old and the name after it is not. */
  lemma {:induction false} OldPrefixBounds(names: seq<string>, age: string -> Age)
    ensures var e := OldPrefix(names, age);
            && (forall i :: 0 <= i < e ==> age(names[i]) == Old)
            && (e < |names| ==> age(names[e]) != Old)
  {
    if |names| > 0 && age(names[0]) == Old {
      OldPrefixBounds(names[1..], age);
      assert forall i :: 1 <= i < |names| ==> names[1..][i - 1] == names[i];
    }
  }

  lemma DropAfterTail(s: seq<string>, m: nat)
    requires m < |s|
    ensures s[1..][m..] == s[m + 1..]
  {
  }

  /** The exact outcome: with `e` old names at the head and room to remove
      `k` before the floor, the loop hangs when it reaches an unparseable
      head before either limit, and otherwise removes `min(e, k)` names
      from the front. */
  lemma {:induction false} PruneExact(candidates: seq<string>, minCount: int, age: string -> Age)
    requires minCount >= 0
    ensures var e, k := OldPrefix(candidates, age), Removable(|candidates|, minCount);
            e < k && age(candidates[e]) == Unparseable ==>
              Prune(candidates, minCount, age) == Hangs(candidates[e])
    ensures var e, k := OldPrefix(candidates, age), Removable(|candidates|, minCount);
            !(e < k && age(candidates[e]) == Unparseable) ==>
              Prune(candidates, minCount, age) == Kept(candidates[Min(e, k)..])
    decreases |candidates|
  {
    var c := candidates;
    var e, k := OldPrefix(c, age), Removable(|c|, minCount);
    if |c| <= minCount {
      assert Prune(c, minCount, age) == Kept(c);
      assert k == 0 && Min(e, k) == 0 && c[0..] == c;
    } else if age(c[0]) != Old {
      assert e == 0 && 0 < k && Min(e, k) == 0 && c[0..] == c;
    } else {
      var e1, k1 := OldPrefix(c[1..], age), Removable(|c| - 1, minCount);
      PruneExact(c[1..], minCount, age);
      assert Prune(c, minCount, age) == Prune(c[1..], minCount, age);
      assert e == e1 + 1 && k == k1 + 1;
      if e1 < k1 {
        assert c[1..][e1] == c[e];
      }
      if !(e1 < k1 && age(c[e]) == Unparseable) {
        assert Min(e, k) == Min(e1, k1) + 1;
        DropAfterTail(c, Min(e1, k1));
      }
    }
  }

  /** The survivors are a suffix of the candidates: the loop only ever
      removes the head. */
  lemma PruneKeepsSuffix(candidates: seq<string>, minCount: int, age: string -> Age)
    requires minCount >= 0 && Prune(candidates, minCount, age).Kept?
    ensures var s := Prune(candidates, minCount, age).survivors;
            s == candidates[|candidates| - |s|..]
  {
    PruneExact(candidates, minCount, age);
  }

  /** Every removed candidate was old. */
  lemma PruneRemovesOnlyOld(candidates: seq<string>, minCount: int, age: string -> Age)
    requires minCount >= 0 && Prune(candidates, minCount, age).Kept?
    ensures var s := Prune(candidates, minCount, age).survivors;
            forall i :: 0 <= i < |candidates| - |s| ==> age(candidates[i]) == Old
  {
    PruneExact(candidates, minCount, age);
    OldPrefixBounds(candidates, age);
  }

  /** Above the floor, the loop stopped at a head that parses and is young. */
  lemma PruneStopsAtYoungHead(candidates: seq<string>, minCount: int, age: string -> Age)
    requires minCount >= 0 && Prune(candidates, minCount, age).Kept?
    ensures var s := Prune(candidates, minCount, age).survivors;
            |s| > minCount ==> age(s[0]) == Young
  {
    PruneExact(candidates, minCount, age);
    OldPrefixBounds(candidates, age);
  }

  /** The loop hangs exactly when the first name that is not old, lying
      above the floor, is unparseable. */
  lemma PruneHangsExactly(candidates: seq<string>, minCount: int, age: string -> Age)
    requires minCount >= 0
    ensures var e := OldPrefix(candidates, age);
            Prune(candidates, minCount, age).Hangs? <==>
              e < Removable(|candidates|, minCount) && age(candidates[e]) == Unparseable
  {
    PruneExact(candidates, minCount, age);
  }

  /** When every name parses, the loop removes the old head names, up to
      the floor. */
  lemma PruneRemovesOldPrefix(candidates: seq<string>, minCount: int, age: string -> Age)
    requires minCount >= 0 && AllParse(candidates, age)
    ensures Prune(candidates, minCount, age) ==
            Kept(candidates[Min(OldPrefix(candidates, age), Removable(|candidates|, minCount))..])
  {
    PruneExact(candidates, minCount, age);
    var e := OldPrefix(candidates, age);
    if e < Removable(|candidates|, minCount) {
      assert age(candidates[e]) != Unparseable;
    }
  }

  lemma PruneRemovedCount(candidates: seq<string>, minCount: int, age: string -> Age)
    requires minCount >= 0 && AllParse(candidates, age)
    ensures Prune(candidates, minCount, age).Kept?
    ensures |Prune(candidates, minCount, age).survivors| ==
            |candidates| - Min(OldPrefix(candidates, age), Removable(|candidates|, minCount))
  {
    PruneRemovesOldPrefix(candidates, minCount, age);
  }

  /** Every name parses. */
  predicate AllParse(names: seq<string>, age: string -> Age) {
    forall i :: 0 <= i < |names| ==> age(names[i]) != Unparseable
  }

  lemma ParsedNamesNeverHang(candidates: seq<string>, minCount: int, age: string -> Age)
    requires minCount >= 0 && AllParse(candidates, age)
    ensures Prune(candidates, minCount, age).Kept?
  {
    PruneHangsExactly(candidates, minCount, age);
  }

  /** Old names come first (what sorting by a name that spells the time
      achieves): counting the old names gives the length of the leading
      run of old names. */
  predicate OldFirst(names: seq<string>, age: string -> Age) {
    CountOld(names, age) == OldPrefix(names, age)
  }

  /** Every old name lies in the leading run of old names. */
  predicate OldOnlyAtHead(names: seq<string>, age: string -> Age) {
    forall j :: 0 <= j < |names| && age(names[j]) == Old ==> j < OldPrefix(names, age)
  }

  /** An old name counts. */
  lemma {:induction false} OldNameCounts(names: seq<string>, age: string -> Age, j: int)
    requires 0 <= j < |names| && age(names[j]) == Old
    ensures CountOld(names, age) > 0
  {
    if j > 0 && age(names[0]) != Old {
      assert names[1..][j - 1] == names[j];
      OldNameCounts(names[1..], age, j - 1);
    }
  }

  /** An old name beyond the leading run counts on top of the run. */
  lemma {:induction false} OldBeyondPrefix(names: seq<string>, age: string -> Age, j: int)
    requires 0 <= j < |names| && age(names[j]) == Old && OldPrefix(names, age) <= j
    ensures CountOld(names, age) > OldPrefix(names, age)
  {
    if age(names[0]) == Old {
      assert names[1..][j - 1] == names[j];
      OldBeyondPrefix(names[1..], age, j - 1);
    } else {
      OldNameCounts(names, age, j);
    }
  }

  /** The two readings of "old names come first" agree. */
  lemma {:induction false} OldFirstIffOnlyAtHead(names: seq<string>, age: string -> Age)
    ensures OldFirst(names, age) <==> OldOnlyAtHead(names, age)
  {
    if OldFirst(names, age) {
      forall j | 0 <= j < |names| && age(names[j]) == Old
        ensures j < OldPrefix(names, age)
      {
        if OldPrefix(names, age) <= j {
          OldBeyondPrefix(names, age, j);
        }
      }
    }
    if OldOnlyAtHead(names, age) && |names| > 0 {
      var tail := names[1..];
      if age(names[0]) == Old {
        assert OldOnlyAtHead(tail, age) by {
          forall j | 0 <= j < |tail| && age(tail[j]) == Old
            ensures j < OldPrefix(tail, age)
          {
            assert tail[j] == names[j + 1];
          }
        }
        OldFirstIffOnlyAtHead(tail, age);
      } else {
        assert forall j :: 0 <= j < |tail| ==> tail[j] == names[j + 1];
        NoneOldCountsZero(tail, age);
      }
    }
  }

  /** With old names first, nothing after a name that is not old is old. */
  lemma YoungAfter(names: seq<string>, age: string -> Age, d: int, j: int)
    requires OldFirst(names, age)
    requires 0 <= d <= j < |names| && age(names[d]) != Old
    ensures age(names[j]) != Old
  {
    OldPrefixBounds(names, age);
    if age(names[j]) == Old {
      OldBeyondPrefix(names, age, j);
    }
  }

  /** The `i`-th survivor is the candidate that many places past the
      removed ones. */
  lemma SurvivorAt(candidates: seq<string>, minCount: int, age: string -> Age, i: int)
    requires minCount >= 0 && Prune(candidates, minCount, age).Kept?
    requires 0 <= i < |Prune(candidates, minCount, age).survivors|
    ensures var s := Prune(candidates, minCount, age).survivors;
            s[i] == candidates[|candidates| - |s| + i]
  {
    PruneKeepsSuffix(candidates, minCount, age);
  }

  /** With old names first and all parsing: above the floor, no survivor is
      old, so the loop keeps the young names and only as many old ones as
      the floor needs. */
  lemma SurvivorsAreYoung(candidates: seq<string>, minCount: int, age: string -> Age)
    requires minCount >= 0 && OldFirst(candidates, age) && AllParse(candidates, age)
    ensures Prune(candidates, minCount, age).Kept?
    ensures var s := Prune(candidates, minCount, age).survivors;
            |s| > minCount ==> forall i :: 0 <= i < |s| ==> age(s[i]) == Young
  {
    ParsedNamesNeverHang(candidates, minCount, age);
    var s := Prune(candidates, minCount, age).survivors;
    if |s| > minCount {
      var d := |candidates| - |s|;
      PruneStopsAtYoungHead(candidates, minCount, age);
      SurvivorAt(candidates, minCount, age, 0);
      forall i | 0 <= i < |s|
        ensures age(s[i]) == Young
      {
        SurvivorAt(candidates, minCount, age, i);
        YoungAfter(candidates, age, d, d + i);
      }
    }
  }

  /** Number of old names, wherever they stand. */
  function CountOld(names: seq<string>, age: string -> Age): (n: nat)
    ensures n <= |names|
  {
    if |names| == 0 then 0
    else (if age(names[0]) == Old then 1 else 0) + CountOld(names[1..], age)
  }

  lemma {:induction false} NoneOldCountsZero(names: seq<string>, age: string -> Age)
    requires forall i :: 0 <= i < |names| ==> age(names[i]) != Old
    ensures CountOld(names, age) == 0
  {
    if |names| > 0 {
      assert forall i :: 0 <= i < |names| - 1 ==> names[1..][i] == names[i + 1];
      NoneOldCountsZero(names[1..], age);
    }
  }

  /** With every name parsing, the survivors are all but the old head
      names, down to the floor. */
  lemma SurvivorCountByPrefix(candidates: seq<string>, minCount: int, age: string -> Age)
    requires minCount >= 0 && AllParse(candidates, age)
    ensures Prune(candidates, minCount, age).Kept?
    ensures |Prune(candidates, minCount, age).survivors| ==
            Max(|candidates| - OldPrefix(candidates, age), Min(|candidates|, minCount))
  {
    PruneRemovedCount(candidates, minCount, age);
    RemovedCount(|candidates|, OldPrefix(candidates, age), minCount);
  }

  /** The survivor count: all the young names, or the floor (never more
      names than there were) if that is larger. */
  lemma SurvivorCount(candidates: seq<string>, minCount: int, age: string -> Age)
    requires minCount >= 0 && OldFirst(candidates, age) && AllParse(candidates, age)
    ensures Prune(candidates, minCount, age).Kept?
    ensures |Prune(candidates, minCount, age).survivors| ==
            Max(|candidates| - CountOld(candidates, age), Min(|candidates|, minCount))
  {
    SurvivorCountByPrefix(candidates, minCount, age);
  }

  lemma RemovedCount(n: int, e: int, minCount: int)
    requires 0 <= e <= n && minCount >= 0
    ensures n - Min(e, Removable(n, minCount)) == Max(n - e, Min(n, minCount))
  {
  }

}
