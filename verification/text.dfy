/** Strings as the Java code sees them: `String.compareTo` order, `endsWith`,
    and fixed-width zero-padded decimal fields with their parser. */
module Text {

  datatype Option<+T> = None | Some(value: T)

  /** `a.compareTo(b) < 0`: the first differing character decides, and a
      proper prefix sorts first. Java compares UTF-16 code units and a Dafny
      `char` is a code point; the two orders agree on names made of
      characters below U+D800 or from U+E000 to U+FFFF, which covers every
      name the logger writes. */
  predicate LexLess(a: string, b: string)
    decreases |a|
  {
    if |a| == 0 then |b| > 0
    else if |b| == 0 then false
    else if a[0] != b[0] then a[0] < b[0]
    else LexLess(a[1..], b[1..])
  }

  /** `a.compareTo(b) <= 0`. */
  predicate LexLe(a: string, b: string) {
    a == b || LexLess(a, b)
  }

  lemma {:induction false} LexLessIrreflexive(a: string)
    ensures !LexLess(a, a)
    decreases |a|
  {
    if |a| > 0 {
      LexLessIrreflexive(a[1..]);
    }
  }

  lemma {:induction false} LexLessTransitive(a: string, b: string, c: string)
    requires LexLess(a, b) && LexLess(b, c)
    ensures LexLess(a, c)
    decreases |a|
  {
    if |a| > 0 && a[0] == b[0] && b[0] == c[0] {
      LexLessTransitive(a[1..], b[1..], c[1..]);
    }
  }

  lemma {:induction false} LexLessTotal(a: string, b: string)
    ensures a == b || LexLess(a, b) || LexLess(b, a)
    decreases |a|
  {
    if |a| > 0 && |b| > 0 && a[0] == b[0] {
      LexLessTotal(a[1..], b[1..]);
      if a[1..] == b[1..] {
        assert a == [a[0]] + a[1..] && b == [b[0]] + b[1..];
      }
    }
  }

  lemma LexLessAsymmetric(a: string, b: string)
    requires LexLess(a, b)
    ensures !LexLess(b, a)
  {
    if LexLess(b, a) {
      LexLessTransitive(a, b, a);
      LexLessIrreflexive(a);
    }
  }

  lemma LexLeTransitive(a: string, b: string, c: string)
    requires LexLe(a, b) && LexLe(b, c)
    ensures LexLe(a, c)
  {
    if a != b && b != c {
      LexLessTransitive(a, b, c);
    }
  }

  /** `!LexLess(b, a)` is the same as `LexLe(a, b)`. */
  lemma NotLessIsLe(a: string, b: string)
    ensures !LexLess(b, a) <==> LexLe(a, b)
  {
    LexLessTotal(a, b);
    if LexLess(a, b) {
      LexLessAsymmetric(a, b);
    }
    if a == b {
      LexLessIrreflexive(a);
    }
  }

  /** Comparing two strings that start with prefixes of equal length: the
      prefixes decide unless they are equal, then the rest decides. */
  lemma {:induction false} LexLessConcat(p1: string, q1: string, p2: string, q2: string)
    requires |p1| == |p2|
    ensures LexLess(p1 + q1, p2 + q2) <==> LexLess(p1, p2) || (p1 == p2 && LexLess(q1, q2))
    decreases |p1|
  {
    if |p1| == 0 {
      assert p1 + q1 == q1 && p2 + q2 == q2;
      LexLessIrreflexive(p1);
    } else {
      assert (p1 + q1)[0] == p1[0] && (p2 + q2)[0] == p2[0];
      assert (p1 + q1)[1..] == p1[1..] + q1;
      assert (p2 + q2)[1..] == p2[1..] + q2;
      LexLessConcat(p1[1..], q1, p2[1..], q2);
      if p1[0] == p2[0] {
        assert p1 == p2 <==> p1[1..] == p2[1..] by {
          assert p1 == [p1[0]] + p1[1..] && p2 == [p2[0]] + p2[1..];
        }
      }
    }
  }

  /** `s.endsWith(suffix)`. */
  predicate EndsWith(s: string, suffix: string) {
    |s| >= |suffix| && s[|s| - |suffix|..] == suffix
  }

  // ---------------------------------------------------------------------------
  // Zero-padded decimal fields (the digits of SimpleDateFormat's `yyyy`, `MM`,
  // `SSS`, ...)

  predicate IsDigit(c: char) {
    '0' <= c <= '9'
  }

  function DigitChar(d: int): (c: char)
    requires 0 <= d < 10
    ensures IsDigit(c)
  {
    ('0' as int + d) as char
  }

  function DigitValue(c: char): (d: int)
    requires IsDigit(c)
    ensures 0 <= d < 10
  {
    c as int - '0' as int
  }

  function Pow10(w: nat): (p: nat)
    ensures p >= 1
  {
    if w == 0 then 1 else 10 * Pow10(w - 1)
  }

  /** `n` written with exactly `w` decimal digits, most significant first. */
  function Pad(n: int, w: nat): (s: string)
    requires 0 <= n < Pow10(w)
    ensures |s| == w
  {
    if w == 0 then "" else Pad(n / 10, w - 1) + [DigitChar(n % 10)]
  }

  /** The number a string of decimal digits denotes; `None` as soon as one
      character is not a digit. */
  function DigitsValue(s: string): (r: Option<int>)
    ensures r.Some? ==> 0 <= r.value < Pow10(|s|)
  {
    if |s| == 0 then Some(0)
    else if !IsDigit(s[|s| - 1]) then None
    else match DigitsValue(s[..|s| - 1])
      case None => None
      case Some(n) => Some(10 * n + DigitValue(s[|s| - 1]))
  }

  lemma {:induction false} PadRoundTrip(n: int, w: nat)
    requires 0 <= n < Pow10(w)
    ensures DigitsValue(Pad(n, w)) == Some(n)
  {
    if w > 0 {
      var s := Pad(n, w);
      assert s[..w - 1] == Pad(n / 10, w - 1);
      assert s[w - 1] == DigitChar(n % 10);
      PadRoundTrip(n / 10, w - 1);
    }
  }

  /** A string of digits is the padding of its own value: the field parser
      accepts exactly one spelling per value. */
  lemma {:induction false} PadCanonical(s: string)
    requires DigitsValue(s).Some?
    ensures Pad(DigitsValue(s).value, |s|) == s
  {
    if |s| > 0 {
      var n := DigitsValue(s).value;
      var init := s[..|s| - 1];
      var m := DigitsValue(init).value;
      assert n == 10 * m + DigitValue(s[|s| - 1]);
      assert n / 10 == m && n % 10 == DigitValue(s[|s| - 1]);
      PadCanonical(init);
      assert s == init + [s[|s| - 1]];
    }
  }

  lemma PadInjective(a: int, b: int, w: nat)
    requires 0 <= a < Pow10(w) && 0 <= b < Pow10(w)
    ensures Pad(a, w) == Pad(b, w) <==> a == b
  {
    if Pad(a, w) == Pad(b, w) {
      PadRoundTrip(a, w);
      PadRoundTrip(b, w);
    }
  }

  /** Equal-width padded numbers compare as strings exactly as they compare
      as numbers: the reason file names sort by time. */
  lemma {:induction false} PadOrder(a: int, b: int, w: nat)
    requires 0 <= a < Pow10(w) && 0 <= b < Pow10(w)
    ensures LexLess(Pad(a, w), Pad(b, w)) <==> a < b
  {
    if w == 0 {
      LexLessIrreflexive("");
    } else {
      var ha, hb := Pad(a / 10, w - 1), Pad(b / 10, w - 1);
      var da, db := [DigitChar(a % 10)], [DigitChar(b % 10)];
      LexLessConcat(ha, da, hb, db);
      PadOrder(a / 10, b / 10, w - 1);
      PadInjective(a / 10, b / 10, w - 1);
      assert LexLess(da, db) <==> a % 10 < b % 10;
    }
  }

  // ---------------------------------------------------------------------------
  // Layouts: several padded fields joined by one separator character each

  /** A field layout: the width of each field and the separator after every
      field but the last. */
  datatype Layout = Layout(widths: seq<nat>, seps: seq<char>)

  predicate WellFormed(l: Layout) {
    |l.widths| >= 1 && |l.seps| == |l.widths| - 1
  }

  /** `vs` fits `l`: one value per field, each within its field's width. */
  predicate Fits(vs: seq<int>, l: Layout) {
    WellFormed(l) && |vs| == |l.widths| &&
    forall i :: 0 <= i < |vs| ==> 0 <= vs[i] < Pow10(l.widths[i])
  }

  function Tail(l: Layout): (tail: Layout)
    requires WellFormed(l) && |l.widths| > 1
  {
    Layout(l.widths[1..], l.seps[1..])
  }

  /** Length of every string rendered with `l`. */
  function Width(l: Layout): (w: nat)
    requires WellFormed(l)
    decreases |l.widths|
  {
    l.widths[0] + if |l.widths| == 1 then 0 else 1 + Width(Tail(l))
  }

  function Render(vs: seq<int>, l: Layout): (s: string)
    requires Fits(vs, l)
    ensures |s| == Width(l)
    decreases |vs|
  {
    Pad(vs[0], l.widths[0]) +
    if |vs| == 1 then "" else [l.seps[0]] + Render(vs[1..], Tail(l))
  }

  /** The strict parser of a layout: every field has exactly its width of
      digits, every separator is present, nothing follows. */
  function Unrender(s: string, l: Layout): (r: Option<seq<int>>)
    requires WellFormed(l)
    ensures r.Some? ==> |r.value| == |l.widths|
    decreases |l.widths|
  {
    var w := l.widths[0];
    if |s| < w then None
    else match DigitsValue(s[..w])
      case None => None
      case Some(v) =>
        if |l.widths| == 1 then
          if |s| == w then Some([v]) else None
        else if |s| == w || s[w] != l.seps[0] then None
        else match Unrender(s[w + 1..], Tail(l))
          case None => None
          case Some(rest) => Some([v] + rest)
  }

  /** What the parser accepts fits the layout. */
  lemma {:induction false} UnrenderFits(s: string, l: Layout)
    requires WellFormed(l) && Unrender(s, l).Some?
    ensures Fits(Unrender(s, l).value, l)
    decreases |l.widths|
  {
    var vs := Unrender(s, l).value;
    UnrenderHead(s, l);
    if |l.widths| > 1 {
      var w := l.widths[0];
      UnrenderFits(s[w + 1..], Tail(l));
      FitsCons(vs[0], vs[1..], l);
    }
  }

  /** A parse reads its first field from the first field's width of text,
      and the rest, if any, from what follows the separator. */
  lemma UnrenderHead(s: string, l: Layout)
    requires WellFormed(l) && Unrender(s, l).Some?
    ensures var vs, w := Unrender(s, l).value, l.widths[0];
            && |s| >= w && 0 <= vs[0] < Pow10(w)
            && (|l.widths| > 1 ==> && |s| > w && Unrender(s[w + 1..], Tail(l)).Some?
                                   && vs[1..] == Unrender(s[w + 1..], Tail(l)).value)
  {
  }

  /** A first value within its width, before values that fit the rest of
      the layout, fits the layout. */
  lemma FitsCons(v: int, rest: seq<int>, l: Layout)
    requires WellFormed(l) && |l.widths| > 1
    requires 0 <= v < Pow10(l.widths[0]) && Fits(rest, Tail(l))
    ensures Fits([v] + rest, l)
  {
    assert forall i :: 1 <= i < |rest| + 1 ==> ([v] + rest)[i] == rest[i - 1] && l.widths[i] == Tail(l).widths[i - 1];
  }

  /** A rendering starts with its first field, padded, and goes on with
      the separator and the rendering of the other fields. */
  lemma RenderHead(vs: seq<int>, l: Layout)
    requires Fits(vs, l)
    ensures var s, w := Render(vs, l), l.widths[0];
            && |s| >= w && s[..w] == Pad(vs[0], w)
            && (|vs| == 1 ==> |s| == w)
            && (|vs| > 1 ==> && |s| > w && s[w] == l.seps[0] && Fits(vs[1..], Tail(l))
                             && s[w + 1..] == Render(vs[1..], Tail(l)))
  {
    if |vs| > 1 {
      assert Fits(vs[1..], Tail(l)) by {
        assert forall i :: 0 <= i < |vs| - 1 ==> vs[1..][i] == vs[i + 1] && Tail(l).widths[i] == l.widths[i + 1];
      }
    }
  }

  lemma UnrenderLast(s: string, l: Layout, v: int)
    requires WellFormed(l) && |l.widths| == 1 && |s| == l.widths[0] && DigitsValue(s) == Some(v)
    ensures Unrender(s, l) == Some([v])
  {
    assert s[..l.widths[0]] == s;
  }

  lemma UnrenderCons(s: string, l: Layout, v: int, rest: seq<int>)
    requires WellFormed(l) && |l.widths| > 1 && |s| > l.widths[0]
    requires DigitsValue(s[..l.widths[0]]) == Some(v) && s[l.widths[0]] == l.seps[0]
    requires Unrender(s[l.widths[0] + 1..], Tail(l)) == Some(rest)
    ensures Unrender(s, l) == Some([v] + rest)
  {
  }

  lemma {:induction false} UnrenderRender(vs: seq<int>, l: Layout)
    requires Fits(vs, l)
    ensures Unrender(Render(vs, l), l) == Some(vs)
    decreases |vs|
  {
    var s, w := Render(vs, l), l.widths[0];
    RenderHead(vs, l);
    PadRoundTrip(vs[0], w);
    if |vs| == 1 {
      assert s == s[..w];
      UnrenderLast(s, l, vs[0]);
      assert vs == [vs[0]];
    } else {
      UnrenderRender(vs[1..], Tail(l));
      UnrenderCons(s, l, vs[0], vs[1..]);
      assert vs == [vs[0]] + vs[1..];
    }
  }

  lemma {:induction false} RenderUnrender(s: string, l: Layout)
    requires WellFormed(l) && Unrender(s, l).Some?
    ensures Fits(Unrender(s, l).value, l) && Render(Unrender(s, l).value, l) == s
    decreases |l.widths|
  {
    var vs := Unrender(s, l).value;
    var w := l.widths[0];
    var v0 := DigitsValue(s[..w]).value;
    assert vs[0] == v0;
    UnrenderFits(s, l);
    PadCanonical(s[..w]);
    if |l.widths| == 1 {
      assert s == s[..w];
      assert Render(vs, l) == Pad(v0, w) + "";
    } else {
      var rest := Unrender(s[w + 1..], Tail(l)).value;
      assert vs == [v0] + rest;
      assert vs[1..] == rest;
      assert s[w] == l.seps[0];
      RenderUnrender(s[w + 1..], Tail(l));
      calc {
        Render(vs, l);
        Pad(v0, w) + ([l.seps[0]] + Render(rest, Tail(l)));
        s[..w] + ([s[w]] + s[w + 1..]);
        { SplitAround(s, w); }
        s;
      }
    }
  }

  lemma SplitAround(s: string, w: nat)
    requires w < |s|
    ensures s == s[..w] + ([s[w]] + s[w + 1..])
  {
  }

  /** Lexicographic order on equally long number sequences. */
  predicate IntsLess(a: seq<int>, b: seq<int>)
    requires |a| == |b|
    decreases |a|
  {
    |a| > 0 && (a[0] < b[0] || (a[0] == b[0] && IntsLess(a[1..], b[1..])))
  }

  /** Rendered strings of one layout sort exactly as their field values do. */
  lemma {:induction false} RenderOrder(a: seq<int>, b: seq<int>, l: Layout)
    requires Fits(a, l) && Fits(b, l)
    ensures LexLess(Render(a, l), Render(b, l)) <==> IntsLess(a, b)
    decreases |a|
  {
    var w := l.widths[0];
    var pa, pb := Pad(a[0], w), Pad(b[0], w);
    var ta := if |a| == 1 then "" else [l.seps[0]] + Render(a[1..], Tail(l));
    var tb := if |b| == 1 then "" else [l.seps[0]] + Render(b[1..], Tail(l));
    LexLessConcat(pa, ta, pb, tb);
    PadOrder(a[0], b[0], w);
    PadInjective(a[0], b[0], w);
    if |a| == 1 {
      LexLessIrreflexive("");
    } else {
      LexLessConcat([l.seps[0]], Render(a[1..], Tail(l)), [l.seps[0]], Render(b[1..], Tail(l)));
      LexLessIrreflexive([l.seps[0]]);
      RenderOrder(a[1..], b[1..], Tail(l));
    }
  }
}
