/**
 * UTC instants as the capture store writes and reads them: the
 * `Date.prototype.toISOString` layout `YYYY-MM-DDTHH:mm:ss.sssZ`, the history
 * folder names derived from it, and milliseconds for the retention cutoff.
 *
 * Both layouts are sequences of fixed-width decimal fields, each followed by a
 * separator character, so they are rendered and parsed by one pair of generic
 * functions over a `Shape`.
 */
module Time {
  import opened Common
  import opened Strings

  /** Field widths, each with the character that follows the field. */
  type Shape = seq<(nat, char)>

  function Width(shape: Shape): nat {
    if |shape| == 0 then 0 else shape[0].0 + 1 + Width(shape[1..])
  }

  /** Every value fits in its field. */
  predicate Fits(vs: seq<nat>, shape: Shape) {
    |vs| == |shape| && forall i :: 0 <= i < |vs| ==> vs[i] < Pow10(shape[i].0)
  }

  function Render(vs: seq<nat>, shape: Shape): (r: string)
    requires |vs| == |shape|
    ensures |r| == Width(shape)
  {
    if |vs| == 0 then ""
    else FixedDigits(vs[0], shape[0].0) + [shape[0].1] + Render(vs[1..], shape[1..])
  }

  /** A layout opens with its first field and that field's separator. */
  lemma RenderHead(vs: seq<nat>, shape: Shape)
    requires |vs| == |shape| > 0
    ensures Render(vs, shape) == FixedDigits(vs[0], shape[0].0) + [shape[0].1] + Render(vs[1..], shape[1..])
  {
  }

  /** Reads the fields of `shape` back, or `None` when `s` does not have that layout. */
  function Parse(s: string, shape: Shape): (r: Option<seq<nat>>)
    ensures r.Some? ==> Fits(r.value, shape)
  {
    if |shape| == 0 then (if |s| == 0 then Some([]) else None)
    else
      var w := shape[0].0;
      if |s| < w + 1 || !AllDigits(s[..w]) || s[w] != shape[0].1 then None
      else match Parse(s[w + 1..], shape[1..])
        case None => None
        case Some(rest) =>
          DigitsValueBound(s[..w]);
          Some([DigitsValue(s[..w])] + rest)
  }

  lemma {:induction false} DigitsValueBound(s: string)
    requires AllDigits(s)
    ensures DigitsValue(s) < Pow10(|s|)
  {
    if |s| > 0 {
      DigitsValueBound(s[..|s| - 1]);
    }
  }

  /** Parsing inverts rendering. */
  lemma {:induction false} ParseRender(vs: seq<nat>, shape: Shape)
    requires Fits(vs, shape)
    ensures Parse(Render(vs, shape), shape) == Some(vs)
  {
    if |vs| > 0 {
      var w := shape[0].0;
      var s := Render(vs, shape);
      var head := FixedDigits(vs[0], w);
      assert s[..w] == head;
      assert s[w] == shape[0].1;
      assert s[w + 1..] == Render(vs[1..], shape[1..]);
      assert Fits(vs[1..], shape[1..]) by {
        forall i | 0 <= i < |vs[1..]|
          ensures vs[1..][i] < Pow10(shape[1..][i].0)
        {
          assert vs[1..][i] == vs[i + 1] && shape[1..][i] == shape[i + 1];
        }
      }
      ParseRender(vs[1..], shape[1..]);
      FixedDigitsValue(vs[0], w);
      assert [vs[0]] + vs[1..] == vs;
    }
  }

  /** The lexicographic order of two equally long sequences of numbers. */
  predicate SeqLess(xs: seq<nat>, ys: seq<nat>)
    requires |xs| == |ys|
  {
    |xs| > 0 && (xs[0] < ys[0] || (xs[0] == ys[0] && SeqLess(xs[1..], ys[1..])))
  }

  /** Rendered strings of one shape sort as their field values do. */
  lemma {:induction false} RenderOrder(xs: seq<nat>, ys: seq<nat>, shape: Shape)
    requires Fits(xs, shape) && Fits(ys, shape)
    ensures LexLess(Render(xs, shape), Render(ys, shape)) <==> SeqLess(xs, ys)
  {
    if |xs| > 0 {
      var w := shape[0].0;
      var hx, hy := FixedDigits(xs[0], w), FixedDigits(ys[0], w);
      var sep := [shape[0].1];
      var rx, ry := Render(xs[1..], shape[1..]), Render(ys[1..], shape[1..]);
      assert Render(xs, shape) == hx + (sep + rx);
      assert Render(ys, shape) == hy + (sep + ry);
      LexConcat(hx, sep + rx, hy, sep + ry);
      LexConcat(sep, rx, sep, ry);
      LexLessIrreflexive(sep);
      FixedDigitsOrder(xs[0], ys[0], w);
      FixedDigitsValue(xs[0], w);
      FixedDigitsValue(ys[0], w);
      assert Fits(xs[1..], shape[1..]) && Fits(ys[1..], shape[1..]) by {
        forall i | 0 <= i < |xs| - 1
          ensures xs[1..][i] < Pow10(shape[1..][i].0) && ys[1..][i] < Pow10(shape[1..][i].0)
        {
          assert xs[1..][i] == xs[i + 1] && ys[1..][i] == ys[i + 1] && shape[1..][i] == shape[i + 1];
        }
      }
      RenderOrder(xs[1..], ys[1..], shape[1..]);
    }
  }

  // ---------------------------------------------------------------------------
  // Calendar
  // ---------------------------------------------------------------------------

  /** A UTC instant with millisecond resolution. */
  datatype DateTime = DateTime(
    year: nat, month: nat, day: nat, hour: nat, minute: nat, second: nat, millisecond: nat)

  predicate IsLeapYear(y: nat) {
    y % 4 == 0 && (y % 100 != 0 || y % 400 == 0)
  }

  function DaysInMonth(y: nat, m: nat): (n: nat)
    ensures 28 <= n <= 31
  {
    if m == 2 then (if IsLeapYear(y) then 29 else 28)
    else if m == 4 || m == 6 || m == 9 || m == 11 then 30
    else 31
  }

  function DaysInYear(y: nat): nat {
    if IsLeapYear(y) then 366 else 365
  }

  /** A calendar instant `toISOString` renders with a four-digit year. */
  predicate Valid(t: DateTime) {
    t.year <= 9999 && 1 <= t.month <= 12 && 1 <= t.day <= DaysInMonth(t.year, t.month)
    && t.hour < 24 && t.minute < 60 && t.second < 60 && t.millisecond < 1000
  }

  function Fields(t: DateTime): (vs: seq<nat>)
    ensures |vs| == 7
  {
    [t.year, t.month, t.day, t.hour, t.minute, t.second, t.millisecond]
  }

  function FromFields(vs: seq<nat>): (t: DateTime)
    requires |vs| == 7
    ensures Fields(t) == vs
  {
    DateTime(vs[0], vs[1], vs[2], vs[3], vs[4], vs[5], vs[6])
  }

  /** `a` is strictly earlier than `b`: the component tuples in lexicographic order. */
  predicate Before(a: DateTime, b: DateTime) {
    SeqLess(Fields(a), Fields(b))
  }

  const IsoShape: Shape := [(4, '-'), (2, '-'), (2, 'T'), (2, ':'), (2, ':'), (2, '.'), (3, 'Z')]
  const FolderShape: Shape := [(4, '-'), (2, '-'), (2, 'T'), (2, '-'), (2, '-'), (2, '-'), (3, 'Z')]

  lemma ValidFits(t: DateTime, shape: Shape)
    requires Valid(t) && |shape| == 7
    requires shape[0].0 == 4 && shape[6].0 == 3
    requires forall i :: 1 <= i < 6 ==> shape[i].0 == 2
    ensures Fits(Fields(t), shape)
  {
    assert Pow10(2) == 100 && Pow10(3) == 1000 && Pow10(4) == 10000;
  }

  /** `Date.prototype.toISOString` for a four-digit year. */
  function IsoString(t: DateTime): (s: string)
    requires Valid(t)
    ensures |s| == 24
  {
    Render(Fields(t), IsoShape)
  }

  /** `Date` parsing, restricted to the `toISOString` layout; `None` is an invalid date. */
  function ParseIso(s: string): (r: Option<DateTime>)
    ensures r.Some? ==> Valid(r.value)
  {
    match Parse(s, IsoShape)
    case None => None
    case Some(vs) => var t := FromFields(vs); if Valid(t) then Some(t) else None
  }

  /** Reading back the ISO string of an instant gives the instant. */
  lemma ParseIsoString(t: DateTime)
    requires Valid(t)
    ensures ParseIso(IsoString(t)) == Some(t)
  {
    ValidFits(t, IsoShape);
    ParseRender(Fields(t), IsoShape);
  }

  // ---------------------------------------------------------------------------
  // History folder names
  // ---------------------------------------------------------------------------

  /** `s.replace(/[:.]/g, '-')`. */
  function DashSeparators(s: string): (r: string)
    ensures |r| == |s|
    ensures forall i :: 0 <= i < |s| ==> r[i] == (if s[i] == ':' || s[i] == '.' then '-' else s[i])
  {
    seq(|s|, i requires 0 <= i < |s| => if s[i] == ':' || s[i] == '.' then '-' else s[i])
  }

  /** The history folder of a capture taken at `t`. */
  function FolderName(t: DateTime): (name: string)
    requires Valid(t)
    ensures |name| == 24
    ensures !HasChar(name, ':') && !HasChar(name, '.')
  {
    DashSeparators(IsoString(t))
  }

  /** Folder names have their own fixed layout. */
  lemma FolderNameLayout(t: DateTime)
    requires Valid(t)
    ensures FolderName(t) == Render(Fields(t), FolderShape)
  {
    DashSeparatorsRender(Fields(t), IsoShape, FolderShape);
  }

  lemma {:induction false} DashSeparatorsRender(vs: seq<nat>, shape: Shape, dashed: Shape)
    requires |vs| == |shape| == |dashed|
    requires forall i :: 0 <= i < |shape| ==> dashed[i].0 == shape[i].0
    requires forall i :: 0 <= i < |shape| ==>
      dashed[i].1 == (if shape[i].1 == ':' || shape[i].1 == '.' then '-' else shape[i].1)
    ensures DashSeparators(Render(vs, shape)) == Render(vs, dashed)
  {
    if |vs| > 0 {
      DashSeparatorsRender(vs[1..], shape[1..], dashed[1..]);
      var d := FixedDigits(vs[0], shape[0].0);
      var a := Render(vs, shape);
      var b := Render(vs, dashed);
      assert a == d + [shape[0].1] + Render(vs[1..], shape[1..]);
      assert b == d + [dashed[0].1] + Render(vs[1..], dashed[1..]);
      var n := |d| + 1;
      forall i | 0 <= i < |a|
        ensures DashSeparators(a)[i] == b[i]
      {
        if i >= n {
          assert a[i] == Render(vs[1..], shape[1..])[i - n];
          assert b[i] == Render(vs[1..], dashed[1..])[i - n];
          assert DashSeparators(Render(vs[1..], shape[1..]))[i - n] == b[i];
        }
      }
    }
  }

  /** Folder names sort exactly as the instants they encode: newest last. */
  lemma FolderNameOrder(a: DateTime, b: DateTime)
    requires Valid(a) && Valid(b)
    ensures LexLess(FolderName(a), FolderName(b)) <==> Before(a, b)
  {
    FolderNameLayout(a);
    FolderNameLayout(b);
    ValidFits(a, FolderShape);
    ValidFits(b, FolderShape);
    RenderOrder(Fields(a), Fields(b), FolderShape);
  }

  /** The intended name-to-date step: read the folder layout back. */
  function FolderDate(name: string): (r: Option<DateTime>)
    ensures r.Some? ==> Valid(r.value)
  {
    match Parse(name, FolderShape)
    case None => None
    case Some(vs) => var t := FromFields(vs); if Valid(t) then Some(t) else None
  }

  /** Reading a folder name back gives the instant it was made from. */
  lemma FolderDateOfName(t: DateTime)
    requires Valid(t)
    ensures FolderDate(FolderName(t)) == Some(t)
  {
    FolderNameLayout(t);
    ValidFits(t, FolderShape);
    ParseRender(Fields(t), FolderShape);
  }

  /**
   * The name-to-date step as `cleanupOldHistory` writes it: every '-' becomes
   * ':'; the second replacement rewrites `T<d><d>:<d><d>:<d><d>` to itself.
   */
  function RestoreAsWritten(name: string): (r: string)
    ensures |r| == |name|
    ensures !HasChar(r, '-')
  {
    seq(|name|, i requires 0 <= i < |name| => if name[i] == '-' then ':' else name[i])
  }

  /** The reconstructed text never parses: its date part holds no '-'. */
  lemma RestoreAsWrittenNeverParses(name: string)
    ensures ParseIso(RestoreAsWritten(name)) == None
  {
  }

  // ---------------------------------------------------------------------------
  // Milliseconds
  // ---------------------------------------------------------------------------

  /** Days from 0000-01-01 to the first day of year `y`. */
  function DaysBeforeYear(y: nat): nat {
    if y == 0 then 0 else DaysBeforeYear(y - 1) + DaysInYear(y - 1)
  }

  /** Days from the first of January to the first day of month `m`. */
  function DaysBeforeMonth(y: nat, m: nat): nat
    requires 1 <= m <= 13
  {
    if m == 1 then 0 else DaysBeforeMonth(y, m - 1) + DaysInMonth(y, m - 1)
  }

  lemma {:induction false} DaysBeforeMonthGrows(y: nat, m1: nat, m2: nat)
    requires 1 <= m1 < m2 <= 13
    ensures DaysBeforeMonth(y, m1) + DaysInMonth(y, m1) <= DaysBeforeMonth(y, m2)
    decreases m2
  {
    if m2 > m1 + 1 {
      DaysBeforeMonthGrows(y, m1, m2 - 1);
    }
  }

  lemma DaysBeforeMonthYear(y: nat)
    ensures DaysBeforeMonth(y, 13) == DaysInYear(y)
  {
    var feb := DaysInMonth(y, 2);
    assert DaysBeforeMonth(y, 2) == 31;
    assert DaysBeforeMonth(y, 3) == 31 + feb;
    assert DaysBeforeMonth(y, 4) == 62 + feb;
    assert DaysBeforeMonth(y, 5) == 92 + feb;
    assert DaysBeforeMonth(y, 6) == 123 + feb;
    assert DaysBeforeMonth(y, 7) == 153 + feb;
    assert DaysBeforeMonth(y, 8) == 184 + feb;
    assert DaysBeforeMonth(y, 9) == 215 + feb;
    assert DaysBeforeMonth(y, 10) == 245 + feb;
    assert DaysBeforeMonth(y, 11) == 276 + feb;
    assert DaysBeforeMonth(y, 12) == 306 + feb;
    assert DaysBeforeMonth(y, 13) == 337 + feb;
  }

  lemma {:induction false} DaysBeforeYearGrows(y1: nat, y2: nat)
    requires y1 < y2
    ensures DaysBeforeYear(y1) + DaysInYear(y1) <= DaysBeforeYear(y2)
    decreases y2
  {
    if y2 > y1 + 1 {
      DaysBeforeYearGrows(y1, y2 - 1);
    }
  }

  /** Days from 0000-01-01 to the day of `t`. */
  function DayNumber(t: DateTime): nat
    requires Valid(t)
  {
    DaysBeforeYear(t.year) + DaysBeforeMonth(t.year, t.month) + t.day - 1
  }

  /** Milliseconds elapsed within the day of `t`. */
  function TimeOfDay(t: DateTime): (ms: nat)
    requires Valid(t)
    ensures ms < 86400000
  {
    ((t.hour * 60 + t.minute) * 60 + t.second) * 1000 + t.millisecond
  }

  const MillisPerDay: nat := 86400000

  /** Milliseconds from 0000-01-01T00:00:00.000Z to `t`. */
  function Millis(t: DateTime): int
    requires Valid(t)
  {
    DayNumber(t) * MillisPerDay + TimeOfDay(t)
  }

  lemma DayNumberOrder(a: DateTime, b: DateTime)
    requires Valid(a) && Valid(b)
    requires a.year < b.year || (a.year == b.year && (a.month < b.month || (a.month == b.month && a.day < b.day)))
    ensures DayNumber(a) < DayNumber(b)
  {
    if a.year < b.year {
      DaysBeforeMonthGrows(a.year, a.month, 13);
      DaysBeforeMonthYear(a.year);
      DaysBeforeYearGrows(a.year, b.year);
      assert DayNumber(a) < DaysBeforeYear(a.year) + DaysInYear(a.year);
    } else if a.month < b.month {
      DaysBeforeMonthGrows(a.year, a.month, b.month);
      assert DaysBeforeMonth(a.year, a.month) + a.day <= DaysBeforeMonth(b.year, b.month);
    }
  }

  lemma TimeOfDayOrder(a: DateTime, b: DateTime)
    requires Valid(a) && Valid(b)
    requires SeqLess(Fields(a)[3..], Fields(b)[3..])
    ensures TimeOfDay(a) < TimeOfDay(b)
  {
    var fa, fb := Fields(a)[3..], Fields(b)[3..];
    assert fa == [a.hour, a.minute, a.second, a.millisecond];
    assert fb == [b.hour, b.minute, b.second, b.millisecond];
    assert fa[1..] == [a.minute, a.second, a.millisecond];
    assert fb[1..] == [b.minute, b.second, b.millisecond];
    assert fa[1..][1..] == [a.second, a.millisecond];
    assert fb[1..][1..] == [b.second, b.millisecond];
    assert fa[1..][1..][1..] == [a.millisecond];
    assert fb[1..][1..][1..] == [b.millisecond];
    assert TimeOfDay(a) == a.hour * 3600000 + a.minute * 60000 + a.second * 1000 + a.millisecond;
    assert TimeOfDay(b) == b.hour * 3600000 + b.minute * 60000 + b.second * 1000 + b.millisecond;
    assert SeqLess(fa, fb);
    if a.hour < b.hour {
      assert a.minute * 60000 + a.second * 1000 + a.millisecond < 3600000;
    } else {
      assert a.hour == b.hour && SeqLess(fa[1..], fb[1..]);
      if a.minute < b.minute {
        assert a.second * 1000 + a.millisecond < 60000;
      } else {
        assert a.minute == b.minute && SeqLess(fa[1..][1..], fb[1..][1..]);
        if a.second == b.second {
          var la, lb := fa[1..][1..][1..], fb[1..][1..][1..];
          assert SeqLess(la, lb);
          assert !SeqLess(la[1..], lb[1..]);
          assert a.millisecond < b.millisecond;
        }
      }
    }
  }

  /** An earlier instant has fewer milliseconds. */
  lemma BeforeMillis(a: DateTime, b: DateTime)
    requires Valid(a) && Valid(b) && Before(a, b)
    ensures Millis(a) < Millis(b)
  {
    var fa, fb := Fields(a), Fields(b);
    assert fa[1..] == [a.month, a.day, a.hour, a.minute, a.second, a.millisecond];
    assert fb[1..] == [b.month, b.day, b.hour, b.minute, b.second, b.millisecond];
    assert fa[1..][1..] == [a.day, a.hour, a.minute, a.second, a.millisecond];
    assert fb[1..][1..] == [b.day, b.hour, b.minute, b.second, b.millisecond];
    assert fa[1..][1..][1..] == fa[3..] && fb[1..][1..][1..] == fb[3..];
    if a.year < b.year || (a.year == b.year && (a.month < b.month || (a.month == b.month && a.day < b.day))) {
      DayNumberOrder(a, b);
      assert DayNumber(a) + 1 <= DayNumber(b);
      assert DayNumber(a) * MillisPerDay + MillisPerDay <= DayNumber(b) * MillisPerDay;
    } else {
      assert SeqLess(fa, fb);
      assert a.year == b.year;
      assert SeqLess(fa[1..], fb[1..]);
      assert a.month == b.month;
      assert SeqLess(fa[1..][1..], fb[1..][1..]);
      assert a.day == b.day;
      TimeOfDayOrder(a, b);
    }
  }

  lemma SeqLessTotal(xs: seq<nat>, ys: seq<nat>)
    requires |xs| == |ys|
    ensures xs == ys || SeqLess(xs, ys) || SeqLess(ys, xs)
  {
    if |xs| > 0 && xs[0] == ys[0] {
      SeqLessTotal(xs[1..], ys[1..]);
      if xs[1..] == ys[1..] {
        assert xs == [xs[0]] + xs[1..] && ys == [ys[0]] + ys[1..];
      }
    }
  }

  /** Chronological order and millisecond order agree. */
  lemma MillisOrder(a: DateTime, b: DateTime)
    requires Valid(a) && Valid(b)
    ensures Millis(a) < Millis(b) <==> Before(a, b)
  {
    SeqLessTotal(Fields(a), Fields(b));
    if Before(a, b) {
      BeforeMillis(a, b);
    } else if Before(b, a) {
      BeforeMillis(b, a);
    } else {
      assert Fields(a) == Fields(b);
      assert a == FromFields(Fields(a));
    }
  }
}
