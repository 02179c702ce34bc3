/**
 * Calendar dates as `datetime.date` holds them, the strict ISO 8601 calendar
 * date reader (complete extended format `YYYY-MM-DD`) that
 * `date.fromisoformat` applies, and `str(date)`, which writes the same form.
 */
module Dates {
  import opened Common
  import opened Sorting

  /** A calendar date; `ValidDate` says which triples `datetime.date` admits. */
  datatype Date = Date(year: int, month: int, day: int)

  /** `datetime.MINYEAR` and `datetime.MAXYEAR`. */
  const MinYear := 1
  const MaxYear := 9999

  /** Gregorian leap years: every fourth year, except centuries not divisible by 400. */
  predicate IsLeapYear(y: int)
  {
    y % 4 == 0 && (y % 100 != 0 || y % 400 == 0)
  }

  function DaysInMonth(y: int, m: int): int
    requires 1 <= m <= 12
  {
    if m == 2 then (if IsLeapYear(y) then 29 else 28)
    else if m == 4 || m == 6 || m == 9 || m == 11 then 30
    else 31
  }

  predicate ValidDate(d: Date)
  {
    MinYear <= d.year <= MaxYear && 1 <= d.month <= 12 && 1 <= d.day <= DaysInMonth(d.year, d.month)
  }

  /** Dates compare as (year, month, day) tuples. */
  function Key(d: Date): seq<int>
  {
    [d.year, d.month, d.day]
  }

  /** `a <= b` on `datetime.date`. */
  predicate NotAfter(a: Date, b: Date)
  {
    LexLe(Key(a), Key(b))
  }

  predicate IsDigit(c: char)
  {
    '0' <= c <= '9'
  }

  predicate AllDigits(s: string)
  {
    forall i :: 0 <= i < |s| ==> IsDigit(s[i])
  }

  /** The number written by the decimal digits `s`. */
  function ValueOf(s: string): int
  {
    if s == [] then 0 else ValueOf(s[..|s| - 1]) * 10 + (s[|s| - 1] as int - '0' as int)
  }

  function Pow10(n: nat): nat
  {
    if n == 0 then 1 else 10 * Pow10(n - 1)
  }

  /** The last `width` decimal digits of `n`, zero-padded (`%0<width>d` for `0 <= n < 10^width`). */
  function Digits(n: int, width: nat): (r: string)
    ensures |r| == width && AllDigits(r)
    decreases width
  {
    if width == 0 then []
    else Digits(n / 10, width - 1) + [('0' as int + n % 10) as char]
  }

  /** `date.fromisoformat(s)`: `None` where it raises ValueError. */
  function Parse(s: string): (r: Option<Date>)
    ensures r.Some? ==> ValidDate(r.value)
  {
    if |s| == 10 && s[4] == '-' && s[7] == '-'
       && AllDigits(s[..4]) && AllDigits(s[5..7]) && AllDigits(s[8..])
    then
      var d := Date(ValueOf(s[..4]), ValueOf(s[5..7]), ValueOf(s[8..]));
      if ValidDate(d) then Some(d) else None
    else None
  }

  /** Widths of the year and of the month and day fields of `YYYY-MM-DD`. */
  const YearWidth: nat := 4
  const FieldWidth: nat := 2

  /** `str(d)`, which is `d.isoformat()`. */
  function Render(d: Date): (s: string)
    ensures |s| == 10
  {
    Digits(d.year, YearWidth) + "-" + Digits(d.month, FieldWidth) + "-" + Digits(d.day, FieldWidth)
  }

  lemma {:induction false} ValueOfDigits(n: int, width: nat)
    requires 0 <= n < Pow10(width)
    ensures ValueOf(Digits(n, width)) == n
  {
    if width > 0 {
      var prefix := Digits(n / 10, width - 1);
      var s := prefix + [('0' as int + n % 10) as char];
      assert s[..|s| - 1] == prefix;
      ValueOfDigits(n / 10, width - 1);
    }
  }

  lemma {:induction false} DigitsOfValue(s: string)
    requires AllDigits(s)
    ensures Digits(ValueOf(s), |s|) == s
  {
    if s != [] {
      var prefix := s[..|s| - 1];
      var c := s[|s| - 1] as int - '0' as int;
      assert AllDigits(prefix) by {
        forall i | 0 <= i < |prefix| ensures IsDigit(prefix[i]) {
          assert prefix[i] == s[i];
        }
      }
      DigitsOfValue(prefix);
      var v := ValueOf(prefix);
      assert IsDigit(s[|s| - 1]);
      LastDigit(v, c);
      assert ('0' as int + c) as char == s[|s| - 1];
      assert s == prefix + [s[|s| - 1]];
    }
  }

  /** Appending a decimal digit and taking it off again. */
  lemma LastDigit(v: int, c: int)
    requires 0 <= c < 10
    ensures (v * 10 + c) / 10 == v && (v * 10 + c) % 10 == c
  {
  }

  /** Where the three fields and the two separators sit in a rendering. */
  lemma RenderLayout(d: Date)
    ensures var s := Render(d);
      |s| == 10 && s[4] == '-' && s[7] == '-' &&
      s[..4] == Digits(d.year, YearWidth) && s[5..7] == Digits(d.month, FieldWidth) && s[8..] == Digits(d.day, FieldWidth)
  {
    var y, m, dd := Digits(d.year, YearWidth), Digits(d.month, FieldWidth), Digits(d.day, FieldWidth);
    var s := y + "-" + m + "-" + dd;
    assert s[..4] == y;
    assert s[5..7] == m;
    assert s[8..] == dd;
  }

  /** The rendering of a valid date reads back as that date. */
  lemma ParseRender(d: Date)
    requires ValidDate(d)
    ensures Parse(Render(d)) == Some(d)
  {
    RenderLayout(d);
    assert Pow10(FieldWidth) == 100 && Pow10(YearWidth) == 10000;
    ValueOfDigits(d.year, YearWidth);
    ValueOfDigits(d.month, FieldWidth);
    ValueOfDigits(d.day, FieldWidth);
  }

  /** Whatever the reader accepts is exactly the rendering of what it returns. */
  lemma RenderParse(s: string, d: Date)
    requires Parse(s) == Some(d)
    ensures Render(d) == s
  {
    DigitsOfValue(s[..4]);
    DigitsOfValue(s[5..7]);
    DigitsOfValue(s[8..]);
    assert s == s[..4] + "-" + s[5..7] + "-" + s[8..];
  }

  /**
   * The strict reader: it accepts a string exactly when the string is the
   * rendering of a valid date, and then returns that date.
   */
  lemma ParseExactlyRenderings(s: string, d: Date)
    ensures Parse(s) == Some(d) <==> ValidDate(d) && s == Render(d)
  {
    if Parse(s) == Some(d) {
      RenderParse(s, d);
    }
    if ValidDate(d) && s == Render(d) {
      ParseRender(d);
    }
  }

  /** Character codes of a string, the order SQLite compares stored text in. */
  function Codes(s: string): seq<int>
  {
    seq(|s|, i requires 0 <= i < |s| => s[i] as int)
  }

  /** `a <= b` as SQLite compares two TEXT values (binary collation). */
  predicate TextNotAfter(a: string, b: string)
  {
    LexLe(Codes(a), Codes(b))
  }

  lemma {:induction false} LexLeAppend(a1: seq<int>, a2: seq<int>, b1: seq<int>, b2: seq<int>)
    requires |a1| == |b1|
    ensures LexLe(a1 + a2, b1 + b2) <==> LexLt(a1, b1) || (a1 == b1 && LexLe(a2, b2))
  {
    if |a1| > 0 {
      assert (a1 + a2)[1..] == a1[1..] + a2 && (b1 + b2)[1..] == b1[1..] + b2;
      LexLeAppend(a1[1..], a2, b1[1..], b2);
      assert a1 == [a1[0]] + a1[1..] && b1 == [b1[0]] + b1[1..];
    } else {
      assert a1 + a2 == a2 && b1 + b2 == b2;
    }
  }

  lemma {:induction false} CodesAppend(a: string, b: string)
    ensures Codes(a + b) == Codes(a) + Codes(b)
  {
  }

  lemma DivModOrder(x: int, y: int)
    requires 0 <= x && 0 <= y
    ensures x <= y <==> x / 10 < y / 10 || (x / 10 == y / 10 && x % 10 <= y % 10)
  {
  }

  lemma SingleCodeOrder(c: char, d: char)
    ensures LexLe(Codes([c]), Codes([d])) <==> c as int <= d as int
  {
    assert Codes([c]) == [c as int] && Codes([d]) == [d as int];
    assert [c as int][1..] == [];
  }

  /** Fixed-width decimal numerals compare as text the way the numbers compare. */
  lemma {:induction false} DigitsOrder(x: int, y: int, width: nat)
    requires 0 <= x < Pow10(width) && 0 <= y < Pow10(width)
    ensures LexLe(Codes(Digits(x, width)), Codes(Digits(y, width))) <==> x <= y
  {
    if width > 0 {
      var px, py := Digits(x / 10, width - 1), Digits(y / 10, width - 1);
      var cx, cy := ('0' as int + x % 10) as char, ('0' as int + y % 10) as char;
      assert Digits(x, width) == px + [cx] && Digits(y, width) == py + [cy];
      CodesAppend(px, [cx]);
      CodesAppend(py, [cy]);
      LexLeAppend(Codes(px), Codes([cx]), Codes(py), Codes([cy]));
      SingleCodeOrder(cx, cy);
      DigitsOrder(x / 10, y / 10, width - 1);
      ValueOfDigits(x / 10, width - 1);
      ValueOfDigits(y / 10, width - 1);
      CodesInjective(px, py);
      assert Codes(px) == Codes(py) <==> x / 10 == y / 10;
      DivModOrder(x, y);
    }
  }

  lemma DigitsStrictOrder(x: int, y: int, width: nat)
    requires 0 <= x < Pow10(width) && 0 <= y < Pow10(width)
    ensures LexLt(Codes(Digits(x, width)), Codes(Digits(y, width))) <==> x < y
    ensures Digits(x, width) == Digits(y, width) <==> x == y
  {
    DigitsOrder(x, y, width);
    ValueOfDigits(x, width);
    ValueOfDigits(y, width);
    CodesInjective(Digits(x, width), Digits(y, width));
  }

  /** One fixed-width field, a `-`, then the rest: the field decides unless it ties. */
  lemma FieldThenRest(x1: string, r1: string, x2: string, r2: string)
    requires |x1| == |x2|
    ensures TextNotAfter(x1 + "-" + r1, x2 + "-" + r2) <==>
      LexLt(Codes(x1), Codes(x2)) || (x1 == x2 && TextNotAfter(r1, r2))
  {
    assert x1 + "-" + r1 == x1 + ("-" + r1) && x2 + "-" + r2 == x2 + ("-" + r2);
    CodesAppend(x1, "-" + r1);
    CodesAppend(x2, "-" + r2);
    LexLeAppend(Codes(x1), Codes("-" + r1), Codes(x2), Codes("-" + r2));
    CodesInjective(x1, x2);
    CodesAppend("-", r1);
    CodesAppend("-", r2);
    LexLeAppend(Codes("-"), Codes(r1), Codes("-"), Codes(r2));
    LexLeReflexive(Codes("-"));
  }

  lemma KeyOrder(a: Date, b: Date)
    ensures NotAfter(a, b) <==>
      a.year < b.year || (a.year == b.year && (a.month < b.month || (a.month == b.month && a.day <= b.day)))
  {
    assert Key(a)[1..] == [a.month, a.day] && Key(b)[1..] == [b.month, b.day];
    assert [a.month, a.day][1..] == [a.day] && [b.month, b.day][1..] == [b.day];
    assert LexLe([a.day], [b.day]) <==> a.day <= b.day by {
      assert [a.day][1..] == [] && [b.day][1..] == [];
    }
    assert LexLe([a.month, a.day], [b.month, b.day]) <==>
      a.month < b.month || (a.month == b.month && LexLe([a.day], [b.day]));
  }

  /**
   * Rendered valid dates compare as text exactly as the dates compare, so the
   * `BETWEEN` and `ORDER BY date_charged` of the stored text agree with
   * `NotAfter`.
   */
  lemma TextOrderIsDateOrder(a: Date, b: Date)
    requires ValidDate(a) && ValidDate(b)
    ensures TextNotAfter(Render(a), Render(b)) <==> NotAfter(a, b)
  {
    assert Pow10(YearWidth) == 10000;
    var ya, ra := Digits(a.year, YearWidth), Digits(a.month, FieldWidth) + "-" + Digits(a.day, FieldWidth);
    var yb, rb := Digits(b.year, YearWidth), Digits(b.month, FieldWidth) + "-" + Digits(b.day, FieldWidth);
    assert Render(a) == ya + "-" + ra;
    assert Render(b) == yb + "-" + rb;
    FieldThenRest(ya, ra, yb, rb);
    DigitsStrictOrder(a.year, b.year, YearWidth);
    MonthDayTextOrder(a, b);
    KeyOrder(a, b);
  }

  /** The `MM-DD` part of two valid renderings compares as the (month, day) pairs do. */
  lemma MonthDayTextOrder(a: Date, b: Date)
    requires ValidDate(a) && ValidDate(b)
    ensures TextNotAfter(Digits(a.month, FieldWidth) + "-" + Digits(a.day, FieldWidth),
                         Digits(b.month, FieldWidth) + "-" + Digits(b.day, FieldWidth)) <==>
      a.month < b.month || (a.month == b.month && a.day <= b.day)
  {
    assert Pow10(FieldWidth) == 100;
    var ma, da := Digits(a.month, FieldWidth), Digits(a.day, FieldWidth);
    var mb, db := Digits(b.month, FieldWidth), Digits(b.day, FieldWidth);
    FieldThenRest(ma, da, mb, db);
    DigitsStrictOrder(a.month, b.month, FieldWidth);
    DigitsOrder(a.day, b.day, FieldWidth);
  }

  lemma CodesInjective(a: string, b: string)
    ensures Codes(a) == Codes(b) <==> a == b
  {
    if Codes(a) == Codes(b) {
      assert |a| == |Codes(a)| == |Codes(b)| == |b|;
      forall i | 0 <= i < |a| ensures a[i] == b[i] {
        assert Codes(a)[i] == Codes(b)[i];
      }
    }
  }
}
