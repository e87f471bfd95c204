/** Which quarantine directories, named by day, are old enough to go. */
module QuarantineDates {
  import opened Text

  datatype Date = Date(year: int, month: int, day: int)

  datatype Outcome<+T> = Ok(value: T) | ValueError | OverflowError

  // ----- the Gregorian calendar -----

  predicate IsLeap(y: int) { y % 4 == 0 && (y % 100 != 0 || y % 400 == 0) }

  function DaysInMonth(y: int, m: int): int {
    if m == 2 then (if IsLeap(y) then 29 else 28)
    else if m == 4 || m == 6 || m == 9 || m == 11 then 30 else 31
  }

  predicate IsDate(d: Date) {
    1 <= d.year <= 9999 && 1 <= d.month <= 12 && 1 <= d.day <= DaysInMonth(d.year, d.month)
  }

  type Day = d: Date | IsDate(d) witness Date(1, 1, 1)

  predicate IsFirst(d: Date) { d.year == 1 && d.month == 1 && d.day == 1 }

  predicate IsLast(d: Date) { d.year == 9999 && d.month == 12 && d.day == 31 }

  function DayBefore(d: Date): Date {
    if d.day > 1 then d.(day := d.day - 1)
    else if d.month > 1 then Date(d.year, d.month - 1, DaysInMonth(d.year, d.month - 1))
    else Date(d.year - 1, 12, 31)
  }

  function DayAfter(d: Date): Date {
    if d.day < DaysInMonth(d.year, d.month) then d.(day := d.day + 1)
    else if d.month < 12 then Date(d.year, d.month + 1, 1)
    else Date(d.year + 1, 1, 1)
  }

  /** The day count: 1 January of year 1 is day 1. */
  function Ordinal(d: Date): (n: int)
    requires IsDate(d)
    ensures n >= 1
    decreases d.year, d.month, d.day
  {
    if IsFirst(d) then 1 else Ordinal(DayBefore(d)) + 1
  }

  /** Calendar order, as dates compare. */
  predicate Before(a: Date, b: Date) {
    a.year < b.year || (a.year == b.year && (a.month < b.month || (a.month == b.month && a.day < b.day)))
  }

  lemma NothingBetween(a: Date, b: Date)
    requires IsDate(a) && IsDate(b) && Before(a, b)
    ensures !IsFirst(b) && IsDate(DayBefore(b)) && (a == DayBefore(b) || Before(a, DayBefore(b)))
  {
  }

  lemma {:induction false} BeforeIsEarlier(a: Date, b: Date)
    requires IsDate(a) && IsDate(b) && Before(a, b)
    ensures Ordinal(a) < Ordinal(b)
    decreases b.year, b.month, b.day
  {
    NothingBetween(a, b);
    if a != DayBefore(b) {
      BeforeIsEarlier(a, DayBefore(b));
    }
  }

  /** Calendar order is the order of day counts. */
  lemma OrderIsDayOrder(a: Date, b: Date)
    requires IsDate(a) && IsDate(b)
    ensures Before(a, b) <==> Ordinal(a) < Ordinal(b)
  {
    if Before(a, b) {
      BeforeIsEarlier(a, b);
    } else if a != b {
      BeforeIsEarlier(b, a);
    }
  }

  // ----- the day count in closed form -----

  function DaysBeforeYear(y: int): int { (y - 1) * 365 + (y - 1) / 4 - (y - 1) / 100 + (y - 1) / 400 }

  function DaysBeforeMonth(y: int, m: int): int
    decreases m
  {
    if m <= 1 then 0 else DaysBeforeMonth(y, m - 1) + DaysInMonth(y, m - 1)
  }

  lemma QuotientIs(y: int, n: int, q: int, r: int)
    requires n > 0 && y == q * n + r && 0 <= r < n
    ensures y / n == q && y % n == r
  {
    var d := y / n - q;
    assert y == (y / n) * n + y % n;
    assert d * n == r - y % n;
    assert d >= 1 ==> d * n >= n;
    assert d <= -1 ==> d * n <= -n;
  }

  /** The quotient goes up where the divisor divides. */
  lemma Quotient(y: int, n: int)
    requires y >= 1 && n > 1
    ensures y / n == (y - 1) / n + if y % n == 0 then 1 else 0
  {
    var q, r := (y - 1) / n, (y - 1) % n;
    assert y == q * n + (r + 1);
    if r + 1 < n {
      QuotientIs(y, n, q, r + 1);
    } else {
      assert y == (q + 1) * n;
      QuotientIs(y, n, q + 1, 0);
    }
  }

  lemma Divides(y: int, n: int, k: int)
    requires n > 0 && k > 0 && y % (k * n) == 0
    ensures y % n == 0
  {
    var q := y / (k * n);
    assert y == q * (k * n) == (q * k) * n;
    QuotientIs(y, n, q * k, 0);
  }

  function LeapDays(y: int): int { y / 4 - y / 100 + y / 400 }

  lemma LeapDayAdded(y: int)
    requires y >= 1
    ensures LeapDays(y) == LeapDays(y - 1) + if IsLeap(y) then 1 else 0
  {
    Quotient(y, 4);
    Quotient(y, 100);
    Quotient(y, 400);
    if y % 400 == 0 { Divides(y, 100, 4); }
    if y % 100 == 0 { Divides(y, 4, 25); }
  }

  lemma YearLength(y: int)
    ensures DaysBeforeMonth(y, 12) + 31 == if IsLeap(y) then 366 else 365
  {
    assert DaysBeforeMonth(y, 2) == 31;
    assert DaysBeforeMonth(y, 3) == 31 + DaysInMonth(y, 2);
    assert DaysBeforeMonth(y, 5) == 92 + DaysInMonth(y, 2);
    assert DaysBeforeMonth(y, 7) == 153 + DaysInMonth(y, 2);
    assert DaysBeforeMonth(y, 9) == 215 + DaysInMonth(y, 2);
    assert DaysBeforeMonth(y, 11) == 276 + DaysInMonth(y, 2);
  }

  lemma NewYearsEve(y: int)
    requires y > 1
    ensures DaysBeforeYear(y) == DaysBeforeYear(y - 1) + DaysBeforeMonth(y - 1, 12) + 31
  {
    LeapDayAdded(y - 1);
    YearLength(y - 1);
    assert DaysBeforeYear(y) == (y - 1) * 365 + LeapDays(y - 1);
    assert DaysBeforeYear(y - 1) == (y - 2) * 365 + LeapDays(y - 2);
  }

  function Formula(d: Date): int { DaysBeforeYear(d.year) + DaysBeforeMonth(d.year, d.month) + d.day }

  lemma FormulaNewYear(d: Date)
    requires IsDate(d) && !IsFirst(d) && d.month == 1 && d.day == 1
    ensures Formula(d) == Formula(DayBefore(d)) + 1
  {
    NewYearsEve(d.year);
    assert DaysBeforeMonth(d.year, 1) == 0;
  }

  lemma FormulaNewMonth(d: Date)
    requires IsDate(d) && d.month > 1 && d.day == 1
    ensures Formula(d) == Formula(DayBefore(d)) + 1
  {
  }

  lemma FormulaNewDay(d: Date)
    requires IsDate(d) && d.day > 1
    ensures Formula(d) == Formula(DayBefore(d)) + 1
  {
  }

  lemma FormulaStep(d: Date)
    requires IsDate(d) && !IsFirst(d)
    ensures Formula(d) == Formula(DayBefore(d)) + 1
  {
    if d.day > 1 {
      FormulaNewDay(d);
    } else if d.month > 1 {
      FormulaNewMonth(d);
    } else {
      FormulaNewYear(d);
    }
  }

  lemma FormulaFirst(d: Date)
    requires IsFirst(d)
    ensures Formula(d) == 1
  {
    assert DaysBeforeMonth(d.year, d.month) == 0;
  }

  /** Counting day by day agrees with the formula: whole years, whole months, days. */
  lemma {:induction false} OrdinalFormula(d: Date)
    requires IsDate(d)
    ensures Ordinal(d) == Formula(d)
    decreases d.year, d.month, d.day
  {
    if IsFirst(d) {
      FormulaFirst(d);
    } else {
      OrdinalFormula(DayBefore(d));
      FormulaStep(d);
    }
  }

  /** The calendar in numbers: which dates there are, and the day count of each. */
  lemma CalendarMeans(y: int, m: int, d: int)
    requires 1 <= y <= 9999 && 1 <= m <= 12
    ensures var leap := y % 400 == 0 || (y % 4 == 0 && y % 100 != 0);
            var lengths := [31, if leap then 29 else 28, 31, 30, 31, 30, 31, 31, 30, 31, 30, 31];
            var before := [0, 31, 59, 90, 120, 151, 181, 212, 243, 273, 304, 334];
            && (IsDate(Date(y, m, d)) <==> 1 <= d <= lengths[m - 1])
            && (IsDate(Date(y, m, d)) ==>
                  Ordinal(Date(y, m, d)) ==
                    (y - 1) * 365 + (y - 1) / 4 - (y - 1) / 100 + (y - 1) / 400
                    + before[m - 1] + (if m > 2 && leap then 1 else 0) + d)
  {
    MonthStarts(y, m);
    if y % 400 == 0 { Divides(y, 4, 100); }
    if IsDate(Date(y, m, d)) { OrdinalFormula(Date(y, m, d)); }
  }

  lemma MonthStarts(y: int, m: int)
    requires 1 <= m <= 12
    ensures DaysBeforeMonth(y, m) ==
              [0, 31, 59, 90, 120, 151, 181, 212, 243, 273, 304, 334][m - 1] + (if m > 2 && IsLeap(y) then 1 else 0)
  {
    if m > 1 {
      MonthStarts(y, m - 1);
    }
  }

  // ----- going back some days -----

  const LAST := 3652059

  lemma LastDay(d: Date)
    requires IsLast(d)
    ensures IsDate(d) && Ordinal(d) == LAST
  {
    OrdinalFormula(d);
    YearLength(d.year);
  }

  lemma CalendarEnds(d: Date)
    requires IsDate(d)
    ensures if IsLast(d) then Ordinal(d) == LAST else Ordinal(d) < LAST
  {
    var last := d.(year := 9999, month := 12, day := 31);
    LastDay(last);
    if d != last { BeforeIsEarlier(d, last); }
  }

  lemma DayAfterCounts(d: Date)
    requires IsDate(d) && !IsLast(d)
    ensures IsDate(DayAfter(d)) && Ordinal(DayAfter(d)) == Ordinal(d) + 1
  {
    assert DayBefore(DayAfter(d)) == d;
  }

  /** The date with a given day count, found by counting up. */
  function FromOrdinal(n: int): Date {
    if n <= 1 then Date(1, 1, 1) else DayAfter(FromOrdinal(n - 1))
  }

  /** A date less a number of days, which may be negative; before year 1 there are no dates, nor after 9999. */
  function Minus(d: Day, days: int): Outcome<Date> {
    var n := Ordinal(d) - days;
    if 1 <= n <= LAST then Ok(FromOrdinal(n)) else OverflowError
  }

  /** Counting up to a date and counting down from it agree. */
  lemma {:induction false} FromOrdinalCounts(n: int)
    requires 1 <= n <= LAST
    ensures IsDate(FromOrdinal(n)) && Ordinal(FromOrdinal(n)) == n
    decreases n
  {
    if n > 1 {
      var e := FromOrdinal(n - 1);
      FromOrdinalCounts(n - 1);
      CalendarEnds(e);
      DayAfterCounts(e);
    }
  }

  /** Every date is found so, from its day count. */
  lemma FromOrdinalFinds(d: Date)
    requires IsDate(d)
    ensures Ordinal(d) <= LAST && FromOrdinal(Ordinal(d)) == d
  {
    CalendarEnds(d);
    FromOrdinalCounts(Ordinal(d));
    var e := FromOrdinal(Ordinal(d));
    OrderIsDayOrder(d, e);
    OrderIsDayOrder(e, d);
  }

  /** Subtracting days subtracts from the day count, and fails exactly when that leaves the calendar. */
  lemma MinusCounts(d: Day, days: int)
    ensures Minus(d, days).Ok? <==> 1 <= Ordinal(d) - days <= LAST
    ensures Minus(d, days).Ok? ==> IsDate(Minus(d, days).value) && Ordinal(Minus(d, days).value) == Ordinal(d) - days
  {
    if Minus(d, days).Ok? {
      FromOrdinalCounts(Ordinal(d) - days);
    }
  }

  // ----- directory names -----

  predicate IsDigit(c: char) { '0' <= c <= '9' }

  /** Eight digits, and possibly a newline after them. */
  predicate IsDayName(s: string) {
    && (|s| == 8 || (|s| == 9 && s[8] == '\n'))
    && forall i :: 0 <= i < 8 ==> IsDigit(s[i])
  }

  /** The month is what is between the year and the last two characters, so a newline at the end makes
      it three digits. */
  function DateOf(s: string): Date
    requires IsDayName(s)
  {
    Date(Decimal(s[..4]), Decimal(s[4..|s| - 2]), Decimal(s[6..8]))
  }

  /** A name that is not eight digits is left alone; eight digits that are no date raise. */
  function ShouldBePruned(name: string, daysToRetain: int, today: Day): Outcome<bool> {
    if daysToRetain == 0 || !IsDayName(name) then Ok(false)
    else
      match Minus(today, daysToRetain)
      case OverflowError => OverflowError
      case ValueError => ValueError
      case Ok(lastDate) => if IsDate(DateOf(name)) then Ok(Before(DateOf(name), lastDate)) else ValueError
  }

  /** A directory goes exactly when it is more than the retained number of days old. A name that is no
      date, or a number of days that leads out of the calendar, raises. */
  lemma PrunedByAge(name: string, daysToRetain: int, today: Day)
    requires daysToRetain != 0 && IsDayName(name)
    ensures var r := ShouldBePruned(name, daysToRetain, today);
            && (r.Ok? <==> IsDate(DateOf(name)) && 1 <= Ordinal(today) - daysToRetain <= LAST)
            && (r.Ok? ==> r.value == (Ordinal(today) - Ordinal(DateOf(name)) > daysToRetain))
  {
    MinusCounts(today, daysToRetain);
    if ShouldBePruned(name, daysToRetain, today).Ok? {
      OrderIsDayOrder(DateOf(name), Minus(today, daysToRetain).value);
    }
  }

  lemma TwoDigits(s: string)
    requires |s| == 2
    ensures Decimal(s) == (s[0] as int - '0' as int) * 10 + (s[1] as int - '0' as int)
  {
    var first := s[..1];
    assert first[..0] == "" && first[|first| - 1] == s[0];
    assert Decimal(first) == first[0] as int - '0' as int;
  }

  lemma FourDigits(s: string)
    requires |s| == 4
    ensures Decimal(s) ==
              (s[0] as int - 48) * 1000 + (s[1] as int - 48) * 100 + (s[2] as int - 48) * 10 + (s[3] as int - 48)
  {
    TwoDigits(s[..2]);
    assert s[..3][..2] == s[..2];
    assert Decimal(s[..3]) == Decimal(s[..2]) * 10 + (s[2] as int - 48);
  }

  /** Eight digits as year, month and day. */
  function Read(n: seq<int>): Date
    requires |n| == 8
  {
    Date(n[0] * 1000 + n[1] * 100 + n[2] * 10 + n[3], n[4] * 10 + n[5], n[6] * 10 + n[7])
  }

  lemma NameReads(name: string)
    requires |name| == 8
    ensures var n := seq(8, i requires 0 <= i < 8 => name[i] as int - 48);
            && (IsDayName(name) <==> forall i :: 0 <= i < 8 ==> 0 <= n[i] <= 9)
            && (IsDayName(name) ==> DateOf(name) == Read(n))
  {
    var n := seq(8, i requires 0 <= i < 8 => name[i] as int - 48);
    assert forall i :: 0 <= i < 8 ==> (IsDigit(name[i]) <==> 0 <= n[i] <= 9);
    FourDigits(name[..4]);
    TwoDigits(name[4..6]);
    TwoDigits(name[6..8]);
  }

  /** A name of eight digits is year, month and day. It goes if more than the retained days have passed since;
      it raises if that reaches out of the calendar, or else if it is no date. Other names stay. */
  lemma NameMeans(name: string, retain: int, today: Day)
    requires |name| == 8
    ensures var n := seq(8, i requires 0 <= i < 8 => name[i] as int - 48);
            ShouldBePruned(name, retain, today) ==
              if retain == 0 || exists i :: 0 <= i < 8 && !(0 <= n[i] <= 9) then Ok(false)
              else if !(1 <= Ordinal(today) - retain <= 3652059) then OverflowError
              else if !IsDate(Read(n)) then ValueError
              else Ok(Ordinal(today) - Ordinal(Read(n)) > retain)
  {
    NameReads(name);
    MinusCounts(today, retain);
    if IsDayName(name) && retain != 0 { PrunedByAge(name, retain, today); }
  }

  // ----- name order -----

  /** Strings compare character by character; of two where one begins the other, the shorter is less. */
  predicate Less(s: string, t: string)
    decreases |s|
  {
    if s == "" then t != ""
    else t != "" && (s[0] < t[0] || (s[0] == t[0] && Less(s[1..], t[1..])))
  }

  predicate Digits(s: string) { forall i :: 0 <= i < |s| ==> IsDigit(s[i]) }

  function Pow10(n: nat): int { if n == 0 then 1 else 10 * Pow10(n - 1) }

  lemma {:induction false} NumberBounds(s: string)
    requires Digits(s)
    ensures 0 <= Decimal(s) < Pow10(|s|)
  {
    if s != "" {
      NumberBounds(s[..|s| - 1]);
    }
  }

  lemma OneMoreDigit(lead: int, p: int, middle: int, last: int)
    ensures (lead * p + middle) * 10 + last == lead * (10 * p) + (middle * 10 + last)
  {
  }

  lemma {:induction false} NumberFirst(s: string)
    requires Digits(s) && s != ""
    ensures Decimal(s) == (s[0] as int - '0' as int) * Pow10(|s| - 1) + Decimal(s[1..])
  {
    if |s| == 1 {
      assert s[..0] == "" && s[1..] == "";
    } else {
      var front, rest := s[..|s| - 1], s[1..];
      NumberFirst(front);
      assert front[1..] == rest[..|rest| - 1] && rest[|rest| - 1] == s[|s| - 1];
      OneMoreDigit(s[0] as int - '0' as int, Pow10(|s| - 2), Decimal(front[1..]), s[|s| - 1] as int - '0' as int);
    }
  }

  lemma {:induction false} LessIsNumberOrder(s: string, t: string)
    requires Digits(s) && Digits(t) && |s| == |t|
    ensures Less(s, t) <==> Decimal(s) < Decimal(t)
    ensures s == t <==> Decimal(s) == Decimal(t)
  {
    if s != "" {
      LessIsNumberOrder(s[1..], t[1..]);
      NumberFirst(s);
      NumberFirst(t);
      NumberBounds(s[1..]);
      NumberBounds(t[1..]);
      assert s == [s[0]] + s[1..] && t == [t[0]] + t[1..];
      LeadDecides(Pow10(|s| - 1), s[0] as int - '0' as int, t[0] as int - '0' as int, Decimal(s[1..]), Decimal(t[1..]));
    }
  }

  lemma LeadDecides(p: int, a: int, b: int, x: int, y: int)
    requires 0 <= x < p && 0 <= y < p
    ensures a * p + x < b * p + y <==> a < b || (a == b && x < y)
    ensures a * p + x == b * p + y <==> a == b && x == y
  {
    if a < b {
      MultiplesApart(a, b, p);
    } else if b < a {
      MultiplesApart(b, a, p);
    }
  }

  lemma {:induction false} MultiplesApart(a: int, b: int, p: int)
    requires a < b && 0 <= p
    ensures a * p + p <= b * p
    decreases b - a
  {
    if a < b - 1 {
      MultiplesApart(a, b - 1, p);
    }
    assert (b - 1) * p + p == b * p;
  }

  lemma {:induction false} LessAppend(a: string, b: string, c: string, d: string)
    requires |a| == |c|
    ensures Less(a + b, c + d) <==> Less(a, c) || (a == c && Less(b, d))
  {
    if a == "" {
      assert a + b == b && c + d == d;
    } else {
      LessAppend(a[1..], b, c[1..], d);
      assert (a + b)[1..] == a[1..] + b && (c + d)[1..] == c[1..] + d;
      assert a == [a[0]] + a[1..] && c == [c[0]] + c[1..];
    }
  }

  lemma NameParts(s: string)
    requires IsDayName(s) && |s| == 8
    ensures s == s[..4] + (s[4..6] + s[6..8])
    ensures Digits(s[..4]) && Digits(s[4..6]) && Digits(s[6..8])
    ensures DateOf(s) == Date(Decimal(s[..4]), Decimal(s[4..6]), Decimal(s[6..8]))
  {
  }

  /** For names of eight digits, name order is calendar order. */
  lemma NameOrderIsDateOrder(s: string, t: string)
    requires IsDayName(s) && IsDayName(t) && |s| == |t| == 8
    ensures Less(s, t) <==> Before(DateOf(s), DateOf(t))
  {
    NameParts(s);
    NameParts(t);
    LessAppend(s[..4], s[4..6] + s[6..8], t[..4], t[4..6] + t[6..8]);
    LessAppend(s[4..6], s[6..8], t[4..6], t[6..8]);
    LessIsNumberOrder(s[..4], t[..4]);
    LessIsNumberOrder(s[4..6], t[4..6]);
    LessIsNumberOrder(s[6..8], t[6..8]);
  }

  lemma EarlierGoesToo(s: string, t: string, daysToRetain: int, today: Day)
    requires IsDayName(s) && IsDayName(t) && |s| == |t| == 8
    requires Less(s, t) && ShouldBePruned(t, daysToRetain, today) == Ok(true)
    requires ShouldBePruned(s, daysToRetain, today).Ok?
    ensures ShouldBePruned(s, daysToRetain, today) == Ok(true)
  {
    PrunedByAge(s, daysToRetain, today);
    PrunedByAge(t, daysToRetain, today);
    NameOrderIsDateOrder(s, t);
    OrderIsDayOrder(DateOf(s), DateOf(t));
  }

  predicate Ascending(names: seq<string>) { forall i, j :: 0 <= i < j < |names| ==> !Less(names[j], names[i]) }

  predicate Goes(name: string, daysToRetain: int, today: Day) {
    IsDayName(name) && ShouldBePruned(name, daysToRetain, today) == Ok(true)
  }

  /** The names to remove, in the order listed. */
  function Gone(names: seq<string>, daysToRetain: int, today: Day): seq<string> {
    if names == [] then []
    else (if Goes(names[0], daysToRetain, today) then [names[0]] else []) + Gone(names[1..], daysToRetain, today)
  }

  /** In sorted names of dates, those that go are a prefix: none is kept before one that goes. */
  lemma {:induction false} GoneIsPrefix(names: seq<string>, daysToRetain: int, today: Day)
    requires Ascending(names)
    requires forall i :: 0 <= i < |names| ==>
               IsDayName(names[i]) && |names[i]| == 8 && ShouldBePruned(names[i], daysToRetain, today).Ok?
    ensures Gone(names, daysToRetain, today) <= names
  {
    if names != [] {
      var rest := names[1..];
      assert forall i :: 0 <= i < |rest| ==> rest[i] == names[i + 1];
      GoneIsPrefix(rest, daysToRetain, today);
      if !Goes(names[0], daysToRetain, today) {
        forall i | 0 <= i < |rest|
          ensures !Goes(rest[i], daysToRetain, today)
        {
          LessTotal(names[0], rest[i]);
          if Goes(rest[i], daysToRetain, today) && Less(names[0], rest[i]) {
            EarlierGoesToo(names[0], rest[i], daysToRetain, today);
          }
        }
        NoneGoes(rest, daysToRetain, today);
      }
    }
  }

  lemma {:induction false} NoneGoes(names: seq<string>, daysToRetain: int, today: Day)
    requires forall i :: 0 <= i < |names| ==> !Goes(names[i], daysToRetain, today)
    ensures Gone(names, daysToRetain, today) == []
  {
    if names != [] {
      NoneGoes(names[1..], daysToRetain, today);
    }
  }

  lemma {:induction false} LessTotal(s: string, t: string)
    ensures Less(s, t) || Less(t, s) || s == t
  {
    if s != "" && t != "" {
      LessTotal(s[1..], t[1..]);
      assert s == [s[0]] + s[1..] && t == [t[0]] + t[1..];
    }
  }

  lemma {:induction false} LessTransitive(s: string, t: string, u: string)
    requires !Less(t, s) && !Less(u, t)
    ensures !Less(u, s)
  {
    if s != "" && t != "" && u != "" {
      if s[0] == t[0] == u[0] { LessTransitive(s[1..], t[1..], u[1..]); }
    }
  }

  lemma GoneStep(names: seq<string>, i: nat, daysToRetain: int, today: Day)
    requires i < |names|
    ensures Gone(names[i..], daysToRetain, today) ==
              if Goes(names[i], daysToRetain, today) then [names[i]] + Gone(names[i + 1..], daysToRetain, today)
              else Gone(names[i + 1..], daysToRetain, today)
  {
    assert names[i..][1..] == names[i + 1..];
  }

  // ----- the selection -----

  /** It can be said whether the name goes; one that is not eight digits stays. */
  predicate Decides(name: string, daysToRetain: int, today: Day) {
    !IsDayName(name) || ShouldBePruned(name, daysToRetain, today).Ok?
  }

  method Consider(name: string, daysToRetain: int, today: Day) returns (r: Outcome<bool>)
    ensures r.Ok? <==> Decides(name, daysToRetain, today)
    ensures r.Ok? ==> (r.value <==> Goes(name, daysToRetain, today))
  {
    if IsDayName(name) {
      r := ShouldBePruned(name, daysToRetain, today);
    } else {
      r := Ok(false);
    }
  }

  /** The directories to remove, sorted by name: a single name that is no date stops the whole run. */
  method Select(names: seq<string>, daysToRetain: int, today: Day) returns (r: Outcome<seq<string>>)
    ensures r.Ok? <==> forall i :: 0 <= i < |names| ==> Decides(names[i], daysToRetain, today)
    ensures r.Ok? ==> Ascending(r.value) && multiset(r.value) == multiset(Gone(names, daysToRetain, today))
  {
    var dirs := [];
    assert names[0..] == names;
    for i := 0 to |names|
      invariant forall k :: 0 <= k < i ==> Decides(names[k], daysToRetain, today)
      invariant Gone(names, daysToRetain, today) == dirs + Gone(names[i..], daysToRetain, today)
    {
      GoneStep(names, i, daysToRetain, today);
      var gone := Consider(names[i], daysToRetain, today);
      match gone
      case ValueError => return ValueError;
      case OverflowError => return OverflowError;
      case Ok(goes) =>
        if goes {
          Assoc(dirs, [names[i]], Gone(names[i + 1..], daysToRetain, today));
          dirs := dirs + [names[i]];
        }
    }
    dirs := Sort(dirs);
    return Ok(dirs);
  }

  /** The list method `sort`. */
  method Sort(names: seq<string>) returns (r: seq<string>)
    ensures Ascending(r) && multiset(r) == multiset(names)
  {
    r := [];
    for i := 0 to |names|
      invariant Ascending(r) && multiset(r) == multiset(names[..i])
    {
      r := Insert(r, names[i]);
      assert names[..i + 1] == names[..i] + [names[i]];
    }
    assert names[..|names|] == names;
  }

  method Insert(sorted: seq<string>, name: string) returns (r: seq<string>)
    requires Ascending(sorted)
    ensures Ascending(r) && multiset(r) == multiset(sorted) + multiset{name}
  {
    var k := |sorted|;
    while k > 0 && Less(name, sorted[k - 1])
      invariant 0 <= k <= |sorted|
      invariant forall i :: k <= i < |sorted| ==> Less(name, sorted[i])
    {
      k := k - 1;
    }
    r := sorted[..k] + [name] + sorted[k..];
    assert sorted == sorted[..k] + sorted[k..];
    InsertedAscending(sorted, k, name);
  }

  lemma InsertedAscending(sorted: seq<string>, k: nat, name: string)
    requires Ascending(sorted) && k <= |sorted| && (k > 0 ==> !Less(name, sorted[k - 1]))
    requires forall i :: k <= i < |sorted| ==> Less(name, sorted[i])
    ensures Ascending(sorted[..k] + [name] + sorted[k..])
  {
    var r := sorted[..k] + [name] + sorted[k..];
    forall i | 0 <= i < k
      ensures !Less(name, sorted[i])
    {
      if i < k - 1 { LessTransitive(sorted[i], sorted[k - 1], name); }
    }
    forall i | k <= i < |sorted| { LessAsymmetric(name, sorted[i]); }
    forall i, j | 0 <= i < j < |r|
      ensures !Less(r[j], r[i])
    {
      assert r[i] == if i < k then sorted[i] else if i == k then name else sorted[i - 1];
      assert r[j] == if j < k then sorted[j] else if j == k then name else sorted[j - 1];
    }
  }

  lemma {:induction false} LessAsymmetric(s: string, t: string)
    requires Less(s, t)
    ensures !Less(t, s)
  {
    if s != "" && s[0] == t[0] {
      LessAsymmetric(s[1..], t[1..]);
    }
  }

  /** A directory that stops the cleaning: its name is eight digits, and there is no 31 February. */
  lemma NoDateStops(daysToRetain: int, today: Day)
    requires daysToRetain != 0
    ensures IsDayName("20240231") && !ShouldBePruned("20240231", daysToRetain, today).Ok?
  {
    var s := "20240231";
    TwoDigits(s[4..|s| - 2]);
    TwoDigits(s[6..8]);
  }
}
