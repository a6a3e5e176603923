/** Civil dates: the day count used for license expiry, and the ISO text it is parsed from. */
module Calendar {
  import opened Values

  /** Division truncating toward zero. */
  function TruncDiv(a: int, b: int): int
    requires b > 0
  {
    if a >= 0 then a / b else -(-a / b)
  }

  /** Days since 1970-01-01, counting years from March. */
  function DaysFromCivil(y: int, m: int, d: int): int {
    var yy := if m <= 2 then y - 1 else y;
    var era := TruncDiv(if yy >= 0 then yy else yy - 399, 400);
    var yoe := yy - era * 400;
    var mp := if m > 2 then m - 3 else m + 9;
    var doy := (153 * mp + 2) / 5 + d - 1;
    var doe := yoe * 365 + yoe / 4 - yoe / 100 + doy;
    era * 146097 + doe - 719468
  }

  predicate Leap(y: int) { (y % 4 == 0 && y % 100 != 0) || y % 400 == 0 }

  const MONTH_DAYS: seq<int> := [31, 28, 31, 30, 31, 30, 31, 31, 30, 31, 30, 31]

  function MonthDays(y: int, m: int): int
    requires 1 <= m <= 12
  {
    if m == 2 && Leap(y) then 29 else MONTH_DAYS[m - 1]
  }

  datatype Date = Date(y: int, m: int, d: int)

  predicate ValidDate(t: Date) { 1 <= t.m <= 12 && 1 <= t.d <= MonthDays(t.y, t.m) }

  function Days(t: Date): int { DaysFromCivil(t.y, t.m, t.d) }

  /** The next day of the Gregorian calendar. */
  function Next(t: Date): (n: Date)
    requires ValidDate(t)
    ensures ValidDate(n)
  {
    if t.d < MonthDays(t.y, t.m) then Date(t.y, t.m, t.d + 1)
    else if t.m < 12 then Date(t.y, t.m + 1, 1)
    else Date(t.y + 1, 1, 1)
  }

  lemma Epoch()
    ensures Days(Date(1970, 1, 1)) == 0
  {
  }

  /** Days up to the first of March of a year. */
  function MarchFirst(y: int): int { 365 * y + y / 4 - y / 100 + y / 400 }

  lemma DaysAre(y: int, m: int, d: int)
    ensures var yy := if m <= 2 then y - 1 else y; var mp := if m > 2 then m - 3 else m + 9;
            DaysFromCivil(y, m, d) == MarchFirst(yy) + (153 * mp + 2) / 5 + d - 1 - 719468
  {
    var yy := if m <= 2 then y - 1 else y;
    var era := TruncDiv(if yy >= 0 then yy else yy - 399, 400);
    assert era == yy / 400;
    EraSplit(yy);
  }

  lemma EraSplit(y: int)
    ensures var yoe := y - y / 400 * 400;
            y / 4 == y / 400 * 100 + yoe / 4 && y / 100 == y / 400 * 4 + yoe / 100
  {
    var era := y / 400;
    var yoe := y - era * 400;
    assert y == 4 * (era * 100) + yoe;
    assert y == 100 * (era * 4) + yoe;
  }

  /** A March year is 366 days long exactly when its February belongs to a leap year. */
  lemma YearLength(y: int)
    ensures MarchFirst(y) - MarchFirst(y - 1) == if Leap(y) then 366 else 365
  {
    StepDiv(y, 4);
    StepDiv(y, 100);
    StepDiv(y, 400);
    assert y % 100 == 0 ==> y % 4 == 0;
    assert y % 400 == 0 ==> y % 100 == 0;
  }

  lemma StepDiv(y: int, n: int)
    requires n == 4 || n == 100 || n == 400
    ensures y / n - (y - 1) / n == if y % n == 0 then 1 else 0
  {
  }

  /** The count rises by exactly one from every valid date to the next, in every year. */
  lemma NextDay(t: Date)
    requires ValidDate(t)
    ensures Days(Next(t)) == Days(t) + 1
  {
    hide MarchFirst, DaysFromCivil, Leap;
    DaysAre(t.y, t.m, t.d);
    var n := Next(t);
    DaysAre(n.y, n.m, n.d);
    YearLength(t.y);
  }

  predicate Earlier(a: Date, b: Date) { a.y < b.y || (a.y == b.y && (a.m < b.m || (a.m == b.m && a.d < b.d))) }

  /** The day before; every valid date has one. */
  function Previous(t: Date): (p: Date)
    requires ValidDate(t)
    ensures ValidDate(p) && Next(p) == t
  {
    if t.d > 1 then Date(t.y, t.m, t.d - 1)
    else if t.m > 1 then Date(t.y, t.m - 1, MonthDays(t.y, t.m - 1))
    else Date(t.y - 1, 12, 31)
  }

  function Rank(t: Date): int { 372 * t.y + 31 * t.m + t.d }

  /** Earlier dates have smaller day counts. */
  lemma {:induction false} DaysMonotone(a: Date, b: Date)
    requires ValidDate(a) && ValidDate(b) && Earlier(a, b)
    ensures Days(a) < Days(b)
    decreases Rank(b) - Rank(a)
  {
    hide DaysFromCivil, Leap;
    var p := Previous(b);
    NextDay(p);
    if p != a {
      DaysMonotone(a, p);
    }
  }

  // ----- ISO text -----

  predicate Digit(c: char) { '0' <= c <= '9' }

  function DigitValue(c: char): int { c as int - '0' as int }

  /** YYYY-MM-DD as a valid date. */
  function ParseIso(iso: string): Option<Date> {
    if |iso| != 10 || iso[4] != '-' || iso[7] != '-' then None
    else if !(Digit(iso[0]) && Digit(iso[1]) && Digit(iso[2]) && Digit(iso[3])) then None
    else if !(Digit(iso[5]) && Digit(iso[6]) && Digit(iso[8]) && Digit(iso[9])) then None
    else
      var y := 1000 * DigitValue(iso[0]) + 100 * DigitValue(iso[1]) + 10 * DigitValue(iso[2]) + DigitValue(iso[3]);
      var m := 10 * DigitValue(iso[5]) + DigitValue(iso[6]);
      var d := 10 * DigitValue(iso[8]) + DigitValue(iso[9]);
      if m < 1 || m > 12 || d < 1 || d > MonthDays(y, m) then None else Some(Date(y, m, d))
  }

  /** The parsing loop over the year's digits computes the same. */
  method ParseIsoDate(iso: string) returns (r: Option<int>)
    ensures r == match ParseIso(iso) case None => None case Some(t) => Some(Days(t))
  {
    hide DaysFromCivil, Leap, Digit, DigitValue;
    if |iso| != 10 || iso[4] != '-' || iso[7] != '-' {
      return None;
    }
    var year := 0;
    var i := 0;
    while i < 4
      invariant 0 <= i <= 4 && forall j :: 0 <= j < i ==> Digit(iso[j])
      invariant year == if i == 0 then 0 else if i == 1 then DigitValue(iso[0])
                        else if i == 2 then 10 * DigitValue(iso[0]) + DigitValue(iso[1])
                        else if i == 3 then 100 * DigitValue(iso[0]) + 10 * DigitValue(iso[1]) + DigitValue(iso[2])
                        else 1000 * DigitValue(iso[0]) + 100 * DigitValue(iso[1]) +
                             10 * DigitValue(iso[2]) + DigitValue(iso[3])
    {
      if !Digit(iso[i]) {
        return None;
      }
      year := year * 10 + DigitValue(iso[i]);
      i := i + 1;
    }
    if !(Digit(iso[5]) && Digit(iso[6]) && Digit(iso[8]) && Digit(iso[9])) {
      return None;
    }
    var month := 10 * DigitValue(iso[5]) + DigitValue(iso[6]);
    var day := 10 * DigitValue(iso[8]) + DigitValue(iso[9]);
    if month < 1 || month > 12 {
      return None;
    }
    var maxDay := if month == 2 && Leap(year) then 29 else MONTH_DAYS[month - 1];
    if day < 1 || day > maxDay {
      return None;
    }
    return Some(DaysFromCivil(year, month, day));
  }

  predicate TextLess(a: string, b: string) {
    b != [] && (a == [] || a[0] < b[0] || (a[0] == b[0] && TextLess(a[1..], b[1..])))
  }

  /** The first difference decides the order of texts. */
  lemma {:induction false} FirstDifference(a: string, b: string) returns (k: nat)
    requires |a| == |b| && a != b
    ensures k < |a| && a[..k] == b[..k] && a[k] != b[k] && (TextLess(a, b) <==> a[k] < b[k])
    decreases |a|
  {
    if a[0] != b[0] {
      k := 0;
    } else {
      assert a == [a[0]] + a[1..] && b == [b[0]] + b[1..];
      k := FirstDifference(a[1..], b[1..]);
      k := k + 1;
      assert a[..k] == [a[0]] + a[1..][..k - 1] && b[..k] == [b[0]] + b[1..][..k - 1];
    }
  }

  /** Accepted texts sort as the days they name. */
  lemma IsoOrder(a: string, b: string)
    requires ParseIso(a).Some? && ParseIso(b).Some?
    ensures TextLess(a, b) <==> Days(ParseIso(a).value) < Days(ParseIso(b).value)
    ensures a == b <==> Days(ParseIso(a).value) == Days(ParseIso(b).value)
  {
    hide Days, TextLess, MonthDays;
    var s, t := ParseIso(a).value, ParseIso(b).value;
    IsoValid(a);
    IsoValid(b);
    if a == b {
      NotLess(a);
    } else {
      var k := FirstDifference(a, b);
      if a[k] < b[k] {
        DifferenceDecides(a, b, k);
        DaysMonotone(s, t);
      } else {
        DifferenceDecides(b, a, k);
        DaysMonotone(t, s);
      }
    }
  }

  lemma IsoValid(a: string)
    requires ParseIso(a).Some?
    ensures ValidDate(ParseIso(a).value)
  {
    hide Leap, Digit, DigitValue;
  }

  lemma {:induction false} NotLess(a: string)
    ensures !TextLess(a, a)
    decreases |a|
  {
    if a != [] {
      NotLess(a[1..]);
    }
  }

  lemma DifferenceDecides(a: string, b: string, k: nat)
    requires ParseIso(a).Some? && ParseIso(b).Some? && k < 10 && a[..k] == b[..k] && a[k] < b[k]
    ensures Earlier(ParseIso(a).value, ParseIso(b).value)
  {
    hide MonthDays;
    forall i | 0 <= i < k ensures a[i] == b[i] {
      assert a[i] == a[..k][i] && b[i] == b[..k][i];
    }
  }
}
