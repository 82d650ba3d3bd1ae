/**
 * The integer arithmetic of the date helper: two-digit months, month
 * offsets, interval membership, the week end, the unit selection of
 * `seconds2times` and the seconds of an interval array.
 *
 * The clock is a parameter (`clockMonth` stands for `date('m')`). A date is
 * a day number counted from 1970-01-01, a Thursday, with the time of day in
 * seconds; time zones and daylight saving are not part of the model. The
 * `DateInterval::format` call of `seconds2times` is the parameter `render`,
 * which receives the magnitude of the delay in seconds and the format string.
 */
module DateHelper {
  import opened Wrappers
  import opened Text
  import opened PhpArrays

  const SecondsInYear := 31536000
  const SecondsInDay := 86400
  const SecondsInHour := 3600
  const SecondsInMinute := 60

  // ---------------------------------------------------------------------
  // zeroAddMoth, monthPlus, monthMinus

  /** `zeroAddMoth`: a one-character decimal gets a leading zero. */
  function ZeroAddMonth(month: int): (r: string)
    ensures 0 <= month <= 9 ==> r == "0" + NatToDecimal(month)
    ensures !(0 <= month <= 9) ==> r == IntToDecimal(month)
  {
    var s := IntToDecimal(month);
    if |s| == 1 then "0" + s else s
  }

  /** For a non-negative month the two-or-more-digit string reads back as the month. */
  lemma ZeroAddMonthRoundTrip(month: nat)
    ensures |ZeroAddMonth(month)| >= 2
    ensures forall i :: 0 <= i < |ZeroAddMonth(month)| ==> IsDigit(ZeroAddMonth(month)[i])
    ensures DecimalValue(ZeroAddMonth(month)) == month
  {
    DecimalRoundTrip(month);
    if month <= 9 {
      var s := ZeroAddMonth(month);
      assert s == "0" + NatToDecimal(month);
      assert s[..1] == "0";
      assert s[..|s| - 1] == "0";
      assert DecimalValue("0") == 0 by {
        assert "0"[..0] == "";
      }
    } else {
      assert |NatToDecimal(month)| != 1;
    }
  }

  lemma ZeroAddMonthExamples()
    ensures ZeroAddMonth(0) == "00"
    ensures ZeroAddMonth(7) == "07"
    ensures ZeroAddMonth(12) == "12"
    ensures ZeroAddMonth(-3) == "-3"
  {
    assert NatToDecimal(12) == NatToDecimal(1) + [DigitChar(2)];
  }

  /**
   * `monthPlus($int, $month)`: without an offset, the current month as
   * `date('m')` prints it; otherwise the given (or current) month plus the
   * offset, padded. The month is not wrapped into the next year.
   */
  function MonthPlus(k: Option<int>, month: Option<int>, clockMonth: int): (r: string)
    requires 1 <= clockMonth <= 12
    ensures k.None? ==> r == ZeroAddMonth(clockMonth)
    ensures k.Some? && month.Some? ==> r == ZeroAddMonth(month.value + k.value)
    ensures k.Some? && month.None? ==> r == ZeroAddMonth(clockMonth + k.value)
  {
    match k
    case None => ZeroAddMonth(clockMonth)
    case Some(n) =>
      var m := match month case Some(m) => m + n case None => clockMonth + n;
      ZeroAddMonth(m)
  }

  /** `monthMinus($int, $month)`: the same with the offset subtracted. */
  function MonthMinus(k: Option<int>, month: Option<int>, clockMonth: int): (r: string)
    requires 1 <= clockMonth <= 12
  {
    match k
    case None => ZeroAddMonth(clockMonth)
    case Some(n) =>
      match month
      case Some(m) => ZeroAddMonth(m - n)
      case None => ZeroAddMonth(clockMonth - n)
  }

  /** Subtracting an offset is adding its negation, with or without an explicit month. */
  lemma MonthMinusIsPlus(k: Option<int>, month: Option<int>, clockMonth: int)
    requires 1 <= clockMonth <= 12
    ensures MonthMinus(k, month, clockMonth)
      == MonthPlus(match k case Some(n) => Some(-n) case None => None, month, clockMonth)
  {
  }

  lemma MonthPlusExamples(clockMonth: int)
    requires 1 <= clockMonth <= 12
    ensures MonthPlus(Some(1), Some(12), clockMonth) == "13"
    ensures MonthPlus(Some(2), Some(3), clockMonth) == "05"
    ensures MonthMinus(Some(1), Some(10), clockMonth) == "09"
  {
    assert NatToDecimal(13) == NatToDecimal(1) + [DigitChar(3)];
  }

  // ---------------------------------------------------------------------
  // isBetweenDate

  /**
   * `isBetweenDate` on dates already parsed to points in time: inside the
   * closed interval whose ends are the two dates, in either order.
   */
  function IsBetweenDate(date: int, start: int, end: int): (r: bool)
    ensures r <==> (start <= end && start <= date <= end) || (end <= start && end <= date <= start)
  {
    (end >= date && start <= date) || (start >= date && end <= date)
  }

  function Min(a: int, b: int): int { if a <= b then a else b }
  function Max(a: int, b: int): int { if a <= b then b else a }

  /** The order of the two ends does not matter. */
  lemma IsBetweenDateSpec(date: int, start: int, end: int)
    ensures IsBetweenDate(date, start, end) <==> Min(start, end) <= date <= Max(start, end)
    ensures IsBetweenDate(date, start, end) == IsBetweenDate(date, end, start)
  {
  }

  // ---------------------------------------------------------------------
  // getWeekEnd

  /** A point in time: the day number from 1970-01-01 and the second of that day. */
  datatype Moment = Moment(day: int, second: nat)

  /** The `w` format: 0 for Sunday up to 6 for Saturday; day 0 was a Thursday. */
  function WeekDay(day: int): (w: nat)
    ensures w < 7
  {
    (day + 4) % 7
  }

  /** The number of the Sunday-to-Saturday week a day lies in. */
  function WeekNumber(day: int): int
  {
    (day + 4) / 7
  }

  /** `getWeekEnd`: a copy of the date moved `7 - w` days on, at the same time of day. */
  function GetWeekEnd(current: Moment): (r: Moment)
    ensures r.second == current.second
    ensures 1 <= r.day - current.day <= 7
  {
    var t := 7 - WeekDay(current.day);
    Moment(current.day + t, current.second)
  }

  /**
   * The result is the Sunday that starts the next Sunday-to-Saturday week: a
   * Sunday input moves a full week on.
   */
  lemma GetWeekEndSpec(current: Moment)
    ensures var r := GetWeekEnd(current);
      WeekDay(r.day) == 0
      && (WeekDay(current.day) + (r.day - current.day)) % 7 == 0
      && WeekNumber(r.day) == WeekNumber(current.day) + 1
      && (WeekDay(current.day) == 0 <==> r.day - current.day == 7)
  {
    var x := current.day + 4;
    assert x == 7 * (x / 7) + x % 7;
  }

  // ---------------------------------------------------------------------
  // seconds2times

  /** The `$delay` argument: null, a boolean or a number of seconds. */
  datatype Delay = NoDelay | Flag(b: bool) | Seconds(n: int)

  const Periods: seq<nat> := [31536000, 86400, 3600, 60, 1]

  function Formats(short: bool): (r: seq<string>)
    ensures |r| == 5
  {
    if short then ["%yг ", "%aд ", "%h:", "%I:", "%S"]
    else ["%y лет ", "%a д. ", "%h час. ", "%i мин. ", "%s сек."]
  }

  /** The loop over the levels from `level` on: the unit of each period not above the delay. */
  function FormatFrom(delay: nat, short: bool, level: nat): string
    requires level <= 5
    decreases 5 - level
  {
    if level == 5 then ""
    else (if delay >= Periods[level] then Formats(short)[level] else "") + FormatFrom(delay, short, level + 1)
  }

  /** The first level whose period is not above the delay, 5 when there is none. */
  function FirstLevel(delay: nat): (j: nat)
    ensures j <= 5
    ensures forall i :: 0 <= i < j ==> Periods[i] > delay
    ensures forall i :: j <= i < 5 ==> Periods[i] <= delay
  {
    if delay >= 31536000 then 0
    else if delay >= 86400 then 1
    else if delay >= 3600 then 2
    else if delay >= 60 then 3
    else if delay >= 1 then 4
    else 5
  }

  /**
   * The periods decrease, so the units chosen are exactly the ones from the
   * largest period not above the delay down to seconds, in that order.
   */
  lemma {:induction false} FormatFromSuffix(delay: nat, short: bool, level: nat)
    requires level <= 5
    ensures FormatFrom(delay, short, level)
      == Concat(Formats(short)[if level < FirstLevel(delay) then FirstLevel(delay) else level..])
    decreases 5 - level
  {
    var fs := Formats(short);
    var j := FirstLevel(delay);
    var start := if level < j then j else level;
    if level == 5 {
      assert fs[5..] == [];
    } else {
      FormatFromSuffix(delay, short, level + 1);
      var next := if level + 1 < j then j else level + 1;
      if level < j {
        assert delay < Periods[level];
        assert start == next;
      } else {
        assert fs[level..] == [fs[level]] + fs[level + 1..];
      }
    }
  }

  /**
   * `seconds2times`: `null` and `false` give `false`, `true` gives the word
   * for "disabled", a zero delay gives `0 сек.`, and otherwise the sign of
   * the delay followed by the interval rendered with the chosen units.
   */
  function Seconds2Times(delay: Delay, short: bool, render: (nat, string) -> string): (r: Option<string>)
    ensures delay.NoDelay? || delay == Flag(false) ==> r.None?
    ensures delay == Flag(true) ==> r == Some("Отключено")
    ensures delay == Seconds(0) ==> r == Some("0 сек.")
  {
    match delay
    case NoDelay => None
    case Flag(b) => if b then Some("Отключено") else None
    case Seconds(n) =>
      var sign := if n < 0 then "-" else "";
      var a := if n < 0 then -n else n;
      var f := FormatFrom(a, short, 0);
      if f == "" then Some("0 сек.") else Some(sign + render(a, f))
  }

  /** The units a delay selects, stated without the loop. */
  lemma Seconds2TimesUnits(n: int, short: bool, render: (nat, string) -> string)
    requires n != 0
    ensures var a := if n < 0 then -n else n;
      Seconds2Times(Seconds(n), short, render)
        == Some((if n < 0 then "-" else "") + render(a, Concat(Formats(short)[FirstLevel(a)..])))
  {
    var a := if n < 0 then -n else n;
    FormatFromSuffix(a, short, 0);
    UnitsNonEmpty(short, FirstLevel(a));
  }

  /** Every unit format is non-empty, so a non-empty run of them renders something. */
  lemma UnitsNonEmpty(short: bool, j: nat)
    requires j < 5
    ensures Concat(Formats(short)[j..]) != ""
  {
    var fs := Formats(short);
    assert fs[j..] == [fs[j]] + fs[j + 1..];
    assert |fs[j]| > 0;
  }

  lemma Seconds2TimesExample(render: (nat, string) -> string)
    ensures Seconds2Times(Seconds(90), false, render) == Some(render(90, "%i мин. %s сек."))
    ensures Seconds2Times(Seconds(-5), true, render) == Some("-" + render(5, "%S"))
  {
    Seconds2TimesUnits(90, false, render);
    assert FirstLevel(90) == 3;
    var long := Formats(false)[3..];
    assert long == ["%i мин. ", "%s сек."];
    assert Concat(long) == long[0] + Concat(long[1..]);
    assert Concat(long[1..]) == long[1] + Concat(long[2..]);
    assert long[2..] == [];
    assert Concat(long) == "%i мин. %s сек.";
    assert "" + render(90, Concat(long)) == render(90, "%i мин. %s сек.");
    Seconds2TimesUnits(-5, true, render);
    assert FirstLevel(5) == 4;
    var short := Formats(true)[4..];
    assert short == ["%S"];
    assert Concat(short) == short[0] + Concat(short[1..]);
    assert short[1..] == [];
    assert Concat(short) == "%S";
  }

  // ---------------------------------------------------------------------
  // interval2seconds

  /** The whitespace PHP 8 allows around a numeric string: space, tab, line feed, carriage return, vertical tab, form feed. */
  const NumericSpace: set<char> := {' ', '\t', '\n', '\r', '\U{000B}', '\U{000C}'}

  /** Every character is numeric-string whitespace. */
  predicate AllNumericSpace(s: string)
  {
    forall i :: 0 <= i < |s| ==> s[i] in NumericSpace
  }

  /** An optional `+` or `-` followed by one or more decimal digits. */
  predicate SignedDigits(t: string)
  {
    |t| > 0 && if t[0] == '-' || t[0] == '+' then |t| > 1 && AllDigits(t[1..]) else AllDigits(t)
  }

  /** The integer a sign-and-digits string denotes. */
  function SignedValue(t: string): int
    requires SignedDigits(t)
  {
    if t[0] == '-' then -(DecimalValue(t[1..]) as int)
    else if t[0] == '+' then DecimalValue(t[1..])
    else DecimalValue(t)
  }

  /**
   * PHP 8's reading of an integer numeric string: whitespace, an optional
   * sign, digits, whitespace. `None` for every other string.
   */
  function IntegerString(s: string): Option<int>
  {
    var t := TrimRight(TrimLeft(s, NumericSpace), NumericSpace);
    if SignedDigits(t) then Some(SignedValue(t)) else None
  }

  /** Leading characters from the list are dropped whatever follows them. */
  lemma {:induction false} TrimLeftSkips(pre: string, u: string, cs: set<char>)
    requires forall i :: 0 <= i < |pre| ==> pre[i] in cs
    ensures TrimLeft(pre + u, cs) == TrimLeft(u, cs)
  {
    if |pre| > 0 {
      var s := pre + u;
      assert s[0] == pre[0];
      assert TrimLeft(s, cs) == TrimLeft(s[1..], cs);
      assert s[1..] == pre[1..] + u;
      TrimLeftSkips(pre[1..], u, cs);
    } else {
      assert pre + u == u;
    }
  }

  /** Trailing characters from the list are dropped whatever precedes them. */
  lemma {:induction false} TrimRightSkips(u: string, post: string, cs: set<char>)
    requires forall i :: 0 <= i < |post| ==> post[i] in cs
    ensures TrimRight(u + post, cs) == TrimRight(u, cs)
  {
    if |post| > 0 {
      var s := u + post;
      var p := post[..|post| - 1];
      assert s[|s| - 1] == post[|post| - 1];
      assert TrimRight(s, cs) == TrimRight(s[..|s| - 1], cs);
      assert s[..|s| - 1] == u + p;
      TrimRightSkips(u, p, cs);
    } else {
      assert u + post == u;
    }
  }

  /** Whitespace, a signed integer and whitespace read back as that integer. */
  lemma IntegerStringOf(pre: string, t: string, post: string)
    requires AllNumericSpace(pre) && SignedDigits(t) && AllNumericSpace(post)
    ensures IntegerString(pre + t + post) == Some(SignedValue(t))
  {
    assert t[0] !in NumericSpace;
    assert t[|t| - 1] !in NumericSpace;
    assert pre + t + post == pre + (t + post);
    TrimLeftSkips(pre, t + post, NumericSpace);
    assert TrimLeft(t + post, NumericSpace) == t + post;
    TrimRightSkips(t, post, NumericSpace);
    assert TrimRight(t, NumericSpace) == t;
  }

  /** A string read as an integer is whitespace, a signed integer and whitespace. */
  lemma IntegerStringParts(s: string)
    ensures IntegerString(s).Some? ==> exists i, j :: (0 <= i <= j <= |s| && AllNumericSpace(s[..i])
      && AllNumericSpace(s[j..]) && SignedDigits(s[i..j]) && IntegerString(s).value == SignedValue(s[i..j]))
  {
    var l := TrimLeft(s, NumericSpace);
    var t := TrimRight(l, NumericSpace);
    if SignedDigits(t) {
      var i := |s| - |l|;
      var j := i + |t|;
      assert s[i..j] == t;
      assert AllNumericSpace(s[..i]) by {
        forall k | 0 <= k < i ensures s[..i][k] in NumericSpace { assert s[..i][k] == s[k]; }
      }
      assert AllNumericSpace(s[j..]) by {
        forall k | 0 <= k < |s| - j ensures s[j..][k] in NumericSpace { assert s[j..][k] == l[|t| + k]; }
      }
    }
  }

  lemma MinusOneString()
    ensures IntegerString("-1") == Some(-1)
  {
    assert "" + "-1" + "" == "-1";
    assert "-1"[1..] == "1";
    assert DecimalValue("1") == 1 by { assert "1"[..0] == ""; }
    assert SignedDigits("-1");
    assert SignedValue("-1") == -1;
    IntegerStringOf("", "-1", "");
  }

  lemma LeadingSpaceString()
    ensures IntegerString(" 5") == Some(5)
  {
    assert " " + "5" + "" == " 5";
    assert DecimalValue("5") == 5 by { assert "5"[..0] == ""; }
    assert SignedDigits("5");
    assert SignedValue("5") == 5;
    IntegerStringOf(" ", "5", "");
  }

  lemma PlusString()
    ensures IntegerString("+2") == Some(2)
  {
    assert "" + "+2" + "" == "+2";
    assert "+2"[1..] == "2";
    assert DecimalValue("2") == 2 by { assert "2"[..0] == ""; }
    assert SignedDigits("+2");
    assert SignedValue("+2") == 2;
    IntegerStringOf("", "+2", "");
  }

  lemma TrailingSpaceString()
    ensures IntegerString("5 ") == Some(5)
  {
    assert "" + "5" + " " == "5 ";
    assert DecimalValue("5") == 5 by { assert "5"[..0] == ""; }
    assert SignedDigits("5");
    assert SignedValue("5") == 5;
    IntegerStringOf("", "5", " ");
  }

  lemma DetachedSignString()
    ensures IntegerString("- 5") == None
  {
    var t := "- 5";
    assert t[0] == '-' && t[1] == ' ' && t[2] == '5' && |t| == 3;
    assert t[1..][0] == ' ';
    TrimFree(t, NumericSpace);
  }

  /** Signed and whitespace-padded integer strings count as numbers; a sign apart from its digits does not. */
  lemma Interval2SecondsStringsExample()
    ensures Interval2Seconds([Entry(StrKey("d"), Str("-1"))]) == Some(-86400)
    ensures Interval2Seconds([Entry(StrKey("s"), Str(" 5"))]) == Some(5)
    ensures Interval2Seconds([Entry(StrKey("i"), Str("+2"))]) == Some(120)
    ensures Interval2Seconds([Entry(StrKey("s"), Str("5 "))]) == Some(5)
    ensures Interval2Seconds([Entry(StrKey("s"), Str("- 5"))]).None?
  {
    MinusOneDay();
    LeadingSpaceSeconds();
    PlusTwoMinutes();
    TrailingSpaceSeconds();
    DetachedSignSeconds();
  }

  lemma MinusOneDay()
    ensures Interval2Seconds([Entry(StrKey("d"), Str("-1"))]) == Some(-86400)
  {
    var a := [Entry(StrKey("d"), Str("-1"))];
    assert a[1..] == [];
    MinusOneString();
  }

  lemma LeadingSpaceSeconds()
    ensures Interval2Seconds([Entry(StrKey("s"), Str(" 5"))]) == Some(5)
  {
    var a := [Entry(StrKey("s"), Str(" 5"))];
    assert a[1..] == [];
    LeadingSpaceString();
  }

  lemma PlusTwoMinutes()
    ensures Interval2Seconds([Entry(StrKey("i"), Str("+2"))]) == Some(120)
  {
    assert UnitOf(StrKey("i")) == 60 by { assert "i"[0] != "d"[0] && "i"[0] != "h"[0]; }
    PlusString();
    OneEntry(Entry(StrKey("i"), Str("+2")), NumberOf);
  }

  /** An array of one entry contributes that entry's value times its unit. */
  lemma OneEntry(e: Entry, read: Value -> Option<int>)
    ensures Interval2SecondsBy([e], read)
      == if UnitOf(e.key) == 0 then Some(0) else match read(e.val) case None => None case Some(x) => Some(x * UnitOf(e.key))
  {
    assert [e][1..] == [];
  }

  lemma TrailingSpaceSeconds()
    ensures Interval2Seconds([Entry(StrKey("s"), Str("5 "))]) == Some(5)
  {
    var a := [Entry(StrKey("s"), Str("5 "))];
    assert a[1..] == [];
    TrailingSpaceString();
  }

  lemma DetachedSignSeconds()
    ensures Interval2Seconds([Entry(StrKey("s"), Str("- 5"))]).None?
  {
    var a := [Entry(StrKey("s"), Str("- 5"))];
    assert a[1..] == [];
    DetachedSignString();
  }

  /** What `+` and `*` read from an entry value; `None` where PHP throws a `TypeError`. */
  function NumberOf(v: Value): Option<int>
  {
    match v
    case Null => Some(0)
    case Bool(b) => Some(if b then 1 else 0)
    case Int(n) => Some(n)
    case Str(s) => IntegerString(s)
    case Arr(_) => None
  }

  /** The seconds the key `d`, `h`, `i` or `s` stands for; 0 for any other key. */
  function UnitOf(k: Key): nat
  {
    if k == StrKey("d") then 86400
    else if k == StrKey("h") then 3600
    else if k == StrKey("i") then 60
    else if k == StrKey("s") then 1
    else 0
  }

  /**
   * The foreach of `interval2seconds`, with `read` standing for the number
   * `+` and `*` make of an entry value; `None` where PHP throws.
   */
  function Interval2SecondsBy(interval: PArr, read: Value -> Option<int>): Option<int>
  {
    if |interval| == 0 then Some(0)
    else
      var e := interval[0];
      var rest := Interval2SecondsBy(interval[1..], read);
      if UnitOf(e.key) == 0 then rest
      else
        match read(e.val)
        case None => None
        case Some(x) => match rest case None => None case Some(t) => Some(x * UnitOf(e.key) + t)
  }

  /** `interval2seconds` under PHP 8's reading of the values. */
  function Interval2Seconds(interval: PArr): Option<int>
  {
    Interval2SecondsBy(interval, NumberOf)
  }

  /** The value a unit key contributes: 0 when the key is missing. */
  function UnitValue(a: PArr, k: Key, read: Value -> Option<int>): Option<int>
  {
    match Get(a, k)
    case None => Some(0)
    case Some(v) => read(v)
  }

  /** Whether every unit key that is present holds a number. */
  predicate NumericUnits(a: PArr, read: Value -> Option<int>)
  {
    UnitValue(a, StrKey("d"), read).Some? && UnitValue(a, StrKey("h"), read).Some?
    && UnitValue(a, StrKey("i"), read).Some? && UnitValue(a, StrKey("s"), read).Some?
  }

  /** The sum law of the foreach for one array: the weighted sum of the units, or an error. */
  predicate SumLaw(a: PArr, read: Value -> Option<int>)
  {
    && (NumericUnits(a, read) ==> Interval2SecondsBy(a, read) == Some(
      86400 * UnitValue(a, StrKey("d"), read).value + 3600 * UnitValue(a, StrKey("h"), read).value
      + 60 * UnitValue(a, StrKey("i"), read).value + UnitValue(a, StrKey("s"), read).value))
    && (!NumericUnits(a, read) ==> Interval2SecondsBy(a, read).None?)
  }

  /** The sum law holds whatever the reading of the values. */
  lemma {:induction false} Interval2SecondsBySum(a: PArr, read: Value -> Option<int>)
    requires UniqueKeys(a)
    ensures SumLaw(a, read)
  {
    if |a| > 0 {
      UniqueTail(a);
      Interval2SecondsBySum(a[1..], read);
      Interval2SecondsByStep(a, read);
    }
  }

  /** The sum law carries over from the rest of the array to the whole of it. */
  lemma Interval2SecondsByStep(a: PArr, read: Value -> Option<int>)
    requires UniqueKeys(a) && |a| > 0 && SumLaw(a[1..], read)
    ensures SumLaw(a, read)
  {
    var k := a[0].key;
    UnitValueCons(a, StrKey("d"), read);
    UnitValueCons(a, StrKey("h"), read);
    UnitValueCons(a, StrKey("i"), read);
    UnitValueCons(a, StrKey("s"), read);
    if k == StrKey("d") {
      assert UnitOf(k) == 86400;
      assert SumLaw(a, read);
    } else if k == StrKey("h") {
      assert UnitOf(k) == 3600;
      assert SumLaw(a, read);
    } else if k == StrKey("i") {
      assert UnitOf(k) == 60;
      assert SumLaw(a, read);
    } else if k == StrKey("s") {
      assert UnitOf(k) == 1;
      assert SumLaw(a, read);
    } else {
      assert Interval2SecondsBy(a, read) == Interval2SecondsBy(a[1..], read);
    }
  }

  /**
   * The total is `86400 d + 3600 h + 60 i + s` over the unit keys present,
   * whatever else the array holds and in whatever order.
   */
  lemma Interval2SecondsSum(a: PArr)
    requires UniqueKeys(a)
    ensures NumericUnits(a, NumberOf) ==> Interval2Seconds(a) == Some(
      86400 * UnitValue(a, StrKey("d"), NumberOf).value + 3600 * UnitValue(a, StrKey("h"), NumberOf).value
      + 60 * UnitValue(a, StrKey("i"), NumberOf).value + UnitValue(a, StrKey("s"), NumberOf).value)
    ensures !NumericUnits(a, NumberOf) ==> Interval2Seconds(a).None?
  {
    Interval2SecondsBySum(a, NumberOf);
  }

  lemma UnitValueCons(a: PArr, k: Key, read: Value -> Option<int>)
    requires UniqueKeys(a) && |a| > 0
    ensures UnitValue(a, k, read) == if a[0].key == k then read(a[0].val) else UnitValue(a[1..], k, read)
  {
    HasKeyCons(a, k);
  }

  lemma Interval2SecondsExample()
    ensures Interval2Seconds([Entry(StrKey("h"), Int(1)), Entry(StrKey("x"), Str("?")), Entry(StrKey("s"), Int(5))])
      == Some(3605)
  {
  }
}
