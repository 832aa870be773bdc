/** The front end's small time helpers (`utility/time.js`): the ten-minute time-picker
    table and the "HH:MM" fields read back from it, the "how long ago" label, the
    Korean weekday name, the inclusive period test and the shift to Korea Standard
    Time. Instants are integer milliseconds; the current time is a parameter. */
module TimeUtils {
  import opened Wrappers

  // ---------------------------------------------------------------------------
  // Decimal digits, number-to-string and string-to-number

  predicate IsDigit(c: char)
  {
    '0' <= c <= '9'
  }

  predicate AllDigits(s: string)
  {
    forall k :: 0 <= k < |s| ==> IsDigit(s[k])
  }

  function Digit(d: nat): (c: char)
    requires d < 10
    ensures IsDigit(c)
  {
    (48 + d) as char
  }

  function DigitValue(c: char): nat
    requires IsDigit(c)
  {
    (c as int) - 48
  }

  /** A template literal `${n}` for a non-negative integer: its decimal digits, with no
      leading zero except for 0 itself. */
  function NatToString(n: nat): (r: string)
    ensures |r| >= 1 && AllDigits(r)
    ensures r[0] == '0' <==> n == 0
    decreases n
  {
    if n < 10 then [Digit(n)] else NatToString(n / 10) + [Digit(n % 10)]
  }

  /** The value of a string of decimal digits. */
  function DigitsValue(s: string): nat
    requires AllDigits(s)
    decreases |s|
  {
    if |s| == 0 then 0 else DigitsValue(s[..|s| - 1]) * 10 + DigitValue(s[|s| - 1])
  }

  /** `Number(s)` on a string made only of decimal digits (the empty string gives 0);
      `None` stands for every other string. */
  function ToNumber(s: string): Option<nat>
  {
    if AllDigits(s) then Some(DigitsValue(s)) else None
  }

  /** `Number` reads back what `${n}` writes. */
  lemma {:induction false} NatToStringRoundTrip(n: nat)
    ensures ToNumber(NatToString(n)) == Some(n)
    decreases n
  {
    var r := NatToString(n);
    var prefix := if n < 10 then "" else NatToString(n / 10);
    assert r == prefix + [Digit(n % 10)];
    assert r[..|r| - 1] == prefix;
    if n >= 10 {
      NatToStringRoundTrip(n / 10);
    }
    assert DigitsValue(prefix) == n / 10;
    assert DigitsValue(r) == DigitsValue(prefix) * 10 + n % 10;
  }

  /** A two-character digit string reads back as its two digits. */
  lemma TwoDigitValue(a: nat, b: nat)
    requires a < 10 && b < 10
    ensures ToNumber([Digit(a), Digit(b)]) == Some(10 * a + b)
  {
    var s := [Digit(a), Digit(b)];
    var first := [Digit(a)];
    assert s[..1] == first && first[..0] == [];
    assert DigitsValue(first) == a;
    assert DigitsValue(s) == DigitsValue(first) * 10 + b;
  }

  /** `s.padStart(targetLength, padChar)` with a one-character pad. */
  function PadStart(s: string, targetLength: nat, padChar: char): (r: string)
    ensures |r| == if |s| < targetLength then targetLength else |s|
    ensures r[|r| - |s|..] == s
    ensures forall k :: 0 <= k < |r| - |s| ==> r[k] == padChar
  {
    if |s| < targetLength then seq(targetLength - |s|, _ => padChar) + s else s
  }

  function TwoDigits(n: nat): string
  {
    PadStart(NatToString(n), 2, '0')
  }

  lemma TwoDigitsForm(n: nat)
    requires n < 100
    ensures TwoDigits(n) == [Digit(n / 10), Digit(n % 10)]
  {
    if n >= 10 {
      assert NatToString(n / 10) == [Digit(n / 10)];
    }
  }

  // ---------------------------------------------------------------------------
  // timeOptions

  const TimeOptionCount: nat := 144

  /** Entry `i` of `timeOptions`: the two-digit hour `i / 6`, a colon, and the two-digit
      minute `(i % 6) * 10`. */
  function TimeOption(i: nat): string
    requires i < TimeOptionCount
  {
    TwoDigits(i / 6) + ":" + TwoDigits((i % 6) * 10)
  }

  function TimeOptions(): (r: seq<string>)
    ensures |r| == TimeOptionCount
    ensures forall i :: 0 <= i < TimeOptionCount ==> r[i] == TimeOption(i)
  {
    seq(TimeOptionCount, i requires 0 <= i < TimeOptionCount => TimeOption(i))
  }

  /** Every entry is five characters: two hour digits, ':', the tens digit of the
      minute, and '0'. */
  lemma TimeOptionForm(i: nat)
    requires i < TimeOptionCount
    ensures TimeOptions()[i] == [Digit(i / 6 / 10), Digit(i / 6 % 10), ':', Digit(i % 6), '0']
  {
    TwoDigitsForm(i / 6);
    TwoDigitsForm((i % 6) * 10);
    assert (i % 6) * 10 / 10 == i % 6 && (i % 6) * 10 % 10 == 0;
  }

  /** The table runs from "00:00" to "23:50". */
  lemma TimeOptionsBounds()
    ensures TimeOptions()[0] == "00:00"
    ensures TimeOptions()[TimeOptionCount - 1] == "23:50"
  {
    TimeOptionForm(0);
    TimeOptionForm(TimeOptionCount - 1);
  }

  /** JavaScript's `<` on strings: lexicographic order of the characters. */
  predicate LexLess(a: string, b: string)
    decreases |a|
  {
    if |a| == 0 then |b| > 0
    else |b| > 0 && (a[0] < b[0] || (a[0] == b[0] && LexLess(a[1..], b[1..])))
  }

  /** Two strings that agree before position `k` and differ upwards at `k` are ordered. */
  lemma {:induction false} LexLessAt(a: string, b: string, k: nat)
    requires k < |a| && k < |b| && a[..k] == b[..k] && a[k] < b[k]
    ensures LexLess(a, b)
    decreases k
  {
    if k > 0 {
      assert a[0] == a[..k][0] && b[0] == b[..k][0];
      assert a[1..][..k - 1] == a[..k][1..] && b[1..][..k - 1] == b[..k][1..];
      LexLessAt(a[1..], b[1..], k - 1);
    }
  }

  lemma DigitLess(a: nat, b: nat)
    requires a < b < 10
    ensures Digit(a) < Digit(b)
  {
  }

  /** The "HH:M0" strings are ordered as their (hour, ten-minute) pairs are. */
  lemma ClockStringLess(h1: nat, m1: nat, h2: nat, m2: nat)
    requires h1 < 100 && h2 < 100 && m1 < 10 && m2 < 10
    requires h1 < h2 || (h1 == h2 && m1 < m2)
    ensures LexLess([Digit(h1 / 10), Digit(h1 % 10), ':', Digit(m1), '0'],
                    [Digit(h2 / 10), Digit(h2 % 10), ':', Digit(m2), '0'])
  {
    var a := [Digit(h1 / 10), Digit(h1 % 10), ':', Digit(m1), '0'];
    var b := [Digit(h2 / 10), Digit(h2 % 10), ':', Digit(m2), '0'];
    if h1 / 10 < h2 / 10 {
      DigitLess(h1 / 10, h2 / 10);
      LexLessAt(a, b, 0);
    } else if h1 != h2 {
      assert h1 / 10 == h2 / 10;
      DigitLess(h1 % 10, h2 % 10);
      LexLessAt(a, b, 1);
    } else {
      DigitLess(m1, m2);
      assert a[..3] == b[..3];
      LexLessAt(a, b, 3);
    }
  }

  /** The table is strictly increasing as strings. */
  lemma TimeOptionsIncreasing(i: nat, j: nat)
    requires i < j < TimeOptionCount
    ensures LexLess(TimeOptions()[i], TimeOptions()[j])
  {
    TimeOptionForm(i);
    TimeOptionForm(j);
    assert i / 6 < j / 6 || (i / 6 == j / 6 && i % 6 < j % 6);
    ClockStringLess(i / 6, i % 6, j / 6, j % 6);
  }

  // ---------------------------------------------------------------------------
  // The "HH:MM" split inside timePickerToDate

  /** `s.split(sep)` for a one-character separator. */
  function Split(s: string, sep: char): (parts: seq<string>)
    ensures |parts| >= 1
    ensures forall k :: 0 <= k < |parts| ==> sep !in parts[k]
    decreases |s|
  {
    if |s| == 0 then [""]
    else
      var rest := Split(s[1..], sep);
      if s[0] == sep then [""] + rest else [[s[0]] + rest[0]] + rest[1..]
  }

  /** The pieces put back together, with the separator between them. */
  function Join(parts: seq<string>, sep: char): string
    requires |parts| >= 1
    decreases |parts|
  {
    if |parts| == 1 then parts[0] else parts[0] + [sep] + Join(parts[1..], sep)
  }

  /** Splitting loses nothing: joining the pieces gives back the string. */
  lemma {:induction false} JoinSplit(s: string, sep: char)
    ensures Join(Split(s, sep), sep) == s
    decreases |s|
  {
    if |s| > 0 {
      JoinSplit(s[1..], sep);
      var rest := Split(s[1..], sep);
      if s[0] == sep {
        assert ([""] + rest)[1..] == rest;
      } else {
        var parts := [[s[0]] + rest[0]] + rest[1..];
        assert parts[1..] == rest[1..];
        assert s == [s[0]] + s[1..];
      }
    }
  }

  lemma {:induction false} SplitNoSeparator(s: string, sep: char)
    requires sep !in s
    ensures Split(s, sep) == [s]
    decreases |s|
  {
    if |s| > 0 {
      assert sep !in s[1..];
      SplitNoSeparator(s[1..], sep);
      assert s == [s[0]] + s[1..];
    }
  }

  lemma {:induction false} SplitAtFirstSeparator(x: string, y: string, sep: char)
    requires sep !in x
    ensures Split(x + [sep] + y, sep) == [x] + Split(y, sep)
    decreases |x|
  {
    var s := x + [sep] + y;
    if |x| == 0 {
      assert s[1..] == y;
    } else {
      assert s[1..] == x[1..] + [sep] + y;
      assert sep !in x[1..];
      SplitAtFirstSeparator(x[1..], y, sep);
      assert [x[0]] + x[1..] == x;
    }
  }

  /** The hour and minute `timePickerToDate` reads from its "HH:MM" argument: the string
      is split at ':' and the first two pieces go through `Number`; a missing piece is
      `None`. */
  function TimePickerFields(time: string): (Option<nat>, Option<nat>)
  {
    var parts := Split(time, ':');
    (ToNumber(parts[0]), if |parts| >= 2 then ToNumber(parts[1]) else None)
  }

  /** An "HH:M0" string reads back as hour `h` and minute `10 * m`. */
  lemma ClockStringFields(h: nat, m: nat)
    requires h < 100 && m < 10
    ensures TimePickerFields([Digit(h / 10), Digit(h % 10), ':', Digit(m), '0']) == (Some(h), Some(10 * m))
  {
    var hour := [Digit(h / 10), Digit(h % 10)];
    var minute := [Digit(m), Digit(0)];
    assert [Digit(h / 10), Digit(h % 10), ':', Digit(m), '0'] == hour + [':'] + minute;
    SplitAtFirstSeparator(hour, minute, ':');
    SplitNoSeparator(minute, ':');
    assert Split(hour + [':'] + minute, ':') == [hour, minute];
    TwoDigitValue(h / 10, h % 10);
    TwoDigitValue(m, 0);
  }

  /** Reading an entry of `timeOptions` back gives hour `i / 6` and minute `(i % 6) * 10`. */
  lemma TimeOptionRoundTrip(i: nat)
    requires i < TimeOptionCount
    ensures TimePickerFields(TimeOptions()[i]) == (Some(i / 6), Some((i % 6) * 10))
  {
    TimeOptionForm(i);
    ClockStringFields(i / 6, i % 6);
  }

  // ---------------------------------------------------------------------------
  // calTimePassed

  function Abs(x: int): nat
  {
    if x < 0 then -x else x
  }

  /** `calTimePassed(date)` with the clock reading `nowMs`: the distance between the two
      instants, rounded down to whole seconds, minutes, hours and days, picks the label. */
  function CalTimePassed(dateMs: int, nowMs: int): string
  {
    var diffMs := Abs(nowMs - dateMs);
    var diffSeconds := diffMs / 1000;
    var diffMinutes := diffSeconds / 60;
    var diffHours := diffMinutes / 60;
    var diffDays := diffHours / 24;
    if diffSeconds < 60 then "방금 전"
    else if diffMinutes < 60 then NatToString(diffMinutes) + "분 전"
    else if diffHours < 24 then NatToString(diffHours) + "시간 전"
    else NatToString(diffDays) + "일 전"
  }

  /** The label as a function of the distance `d` in milliseconds: under a minute is
      "just now"; otherwise the count of whole minutes, hours or days, each the floor of
      `d` over that unit. */
  lemma CalTimePassedBuckets(dateMs: int, nowMs: int)
    ensures var d := Abs(nowMs - dateMs);
      var r := CalTimePassed(dateMs, nowMs);
      && (d < 60_000 ==> r == "방금 전")
      && (60_000 <= d < 3_600_000 ==> r == NatToString(d / 60_000) + "분 전")
      && (3_600_000 <= d < 86_400_000 ==> r == NatToString(d / 3_600_000) + "시간 전")
      && (86_400_000 <= d ==> r == NatToString(d / 86_400_000) + "일 전")
  {
  }

  /** Only the distance matters: past and future instants give the same label. */
  lemma CalTimePassedSymmetric(a: int, b: int)
    ensures CalTimePassed(a, b) == CalTimePassed(b, a)
  {
  }

  // ---------------------------------------------------------------------------
  // changeDayName

  /** The argument of `changeDayName`, compared with `===`: a string or a number. */
  datatype DayName = DayText(text: string) | DayNumber(number: int)

  /** The weekday abbreviations, Sunday first, as `getDateInfo` lists them. */
  const WeekDays: seq<string> := ["Sun", "Mon", "Tue", "Wed", "Thu", "Fri", "Sat"]
  const KoreanWeekDays: seq<string> := ["일", "월", "화", "수", "목", "금", "토"]

  function ChangeDayName(dayName: DayName): string
  {
    if dayName == DayText("Sun") || dayName == DayNumber(0) then "일"
    else if dayName == DayText("Mon") || dayName == DayNumber(1) then "월"
    else if dayName == DayText("Tue") || dayName == DayNumber(2) then "화"
    else if dayName == DayText("Wed") || dayName == DayNumber(3) then "수"
    else if dayName == DayText("Thu") || dayName == DayNumber(4) then "목"
    else if dayName == DayText("Fri") || dayName == DayNumber(5) then "금"
    else if dayName == DayText("Sat") || dayName == DayNumber(6) then "토"
    else ""
  }

  /** Weekday `i` (Sunday = 0), by abbreviation or by number, gets the `i`-th Korean name. */
  lemma ChangeDayNameKnown(i: nat)
    requires i < 7
    ensures ChangeDayName(DayText(WeekDays[i])) == KoreanWeekDays[i]
    ensures ChangeDayName(DayNumber(i)) == KoreanWeekDays[i]
  {
  }

  /** Anything that names no weekday gets the empty string. */
  lemma ChangeDayNameUnknown(dayName: DayName)
    requires forall i :: 0 <= i < 7 ==> dayName != DayText(WeekDays[i]) && dayName != DayNumber(i)
    ensures ChangeDayName(dayName) == ""
  {
  }

  // ---------------------------------------------------------------------------
  // timeInPeriod and toKST

  function TimeInPeriod(stdMs: int, startMs: int, endMs: int): bool
  {
    startMs <= stdMs && endMs >= stdMs
  }

  /** The period includes both of its ends. */
  lemma TimeInPeriodInclusive(startMs: int, endMs: int)
    requires startMs <= endMs
    ensures TimeInPeriod(startMs, startMs, endMs) && TimeInPeriod(endMs, startMs, endMs)
  {
  }

  /** A period that ends before it starts contains nothing. */
  lemma TimeInPeriodReversedIsEmpty(stdMs: int, startMs: int, endMs: int)
    requires startMs > endMs
    ensures !TimeInPeriod(stdMs, startMs, endMs)
  {
  }

  /** `toKST`: the same instant moved nine hours later. */
  function ToKST(ms: int): (r: int)
    ensures r - ms == 32_400_000
  {
    ms + 1000 * 60 * 60 * 9
  }

  /** Shifting every instant to KST changes neither the elapsed-time label nor the
      period test. */
  lemma ToKSTPreservesComparisons(a: int, b: int, c: int)
    ensures CalTimePassed(ToKST(a), ToKST(b)) == CalTimePassed(a, b)
    ensures TimeInPeriod(ToKST(a), ToKST(b), ToKST(c)) == TimeInPeriod(a, b, c)
  {
  }
}
