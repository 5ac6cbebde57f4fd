/** Naive UTC `datetime` values and the two ways the library turns them into
    text: the default run id (`strftime("%Y_%m_%d__%H_%M_%S")`) and `str()`
    in the comparison table. Aware values, whose `str()` carries an offset
    and whose `strftime` uses local fields, are not modelled. */
module Timestamps {
  import opened StringOrder
  import opened Decimal
  import opened Strings
  import opened Outcomes

  datatype Timestamp = Timestamp(
    year: nat, month: nat, day: nat,
    hour: nat, minute: nat, second: nat, microsecond: nat)

  predicate IsLeapYear(y: nat)
  {
    (y % 4 == 0 && y % 100 != 0) || y % 400 == 0
  }

  function DaysInMonth(y: nat, m: nat): nat
    requires 1 <= m <= 12
  {
    if m == 2 then (if IsLeapYear(y) then 29 else 28)
    else if m == 4 || m == 6 || m == 9 || m == 11 then 30
    else 31
  }

  /** The range of fields a Python `datetime` accepts. */
  predicate Valid(t: Timestamp)
  {
    && 1 <= t.year <= 9999
    && 1 <= t.month <= 12
    && 1 <= t.day <= DaysInMonth(t.year, t.month)
    && t.hour < 24 && t.minute < 60 && t.second < 60
    && t.microsecond < 1000000
  }

  /** The pieces of the default run id, `%Y_%m_%d__%H_%M_%S`, with `%Y` as
      four zero-padded digits. Some C libraries CPython passes `%Y` to (glibc
      among them) write a year below 1000 without padding; for such years the
      id differs from this one and does not sort chronologically. */
  function RunIdBlocks(t: Timestamp): seq<string>
  {
    [Digits(t.year, 4), "_", Digits(t.month, 2), "_", Digits(t.day, 2), "__",
     Digits(t.hour, 2), "_", Digits(t.minute, 2), "_", Digits(t.second, 2)]
  }

  function RunIdOf(t: Timestamp): string
  {
    Concat(RunIdBlocks(t))
  }

  /** `t1` is at or before `t2` when both are truncated to whole seconds. */
  predicate SameOrEarlierSecond(t1: Timestamp, t2: Timestamp)
  {
    if t1.year != t2.year then t1.year < t2.year
    else if t1.month != t2.month then t1.month < t2.month
    else if t1.day != t2.day then t1.day < t2.day
    else if t1.hour != t2.hour then t1.hour < t2.hour
    else if t1.minute != t2.minute then t1.minute < t2.minute
    else t1.second <= t2.second
  }

  /** Comparing concatenations of same-length blocks block by block. */
  predicate BlocksLe(xs: seq<string>, ys: seq<string>)
    requires |xs| == |ys|
  {
    if xs == [] then true
    else if xs[0] != ys[0] then Le(xs[0], ys[0])
    else BlocksLe(xs[1..], ys[1..])
  }

  lemma {:induction false} LeConcatBlocks(xs: seq<string>, ys: seq<string>)
    requires |xs| == |ys|
    requires forall i :: 0 <= i < |xs| ==> |xs[i]| == |ys[i]|
    ensures Le(Concat(xs), Concat(ys)) <==> BlocksLe(xs, ys)
    decreases |xs|
  {
    if xs == [] {
      LeReflexive("");
    } else {
      LeAppend(xs[0], Concat(xs[1..]), ys[0], Concat(ys[1..]));
      LeConcatBlocks(xs[1..], ys[1..]);
    }
  }

  /** Default run ids of four-digit years sort in chronological order, so the
      lexicographically greatest id belongs to the latest run (to the second). */
  lemma RunIdOrderIsChronological(t1: Timestamp, t2: Timestamp)
    requires Valid(t1) && Valid(t2)
    ensures Le(RunIdOf(t1), RunIdOf(t2)) <==> SameOrEarlierSecond(t1, t2)
  {
    LeConcatBlocks(RunIdBlocks(t1), RunIdBlocks(t2));
    RunIdBlocksOrder(t1, t2);
  }

  /** Two timestamps share a default run id exactly when they fall in the same
      second: the collision the run id design accepts. */
  lemma RunIdCollision(t1: Timestamp, t2: Timestamp)
    requires Valid(t1) && Valid(t2)
    ensures RunIdOf(t1) == RunIdOf(t2) <==> t1.(microsecond := 0) == t2.(microsecond := 0)
  {
    var xs, ys := RunIdBlocks(t1), RunIdBlocks(t2);
    if RunIdOf(t1) == RunIdOf(t2) {
      LeReflexive(RunIdOf(t1));
      LeConcatBlocks(xs, ys);
      LeConcatBlocks(ys, xs);
      RunIdBlocksOrder(t1, t2);
      RunIdBlocksOrder(t2, t1);
    }
  }

  /** One digit block followed by a separator the two sides share. */
  lemma BlocksLeStep(xs: seq<string>, ys: seq<string>, k: nat)
    requires |xs| == |ys| && k + 2 <= |xs| && xs[k + 1] == ys[k + 1]
    ensures BlocksLe(xs[k..], ys[k..]) <==>
              (if xs[k] != ys[k] then Le(xs[k], ys[k]) else BlocksLe(xs[k + 2..], ys[k + 2..]))
  {
    assert xs[k..][1..] == xs[k + 1..] && ys[k..][1..] == ys[k + 1..];
    assert xs[k + 1..][1..] == xs[k + 2..] && ys[k + 1..][1..] == ys[k + 2..];
  }

  /** The order of the date blocks is the order of the date fields. */
  lemma DateFieldsOrder(t1: Timestamp, t2: Timestamp)
    requires Valid(t1) && Valid(t2)
    ensures Le(Digits(t1.year, 4), Digits(t2.year, 4)) <==> t1.year <= t2.year
    ensures Digits(t1.year, 4) == Digits(t2.year, 4) <==> t1.year == t2.year
    ensures Le(Digits(t1.month, 2), Digits(t2.month, 2)) <==> t1.month <= t2.month
    ensures Digits(t1.month, 2) == Digits(t2.month, 2) <==> t1.month == t2.month
    ensures Le(Digits(t1.day, 2), Digits(t2.day, 2)) <==> t1.day <= t2.day
    ensures Digits(t1.day, 2) == Digits(t2.day, 2) <==> t1.day == t2.day
  {
    FieldOrder(t1.year, t2.year, 4);
    FieldOrder(t1.month, t2.month, 2);
    FieldOrder(t1.day, t2.day, 2);
  }

  /** The order of the time blocks is the order of the time fields. */
  lemma TimeFieldsOrder(t1: Timestamp, t2: Timestamp)
    requires Valid(t1) && Valid(t2)
    ensures Le(Digits(t1.hour, 2), Digits(t2.hour, 2)) <==> t1.hour <= t2.hour
    ensures Digits(t1.hour, 2) == Digits(t2.hour, 2) <==> t1.hour == t2.hour
    ensures Le(Digits(t1.minute, 2), Digits(t2.minute, 2)) <==> t1.minute <= t2.minute
    ensures Digits(t1.minute, 2) == Digits(t2.minute, 2) <==> t1.minute == t2.minute
    ensures Le(Digits(t1.second, 2), Digits(t2.second, 2)) <==> t1.second <= t2.second
    ensures Digits(t1.second, 2) == Digits(t2.second, 2) <==> t1.second == t2.second
  {
    FieldOrder(t1.hour, t2.hour, 2);
    FieldOrder(t1.minute, t2.minute, 2);
    FieldOrder(t1.second, t2.second, 2);
  }

  lemma RunIdBlocksOrder(t1: Timestamp, t2: Timestamp)
    requires Valid(t1) && Valid(t2)
    ensures BlocksLe(RunIdBlocks(t1), RunIdBlocks(t2)) <==> SameOrEarlierSecond(t1, t2)
  {
    var xs, ys := RunIdBlocks(t1), RunIdBlocks(t2);
    DateFieldsOrder(t1, t2);
    TimeFieldsOrder(t1, t2);
    SixFields(xs, ys);
  }

  /** The last three digit blocks, from position 6 on. */
  lemma LastThreeFields(xs: seq<string>, ys: seq<string>)
    requires |xs| == 11 && |ys| == 11
    requires xs[7] == ys[7] && xs[9] == ys[9]
    ensures BlocksLe(xs[6..], ys[6..]) <==>
      if xs[6] != ys[6] then Le(xs[6], ys[6])
      else if xs[8] != ys[8] then Le(xs[8], ys[8])
      else if xs[10] != ys[10] then Le(xs[10], ys[10])
      else true
  {
    assert BlocksLe(xs[10..], ys[10..]) <==> (xs[10] != ys[10] ==> Le(xs[10], ys[10])) by {
      assert xs[10..][1..] == [] && ys[10..][1..] == [];
    }
    BlocksLeStep(xs, ys, 8);
    BlocksLeStep(xs, ys, 6);
  }

  /** Lexicographic comparison of six digit blocks separated by shared
      separators (the shape of a default run id). */
  lemma SixFields(xs: seq<string>, ys: seq<string>)
    requires |xs| == 11 && |ys| == 11
    requires xs[1] == ys[1] && xs[3] == ys[3] && xs[5] == ys[5] && xs[7] == ys[7] && xs[9] == ys[9]
    ensures BlocksLe(xs, ys) <==>
      if xs[0] != ys[0] then Le(xs[0], ys[0])
      else if xs[2] != ys[2] then Le(xs[2], ys[2])
      else if xs[4] != ys[4] then Le(xs[4], ys[4])
      else if xs[6] != ys[6] then Le(xs[6], ys[6])
      else if xs[8] != ys[8] then Le(xs[8], ys[8])
      else if xs[10] != ys[10] then Le(xs[10], ys[10])
      else true
  {
    LastThreeFields(xs, ys);
    BlocksLeStep(xs, ys, 4);
    BlocksLeStep(xs, ys, 2);
    BlocksLeStep(xs, ys, 0);
    assert xs[0..] == xs && ys[0..] == ys;
  }

  /** The order and equality facts for one fixed-width field. */
  lemma FieldOrder(n: nat, m: nat, width: nat)
    requires width == 2 || width == 4
    requires n < (if width == 2 then 100 else 10000) && m < (if width == 2 then 100 else 10000)
    ensures Le(Digits(n, width), Digits(m, width)) <==> n <= m
    ensures Digits(n, width) == Digits(m, width) <==> n == m
  {
    assert Pow10(2) == 100 && Pow10(4) == 10000;
    DigitsOrder(n, m, width);
  }

  /** Three fields with the same one-character separator between them. */
  function Fields(a: string, sep: string, b: string, c: string): string
  {
    a + sep + b + sep + c
  }

  /** `YYYY-MM-DD`. */
  function DateText(t: Timestamp): string
  {
    Fields(Digits(t.year, 4), "-", Digits(t.month, 2), Digits(t.day, 2))
  }

  /** `HH:MM:SS`. */
  function TimeText(t: Timestamp): string
  {
    Fields(Digits(t.hour, 2), ":", Digits(t.minute, 2), Digits(t.second, 2))
  }

  /** `.ffffff`, or nothing when the microseconds are zero. */
  function FractionText(t: Timestamp): string
  {
    if t.microsecond == 0 then "" else "." + Digits(t.microsecond, 6)
  }

  /** `str(t)`: `YYYY-MM-DD HH:MM:SS`, with `.ffffff` only when the
      microseconds are not zero. */
  function TimestampToString(t: Timestamp): (s: string)
    ensures |s| == 19 || |s| == 26
  {
    DateText(t) + " " + TimeText(t) + FractionText(t)
  }

  /** Reads the text `str()` writes back into a timestamp. */
  function ParseTimestamp(s: string): Option<Timestamp>
  {
    if (|s| == 19 || (|s| == 26 && s[19] == '.'))
      && AllDigits(s[0..4]) && AllDigits(s[5..7]) && AllDigits(s[8..10])
      && AllDigits(s[11..13]) && AllDigits(s[14..16]) && AllDigits(s[17..19])
      && (|s| == 26 ==> AllDigits(s[20..26]))
    then
      Some(Timestamp(
        DecimalValue(s[0..4]), DecimalValue(s[5..7]), DecimalValue(s[8..10]),
        DecimalValue(s[11..13]), DecimalValue(s[14..16]), DecimalValue(s[17..19]),
        if |s| == 26 then DecimalValue(s[20..26]) else 0))
    else None
  }

  /** Where the three fields of `Fields` sit. */
  lemma FieldsAt(a: string, sep: string, b: string, c: string)
    requires |sep| == 1
    ensures var x := Fields(a, sep, b, c);
            && |x| == |a| + |b| + |c| + 2
            && x[0..|a|] == a
            && x[|a| + 1..|a| + 1 + |b|] == b
            && x[|a| + |b| + 2..] == c
  {
    var x := Fields(a, sep, b, c);
    assert x == a + (sep + (b + (sep + c)));
  }

  /** Where the date, the time and the fraction sit in `str()`. */
  lemma DateTimeAt(date: string, time: string, frac: string)
    requires |date| == 10 && |time| == 8
    ensures var x := date + " " + time + frac;
            && x[0..10] == date && x[11..19] == time && x[19..] == frac
  {
  }

  /** Where `str()` puts each field. */
  lemma TimestampTextFields(t: Timestamp)
    ensures var s := TimestampToString(t);
            && s[0..4] == Digits(t.year, 4) && s[5..7] == Digits(t.month, 2) && s[8..10] == Digits(t.day, 2)
            && s[11..13] == Digits(t.hour, 2) && s[14..16] == Digits(t.minute, 2) && s[17..19] == Digits(t.second, 2)
            && (t.microsecond == 0 <==> |s| == 19)
            && (t.microsecond != 0 ==> s[19] == '.' && s[20..26] == Digits(t.microsecond, 6))
  {
    DateFieldsAt(t);
    TimeFieldsAt(t);
    FractionAt(t);
  }

  lemma FractionAt(t: Timestamp)
    ensures var s := TimestampToString(t);
            && (t.microsecond == 0 <==> |s| == 19)
            && (t.microsecond != 0 ==> s[19] == '.' && s[20..26] == Digits(t.microsecond, 6))
  {
    var s, frac := TimestampToString(t), FractionText(t);
    FieldsAt(Digits(t.year, 4), "-", Digits(t.month, 2), Digits(t.day, 2));
    FieldsAt(Digits(t.hour, 2), ":", Digits(t.minute, 2), Digits(t.second, 2));
    DateTimeAt(DateText(t), TimeText(t), frac);
    assert |s| == 19 + |frac|;
    if t.microsecond != 0 {
      var digits := Digits(t.microsecond, 6);
      assert frac == "." + digits;
      assert s[19..] == frac;
      assert s[19] == frac[0];
      assert s[20..26] == frac[1..];
    }
  }

  lemma DateFieldsAt(t: Timestamp)
    ensures var s := TimestampToString(t);
            s[0..4] == Digits(t.year, 4) && s[5..7] == Digits(t.month, 2) && s[8..10] == Digits(t.day, 2)
  {
    var s, date := TimestampToString(t), DateText(t);
    FieldsAt(Digits(t.year, 4), "-", Digits(t.month, 2), Digits(t.day, 2));
    DateTimeAt(date, TimeText(t), FractionText(t));
    SubSlice(s, 0, date, 0, 4);
    SubSlice(s, 0, date, 5, 7);
    SubSlice(s, 0, date, 8, 10);
  }

  lemma TimeFieldsAt(t: Timestamp)
    ensures var s := TimestampToString(t);
            s[11..13] == Digits(t.hour, 2) && s[14..16] == Digits(t.minute, 2) && s[17..19] == Digits(t.second, 2)
  {
    var s, time := TimestampToString(t), TimeText(t);
    FieldsAt(Digits(t.hour, 2), ":", Digits(t.minute, 2), Digits(t.second, 2));
    DateTimeAt(DateText(t), time, FractionText(t));
    SubSlice(s, 11, time, 0, 2);
    SubSlice(s, 11, time, 3, 5);
    SubSlice(s, 11, time, 6, 8);
  }

  /** A slice of a piece that sits at `i` is the slice of the text there. */
  lemma SubSlice(x: string, i: nat, y: string, j: nat, k: nat)
    requires i + |y| <= |x| && x[i..i + |y|] == y && j <= k <= |y|
    ensures x[i + j..i + k] == y[j..k]
  {
    forall m | 0 <= m < k - j
      ensures x[i + j..i + k][m] == y[j..k][m]
    {
      assert x[i + j + m] == x[i..i + |y|][j + m];
    }
  }

  /** Text with the fields of a valid `t` where `str()` puts them parses as `t`. */
  lemma ParseFieldsBack(s: string, t: Timestamp)
    requires Valid(t)
    requires |s| == 19 || |s| == 26
    requires && s[0..4] == Digits(t.year, 4) && s[5..7] == Digits(t.month, 2) && s[8..10] == Digits(t.day, 2)
             && s[11..13] == Digits(t.hour, 2) && s[14..16] == Digits(t.minute, 2) && s[17..19] == Digits(t.second, 2)
             && (t.microsecond == 0 <==> |s| == 19)
             && (t.microsecond != 0 ==> s[19] == '.' && s[20..26] == Digits(t.microsecond, 6))
    ensures ParseTimestamp(s) == Some(t)
  {
    Pow10Values();
    DigitsValue(t.year, 4);
    DigitsValue(t.month, 2);
    DigitsValue(t.day, 2);
    DigitsValue(t.hour, 2);
    DigitsValue(t.minute, 2);
    DigitsValue(t.second, 2);
    DigitsValue(t.microsecond, 6);
    assert DecimalValue(s[0..4]) == t.year && DecimalValue(s[5..7]) == t.month && DecimalValue(s[8..10]) == t.day;
    assert DecimalValue(s[11..13]) == t.hour && DecimalValue(s[14..16]) == t.minute && DecimalValue(s[17..19]) == t.second;
    assert (if |s| == 26 then DecimalValue(s[20..26]) else 0) == t.microsecond;
  }

  lemma TimestampStringRoundTrip(t: Timestamp)
    requires Valid(t)
    ensures ParseTimestamp(TimestampToString(t)) == Some(t)
  {
    TimestampTextFields(t);
    ParseFieldsBack(TimestampToString(t), t);
  }
}
