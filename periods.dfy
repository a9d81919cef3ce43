/** Months of the CPI series. `pd.to_datetime(str, format='%Y%m')` turns the
    CSV's `Periodo` into the first day of a month; the model numbers months as
    `year * 12 + (month - 1)`, so "n months earlier" is plain subtraction. */
module Periods {

  import opened Wrappers
  import opened Text

  /** pandas timestamps have nanosecond resolution and run from 1677-09-21 to
      2262-04-11, so the first of a month is representable from October 1677
      to April 2262; any other month makes `to_datetime` raise. */
  const MinPeriod: int := 1677 * 12 + 9
  const MaxPeriod: int := 2262 * 12 + 3

  type Period = p: int | MinPeriod <= p <= MaxPeriod witness MinPeriod

  function Year(p: Period): int { p / 12 }
  function Month(p: Period): int { p % 12 + 1 }

  predicate IsDigit(c: char) { '0' <= c <= '9' }

  predicate AllDigits(s: string) {
    forall i :: 0 <= i < |s| ==> IsDigit(s[i])
  }

  function DigitChar(d: int): (c: char)
    requires 0 <= d < 10
    ensures IsDigit(c)
  {
    ('0' as int + d) as char
  }

  function DigitOf(c: char): (d: int)
    requires IsDigit(c)
    ensures 0 <= d < 10 && DigitChar(d) == c
  {
    c as int - '0' as int
  }

  function Pow10(w: nat): (r: nat)
    ensures r >= 1
  {
    if w == 0 then 1 else 10 * Pow10(w - 1)
  }

  /** The last `w` decimal digits of `n`, zero-padded (`%04d`, `%02d`). */
  function Pad(n: nat, w: nat): (r: string)
    ensures |r| == w && AllDigits(r)
    decreases w
  {
    if w == 0 then [] else Pad(n / 10, w - 1) + [DigitChar(n % 10)]
  }

  /** The number a string of decimal digits spells (Python's `int(s)`). */
  function DigitsValue(s: string): nat
    requires AllDigits(s)
    decreases |s|
  {
    if s == [] then 0 else DigitsValue(s[..|s| - 1]) * 10 + DigitOf(s[|s| - 1])
  }

  lemma {:induction false} PadValue(n: nat, w: nat)
    requires n < Pow10(w)
    ensures DigitsValue(Pad(n, w)) == n
    decreases w
  {
    if w > 0 {
      var s := Pad(n, w);
      assert s[..|s| - 1] == Pad(n / 10, w - 1);
      assert n / 10 < Pow10(w - 1);
      PadValue(n / 10, w - 1);
    }
  }

  lemma {:induction false} ValuePad(s: string)
    requires AllDigits(s)
    ensures DigitsValue(s) < Pow10(|s|)
    ensures Pad(DigitsValue(s), |s|) == s
    decreases |s|
  {
    if s != [] {
      var init := s[..|s| - 1];
      var d := DigitOf(s[|s| - 1]);
      ValuePad(init);
      var v := DigitsValue(s);
      assert v == DigitsValue(init) * 10 + d;
      assert v / 10 == DigitsValue(init) && v % 10 == d;
      assert s == init + [s[|s| - 1]];
    }
  }

  lemma {:induction false} PadInjective(a: nat, b: nat, w: nat)
    requires a < Pow10(w) && b < Pow10(w)
    ensures Pad(a, w) == Pad(b, w) <==> a == b
  {
    if Pad(a, w) == Pad(b, w) {
      PadValue(a, w);
      PadValue(b, w);
    }
  }

  lemma {:induction false} DecimalOrder(a: nat, b: nat)
    ensures a < b <==> a / 10 < b / 10 || (a / 10 == b / 10 && a % 10 < b % 10)
  {
    assert a == 10 * (a / 10) + a % 10;
    assert b == 10 * (b / 10) + b % 10;
  }

  /** Zero-padded numbers of one width sort as strings exactly as they sort
      as numbers. */
  lemma {:induction false} PadOrder(a: nat, b: nat, w: nat)
    requires a < Pow10(w) && b < Pow10(w)
    ensures LexLess(Pad(a, w), Pad(b, w)) <==> a < b
    decreases w
  {
    if w == 0 {
    } else {
      var ha, hb := Pad(a / 10, w - 1), Pad(b / 10, w - 1);
      var da, db := DigitChar(a % 10), DigitChar(b % 10);
      LexLessConcat(ha, [da], hb, [db]);
      PadOrder(a / 10, b / 10, w - 1);
      PadInjective(a / 10, b / 10, w - 1);
      DecimalOrder(a, b);
    }
  }

  /** The strptime directive `%m`, which must consume the rest of the
      string: `1[0-2]|0[1-9]|[1-9]`. */
  function MonthField(t: string): (m: Option<int>)
    ensures m.Some? ==> 1 <= m.value <= 12
    ensures m.Some? ==> 1 <= |t| <= 2 && AllDigits(t)
  {
    if |t| == 2 && t[0] == '1' && '0' <= t[1] <= '2' then Some(10 + DigitOf(t[1]))
    else if |t| == 2 && t[0] == '0' && '1' <= t[1] <= '9' then Some(DigitOf(t[1]))
    else if |t| == 1 && '1' <= t[0] <= '9' then Some(DigitOf(t[0]))
    else None
  }

  /** `pd.to_datetime(s, format='%Y%m')`: `%Y` is exactly four digits, the
      rest must be a `%m` field, and the month must be representable.
      `None` is pandas' exception. */
  function ParsePeriod(s: string): (r: Option<Period>)
    ensures r.Some? ==> 5 <= |s| <= 6 && AllDigits(s)
  {
    if |s| < 4 || !AllDigits(s[..4]) then None
    else
      match MonthField(s[4..])
      case None => None
      case Some(m) =>
        var p := DigitsValue(s[..4]) * 12 + m - 1;
        if MinPeriod <= p <= MaxPeriod then Some(p) else None
  }

  /** How the CSV writes a period: the integer YYYYMM. */
  function PeriodText(p: Period): string {
    Pad(Year(p), 4) + Pad(Month(p), 2)
  }

  /** `strftime('%Y-%m')`, the `year_month` column. */
  function Label(p: Period): (r: string)
    ensures |r| == 7 && r[4] == '-'
  {
    Pad(Year(p), 4) + "-" + Pad(Month(p), 2)
  }

  /** `s` is the label of some month. */
  predicate IsLabel(s: string) {
    exists p: Period :: s == Label(p)
  }

  /** `s` is the label of one of the `n` months from `lo`. */
  predicate IsLabelWithin(s: string, lo: int, n: nat) {
    exists p: Period :: lo <= p < lo + n && s == Label(p)
  }

  /** A label is "YYYY-MM": seven characters, digits around a dash at index
      4, and the CSV's YYYYMM once the dash is removed. */
  lemma {:induction false} LabelShape(p: Period)
    ensures |Label(p)| == 7 && Label(p)[4] == '-'
    ensures AllDigits(Label(p)[..4]) && AllDigits(Label(p)[5..])
    ensures Label(p)[..4] + Label(p)[5..] == PeriodText(p)
  {
    var r := Label(p);
    assert r[..4] == Pad(Year(p), 4) && r[5..] == Pad(Month(p), 2);
  }

  /** The label reads back as the period it names. */
  lemma {:induction false} LabelRoundTrip(p: Period)
    ensures ParsePeriod(Label(p)[..4] + Label(p)[5..]) == Some(p)
  {
    LabelShape(p);
    ParsePeriodText(p);
  }

  lemma {:induction false} YearMonth(p: Period)
    ensures 1677 <= Year(p) <= 2262 && 1 <= Month(p) <= 12
    ensures p == Year(p) * 12 + Month(p) - 1
  {
  }

  /** One and two zero-padded digits. */
  lemma {:induction false} PadDigits(m: nat)
    requires m < 100
    ensures Pad(m, 2) == [DigitChar(m / 10), DigitChar(m % 10)]
    ensures m < 10 ==> Pad(m, 1) == [DigitChar(m)]
  {
    assert Pad(m / 10, 1) == Pad(m / 100, 0) + [DigitChar((m / 10) % 10)];
  }

  /** A month written with two digits, or a month below ten with one, is a `%m` field. */
  lemma {:induction false} MonthFieldPad(m: int)
    requires 1 <= m <= 12
    ensures MonthField(Pad(m, 2)) == Some(m)
    ensures m <= 9 ==> MonthField(Pad(m, 1)) == Some(m)
  {
    PadDigits(m);
  }

  /** The year written with four digits followed by a month field parses to that period. */
  lemma {:induction false} ParseParts(p: Period, t: string)
    requires MonthField(t) == Some(Month(p))
    ensures ParsePeriod(Pad(Year(p), 4) + t) == Some(p)
  {
    var s := Pad(Year(p), 4) + t;
    YearMonth(p);
    PadValue(Year(p), 4);
    assert s[..4] == Pad(Year(p), 4) && s[4..] == t;
  }

  /** A `%m` field is the month written with two digits, or with one. */
  lemma {:induction false} MonthFieldSpelling(t: string)
    requires MonthField(t).Some?
    ensures t == Pad(MonthField(t).value, 2) || (MonthField(t).value <= 9 && t == Pad(MonthField(t).value, 1))
  {
    var m := MonthField(t).value;
    PadDigits(m);
    if |t| == 2 {
      assert t == [t[0], t[1]];
    } else {
      assert t == [t[0]];
    }
  }

  /** The year and month of `y * 12 + m - 1`. */
  lemma {:induction false} YearMonthOf(y: int, m: int, p: Period)
    requires 1 <= m <= 12 && p == y * 12 + m - 1
    ensures Year(p) == y && Month(p) == m
  {
  }

  /** Every period reads back from the integer the CSV would hold. */
  lemma {:induction false} ParsePeriodText(p: Period)
    ensures ParsePeriod(PeriodText(p)) == Some(p)
  {
    YearMonth(p);
    MonthFieldPad(Month(p));
    ParseParts(p, Pad(Month(p), 2));
  }

  /** `%m` also accepts a one-digit month, so `20161` reads as January 2016. */
  lemma {:induction false} ParseShortMonth(p: Period)
    requires Month(p) <= 9
    ensures ParsePeriod(Pad(Year(p), 4) + Pad(Month(p), 1)) == Some(p)
  {
    YearMonth(p);
    MonthFieldPad(Month(p));
    ParseParts(p, Pad(Month(p), 1));
  }

  /** Nothing else parses: a parsed string is one of the two spellings. */
  lemma {:induction false} ParsePeriodSound(s: string, p: Period)
    requires ParsePeriod(s) == Some(p)
    ensures s == PeriodText(p) || (Month(p) <= 9 && s == Pad(Year(p), 4) + Pad(Month(p), 1))
  {
    var y := DigitsValue(s[..4]);
    var t := s[4..];
    var m := MonthField(t).value;
    ValuePad(s[..4]);
    YearMonthOf(y, m, p);
    MonthFieldSpelling(t);
    assert s == s[..4] + t;
  }

  /** The `year_month` labels sort as strings in chronological order, which
      is why pandas' lexicographically sorted pivot columns are in time
      order. */
  lemma {:induction false} LabelOrder(p: Period, q: Period)
    ensures LexLess(Label(p), Label(q)) <==> p < q
  {
    YearMonth(p);
    YearMonth(q);
    var yp, yq := Pad(Year(p), 4), Pad(Year(q), 4);
    var mp, mq := Pad(Month(p), 2), Pad(Month(q), 2);
    assert Label(p) == (yp + "-") + mp && Label(q) == (yq + "-") + mq;
    LexLessConcat(yp + "-", mp, yq + "-", mq);
    LexLessConcat(yp, "-", yq, "-");
    LexLessIrreflexive("-");
    assert yp + "-" == yq + "-" <==> yp == yq by {
      if yp + "-" == yq + "-" {
        assert yp == (yp + "-")[..4] && yq == (yq + "-")[..4];
      }
    }
    PadOrder(Year(p), Year(q), 4);
    PadInjective(Year(p), Year(q), 4);
    PadOrder(Month(p), Month(q), 2);
  }

  lemma {:induction false} LabelInjective(p: Period, q: Period)
    ensures Label(p) == Label(q) <==> p == q
  {
    if Label(p) == Label(q) {
      LabelOrder(p, q);
      LabelOrder(q, p);
      LexLessIrreflexive(Label(p));
    }
  }
}
