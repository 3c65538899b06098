/**
 * Strings as the store and the services see them: the binary order SQLite uses
 * for TEXT comparisons, prefix matching (`LIKE 'p%'` with a wildcard-free p),
 * JavaScript's `String(n)`, `padStart(2, '0')`, `split('-')` and `Number(s)`,
 * and the calendar-date shape `YYYY-MM-DD`.
 */
module Text {
  import opened Wrappers

  // ---------------------------------------------------------------- order

  /** `a <= b` in code point order; a proper prefix comes first. */
  predicate StrLe(a: string, b: string)
    decreases |a|
  {
    if a == [] then true
    else if b == [] then false
    else if a[0] != b[0] then a[0] < b[0]
    else StrLe(a[1..], b[1..])
  }

  lemma {:induction false} StrLeReflexive(a: string)
    ensures StrLe(a, a)
  {
    if a != [] {
      StrLeReflexive(a[1..]);
    }
  }

  lemma {:induction false} StrLeTotal(a: string, b: string)
    ensures StrLe(a, b) || StrLe(b, a)
  {
    if a != [] && b != [] && a[0] == b[0] {
      StrLeTotal(a[1..], b[1..]);
    }
  }

  lemma {:induction false} StrLeTransitive(a: string, b: string, c: string)
    requires StrLe(a, b) && StrLe(b, c)
    ensures StrLe(a, c)
  {
    if a != [] && b != [] && c != [] && a[0] == b[0] && b[0] == c[0] {
      StrLeTransitive(a[1..], b[1..], c[1..]);
    }
  }

  lemma {:induction false} StrLeAntisymmetric(a: string, b: string)
    requires StrLe(a, b) && StrLe(b, a)
    ensures a == b
  {
    if a != [] && b != [] {
      StrLeAntisymmetric(a[1..], b[1..]);
      assert a == [a[0]] + a[1..] && b == [b[0]] + b[1..];
    }
  }

  /** `s LIKE p || '%'` for a pattern `p` free of wildcards. */
  predicate StartsWith(s: string, p: string) {
    |p| <= |s| && s[..|p|] == p
  }

  // ---------------------------------------------------------------- digits

  predicate IsDigit(c: char) { '0' <= c <= '9' }

  predicate AllDigits(s: string) {
    forall i :: 0 <= i < |s| ==> IsDigit(s[i])
  }

  function DigitValue(c: char): (d: nat)
    requires IsDigit(c)
    ensures d < 10
  {
    (c as int) - ('0' as int)
  }

  function DigitChar(d: nat): (c: char)
    requires d < 10
    ensures IsDigit(c) && DigitValue(c) == d
  {
    ('0' as int + d) as char
  }

  /** The number a string of decimal digits denotes (most significant first). */
  function DigitsValue(s: string): nat
    requires AllDigits(s)
  {
    if s == [] then 0 else 10 * DigitsValue(s[..|s| - 1]) + DigitValue(s[|s| - 1])
  }

  /** JavaScript's `String(n)` for a non-negative integer: no leading zeros. */
  function NatToString(n: nat): (s: string)
    ensures |s| >= 1 && AllDigits(s)
    ensures s[0] == '0' ==> n == 0
  {
    if n < 10 then [DigitChar(n)] else NatToString(n / 10) + [DigitChar(n % 10)]
  }

  /** JavaScript's `String(i)` for an integer. */
  function IntToString(i: int): (s: string)
    ensures |s| >= 1
    ensures i >= 0 ==> AllDigits(s)
    ensures i < 0 ==> s[0] == '-'
  {
    if i < 0 then "-" + NatToString(-i) else NatToString(i)
  }

  /** JavaScript's `s.padStart(2, '0')`. */
  function PadStart2(s: string): (r: string)
    ensures |r| == if |s| < 2 then 2 else |s|
    ensures r[|r| - |s|..] == s
    ensures forall i :: 0 <= i < |r| - |s| ==> r[i] == '0'
  {
    if |s| == 0 then "00" else if |s| == 1 then "0" + s else s
  }

  lemma {:induction false} DigitsRoundTrip(n: nat)
    ensures DigitsValue(NatToString(n)) == n
  {
    var s := NatToString(n);
    if n >= 10 {
      DigitsRoundTrip(n / 10);
      assert s[..|s| - 1] == NatToString(n / 10);
    }
  }

  lemma {:induction false} DigitsValuePositive(s: string)
    requires AllDigits(s) && |s| >= 1 && s[0] != '0'
    ensures DigitsValue(s) >= 1
  {
    if |s| > 1 {
      DigitsValuePositive(s[..|s| - 1]);
    }
  }

  /** A digit string without a leading zero is exactly what `String` prints for its value. */
  lemma {:induction false} NatToStringOfDigits(s: string)
    requires AllDigits(s) && |s| >= 1 && (s[0] != '0' || |s| == 1)
    ensures NatToString(DigitsValue(s)) == s
  {
    var p := s[..|s| - 1];
    if |s| == 1 {
      assert DigitChar(DigitValue(s[0])) == s[0];
    } else {
      NatToStringOfDigits(p);
      DigitsValuePositive(p);
      var v := DigitsValue(s);
      assert v / 10 == DigitsValue(p) && v % 10 == DigitValue(s[|s| - 1]);
      assert DigitChar(DigitValue(s[|s| - 1])) == s[|s| - 1];
      assert s == p + [s[|s| - 1]];
    }
  }

  // ---------------------------------------------------------------- split / Number

  /** JavaScript's `s.split(sep)` for a one-character separator. */
  function Split(s: string, sep: char): (parts: seq<string>)
    ensures |parts| >= 1
    ensures forall i :: 0 <= i < |parts| ==> sep !in parts[i]
  {
    if s == [] then [""]
    else
      var rest := Split(s[1..], sep);
      if s[0] == sep then [""] + rest else [[s[0]] + rest[0]] + rest[1..]
  }

  /** The inverse of `Split`: the parts joined by the separator. */
  function Join(parts: seq<string>, sep: char): string
    requires |parts| >= 1
  {
    if |parts| == 1 then parts[0] else parts[0] + [sep] + Join(parts[1..], sep)
  }

  lemma {:induction false} SplitJoin(s: string, sep: char)
    ensures Join(Split(s, sep), sep) == s
  {
    if s != [] {
      SplitJoin(s[1..], sep);
      var rest := Split(s[1..], sep);
      if s[0] == sep {
        assert Split(s, sep)[1..] == rest;
      } else if |rest| == 1 {
        assert Join(Split(s, sep), sep) == [s[0]] + rest[0];
      } else {
        assert Split(s, sep)[1..] == rest[1..];
        assert Join(rest, sep) == rest[0] + [sep] + Join(rest[1..], sep);
      }
    }
  }

  lemma {:induction false} SplitWithoutSeparator(a: string, sep: char)
    requires sep !in a
    ensures Split(a, sep) == [a]
  {
    if a != [] {
      assert a[0] != sep && a == [a[0]] + a[1..];
      SplitWithoutSeparator(a[1..], sep);
    }
  }

  lemma {:induction false} SplitAtSeparator(a: string, sep: char, b: string)
    requires sep !in a
    ensures Split(a + [sep] + b, sep) == [a] + Split(b, sep)
  {
    if a == [] {
      assert a + [sep] + b == [sep] + b;
    } else {
      assert a[0] != sep && a == [a[0]] + a[1..];
      assert (a + [sep] + b)[1..] == a[1..] + [sep] + b;
      SplitAtSeparator(a[1..], sep, b);
    }
  }

  /**
   * JavaScript's `Number(s)` on the strings this model meets: the empty string
   * is 0, a string of decimal digits is its value, anything else is NaN (None).
   */
  function ToNumber(s: string): (r: Option<int>)
    ensures r.Some? <==> AllDigits(s)
    ensures r.Some? ==> r.value >= 0
  {
    if s == [] then Some(0) else if AllDigits(s) then Some(DigitsValue(s)) else None
  }

  // ---------------------------------------------------------------- dates

  /** The documented shape of a transaction date: `YYYY-MM-DD`, ASCII digits. */
  predicate IsIsoDate(d: string) {
    && |d| == 10
    && AllDigits(d[..4]) && d[4] == '-'
    && AllDigits(d[5..7]) && d[7] == '-'
    && AllDigits(d[8..])
  }

  /** The `"{year}-{MM}"` prefix the month filters match, month padded to two digits. */
  function MonthPrefix(year: int, month: int): (p: string)
    ensures 1 <= month <= 12 ==> |p| == |IntToString(year)| + 3
  {
    IntToString(year) + "-" + PadStart2(IntToString(month))
  }

  /** The month prefix of an ISO date whose year has no leading zero is the date's first seven characters. */
  lemma MonthPrefixOfDate(d: string)
    requires IsIsoDate(d) && d[0] != '0'
    ensures MonthPrefix(DigitsValue(d[..4]), DigitsValue(d[5..7])) == d[..7]
  {
    var y, m := d[..4], d[5..7];
    NatToStringOfDigits(y);
    if m[0] == '0' {
      var low := m[1..];
      assert DigitsValue(m) == DigitValue(m[1]) by {
        assert m[..1] == [m[0]];
        assert DigitsValue(m[..1]) == 0;
      }
      NatToStringOfDigits(low);
      assert DigitsValue(low) == DigitValue(m[1]) by {
        assert low[..0] == [];
      }
      assert PadStart2(IntToString(DigitsValue(m))) == "0" + low == m;
    } else {
      NatToStringOfDigits(m);
    }
    assert d[..7] == y + "-" + m;
  }

  /** A four-digit year prints as four characters. */
  lemma FourDigitYear(year: int)
    requires 1000 <= year <= 9999
    ensures |IntToString(year)| == 4
  {
    assert |NatToString(year / 1000)| == 1;
    assert |NatToString(year / 100)| == 2 by {
      assert (year / 100) / 10 == year / 1000;
    }
    assert |NatToString(year / 10)| == 3 by {
      assert (year / 10) / 10 == year / 100;
    }
  }

  /** A month 1..12, printed and padded, is two digits that read back as the month. */
  lemma PaddedMonth(month: int)
    requires 1 <= month <= 12
    ensures |PadStart2(IntToString(month))| == 2
    ensures AllDigits(PadStart2(IntToString(month)))
    ensures DigitsValue(PadStart2(IntToString(month))) == month
  {
    var p := PadStart2(IntToString(month));
    if month < 10 {
      assert p == "0" + [DigitChar(month)];
      assert p[..1] == "0";
      assert DigitsValue(p[..1]) == 0 by {
        assert p[..1][..0] == [];
      }
    } else {
      assert NatToString(month) == NatToString(month / 10) + [DigitChar(month % 10)];
      DigitsRoundTrip(month);
    }
  }

  /** The filter prefix of a four-digit year and a month 1..12 is seven characters: `YYYY-MM`. */
  lemma MonthPrefixShape(year: int, month: int)
    requires 1000 <= year <= 9999 && 1 <= month <= 12
    ensures |MonthPrefix(year, month)| == 7
    ensures MonthPrefix(year, month)[..4] == NatToString(year)
    ensures MonthPrefix(year, month)[5..7] == PadStart2(IntToString(month))
    ensures MonthPrefix(year, month)[4] == '-'
  {
    FourDigitYear(year);
    PaddedMonth(month);
    JoinedShape(IntToString(year), PadStart2(IntToString(month)));
  }

  lemma JoinedShape(y: string, m: string)
    requires |y| == 4 && |m| == 2
    ensures var p := y + "-" + m; |p| == 7 && p[..4] == y && p[4] == '-' && p[5..7] == m
  {
  }

  /**
   * For an ISO date whose year has no leading zero, matching the prefix of a
   * four-digit year and a month 1..12 is the same as having that year and month.
   */
  lemma MonthFilterSelectsMonth(date: string, year: int, month: int)
    requires IsIsoDate(date) && date[0] != '0'
    requires 1000 <= year <= 9999 && 1 <= month <= 12
    ensures StartsWith(date, MonthPrefix(year, month)) <==> DigitsValue(date[..4]) == year && DigitsValue(date[5..7]) == month
  {
    if StartsWith(date, MonthPrefix(year, month)) {
      PrefixGivesMonth(date, year, month);
    }
    if DigitsValue(date[..4]) == year && DigitsValue(date[5..7]) == month {
      MonthGivesPrefix(date);
    }
  }

  lemma PrefixGivesMonth(date: string, year: int, month: int)
    requires IsIsoDate(date)
    requires 1000 <= year <= 9999 && 1 <= month <= 12
    requires StartsWith(date, MonthPrefix(year, month))
    ensures DigitsValue(date[..4]) == year && DigitsValue(date[5..7]) == month
  {
    MonthPrefixShape(year, month);
    FieldsOfPrefix(date, MonthPrefix(year, month), NatToString(year), PadStart2(IntToString(month)));
    YearDigits(date[..4], year);
    MonthDigits(date[5..7], month);
  }

  lemma FieldsOfPrefix(date: string, p: string, y: string, m: string)
    requires |date| >= 7 && date[..7] == p
    requires |p| == 7 && p[..4] == y && p[5..7] == m
    ensures date[..4] == y && date[5..7] == m
  {
    assert date[..4] == date[..7][..4] && date[5..7] == date[..7][5..7];
  }

  lemma YearDigits(y: string, year: nat)
    requires y == NatToString(year)
    ensures DigitsValue(y) == year
  {
    DigitsRoundTrip(year);
  }

  lemma MonthDigits(m: string, month: int)
    requires 1 <= month <= 12 && m == PadStart2(IntToString(month))
    ensures AllDigits(m) && DigitsValue(m) == month
  {
    PaddedMonth(month);
  }

  lemma MonthGivesPrefix(date: string)
    requires IsIsoDate(date) && date[0] != '0'
    ensures StartsWith(date, MonthPrefix(DigitsValue(date[..4]), DigitsValue(date[5..7])))
  {
    MonthPrefixOfDate(date);
  }

  /** Comparing two strings orders their first `k` characters the same way. */
  lemma {:induction false} StrLePrefix(a: string, b: string, k: nat)
    requires k <= |a| && k <= |b| && StrLe(a, b)
    ensures StrLe(a[..k], b[..k])
  {
    if k > 0 && a[0] == b[0] {
      StrLePrefix(a[1..], b[1..], k - 1);
      assert a[..k][1..] == a[1..][..k - 1];
      assert b[..k][1..] == b[1..][..k - 1];
    }
  }

  /** Splitting an ISO date on '-' yields its year, month and day fields. */
  lemma SplitIsoDate(d: string)
    requires IsIsoDate(d)
    ensures Split(d, '-') == [d[..4], d[5..7], d[8..]]
  {
    assert '-' !in d[..4] by {
      forall i | 0 <= i < 4 ensures d[..4][i] != '-' { assert IsDigit(d[..4][i]); }
    }
    assert '-' !in d[5..7] by {
      forall i | 0 <= i < 2 ensures d[5..7][i] != '-' { assert IsDigit(d[5..7][i]); }
    }
    assert '-' !in d[8..] by {
      forall i | 0 <= i < 2 ensures d[8..][i] != '-' { assert IsDigit(d[8..][i]); }
    }
    assert d == d[..4] + ['-'] + (d[5..7] + ['-'] + d[8..]);
    SplitAtSeparator(d[..4], '-', d[5..7] + ['-'] + d[8..]);
    SplitAtSeparator(d[5..7], '-', d[8..]);
    SplitWithoutSeparator(d[8..], '-');
  }
}
