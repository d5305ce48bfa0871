/**
 * The text forms of dates and times the bot reads and stores: `strptime`
 * with `%d.%m.%Y` and `%H:%M`, `strftime` with the same formats, and the
 * `/`-to-`.` normalisation applied to a typed date.
 */
module DateText {
  import opened Wrappers
  import opened Calendar

  /** `s.replace('/', '.')`, written as the character-by-character scan it is. */
  function Normalise(s: string): (r: string)
    ensures |r| == |s|
    ensures forall i :: 0 <= i < |s| ==> r[i] == (if s[i] == '/' then '.' else s[i])
  {
    if s == [] then [] else [if s[0] == '/' then '.' else s[0]] + Normalise(s[1..])
  }

  /** `s` and `dotted` say the same thing, except that `s` may write `/` where `dotted` writes `.`. */
  predicate SlashesForDots(s: string, dotted: string)
  {
    |s| == |dotted| && forall i :: 0 <= i < |s| ==> s[i] == dotted[i] || (s[i] == '/' && dotted[i] == '.')
  }

  predicate IsDigit(c: char)
  {
    '0' <= c <= '9'
  }

  predicate AllDigits(s: string)
  {
    forall i :: 0 <= i < |s| ==> IsDigit(s[i])
  }

  /** The decimal value of a string of ASCII digits. */
  function DigitsValue(s: string): (n: nat)
    requires AllDigits(s)
  {
    if s == [] then 0 else DigitsValue(s[..|s| - 1]) * 10 + (s[|s| - 1] as int - '0' as int)
  }

  function Pow10(n: nat): nat
  {
    if n == 0 then 1 else 10 * Pow10(n - 1)
  }

  /** A string of `n` digits denotes a number below 10^n. */
  lemma {:induction false} DigitsValueBound(s: string)
    requires AllDigits(s)
    ensures DigitsValue(s) < Pow10(|s|)
  {
    if s != [] {
      var init := s[..|s| - 1];
      assert AllDigits(init) by {
        forall i | 0 <= i < |init| ensures IsDigit(init[i]) {
          assert init[i] == s[i];
        }
      }
      DigitsValueBound(init);
    }
  }

  /**
   * A numeric field of `minLen` to `maxLen` ASCII digits, or None; a field
   * of n digits has a value below 10^n.
   */
  function ParseField(s: string, minLen: nat, maxLen: nat): (r: Option<nat>)
    ensures r.Some? <==> minLen <= |s| <= maxLen && AllDigits(s)
    ensures r.Some? ==> r.value < Pow10(|s|) <= Pow10(maxLen)
  {
    if minLen <= |s| <= maxLen && AllDigits(s) then
      DigitsValueBound(s);
      Pow10Monotone(|s|, maxLen);
      Some(DigitsValue(s))
    else None
  }

  lemma {:induction false} Pow10Monotone(m: nat, n: nat)
    requires m <= n
    ensures Pow10(m) <= Pow10(n)
    decreases n - m
  {
    if m < n {
      Pow10Monotone(m, n - 1);
    }
  }

  /** The pieces of `s` between the literal separators of a `strptime` format (`.` in `%d.%m.%Y`, `:` in `%H:%M`); never empty. */
  function Split(s: string, sep: char): (parts: seq<string>)
    ensures |parts| >= 1
  {
    if s == [] then [[]]
    else
      var rest := Split(s[1..], sep);
      if s[0] == sep then [[]] + rest else [[s[0]] + rest[0]] + rest[1..]
  }

  /** The inverse of Split: the pieces with `sep` between each two. */
  function Join(parts: seq<string>, sep: char): string
    requires |parts| >= 1
  {
    if |parts| == 1 then parts[0] else parts[0] + [sep] + Join(parts[1..], sep)
  }

  /**
   * Splitting is undone by joining, and no piece holds the separator:
   * Split cuts at every separator and nowhere else.
   */
  lemma {:induction false} SplitJoins(s: string, sep: char)
    ensures Join(Split(s, sep), sep) == s
    ensures forall i :: 0 <= i < |Split(s, sep)| ==> sep !in Split(s, sep)[i]
  {
    if s != [] {
      var rest := Split(s[1..], sep);
      SplitJoins(s[1..], sep);
      if s[0] == sep {
        assert Split(s, sep) == [[]] + rest;
        assert ([[]] + rest)[1..] == rest;
        assert s == [] + [sep] + s[1..];
      } else {
        JoinHead(s[0], rest, sep);
        assert s == [s[0]] + s[1..];
        assert sep !in [s[0]] + rest[0];
      }
    }
  }

  lemma JoinHead(c: char, rest: seq<string>, sep: char)
    requires |rest| >= 1
    ensures Join([[c] + rest[0]] + rest[1..], sep) == [c] + Join(rest, sep)
  {
    var parts := [[c] + rest[0]] + rest[1..];
    assert parts[1..] == rest[1..];
    if |rest| > 1 {
      assert [c] + rest[0] + [sep] + Join(rest[1..], sep) == [c] + (rest[0] + [sep] + Join(rest[1..], sep));
    }
  }

  /**
   * `strptime(s, '%d.%m.%Y')`: a day of one or two digits, a month of one
   * or two digits, a year of four digits, and a date that exists.
   */
  function ParseDate(s: string): (r: Option<Date>)
    ensures r.Some? ==> ValidDate(r.value)
  {
    var parts := Split(s, '.');
    if |parts| != 3 then None
    else
      match (ParseField(parts[0], 1, 2), ParseField(parts[1], 1, 2), ParseField(parts[2], 4, 4))
      case (Some(day), Some(month), Some(year)) =>
        var d := Date(day, month, year);
        if ValidDate(d) then Some(d) else None
      case _ => None
  }

  /** `strptime(s, '%H:%M')`: hour and minute of one or two digits each, in range. */
  function ParseTime(s: string): (r: Option<Time>)
    ensures r.Some? ==> ValidTime(r.value)
  {
    var parts := Split(s, ':');
    if |parts| != 2 then None
    else
      match (ParseField(parts[0], 1, 2), ParseField(parts[1], 1, 2))
      case (Some(hour), Some(minute)) =>
        var t := Time(hour, minute);
        if ValidTime(t) then Some(t) else None
      case _ => None
  }

  function Digit(n: nat): (c: char)
    requires n < 10
    ensures IsDigit(c) && c as int - '0' as int == n
  {
    ('0' as int + n) as char
  }

  /** Zero-padded two-digit field (`%d`, `%m`, `%H`, `%M`). */
  function Pad2(n: nat): string
    requires n < 100
  {
    [Digit(n / 10), Digit(n % 10)]
  }

  /** Zero-padded four-digit field (`%Y`). */
  function Pad4(n: nat): string
    requires n < 10000
  {
    [Digit(n / 1000), Digit(n / 100 % 10), Digit(n / 10 % 10), Digit(n % 10)]
  }

  /** `strftime('%d.%m.%Y')`. */
  function FormatDate(d: Date): string
    requires ValidDate(d)
  {
    Pad2(d.day) + "." + Pad2(d.month) + "." + Pad4(d.year)
  }

  /** `strftime('%H:%M')`. */
  function FormatTime(t: Time): string
    requires ValidTime(t)
  {
    Pad2(t.hour) + ":" + Pad2(t.minute)
  }

  lemma {:induction false} NormaliseAgrees(s: string, dotted: string)
    requires SlashesForDots(s, dotted)
    ensures Normalise(s) == Normalise(dotted)
  {
    if s != [] {
      assert SlashesForDots(s[1..], dotted[1..]) by {
        forall i | 0 <= i < |s| - 1
          ensures s[1..][i] == dotted[1..][i] || (s[1..][i] == '/' && dotted[1..][i] == '.')
        {
          assert s[1..][i] == s[i + 1] && dotted[1..][i] == dotted[i + 1];
        }
      }
      NormaliseAgrees(s[1..], dotted[1..]);
    }
  }

  /** After normalisation a date parses the same whichever of `/` and `.` it was typed with. */
  lemma SlashDateParsesAsDotDate(s: string, dotted: string)
    requires SlashesForDots(s, dotted)
    ensures ParseDate(Normalise(s)) == ParseDate(Normalise(dotted))
  {
    NormaliseAgrees(s, dotted);
  }

  lemma Pad2Value(n: nat)
    requires n < 100
    ensures AllDigits(Pad2(n)) && DigitsValue(Pad2(n)) == n
  {
    var p := Pad2(n);
    assert p[..1] == [Digit(n / 10)];
    assert p[..1][..0] == [];
    assert DigitsValue(p[..1]) == n / 10;
  }

  lemma Pad4Value(n: nat)
    requires n < 10000
    ensures AllDigits(Pad4(n)) && DigitsValue(Pad4(n)) == n
  {
    var p := Pad4(n);
    assert p[..3] == [Digit(n / 1000), Digit(n / 100 % 10), Digit(n / 10 % 10)];
    assert p[..3][..2] == [Digit(n / 1000), Digit(n / 100 % 10)];
    assert p[..3][..2][..1] == [Digit(n / 1000)];
    assert p[..3][..2][..1][..0] == [];
    assert DigitsValue(p[..3][..2][..1]) == n / 1000;
    assert DigitsValue(p[..3][..2]) == n / 1000 * 10 + n / 100 % 10 == n / 100;
    assert DigitsValue(p[..3]) == n / 100 * 10 + n / 10 % 10 == n / 10;
  }

  /** A piece free of the separator splits to itself. */
  lemma {:induction false} SplitNoSep(a: string, sep: char)
    requires sep !in a
    ensures Split(a, sep) == [a]
  {
    if a != [] {
      SplitNoSep(a[1..], sep);
      assert [a[0]] + a[1..] == a;
    }
  }

  /** Splitting `a + [sep] + b` yields `a` followed by the pieces of `b`. */
  lemma {:induction false} SplitAtSep(a: string, sep: char, b: string)
    requires sep !in a
    ensures Split(a + [sep] + b, sep) == [a] + Split(b, sep)
  {
    if a == [] {
      assert ([] + [sep] + b)[1..] == b;
    } else {
      assert (a + [sep] + b)[1..] == a[1..] + [sep] + b;
      SplitAtSep(a[1..], sep, b);
      assert [a[0]] + a[1..] == a;
    }
  }

  /** A date written by the bot reads back as the same date. */
  lemma FormatDateRoundTrip(d: Date)
    requires ValidDate(d)
    ensures ParseDate(FormatDate(d)) == Some(d)
  {
    var dd, mm, yyyy := Pad2(d.day), Pad2(d.month), Pad4(d.year);
    Pad2Value(d.day);
    Pad2Value(d.month);
    Pad4Value(d.year);
    assert '.' !in dd && '.' !in mm && '.' !in yyyy;
    assert FormatDate(d) == dd + ['.'] + (mm + ['.'] + yyyy);
    SplitAtSep(dd, '.', mm + ['.'] + yyyy);
    SplitAtSep(mm, '.', yyyy);
    SplitNoSep(yyyy, '.');
    assert Split(FormatDate(d), '.') == [dd, mm, yyyy];
  }

  /** A time written by the bot reads back as the same time. */
  lemma FormatTimeRoundTrip(t: Time)
    requires ValidTime(t)
    ensures ParseTime(FormatTime(t)) == Some(t)
  {
    var hh, mm := Pad2(t.hour), Pad2(t.minute);
    Pad2Value(t.hour);
    Pad2Value(t.minute);
    assert ':' !in hh && ':' !in mm;
    assert FormatTime(t) == hh + [':'] + mm;
    SplitAtSep(hh, ':', mm);
    SplitNoSep(mm, ':');
  }
}
