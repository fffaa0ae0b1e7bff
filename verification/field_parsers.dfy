/** Conversion of the bank's date and amount strings into the ledger's formats
    (`parseDate` and `parseAmount` in index.js). */
module FieldParsers {
  import opened Basics
  import opened Records
  import Text

  /** What a JavaScript template literal renders for the element at `i`:
      the element itself, or the text "undefined" when the array is too short. */
  function Render(parts: seq<string>, i: nat): string
  {
    if i < |parts| then parts[i] else "undefined"
  }

  /** `parseDate`: keeps what precedes the first space, splits it on `-` into
      day, month and year, and writes them back as year-month-day. */
  function ParseDate(raw: string): string
  {
    var datePart := Text.Split(raw, ' ')[0];
    var fields := Text.Split(datePart, '-');
    Render(fields, 2) + "-" + Render(fields, 1) + "-" + Render(fields, 0)
  }

  /** The bank's `DD-MM-YYYY <time>` becomes `YYYY-MM-DD`, whatever the time part is. */
  lemma ParseDateReorders(day: string, month: string, year: string, time: string)
    requires '-' !in day && '-' !in month && '-' !in year
    requires ' ' !in day && ' ' !in month && ' ' !in year
    ensures ParseDate(day + "-" + month + "-" + year + " " + time) == year + "-" + month + "-" + day
  {
    var datePart := day + "-" + month + "-" + year;
    assert day + "-" + month + "-" + year + " " + time == datePart + [' '] + time;
    Text.SplitAtFirst(datePart, ' ', time);
    DatePartFields(day, month, year);
  }

  /** A date with no time part converts the same way. */
  lemma ParseDateWithoutTime(day: string, month: string, year: string)
    requires '-' !in day && '-' !in month && '-' !in year
    requires ' ' !in day && ' ' !in month && ' ' !in year
    ensures ParseDate(day + "-" + month + "-" + year) == year + "-" + month + "-" + day
  {
    var datePart := day + "-" + month + "-" + year;
    Text.SplitNoSeparator(datePart, ' ');
    DatePartFields(day, month, year);
  }

  /** A date part with only two fields lacks a year, which renders as "undefined". */
  lemma ParseDateMissingYear(day: string, month: string, time: string)
    requires '-' !in day && '-' !in month
    requires ' ' !in day && ' ' !in month
    ensures ParseDate(day + "-" + month + " " + time) == "undefined-" + month + "-" + day
  {
    var datePart := day + "-" + month;
    assert day + "-" + month + " " + time == datePart + [' '] + time;
    Text.SplitAtFirst(datePart, ' ', time);
    assert datePart == Text.Join([day, month], '-');
    Text.SplitJoin([day, month], '-');
  }

  lemma DatePartFields(day: string, month: string, year: string)
    requires '-' !in day && '-' !in month && '-' !in year
    ensures Text.Split(day + "-" + month + "-" + year, '-') == [day, month, year]
  {
    assert Text.Join([day, month, year], '-') == day + "-" + month + "-" + year by {
      assert [day, month, year][1..] == [month, year];
      assert [month, year][1..] == [year];
      assert Text.Join([year], '-') == year;
      assert Text.Join([month, year], '-') == month + ['-'] + year;
      assert Text.Join([day, month, year], '-') == day + ['-'] + (month + ['-'] + year);
    }
    Text.SplitJoin([day, month, year], '-');
  }

  predicate IsDigit(c: char)
  {
    '0' <= c <= '9'
  }

  function DigitValue(c: char): nat
    requires IsDigit(c)
  {
    (c as int) - ('0' as int)
  }

  predicate AllDigits(s: string)
  {
    forall i :: 0 <= i < |s| ==> IsDigit(s[i])
  }

  /** The characters `parseAmount` keeps: digits and minus signs. */
  predicate IsKept(c: char)
  {
    IsDigit(c) || c == '-'
  }

  /** `amountStr.replace(/[^-\d]/g, "")`: the digits and minus signs of `s`, in order. */
  function Clean(s: string): (t: string)
    ensures forall i :: 0 <= i < |t| ==> IsKept(t[i])
    ensures |t| <= |s|
    decreases |s|
  {
    if |s| == 0 then ""
    else (if IsKept(s[0]) then [s[0]] else "") + Clean(s[1..])
  }

  /** Cleaning distributes over concatenation. */
  lemma {:induction false} CleanAppend(a: string, b: string)
    ensures Clean(a + b) == Clean(a) + Clean(b)
    decreases |a|
  {
    if |a| > 0 {
      assert (a + b)[1..] == a[1..] + b;
      CleanAppend(a[1..], b);
    } else {
      assert a + b == b;
    }
  }

  /** A string made only of digits and minus signs is left as it is. */
  lemma {:induction false} CleanKeepsClean(s: string)
    requires forall i :: 0 <= i < |s| ==> IsKept(s[i])
    ensures Clean(s) == s
    decreases |s|
  {
    if |s| > 0 {
      CleanKeepsClean(s[1..]);
      assert [s[0]] + s[1..] == s;
    }
  }

  /** The longest run of digits at the start of `s`. */
  function LeadingDigits(s: string): (p: string)
    ensures |p| <= |s| && p == s[..|p|]
    ensures AllDigits(p)
    ensures |p| < |s| ==> !IsDigit(s[|p|])
    decreases |s|
  {
    if |s| > 0 && IsDigit(s[0]) then [s[0]] + LeadingDigits(s[1..]) else ""
  }

  /** The base-10 value of a string of digits. */
  function DigitsValue(s: string): nat
    requires AllDigits(s)
    decreases |s|
  {
    if |s| == 0 then 0 else 10 * DigitsValue(s[..|s| - 1]) + DigitValue(s[|s| - 1])
  }

  /** `parseInt(t, 10)` on a cleaned string: an optional leading minus, then the
      longest run of digits; NaN (here None) when that run is empty. Anything after
      the run, such as an interior minus, is ignored. */
  function ParseInt(t: string): Option<int>
    requires forall i :: 0 <= i < |t| ==> IsKept(t[i])
  {
    var negative := |t| > 0 && t[0] == '-';
    var digits := LeadingDigits(if negative then t[1..] else t);
    if |digits| == 0 then None
    else if negative then Some(-(DigitsValue(digits) as int))
    else Some(DigitsValue(digits))
  }

  /** `parseAmount`: the integer in the cleaned string, times 100. */
  function ParseAmount(s: string): (r: Amount)
    ensures r.Minor? ==> r.units % 100 == 0
  {
    match ParseInt(Clean(s))
    case None => NotANumber
    case Some(n) => Minor(n * 100)
  }

  /** An optional minus followed by at least one digit and nothing else. */
  predicate IsNumeral(t: string)
  {
    if |t| > 0 && t[0] == '-' then |t| > 1 && AllDigits(t[1..])
    else |t| > 0 && AllDigits(t)
  }

  /** The integer a numeral denotes. */
  function NumeralValue(t: string): int
    requires IsNumeral(t)
  {
    if t[0] == '-' then -(DigitsValue(t[1..]) as int) else DigitsValue(t)
  }

  lemma LeadingDigitsOfDigits(s: string)
    requires AllDigits(s)
    ensures LeadingDigits(s) == s
  {
    var p := LeadingDigits(s);
    assert |p| == |s|;
  }

  /** When the cleaned string is a plain numeral, `parseAmount` is exactly 100
      times the integer it denotes. */
  lemma ParseAmountOfNumeral(s: string)
    requires IsNumeral(Clean(s))
    ensures ParseAmount(s) == Minor(100 * NumeralValue(Clean(s)))
  {
    var t := Clean(s);
    if t[0] == '-' {
      LeadingDigitsOfDigits(t[1..]);
    } else {
      LeadingDigitsOfDigits(t);
    }
  }

  /** Characters other than digits and minus signs, such as thousands
      separators, currency symbols and spaces, do not change the amount. */
  lemma ParseAmountIgnoresDecoration(a: string, x: char, b: string)
    requires !IsKept(x)
    ensures ParseAmount(a + [x] + b) == ParseAmount(a + b)
  {
    CleanAppend(a + [x], b);
    CleanAppend(a, [x]);
    assert Clean([x]) == "" + Clean([x][1..]);
    assert Clean([x]) == "";
    assert Clean(a + [x] + b) == Clean(a) + Clean(b);
    CleanAppend(a, b);
  }

  /** A string without a single digit yields NaN. */
  lemma ParseAmountWithoutDigits(s: string)
    requires forall i :: 0 <= i < |s| ==> !IsDigit(s[i])
    ensures ParseAmount(s) == NotANumber
  {
    var t := Clean(s);
    NoDigitsSurviveCleaning(s);
    var body := if |t| > 0 && t[0] == '-' then t[1..] else t;
    assert |body| > 0 ==> !IsDigit(body[0]);
  }

  lemma {:induction false} NoDigitsSurviveCleaning(s: string)
    requires forall i :: 0 <= i < |s| ==> !IsDigit(s[i])
    ensures forall i :: 0 <= i < |Clean(s)| ==> Clean(s)[i] == '-'
    decreases |s|
  {
    if |s| > 0 {
      NoDigitsSurviveCleaning(s[1..]);
    }
  }

  function DigitChar(d: nat): (c: char)
    requires d < 10
    ensures IsDigit(c) && DigitValue(c) == d
  {
    ('0' as int + d) as char
  }

  /** The decimal digits of a natural number, most significant first. */
  function NatDigits(n: nat): (s: string)
    ensures |s| > 0 && AllDigits(s)
    decreases n
  {
    if n < 10 then [DigitChar(n)] else NatDigits(n / 10) + [DigitChar(n % 10)]
  }

  /** The usual decimal spelling of an integer, with a leading minus when negative. */
  function Decimal(n: int): string
  {
    if n < 0 then "-" + NatDigits(-n) else NatDigits(n)
  }

  lemma {:induction false} DigitsValueOfNatDigits(n: nat)
    ensures DigitsValue(NatDigits(n)) == n
    decreases n
  {
    if n >= 10 {
      var s := NatDigits(n);
      assert s[..|s| - 1] == NatDigits(n / 10);
      DigitsValueOfNatDigits(n / 10);
    }
  }

  /** Reading back the decimal spelling of any integer gives 100 times that integer. */
  lemma ParseAmountOfDecimal(n: int)
    ensures ParseAmount(Decimal(n)) == Minor(100 * n)
  {
    var t := Decimal(n);
    var m: nat := if n < 0 then -n else n;
    DigitsValueOfNatDigits(m);
    CleanKeepsClean(t);
    if n < 0 {
      assert t[1..] == NatDigits(m);
    }
    ParseAmountOfNumeral(t);
  }

  lemma ParseAmountPlainExample()
    ensures ParseAmount("1234") == Minor(123400)
  {
    CleanKeepsClean("1234");
    assert DigitsValue("1234") == 1234 by {
      assert "1234"[..3] == "123";
      assert "123"[..2] == "12";
      assert "12"[..1] == "1";
    }
    ParseAmountOfNumeral("1234");
  }

  /** A thousands separator is dropped. */
  lemma ParseAmountGroupedExample()
    ensures ParseAmount("1,234") == Minor(123400)
  {
    ParseAmountIgnoresDecoration("1", ',', "234");
    assert "1" + [','] + "234" == "1,234";
    assert "1" + "234" == "1234";
    ParseAmountPlainExample();
  }

  /** A leading minus is kept. */
  lemma ParseAmountNegativeExample()
    ensures ParseAmount("-50") == Minor(-5000)
  {
    CleanKeepsClean("-50");
    assert "-50"[1..] == "50";
    assert DigitsValue("50") == 50 by {
      assert "50"[..1] == "5";
    }
    ParseAmountOfNumeral("-50");
  }

  /** `parseInt` stops at an interior minus. */
  lemma ParseAmountTruncationExample()
    ensures ParseAmount("12-34") == Minor(1200)
  {
    CleanKeepsClean("12-34");
    assert LeadingDigits("12-34") == "12";
    assert DigitsValue("12") == 12 by {
      assert "12"[..1] == "1";
    }
  }

  /** A doubled minus leaves no digit for `parseInt` to start from: NaN. */
  lemma ParseAmountDoubleMinusExample()
    ensures ParseAmount("--5") == NotANumber
  {
    CleanKeepsClean("--5");
    assert "--5"[1..] == "-5";
  }

  /** The worked example of a bank timestamp. */
  lemma ParseDateExample()
    ensures ParseDate("15-03-2024 10:00:00") == "2024-03-15"
  {
    var day, month, year, time := "15", "03", "2024", "10:00:00";
    assert day + "-" + month + "-" + year + " " + time == "15-03-2024 10:00:00";
    ParseDateReorders(day, month, year, time);
    assert year + "-" + month + "-" + day == "2024-03-15";
  }

  lemma ParseAmountHundredExample()
    ensures ParseAmount("100") == Minor(10000)
  {
    CleanKeepsClean("100");
    assert DigitsValue("100") == 100 by {
      assert "100"[..2] == "10";
      assert "10"[..1] == "1";
    }
    ParseAmountOfNumeral("100");
  }
}
