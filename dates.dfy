/**
 * Date strings of the page: splitting on '-', the strict `YYYY-MM-DD` reading
 * that stands for the engine's date constructor, and `parseDate`, which reads a
 * string either as ISO or as day-first `DD-MM-YYYY` reassembled into ISO order.
 */
module Dates {
  import opened Wrappers

  /** A calendar date. */
  datatype CalDate = CalDate(year: int, month: int, day: int)

  // ---------------------------------------------------------------------------
  // String.prototype.split with a one-character separator

  /** The parts joined back with the separator between them. */
  function Join(parts: seq<string>, sep: char): string
    requires |parts| >= 1
    decreases |parts|
  {
    if |parts| == 1 then parts[0] else parts[0] + [sep] + Join(parts[1..], sep)
  }

  /** `s.split(sep)`: the maximal separator-free pieces of `s`, empty pieces included. */
  function Split(s: string, sep: char): (parts: seq<string>)
    ensures |parts| >= 1
    ensures forall i :: 0 <= i < |parts| ==> sep !in parts[i]
    ensures Join(parts, sep) == s
    decreases |s|
  {
    if s == [] then [""]
    else
      var rest := Split(s[1..], sep);
      if s[0] == sep then
        assert ([""] + rest)[1..] == rest;
        [""] + rest
      else
        var parts := [[s[0]] + rest[0]] + rest[1..];
        assert parts[1..] == rest[1..];
        assert |rest| > 1 ==> Join(rest, sep) == rest[0] + [sep] + Join(rest[1..], sep);
        assert s == [s[0]] + s[1..];
        parts
  }

  lemma {:induction false} SplitOfSeparatorFree(p: string, sep: char)
    requires sep !in p
    ensures Split(p, sep) == [p]
    decreases |p|
  {
    if p != [] {
      SplitOfSeparatorFree(p[1..], sep);
      assert p == [p[0]] + p[1..];
    }
  }

  /** Splitting at a separator splits the two sides independently. */
  lemma {:induction false} SplitAtSeparator(a: string, sep: char, b: string)
    ensures Split(a + [sep] + b, sep) == Split(a, sep) + Split(b, sep)
    decreases |a|
  {
    var s := a + [sep] + b;
    if a == [] {
      assert s[0] == sep && s[1..] == b;
    } else {
      assert s[0] == a[0] && s[1..] == a[1..] + [sep] + b;
      SplitAtSeparator(a[1..], sep, b);
    }
  }

  /** Splitting undoes joining separator-free pieces: the other half of the round trip. */
  lemma {:induction false} SplitJoin(parts: seq<string>, sep: char)
    requires |parts| >= 1
    requires forall i :: 0 <= i < |parts| ==> sep !in parts[i]
    ensures Split(Join(parts, sep), sep) == parts
    decreases |parts|
  {
    if |parts| == 1 {
      SplitOfSeparatorFree(parts[0], sep);
    } else {
      SplitJoin(parts[1..], sep);
      SplitOfSeparatorFree(parts[0], sep);
      SplitAtSeparator(parts[0], sep, Join(parts[1..], sep));
      assert parts == [parts[0]] + parts[1..];
    }
  }

  // ---------------------------------------------------------------------------
  // Decimal digits

  predicate IsDigit(c: char) {
    '0' <= c <= '9'
  }

  predicate AllDigits(s: string) {
    forall i :: 0 <= i < |s| ==> IsDigit(s[i])
  }

  function Pow10(n: nat): (r: nat)
    ensures r >= 1
  {
    if n == 0 then 1 else 10 * Pow10(n - 1)
  }

  /** The number a string of decimal digits denotes. */
  function DigitsValue(s: string): (r: nat)
    requires AllDigits(s)
    ensures r < Pow10(|s|)
    decreases |s|
  {
    if s == [] then 0
    else DigitsValue(s[..|s| - 1]) * 10 + (s[|s| - 1] as int - '0' as int)
  }

  /** `n` written with exactly `w` digits, zero-padded on the left. */
  function Pad(n: nat, w: nat): (r: string)
    requires n < Pow10(w)
    ensures |r| == w && AllDigits(r) && '-' !in r
    ensures DigitsValue(r) == n
    decreases w
  {
    if w == 0 then ""
    else
      var head := Pad(n / 10, w - 1);
      var r := head + [('0' as int + n % 10) as char];
      assert r[..|r| - 1] == head;
      r
  }

  /** Padding a digit string's value to its own width gives the string back: `Pad` inverts `DigitsValue`. */
  lemma {:induction false} PadDigits(x: string)
    requires AllDigits(x)
    ensures Pad(DigitsValue(x), |x|) == x
    decreases |x|
  {
    if x != [] {
      var init := x[..|x| - 1];
      assert AllDigits(init) by {
        forall i | 0 <= i < |init| ensures IsDigit(init[i]) {
          assert init[i] == x[i];
        }
      }
      PadDigits(init);
      var v := DigitsValue(x);
      var last := x[|x| - 1] as int - '0' as int;
      assert v / 10 == DigitsValue(init) && v % 10 == last;
      assert x == init + [x[|x| - 1]];
    }
  }

  // ---------------------------------------------------------------------------
  // The calendar

  predicate IsLeapYear(y: int) {
    y % 4 == 0 && (y % 100 != 0 || y % 400 == 0)
  }

  function DaysInMonth(y: int, m: int): int
    requires 1 <= m <= 12
  {
    if m == 2 then (if IsLeapYear(y) then 29 else 28)
    else if m == 4 || m == 6 || m == 9 || m == 11 then 30
    else 31
  }

  /** A day that exists in the proleptic Gregorian calendar. */
  predicate ValidDate(c: CalDate) {
    1 <= c.month <= 12 && 1 <= c.day <= DaysInMonth(c.year, c.month)
  }

  /** A `YYYY-MM-DD`-shaped digit string is the padded text of its own three numbers. */
  lemma IsoShapeCanonical(s: string)
    requires |s| == 10 && s[4] == '-' && s[7] == '-'
    requires AllDigits(s[..4]) && AllDigits(s[5..7]) && AllDigits(s[8..])
    ensures s == Pad(DigitsValue(s[..4]), 4) + "-" + Pad(DigitsValue(s[5..7]), 2) + "-" + Pad(DigitsValue(s[8..]), 2)
  {
    var y, m, d := s[..4], s[5..7], s[8..];
    PadDigits(y);
    PadDigits(m);
    PadDigits(d);
    assert s == y + "-" + m + "-" + d;
  }

  /** The strict `YYYY-MM-DD` reading: four, two and two digits, naming a day that exists. */
  function IsoParse(s: string): (r: Option<CalDate>)
    ensures r.Some? ==> ValidDate(r.value) && 0 <= r.value.year < 10000
    ensures r.Some? ==> s == IsoString(r.value)
  {
    if |s| == 10 && s[4] == '-' && s[7] == '-'
       && AllDigits(s[..4]) && AllDigits(s[5..7]) && AllDigits(s[8..])
    then
      var c := CalDate(DigitsValue(s[..4]), DigitsValue(s[5..7]), DigitsValue(s[8..]));
      if ValidDate(c) then
        IsoShapeCanonical(s);
        Some(c)
      else None
    else None
  }

  /** A missing destructured piece interpolates as the text "undefined". */
  function Piece(parts: seq<string>, i: nat): (p: string)
    ensures i < |parts| ==> p == parts[i]
    ensures i >= |parts| ==> p == "undefined" && |p| == 9
    ensures (forall k :: 0 <= k < |parts| ==> '-' !in parts[k]) ==> '-' !in p
  {
    if i < |parts| then parts[i] else "undefined"
  }

  /** `parseDate`: ISO when the string has a hyphen and its first piece has four characters,
      otherwise day-first, reassembled as `${year}-${month}-${day}`. */
  function ParseDate(d: string): (r: Option<CalDate>)
    ensures r.Some? ==> ValidDate(r.value)
  {
    var parts := Split(d, '-');
    if '-' in d && |parts[0]| == 4 then IsoParse(d)
    else IsoParse(Piece(parts, 2) + "-" + Piece(parts, 1) + "-" + Piece(parts, 0))
  }

  /** The canonical ISO text of a date. */
  function IsoString(c: CalDate): string
    requires ValidDate(c) && 0 <= c.year < 10000
  {
    Pad(c.year, 4) + "-" + Pad(c.month, 2) + "-" + Pad(c.day, 2)
  }

  /** The day-first text of a date. */
  function DayFirstString(c: CalDate): string
    requires ValidDate(c) && 0 <= c.year < 10000
  {
    Pad(c.day, 2) + "-" + Pad(c.month, 2) + "-" + Pad(c.year, 4)
  }

  // ---------------------------------------------------------------------------
  // Properties of parseDate

  /** A day-first string and its ISO reassembly parse alike: both are read as `y-m-d`. */
  lemma {:induction false} DayFirstMatchesIso(y: string, m: string, dd: string)
    requires '-' !in y && '-' !in m && '-' !in dd
    requires |y| == 4 && |dd| != 4
    ensures ParseDate(dd + "-" + m + "-" + y) == IsoParse(y + "-" + m + "-" + dd)
    ensures ParseDate(y + "-" + m + "-" + dd) == IsoParse(y + "-" + m + "-" + dd)
  {
    var iso := y + "-" + m + "-" + dd;
    var dmy := dd + "-" + m + "-" + y;
    assert [y, m, dd][1..] == [m, dd] && [m, dd][1..] == [dd];
    assert [dd, m, y][1..] == [m, y] && [m, y][1..] == [y];
    assert Join([dd], '-') == dd && Join([y], '-') == y;
    assert Join([m, dd], '-') == m + "-" + dd;
    assert Join([m, y], '-') == m + "-" + y;
    assert iso == Join([y, m, dd], '-');
    assert dmy == Join([dd, m, y], '-');
    SplitJoin([y, m, dd], '-');
    SplitJoin([dd, m, y], '-');
    assert iso[4] == '-';
  }

  /** The strict reading inverts the canonical ISO text. */
  lemma IsoRoundTrip(c: CalDate)
    requires ValidDate(c) && 0 <= c.year < 10000
    ensures IsoParse(IsoString(c)) == Some(c)
  {
    var s := IsoString(c);
    assert s[..4] == Pad(c.year, 4) && s[5..7] == Pad(c.month, 2) && s[8..] == Pad(c.day, 2);
  }

  /** Texts assembled from the same hyphen-free pieces in the two orders parse like the ISO one. */
  lemma AssembledParses(iso: string, dmy: string, y: string, m: string, d: string)
    requires '-' !in y && '-' !in m && '-' !in d && |y| == 4 && |d| == 2
    requires iso == y + "-" + m + "-" + d && dmy == d + "-" + m + "-" + y
    ensures ParseDate(iso) == IsoParse(iso) && ParseDate(dmy) == IsoParse(iso)
  {
    DayFirstMatchesIso(y, m, d);
  }

  /** Every date of years 0..9999 survives printing and parsing, in both accepted orders. */
  lemma ParseFormatted(c: CalDate)
    requires ValidDate(c) && 0 <= c.year < 10000
    ensures IsoParse(IsoString(c)) == Some(c)
    ensures ParseDate(IsoString(c)) == Some(c)
    ensures ParseDate(DayFirstString(c)) == Some(c)
  {
    IsoRoundTrip(c);
    AssembledParses(IsoString(c), DayFirstString(c), Pad(c.year, 4), Pad(c.month, 2), Pad(c.day, 2));
  }

  /** A string with no hyphen never parses: the day-first reading lacks its year and month. */
  lemma NoHyphenUnparsable(d: string)
    requires '-' !in d
    ensures ParseDate(d) == None
  {
    SplitOfSeparatorFree(d, '-');
  }

  /** Under the strict `YYYY-MM-DD` reading, a string with fewer than three hyphen-separated pieces
      parses in neither branch: the day-first reassembly spells out "undefined" for a missing piece,
      and an ISO-branch string needs two hyphens. */
  lemma MissingPiecesUnparsable(d: string)
    requires |Split(d, '-')| < 3
    ensures ParseDate(d) == None
  {
    var parts := Split(d, '-');
    if !('-' in d && |parts[0]| == 4) {
      var s := Piece(parts, 2) + "-" + Piece(parts, 1) + "-" + Piece(parts, 0);
      assert |s| > 10;
    } else if |d| == 10 && d[4] == '-' && d[7] == '-' {
      assert d == d[..4] + ['-'] + d[5..];
      assert d[5..] == d[5..7] + ['-'] + d[8..];
      SplitAtSeparator(d[..4], '-', d[5..]);
      SplitAtSeparator(d[5..7], '-', d[8..]);
    }
  }

  lemma {:induction false} PadExamples()
    ensures Pad(2024, 4) == "2024" && Pad(3, 2) == "03" && Pad(1, 2) == "01"
  {
    assert Pow10(4) == 10000;
    assert Pad(2, 1) == "2";
    assert Pad(20, 2) == Pad(2, 1) + ['0'];
    assert Pad(202, 3) == Pad(20, 2) + ['2'];
    assert Pad(2024, 4) == Pad(202, 3) + ['4'];
    assert Pad(0, 1) == "0";
  }

  /** The two texts of 1 March 2024. */
  lemma FirstOfMarchTexts(c: CalDate)
    requires c == CalDate(2024, 3, 1)
    ensures IsoString(c) == "2024-03-01" && DayFirstString(c) == "01-03-2024"
  {
    PadExamples();
    assert IsoString(c) == "2024-03-01" by {
      assert IsoString(c) == "2024" + "-" + "03" + "-" + "01";
    }
    assert DayFirstString(c) == "01-03-2024" by {
      assert DayFirstString(c) == "01" + "-" + "03" + "-" + "2024";
    }
  }

  /** The worked example: "01-03-2024" and "2024-03-01" both denote 1 March 2024. */
  lemma FirstOfMarchExample()
    ensures ParseDate("2024-03-01") == Some(CalDate(2024, 3, 1))
    ensures ParseDate("01-03-2024") == Some(CalDate(2024, 3, 1))
  {
    var c := CalDate(2024, 3, 1);
    FirstOfMarchTexts(c);
    ParseFormatted(c);
  }
}
