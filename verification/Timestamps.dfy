/**
 Creation times as `manageExistingJob` compares them: formatted as
 YYYY-MM-DDThh:mm:ssZ and compared as strings. Section 5.1 of RFC 3339 says
 that this orders times chronologically; here it is proved against a count of
 seconds in the proleptic Gregorian calendar.
 */
module Timestamps {
  import opened Ordering

  datatype Timestamp = Timestamp(year: nat, month: nat, day: nat, hour: nat, minute: nat, second: nat) {
    predicate Valid() {
      && year < 10000
      && 1 <= month <= 12
      && 1 <= day <= DaysInMonth(year, month)
      && hour < 24 && minute < 60 && second < 60
    }
  }

  // ---------- Calendar ----------

  predicate IsLeap(year: nat) {
    year % 4 == 0 && (year % 100 != 0 || year % 400 == 0)
  }

  function DaysInMonth(year: nat, month: nat): nat {
    if month == 2 then (if IsLeap(year) then 29 else 28)
    else if month in {4, 6, 9, 11} then 30
    else 31
  }

  function DaysBeforeMonth(year: nat, month: nat): nat {
    if month <= 1 then 0 else DaysBeforeMonth(year, month - 1) + DaysInMonth(year, month - 1)
  }

  function DaysBeforeYear(year: nat): nat {
    if year == 0 then 0 else DaysBeforeYear(year - 1) + (if IsLeap(year - 1) then 366 else 365)
  }

  function Day(t: Timestamp): nat
    requires t.Valid()
  {
    DaysBeforeYear(t.year) + DaysBeforeMonth(t.year, t.month) + t.day - 1
  }

  /** Seconds since the start of year 0. */
  function Seconds(t: Timestamp): nat
    requires t.Valid()
  {
    ((Day(t) * 24 + t.hour) * 60 + t.minute) * 60 + t.second
  }

  lemma MonthsFillYear(year: nat)
    ensures DaysBeforeMonth(year, 13) == if IsLeap(year) then 366 else 365
  {
    assert DaysBeforeMonth(year, 1) == 0 && DaysBeforeMonth(year, 2) == 31;
    assert DaysBeforeMonth(year, 3) == 31 + DaysInMonth(year, 2);
    assert DaysBeforeMonth(year, 5) == DaysBeforeMonth(year, 3) + 61;
    assert DaysBeforeMonth(year, 7) == DaysBeforeMonth(year, 5) + 61;
    assert DaysBeforeMonth(year, 9) == DaysBeforeMonth(year, 7) + 62;
    assert DaysBeforeMonth(year, 11) == DaysBeforeMonth(year, 9) + 61;
    assert DaysBeforeMonth(year, 13) == DaysBeforeMonth(year, 11) + 61;
  }

  lemma {:induction false} MonthsGrow(year: nat, m: nat, n: nat)
    requires 1 <= m < n
    ensures DaysBeforeMonth(year, m) + DaysInMonth(year, m) <= DaysBeforeMonth(year, n)
    decreases n
  {
    if m < n - 1 {
      MonthsGrow(year, m, n - 1);
    }
  }

  lemma {:induction false} YearsGrow(m: nat, n: nat)
    requires m < n
    ensures DaysBeforeYear(m) + (if IsLeap(m) then 366 else 365) <= DaysBeforeYear(n)
    decreases n
  {
    if m < n - 1 {
      YearsGrow(m, n - 1);
    }
  }

  /** Field by field, most significant first. */
  predicate Earlier(a: Timestamp, b: Timestamp) {
    if a.year != b.year then a.year < b.year
    else if a.month != b.month then a.month < b.month
    else if a.day != b.day then a.day < b.day
    else if a.hour != b.hour then a.hour < b.hour
    else if a.minute != b.minute then a.minute < b.minute
    else a.second < b.second
  }

  lemma EarlierDay(a: Timestamp, b: Timestamp)
    requires a.Valid() && b.Valid()
    requires (a.year, a.month, a.day) != (b.year, b.month, b.day) && Earlier(a, b)
    ensures Day(a) < Day(b)
  {
    if a.year < b.year {
      YearsGrow(a.year, b.year);
      MonthsFillYear(a.year);
      MonthsGrow(a.year, a.month, 13);
    } else if a.month < b.month {
      MonthsGrow(a.year, a.month, b.month);
    }
  }

  lemma EarlierSeconds(a: Timestamp, b: Timestamp)
    requires a.Valid() && b.Valid() && Earlier(a, b)
    ensures Seconds(a) < Seconds(b)
  {
    if (a.year, a.month, a.day) != (b.year, b.month, b.day) {
      EarlierDay(a, b);
    }
  }

  // ---------- Strings ----------

  function Digit(n: nat): char
    requires n < 10
  {
    '0' + n as char
  }

  /** The last `width` decimal digits of `n`. */
  function Pad(n: nat, width: nat): (s: string)
    ensures |s| == width
    decreases width
  {
    if width == 0 then "" else Pad(n / 10, width - 1) + [Digit(n % 10)]
  }

  function Format(t: Timestamp): string {
    Field(t.year, 4, '-', Field(t.month, 2, '-', Field(t.day, 2, 'T',
    Field(t.hour, 2, ':', Field(t.minute, 2, ':', Field(t.second, 2, 'Z', ""))))))
  }

  function Field(n: nat, width: nat, end: char, rest: string): string {
    Pad(n, width) + [end] + rest
  }

  function Limit(width: nat): nat {
    if width == 0 then 1 else 10 * Limit(width - 1)
  }

  /** Strings with heads of one length are ordered by the heads, then by the rest. */
  lemma {:induction false} HeadsFirst(p: string, x: string, q: string, y: string)
    requires |p| == |q|
    ensures StringLess(p + x, q + y) <==> StringLess(p, q) || (p == q && StringLess(x, y))
    decreases |p|
  {
    if p == [] {
      assert p + x == x && q + y == y;
    } else {
      HeadsFirst(p[1..], x, q[1..], y);
      assert (p + x)[1..] == p[1..] + x && (q + y)[1..] == q[1..] + y;
      assert p == [p[0]] + p[1..] && q == [q[0]] + q[1..];
    }
  }

  lemma {:induction false} PadOrders(a: nat, b: nat, width: nat)
    requires a < Limit(width) && b < Limit(width)
    ensures StringLess(Pad(a, width), Pad(b, width)) <==> a < b
    ensures Pad(a, width) == Pad(b, width) <==> a == b
    decreases width
  {
    if width > 0 {
      var p, q := Pad(a / 10, width - 1), Pad(b / 10, width - 1);
      PadOrders(a / 10, b / 10, width - 1);
      HeadsFirst(p, [Digit(a % 10)], q, [Digit(b % 10)]);
      assert Pad(a, width)[..width - 1] == p && Pad(b, width)[..width - 1] == q;
      assert Pad(a, width)[width - 1] == Digit(a % 10) && Pad(b, width)[width - 1] == Digit(b % 10);
    }
  }

  lemma FieldOrders(a: nat, b: nat, width: nat, end: char, x: string, y: string)
    requires a < Limit(width) && b < Limit(width)
    ensures StringLess(Field(a, width, end, x), Field(b, width, end, y)) <==> a < b || (a == b && StringLess(x, y))
  {
    PadOrders(a, b, width);
    HeadsFirst(Pad(a, width) + [end], x, Pad(b, width) + [end], y);
    HeadsFirst(Pad(a, width), [end], Pad(b, width), [end]);
    assert Pad(a, width) + [end] == Pad(b, width) + [end] ==> Pad(a, width) == Pad(b, width) by {
      assert (Pad(a, width) + [end])[..width] == Pad(a, width) && (Pad(b, width) + [end])[..width] == Pad(b, width);
    }
  }

  lemma FormatOrdersFields(a: Timestamp, b: Timestamp)
    requires a.Valid() && b.Valid()
    ensures StringLess(Format(a), Format(b)) <==> Earlier(a, b)
  {
    assert Limit(1) == 10 && Limit(2) == 100 && Limit(3) == 1000 && Limit(4) == 10000;
    var a5, b5 := Field(a.second, 2, 'Z', ""), Field(b.second, 2, 'Z', "");
    var a4, b4 := Field(a.minute, 2, ':', a5), Field(b.minute, 2, ':', b5);
    var a3, b3 := Field(a.hour, 2, ':', a4), Field(b.hour, 2, ':', b4);
    var a2, b2 := Field(a.day, 2, 'T', a3), Field(b.day, 2, 'T', b3);
    var a1, b1 := Field(a.month, 2, '-', a2), Field(b.month, 2, '-', b2);
    FieldOrders(a.second, b.second, 2, 'Z', "", "");
    FieldOrders(a.minute, b.minute, 2, ':', a5, b5);
    FieldOrders(a.hour, b.hour, 2, ':', a4, b4);
    FieldOrders(a.day, b.day, 2, 'T', a3, b3);
    FieldOrders(a.month, b.month, 2, '-', a2, b2);
    FieldOrders(a.year, b.year, 4, '-', a1, b1);
  }

  /** String order of formatted times is chronological order. */
  lemma FormatIsChronological(a: Timestamp, b: Timestamp)
    requires a.Valid() && b.Valid()
    ensures StringLess(Format(a), Format(b)) <==> Seconds(a) < Seconds(b)
    ensures Format(a) == Format(b) <==> Seconds(a) == Seconds(b)
  {
    FormatOrdersFields(a, b);
    FormatOrdersFields(b, a);
    StringTotal(Format(a), Format(b));
    StringTotal(Format(b), Format(a));
    if Earlier(a, b) { EarlierSeconds(a, b); }
    if Earlier(b, a) { EarlierSeconds(b, a); }
  }

  // ---------- Reading ----------

  predicate IsDigit(c: char) { '0' <= c <= '9' }

  predicate AllDigits(s: string) {
    forall i :: 0 <= i < |s| ==> IsDigit(s[i])
  }

  /** The number that a string of digits denotes. */
  function Read(s: string): nat
    requires AllDigits(s)
  {
    if s == [] then 0 else 10 * Read(s[..|s| - 1]) + (s[|s| - 1] as int - '0' as int)
  }

  /** The places of the marks between the fields. */
  predicate IsMark(i: int) {
    i == 4 || i == 7 || i == 10 || i == 13 || i == 16 || i == 19
  }

  /** A string laid out as YYYY-MM-DDThh:mm:ssZ. */
  ghost predicate IsStamp(s: string) {
    && |s| == 20
    && s[4] == s[7] == '-' && s[10] == 'T' && s[13] == s[16] == ':' && s[19] == 'Z'
    && forall i :: 0 <= i < 20 && !IsMark(i) ==> IsDigit(s[i])
  }

  lemma StampDigits(s: string, i: nat, j: nat)
    requires IsStamp(s) && i <= j < 20 && forall k :: i <= k < j ==> !IsMark(k)
    ensures AllDigits(s[i..j])
  {
    forall k | 0 <= k < j - i
      ensures IsDigit(s[i..j][k])
    {
      assert !IsMark(i + k) && s[i..j][k] == s[i + k];
    }
  }

  /** The time that such a string denotes. */
  ghost function ReadStamp(s: string): Timestamp
    requires IsStamp(s)
  {
    StampDigits(s, 0, 4);
    StampDigits(s, 5, 7);
    StampDigits(s, 8, 10);
    StampDigits(s, 11, 13);
    StampDigits(s, 14, 16);
    StampDigits(s, 17, 19);
    Timestamp(Read(s[0..4]), Read(s[5..7]), Read(s[8..10]), Read(s[11..13]), Read(s[14..16]), Read(s[17..19]))
  }

  lemma {:induction false} PadReads(n: nat, width: nat)
    requires n < Limit(width)
    ensures AllDigits(Pad(n, width)) && Read(Pad(n, width)) == n
    decreases width
  {
    if width > 0 {
      PadReads(n / 10, width - 1);
      assert Pad(n, width)[..width - 1] == Pad(n / 10, width - 1);
    }
  }

  lemma {:induction false} ReadPads(s: string)
    requires AllDigits(s)
    ensures Read(s) < Limit(|s|) && Pad(Read(s), |s|) == s
    decreases |s|
  {
    if s != [] {
      var head, last := s[..|s| - 1], s[|s| - 1];
      ReadPads(head);
      assert IsDigit(last) && s == head + [last];
      assert Read(s) / 10 == Read(head) && Read(s) % 10 == last as int - '0' as int;
      assert Digit(Read(s) % 10) == last;
    }
  }

  /** Where the fields of a formatted time are. */
  lemma FormatParts(t: Timestamp)
    ensures var s := Format(t);
            && |s| == 20
            && s[4] == s[7] == '-' && s[10] == 'T' && s[13] == s[16] == ':' && s[19] == 'Z'
            && s[0..4] == Pad(t.year, 4) && s[5..7] == Pad(t.month, 2) && s[8..10] == Pad(t.day, 2)
            && s[11..13] == Pad(t.hour, 2) && s[14..16] == Pad(t.minute, 2) && s[17..19] == Pad(t.second, 2)
  {
    var s5 := Field(t.second, 2, 'Z', "");
    var s4 := Field(t.minute, 2, ':', s5);
    var s3 := Field(t.hour, 2, ':', s4);
    var s2 := Field(t.day, 2, 'T', s3);
    var s1 := Field(t.month, 2, '-', s2);
    var s := Field(t.year, 4, '-', s1);
    FieldParts(t.second, 2, 'Z', "");
    FieldParts(t.minute, 2, ':', s5);
    FieldParts(t.hour, 2, ':', s4);
    FieldParts(t.day, 2, 'T', s3);
    FieldParts(t.month, 2, '-', s2);
    FieldParts(t.year, 4, '-', s1);
    assert s[5..] == s1 && s[8..] == s2 && s[11..] == s3 && s[14..] == s4 && s[17..] == s5;
  }

  lemma FieldParts(n: nat, width: nat, end: char, rest: string)
    ensures var s := Field(n, width, end, rest);
            |s| == width + 1 + |rest| && s[..width] == Pad(n, width) && s[width] == end && s[width + 1..] == rest
  {
  }

  /** A valid time is formatted as a string that denotes it. */
  lemma FormatReads(t: Timestamp)
    requires t.Valid()
    ensures IsStamp(Format(t)) && ReadStamp(Format(t)) == t
  {
    assert Limit(1) == 10 && Limit(2) == 100 && Limit(3) == 1000 && Limit(4) == 10000;
    FormatParts(t);
    PadReads(t.year, 4);
    PadReads(t.month, 2);
    PadReads(t.day, 2);
    PadReads(t.hour, 2);
    PadReads(t.minute, 2);
    PadReads(t.second, 2);
    PartsAreStamp(Format(t));
  }

  lemma PartsAreStamp(s: string)
    requires |s| == 20 && s[4] == s[7] == '-' && s[10] == 'T' && s[13] == s[16] == ':' && s[19] == 'Z'
    requires AllDigits(s[0..4]) && AllDigits(s[5..7]) && AllDigits(s[8..10])
    requires AllDigits(s[11..13]) && AllDigits(s[14..16]) && AllDigits(s[17..19])
    ensures IsStamp(s)
  {
    forall i | 0 <= i < 20 && !IsMark(i)
      ensures IsDigit(s[i])
    {
      if i < 4 { assert s[i] == s[0..4][i]; }
      else if i < 7 { assert s[i] == s[5..7][i - 5]; }
      else if i < 10 { assert s[i] == s[8..10][i - 8]; }
      else if i < 13 { assert s[i] == s[11..13][i - 11]; }
      else if i < 16 { assert s[i] == s[14..16][i - 14]; }
      else { assert s[i] == s[17..19][i - 17]; }
    }
  }

  /** And every string of that shape is the formatted form of what it denotes. */
  lemma StampIsFormatted(s: string)
    requires IsStamp(s)
    ensures Format(ReadStamp(s)) == s
  {
    var t := ReadStamp(s);
    StampDigits(s, 0, 4);
    StampDigits(s, 5, 7);
    StampDigits(s, 8, 10);
    StampDigits(s, 11, 13);
    StampDigits(s, 14, 16);
    StampDigits(s, 17, 19);
    ReadPads(s[0..4]);
    ReadPads(s[5..7]);
    ReadPads(s[8..10]);
    ReadPads(s[11..13]);
    ReadPads(s[14..16]);
    ReadPads(s[17..19]);
    FormatParts(t);
    SameParts(s, Format(t));
  }

  lemma SameParts(s: string, t: string)
    requires |s| == |t| == 20
    requires s[0..4] == t[0..4] && s[4] == t[4] && s[5..7] == t[5..7] && s[7] == t[7] && s[8..10] == t[8..10]
    requires s[10] == t[10] && s[11..13] == t[11..13] && s[13] == t[13] && s[14..16] == t[14..16] && s[16] == t[16]
    requires s[17..19] == t[17..19] && s[19] == t[19]
    ensures s == t
  {
    assert s == s[0..4] + [s[4]] + s[5..7] + [s[7]] + s[8..10] + [s[10]] + s[11..13] + [s[13]] + s[14..16] + [s[16]]
                + s[17..19] + [s[19]];
    assert t == t[0..4] + [t[4]] + t[5..7] + [t[7]] + t[8..10] + [t[10]] + t[11..13] + [t[13]] + t[14..16] + [t[16]]
                + t[17..19] + [t[19]];
  }

  /** A time sorts before a string of that shape exactly when it is earlier than what the string denotes. */
  lemma BeforeStampIff(t: Timestamp, s: string)
    requires t.Valid() && IsStamp(s) && ReadStamp(s).Valid()
    ensures StringLess(Format(t), s) <==> Seconds(t) < Seconds(ReadStamp(s))
  {
    StampIsFormatted(s);
    FormatIsChronological(t, ReadStamp(s));
  }

  // ---------- Seconds are counted one by one ----------

  /** The second after `t`. */
  function Next(t: Timestamp): Timestamp {
    if t.second < 59 then t.(second := t.second + 1)
    else if t.minute < 59 then t.(minute := t.minute + 1, second := 0)
    else if t.hour < 23 then t.(hour := t.hour + 1, minute := 0, second := 0)
    else if t.day < DaysInMonth(t.year, t.month) then t.(day := t.day + 1, hour := 0, minute := 0, second := 0)
    else if t.month < 12 then Timestamp(t.year, t.month + 1, 1, 0, 0, 0)
    else Timestamp(t.year + 1, 1, 1, 0, 0, 0)
  }

  lemma NextIsOneLater(t: Timestamp)
    requires t.Valid() && Next(t).Valid()
    ensures Seconds(Next(t)) == Seconds(t) + 1
  {
    if t.month == 12 { MonthsFillYear(t.year); }
  }

  /** The length of February in ordinary, leap and century years. */
  lemma LeapYears()
    ensures DaysInMonth(2023, 2) == 28 && DaysInMonth(2024, 2) == 29
    ensures DaysInMonth(1900, 2) == 28 && DaysInMonth(2000, 2) == 29
    ensures forall year: nat :: DaysInMonth(year, 4) == DaysInMonth(year, 6) == 30
    ensures forall year: nat :: DaysInMonth(year, 9) == DaysInMonth(year, 11) == 30
    ensures forall year: nat, month: nat :: month in {1, 3, 5, 7, 8, 10, 12} ==> DaysInMonth(year, month) == 31
  {
  }
}
