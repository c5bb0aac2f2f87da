/** Calendar date-times and their ISO 8601 text, as Python's `isoformat` writes and `fromisoformat` reads them. */
module DateTimes {
  import opened Options
  import opened Decimals

  const DAY_MICROS := 86_400_000_000

  /** A Python datetime; `offset` is the UTC offset in microseconds, `None` for a naive one. */
  datatype DateTime = DateTime(year: nat, month: nat, day: nat, hour: nat, minute: nat, second: nat, micro: nat,
                               offset: Option<int>)

  predicate IsLeap(year: nat) {
    year % 4 == 0 && (year % 100 != 0 || year % 400 == 0)
  }

  function DaysInMonth(year: nat, month: nat): (d: nat)
    requires 1 <= month <= 12
    ensures 28 <= d <= 31
  {
    if month == 2 then (if IsLeap(year) then 29 else 28)
    else if month in {4, 6, 9, 11} then 30
    else 31
  }

  predicate Valid(t: DateTime) {
    && 1 <= t.year <= 9999
    && 1 <= t.month <= 12
    && 1 <= t.day <= DaysInMonth(t.year, t.month)
    && t.hour < 24 && t.minute < 60 && t.second < 60 && t.micro < 1_000_000
    && (t.offset.Some? ==> -DAY_MICROS < t.offset.value < DAY_MICROS)
  }

  /** Every Python datetime is a valid one. */
  type Timestamp = t: DateTime | Valid(t) witness DateTime(1970, 1, 1, 0, 0, 0, 0, Some(0))

  /** What `datetime.now(timezone.utc)` gives. */
  type UtcTime = t: DateTime | Valid(t) && t.offset == Some(0) witness DateTime(1970, 1, 1, 0, 0, 0, 0, Some(0))

  /** Naive times are read as UTC. */
  function AssumeUtc(t: DateTime): DateTime {
    if t.offset.None? then t.(offset := Some(0)) else t
  }

  // ---------- Writing ----------

  function MicroText(micro: nat): string
    requires micro < 1_000_000
  {
    assert Power10(6) == 1_000_000;
    if micro == 0 then "" else "." + Pad(micro, 6)
  }

  /** Seconds of an offset, written only when there are any. */
  function SecondsText(micros: nat): string
    requires micros < 60_000_000
  {
    assert Power10(2) == 100;
    if micros == 0 then "" else ":" + (Pad(micros / 1_000_000, 2) + MicroText(micros % 1_000_000))
  }

  function HoursOf(m: nat): (h: nat)
    requires m < DAY_MICROS
    ensures h < 24
  {
    m / 3_600_000_000
  }

  function MinutesOf(m: nat): (r: nat)
    ensures r < 60
  {
    m / 60_000_000 % 60
  }

  function MicrosOf(m: nat): (r: nat)
    ensures r < 60_000_000
  {
    m % 60_000_000
  }

  function SignedText(sign: char, m: nat): string
    requires m < DAY_MICROS
  {
    assert Power10(2) == 100;
    [sign] + (Pad(HoursOf(m), 2) + (":" + (Pad(MinutesOf(m), 2) + SecondsText(MicrosOf(m)))))
  }

  function OffsetText(offset: Option<int>): string
    requires offset.Some? ==> -DAY_MICROS < offset.value < DAY_MICROS
  {
    if offset.None? then ""
    else if offset.value < 0 then SignedText('-', -offset.value)
    else SignedText('+', offset.value)
  }

  function IsoFormat(t: DateTime): string
    requires Valid(t)
  {
    assert Power10(2) == 100 && Power10(4) == 10_000;
    Pad(t.year, 4) + ("-" + (Pad(t.month, 2) + ("-" + (Pad(t.day, 2) + ("T" +
    (Pad(t.hour, 2) + (":" + (Pad(t.minute, 2) + (":" + (Pad(t.second, 2) +
    (MicroText(t.micro) + OffsetText(t.offset))))))))))))
  }

  // ---------- Reading ----------

  function TakeNumber(s: string, w: nat): Option<(nat, string)> {
    if |s| >= w && AllDigits(s[..w]) then Some((Value(s[..w]), s[w..])) else None
  }

  function Expect(s: string, c: char): Option<string> {
    if s != [] && s[0] == c then Some(s[1..]) else None
  }

  function ReadMicro(s: string): Option<(nat, string)> {
    if s != [] && s[0] == '.' then TakeNumber(s[1..], 6) else Some((0, s))
  }

  function ReadSeconds(s: string): Option<nat> {
    if s == [] then Some(0)
    else
      var s1 :- Expect(s, ':');
      var (seconds, s2) :- TakeNumber(s1, 2);
      var (micro, s3) :- ReadMicro(s2);
      if s3 != [] || seconds >= 60 then None else Some(1_000_000 * seconds + micro)
  }

  function Signed(sign: char, m: int): int {
    if sign == '-' then -m else m
  }

  function ReadOffset(s: string): Option<Option<int>> {
    if s == [] then Some(None)
    else if s[0] !in "+-" then None
    else
      var (hours, s1) :- TakeNumber(s[1..], 2);
      var s2 :- Expect(s1, ':');
      var (minutes, s3) :- TakeNumber(s2, 2);
      var micros :- ReadSeconds(s3);
      if minutes >= 60 then None
      else
        var m: nat := 3_600_000_000 * hours + 60_000_000 * minutes + micros;
        Some(Some(Signed(s[0], m)))
  }

  /** `datetime.fromisoformat` on the texts `isoformat` can produce; `None` for its ValueError. */
  function FromIsoFormat(s: string): (t: Option<DateTime>)
    ensures t.Some? ==> Valid(t.value)
  {
    var (year, s1) :- TakeNumber(s, 4);
    var s2 :- Expect(s1, '-');
    var (month, s3) :- TakeNumber(s2, 2);
    var s4 :- Expect(s3, '-');
    var (day, s5) :- TakeNumber(s4, 2);
    var s6 :- Expect(s5, 'T');
    var (hour, s7) :- TakeNumber(s6, 2);
    var s8 :- Expect(s7, ':');
    var (minute, s9) :- TakeNumber(s8, 2);
    var s10 :- Expect(s9, ':');
    var (second, s11) :- TakeNumber(s10, 2);
    var (micro, s12) :- ReadMicro(s11);
    var offset :- ReadOffset(s12);
    var t := DateTime(year, month, day, hour, minute, second, micro, offset);
    if Valid(t) then Some(t) else None
  }

  // ---------- Round trip ----------

  lemma TakePad(n: nat, w: nat, rest: string)
    requires n < Power10(w)
    ensures TakeNumber(Pad(n, w) + rest, w) == Some((n, rest))
  {
    var s := Pad(n, w) + rest;
    assert s[..w] == Pad(n, w) && s[w..] == rest;
  }

  lemma ExpectChar(c: char, rest: string)
    ensures Expect([c] + rest, c) == Some(rest)
  {
  }

  lemma ReadMicroText(micro: nat, rest: string)
    requires micro < 1_000_000
    requires rest != [] ==> rest[0] != '.'
    ensures ReadMicro(MicroText(micro) + rest) == Some((micro, rest))
  {
    assert Power10(6) == 1_000_000;
    if micro == 0 {
      assert MicroText(micro) + rest == rest;
    } else {
      TakePad(micro, 6, rest);
      DropFirst('.', Pad(micro, 6), rest);
      hide Pad, TakeNumber, Power10;
    }
  }

  lemma DropFirst(c: char, s: string, rest: string)
    ensures (([c] + s) + rest)[0] == c && (([c] + s) + rest)[1..] == s + rest
  {
  }

  lemma ReadSecondsText(micros: nat)
    requires micros < 60_000_000
    ensures ReadSeconds(SecondsText(micros)) == Some(micros)
    ensures SecondsText(micros) != [] ==> SecondsText(micros)[0] == ':'
  {
    if micros != 0 {
      assert Power10(2) == 100;
      var fraction := MicroText(micros % 1_000_000);
      ExpectChar(':', Pad(micros / 1_000_000, 2) + fraction);
      TakePad(micros / 1_000_000, 2, fraction);
      ReadMicroText(micros % 1_000_000, []);
      assert fraction + [] == fraction;
    }
  }

  lemma PartsOf(m: nat)
    requires m < DAY_MICROS
    ensures 3_600_000_000 * HoursOf(m) + 60_000_000 * MinutesOf(m) + MicrosOf(m) == m
  {
    assert m / 60_000_000 / 60 == m / 3_600_000_000;
  }

  lemma ReadSignedText(sign: char, m: nat)
    requires sign in "+-" && m < DAY_MICROS
    ensures ReadOffset(SignedText(sign, m)) == Some(Some(Signed(sign, m)))
    ensures SignedText(sign, m) != [] && SignedText(sign, m)[0] == sign
  {
    assert Power10(2) == 100;
    PartsOf(m);
    hide Pad, TakeNumber, SecondsText, ReadSeconds, Power10, HoursOf, MinutesOf, MicrosOf;
    var seconds := SecondsText(MicrosOf(m));
    var rest := Pad(MinutesOf(m), 2) + seconds;
    var s := SignedText(sign, m);
    assert s[1..] == Pad(HoursOf(m), 2) + (":" + rest);
    TakePad(HoursOf(m), 2, ":" + rest);
    ExpectChar(':', rest);
    TakePad(MinutesOf(m), 2, seconds);
    ReadSecondsText(MicrosOf(m));
  }

  lemma ReadOffsetText(offset: Option<int>)
    requires offset.Some? ==> -DAY_MICROS < offset.value < DAY_MICROS
    ensures ReadOffset(OffsetText(offset)) == Some(offset)
    ensures OffsetText(offset) != [] ==> OffsetText(offset)[0] in "+-"
  {
    hide SignedText;
    if offset.Some? {
      ReadSignedText(if offset.value < 0 then '-' else '+', if offset.value < 0 then -offset.value else offset.value);
    }
  }

  /** Reading what was written gives back every field, the offset (or its absence) included. */
  lemma IsoRoundTrip(t: DateTime)
    requires Valid(t)
    ensures FromIsoFormat(IsoFormat(t)) == Some(t)
  {
    assert Power10(2) == 100 && Power10(4) == 10_000;
    var o := OffsetText(t.offset);
    ReadOffsetText(t.offset);
    ReadMicroText(t.micro, o);
    var r := MicroText(t.micro) + o;
    TakePad(t.second, 2, r);
    var r5 := Pad(t.second, 2) + r;
    ExpectChar(':', r5);
    TakePad(t.minute, 2, ":" + r5);
    var r4 := Pad(t.minute, 2) + (":" + r5);
    ExpectChar(':', r4);
    TakePad(t.hour, 2, ":" + r4);
    var r3 := Pad(t.hour, 2) + (":" + r4);
    ExpectChar('T', r3);
    TakePad(t.day, 2, "T" + r3);
    var r2 := Pad(t.day, 2) + ("T" + r3);
    ExpectChar('-', r2);
    TakePad(t.month, 2, "-" + r2);
    var r1 := Pad(t.month, 2) + ("-" + r2);
    ExpectChar('-', r1);
    TakePad(t.year, 4, "-" + r1);
  }

  predicate IsoChar(c: char) {
    IsDigit(c) || c in "-:.+T"
  }

  ghost predicate IsoText(s: string) {
    forall c :: c in s ==> IsoChar(c)
  }

  lemma IsoConcat(a: string, b: string)
    requires IsoText(a) && IsoText(b)
    ensures IsoText(a + b)
  {
  }

  lemma OffsetChars(offset: Option<int>)
    requires offset.Some? ==> -DAY_MICROS < offset.value < DAY_MICROS
    ensures IsoText(OffsetText(offset))
  {
    hide SignedText;
    if offset.Some? {
      SignedChars(if offset.value < 0 then '-' else '+', if offset.value < 0 then -offset.value else offset.value);
    }
  }

  lemma SignedChars(sign: char, m: nat)
    requires sign in "+-" && m < DAY_MICROS
    ensures IsoText(SignedText(sign, m))
  {
    assert Power10(2) == 100;
    SecondsChars(MicrosOf(m));
    hide Pad, SecondsText, HoursOf, MinutesOf, MicrosOf, Power10;
    var minutes, seconds := Pad(MinutesOf(m), 2), SecondsText(MicrosOf(m));
    IsoConcat(minutes, seconds);
    IsoConcat(":", minutes + seconds);
    IsoConcat(Pad(HoursOf(m), 2), ":" + (minutes + seconds));
    IsoConcat([sign], Pad(HoursOf(m), 2) + (":" + (minutes + seconds)));
  }

  lemma SecondsChars(micros: nat)
    requires micros < 60_000_000
    ensures IsoText(SecondsText(micros))
  {
    if micros != 0 {
      assert Power10(2) == 100;
      hide Pad;
      var seconds, fraction := Pad(micros / 1_000_000, 2), MicroText(micros % 1_000_000);
      IsoConcat(seconds, fraction);
      IsoConcat(":", seconds + fraction);
    }
  }

  /** The text holds nothing but digits and the ISO separators; a pipe, in particular, never occurs. */
  lemma IsoChars(t: DateTime)
    requires Valid(t)
    ensures IsoText(IsoFormat(t))
  {
    assert Power10(2) == 100 && Power10(4) == 10_000;
    var o := OffsetText(t.offset);
    OffsetChars(t.offset);
    hide OffsetText, Pad;
    var m := MicroText(t.micro);
    IsoConcat(m, o);
    var r := Pad(t.second, 2) + (m + o);
    IsoConcat(Pad(t.second, 2), m + o);
    IsoConcat(":", r);
    r := Pad(t.minute, 2) + (":" + r);
    IsoConcat(":", r);
    r := Pad(t.hour, 2) + (":" + r);
    IsoConcat("T", r);
    r := Pad(t.day, 2) + ("T" + r);
    IsoConcat("-", r);
    r := Pad(t.month, 2) + ("-" + r);
    IsoConcat("-", r);
    r := Pad(t.year, 4) + ("-" + r);
    assert r == IsoFormat(t);
  }

  // ---------- Order ----------

  /** Days of the years before `year`, in the proleptic Gregorian calendar. */
  function DaysBeforeYear(year: nat): nat
    requires year >= 1
  {
    var y := year - 1;
    365 * y + y / 4 - y / 100 + y / 400
  }

  function DaysBeforeMonth(year: nat, month: nat): nat
    requires 1 <= month <= 13
  {
    if month == 1 then 0 else DaysBeforeMonth(year, month - 1) + DaysInMonth(year, month - 1)
  }

  /** `date.toordinal`. */
  function DayNumber(t: DateTime): nat
    requires Valid(t)
  {
    DaysBeforeYear(t.year) + DaysBeforeMonth(t.year, t.month) + t.day
  }

  function TimeOfDay(t: DateTime): nat {
    ((t.hour * 60 + t.minute) * 60 + t.second) * 1_000_000 + t.micro
  }

  /** The instant a date-time names, in microseconds; a naive one is read as UTC. */
  function Instant(t: DateTime): int
    requires Valid(t)
  {
    DayNumber(t) * DAY_MICROS + TimeOfDay(t) - (if t.offset.Some? then t.offset.value else 0)
  }

  /** Field by field, as Python and the database compare times of one offset. */
  predicate Earlier(s: DateTime, t: DateTime) {
    s.year < t.year || (s.year == t.year && (
    s.month < t.month || (s.month == t.month && (
    s.day < t.day || (s.day == t.day && (
    s.hour < t.hour || (s.hour == t.hour && (
    s.minute < t.minute || (s.minute == t.minute && (
    s.second < t.second || (s.second == t.second && s.micro < t.micro)))))))))))
  }

  lemma {:induction false} MonthFitsYear(year: nat, m: nat, n: nat)
    requires 1 <= m <= n <= 13
    ensures DaysBeforeMonth(year, m) <= DaysBeforeMonth(year, n)
    ensures m < n ==> DaysBeforeMonth(year, m) + DaysInMonth(year, m) <= DaysBeforeMonth(year, n)
    decreases n
  {
    if m < n {
      MonthFitsYear(year, m, n - 1);
    }
  }

  lemma MonthsMakeTheYear(year: nat)
    ensures DaysBeforeMonth(year, 13) == if IsLeap(year) then 366 else 365
  {
    assert DaysBeforeMonth(year, 2) == 31;
    assert DaysBeforeMonth(year, 3) == 31 + DaysInMonth(year, 2);
    assert DaysBeforeMonth(year, 4) == DaysBeforeMonth(year, 3) + 31;
    assert DaysBeforeMonth(year, 5) == DaysBeforeMonth(year, 3) + 61;
    assert DaysBeforeMonth(year, 6) == DaysBeforeMonth(year, 3) + 92;
    assert DaysBeforeMonth(year, 7) == DaysBeforeMonth(year, 3) + 122;
    assert DaysBeforeMonth(year, 8) == DaysBeforeMonth(year, 3) + 153;
    assert DaysBeforeMonth(year, 9) == DaysBeforeMonth(year, 3) + 184;
    assert DaysBeforeMonth(year, 10) == DaysBeforeMonth(year, 3) + 214;
    assert DaysBeforeMonth(year, 11) == DaysBeforeMonth(year, 3) + 245;
    assert DaysBeforeMonth(year, 12) == DaysBeforeMonth(year, 3) + 275;
  }

  lemma Quotients(y: nat)
    requires y >= 1
    ensures y / 4 == (y - 1) / 4 + if y % 4 == 0 then 1 else 0
    ensures y / 100 == (y - 1) / 100 + if y % 100 == 0 then 1 else 0
    ensures y / 400 == (y - 1) / 400 + if y % 400 == 0 then 1 else 0
  {
  }

  lemma Multiples(y: nat)
    ensures y % 400 == 0 ==> y % 100 == 0
    ensures y % 100 == 0 ==> y % 4 == 0
  {
    if y % 400 == 0 {
      assert y == 100 * (4 * (y / 400));
    }
    if y % 100 == 0 {
      assert y == 4 * (25 * (y / 100));
    }
  }

  lemma NextYear(year: nat)
    requires year >= 1
    ensures DaysBeforeYear(year + 1) == DaysBeforeYear(year) + if IsLeap(year) then 366 else 365
  {
    Quotients(year);
    Multiples(year);
    assert DaysBeforeYear(year + 1) == 365 * year + year / 4 - year / 100 + year / 400;
  }

  lemma {:induction false} YearsFit(y: nat, z: nat)
    requires 1 <= y < z
    ensures DaysBeforeYear(y) + DaysBeforeMonth(y, 13) <= DaysBeforeYear(z)
    decreases z
  {
    NextYear(z - 1);
    MonthsMakeTheYear(y);
    MonthsMakeTheYear(z - 1);
    if y < z - 1 {
      YearsFit(y, z - 1);
    }
  }

  lemma LaterDay(s: DateTime, t: DateTime)
    requires Valid(s) && Valid(t)
    requires s.year < t.year || (s.year == t.year && (s.month < t.month || (s.month == t.month && s.day < t.day)))
    ensures DayNumber(s) < DayNumber(t)
  {
    MonthFitsYear(s.year, s.month, 13);
    if s.year < t.year {
      YearsFit(s.year, t.year);
    } else if s.month < t.month {
      MonthFitsYear(s.year, s.month, t.month);
    }
  }

  /** Of two times with the same offset, the one with the earlier fields names the earlier instant. */
  lemma EarlierIsEarlier(s: Timestamp, t: Timestamp)
    requires s.offset == t.offset
    ensures Earlier(s, t) <==> Instant(s) < Instant(t)
  {
    assert TimeOfDay(s) < DAY_MICROS && TimeOfDay(t) < DAY_MICROS;
    if (s.year, s.month, s.day) == (t.year, t.month, t.day) {
      assert DayNumber(s) == DayNumber(t);
    } else if s.year < t.year || (s.year == t.year && (s.month < t.month || (s.month == t.month && s.day < t.day))) {
      LaterDay(s, t);
    } else {
      LaterDay(t, s);
    }
  }
}
