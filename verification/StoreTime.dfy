/**
 * Store timestamps (src/store/time.ts): instants written as text that the databases compare as text.
 */
module StoreTime {
  import opened Wrappers
  import opened Calendar
  import Text

  // ---- Text order and fixed-width numbers ------------------------------------------------------------

  /** The order of the databases' binary collation. */
  predicate TextLess(s: string, t: string) {
    if t == "" then false
    else if s == "" then true
    else if s[0] != t[0] then s[0] < t[0]
    else TextLess(s[1..], t[1..])
  }

  function Pow10(w: nat): (p: nat)
    ensures p >= 1
  {
    if w == 0 then 1 else 10 * Pow10(w - 1)
  }

  /** The last `w` decimal digits of a number. */
  function Pad(n: nat, w: nat): (s: string)
    ensures |s| == w && forall i :: 0 <= i < w ==> Text.IsDigit(s[i])
  {
    if w == 0 then "" else Pad(n / 10, w - 1) + [Text.Digit(n % 10)]
  }

  lemma {:induction false} NumberOfPad(n: nat, w: nat)
    requires n < Pow10(w)
    ensures Text.Number(Pad(n, w)) == n
  {
    if w > 0 {
      NumberOfPad(n / 10, w - 1);
      assert Pad(n, w)[..w - 1] == Pad(n / 10, w - 1);
    }
  }

  lemma {:induction false} LessOfParts(a: string, b: string, x: string, y: string)
    requires |a| == |b|
    ensures TextLess(a + x, b + y) <==> TextLess(a, b) || (a == b && TextLess(x, y))
  {
    if a == "" {
      assert a + x == x && b + y == y;
    } else {
      assert (a + x)[1..] == a[1..] + x && (b + y)[1..] == b[1..] + y;
      LessOfParts(a[1..], b[1..], x, y);
      assert a == [a[0]] + a[1..] && b == [b[0]] + b[1..];
    }
  }

  lemma {:induction false} PadOrder(n: nat, m: nat, w: nat)
    requires n < Pow10(w) && m < Pow10(w)
    ensures TextLess(Pad(n, w), Pad(m, w)) <==> n < m
    ensures Pad(n, w) == Pad(m, w) <==> n == m
  {
    NumberOfPad(n, w);
    NumberOfPad(m, w);
    if w > 0 {
      PadOrder(n / 10, m / 10, w - 1);
      LessOfParts(Pad(n / 10, w - 1), Pad(m / 10, w - 1), [Text.Digit(n % 10)], [Text.Digit(m % 10)]);
      assert [Text.Digit(n % 10)][1..] == "" && [Text.Digit(m % 10)][1..] == "";
    }
  }

  /** A number of fixed width and what follows it compare number first. */
  lemma FieldOrder(n: nat, m: nat, w: nat, x: string, y: string)
    requires n < Pow10(w) && m < Pow10(w)
    ensures TextLess(Pad(n, w) + x, Pad(m, w) + y) <==> n < m || (n == m && TextLess(x, y))
  {
    PadOrder(n, m, w);
    LessOfParts(Pad(n, w), Pad(m, w), x, y);
  }

  lemma SepOrder(sep: char, x: string, y: string)
    ensures TextLess([sep] + x, [sep] + y) <==> TextLess(x, y)
  {
    LessOfParts([sep], [sep], x, y);
    assert [sep][1..] == "";
  }

  lemma Widths()
    ensures Pow10(2) == 100 && Pow10(3) == 1000 && Pow10(4) == 10_000 && Pow10(6) == 1_000_000
  {
  }

  // ---- The formats -----------------------------------------------------------------------------------

  function Date(c: Civil): string
    requires Valid(c)
  {
    "-" + (Pad(c.month, 2) + ("-" + Pad(c.day, 2)))
  }

  function Clock(c: Civil): string
    requires Valid(c)
  {
    Pad(c.hour, 2) + (":" + (Pad(c.minute, 2) + (":" + Pad(c.second, 2))))
  }

  /** Years outside 0-9999 are written with a sign and six digits. */
  function YearText(y: int): string {
    if 0 <= y <= 9999 then Pad(y, 4) else if y > 0 then "+" + Pad(y, 6) else "-" + Pad(-y, 6)
  }

  /** `toISOString`. */
  function Iso(c: Civil): string
    requires Valid(c)
  {
    YearText(c.year) + (Date(c) + ("T" + (Clock(c) + ("." + (Pad(c.milli, 3) + "Z")))))
  }

  /** What SQLite's datetime('now') writes. */
  function Legacy(c: Civil): string
    requires Valid(c)
  {
    YearText(c.year) + (Date(c) + (" " + Clock(c)))
  }

  predicate FourDigitYear(c: Civil) {
    0 <= c.year <= 9999
  }

  // ---- Text order is time order ----------------------------------------------------------------------

  predicate DayBefore(a: Civil, b: Civil) {
    a.month < b.month || (a.month == b.month && a.day < b.day)
  }

  lemma DateOrder(a: Civil, b: Civil, x: string, y: string)
    requires Valid(a) && Valid(b)
    ensures TextLess(Date(a) + x, Date(b) + y) <==>
            DayBefore(a, b) || (a.month == b.month && a.day == b.day && TextLess(x, y))
  {
    Widths();
    var p, q := Pad(a.day, 2) + x, Pad(b.day, 2) + y;
    assert Date(a) + x == "-" + (Pad(a.month, 2) + ("-" + p));
    assert Date(b) + y == "-" + (Pad(b.month, 2) + ("-" + q));
    FieldOrder(a.day, b.day, 2, x, y);
    SepOrder('-', p, q);
    FieldOrder(a.month, b.month, 2, "-" + p, "-" + q);
    SepOrder('-', Pad(a.month, 2) + ("-" + p), Pad(b.month, 2) + ("-" + q));
  }

  predicate ClockBefore(a: Civil, b: Civil) {
    || a.hour < b.hour
    || (a.hour == b.hour && (a.minute < b.minute || (a.minute == b.minute && a.second < b.second)))
  }

  lemma ClockOrder(a: Civil, b: Civil, x: string, y: string)
    requires Valid(a) && Valid(b)
    ensures TextLess(Clock(a) + x, Clock(b) + y) <==>
            ClockBefore(a, b) ||
            (a.hour == b.hour && a.minute == b.minute && a.second == b.second && TextLess(x, y))
  {
    Widths();
    var p, q := Pad(a.second, 2) + x, Pad(b.second, 2) + y;
    var r, s := Pad(a.minute, 2) + (":" + p), Pad(b.minute, 2) + (":" + q);
    assert Clock(a) + x == Pad(a.hour, 2) + (":" + r);
    assert Clock(b) + y == Pad(b.hour, 2) + (":" + s);
    FieldOrder(a.second, b.second, 2, x, y);
    SepOrder(':', p, q);
    FieldOrder(a.minute, b.minute, 2, ":" + p, ":" + q);
    SepOrder(':', r, s);
    FieldOrder(a.hour, b.hour, 2, ":" + r, ":" + s);
  }

  function AfterYear(c: Civil): string
    requires Valid(c)
  {
    Date(c) + ("T" + (Clock(c) + ("." + (Pad(c.milli, 3) + "Z"))))
  }

  lemma AfterYearOrder(a: Civil, b: Civil)
    requires Valid(a) && Valid(b)
    ensures TextLess(AfterYear(a), AfterYear(b)) <==>
            DayBefore(a, b) || (a.month == b.month && a.day == b.day && TimeBefore(a, b))
  {
    Widths();
    var p, q := Pad(a.milli, 3) + "Z", Pad(b.milli, 3) + "Z";
    FieldOrder(a.milli, b.milli, 3, "Z", "Z");
    SepOrder('Z', "", "");
    SepOrder('.', p, q);
    ClockOrder(a, b, "." + p, "." + q);
    SepOrder('T', Clock(a) + ("." + p), Clock(b) + ("." + q));
    DateOrder(a, b, "T" + (Clock(a) + ("." + p)), "T" + (Clock(b) + ("." + q)));
  }

  /** The years whose texts sort as the years do. */
  predicate SortsByYear(y: int, z: int) {
    || y == z
    || (0 <= y <= 9999 && 0 <= z <= 9999)
    || (y > 9999 && z > 9999)
    || (y < 0 && 0 <= z <= 9999)
    || (z < 0 && 0 <= y <= 9999)
  }

  /** The years toISOString can write. */
  predicate Writable(y: int) {
    -999_999 <= y <= 999_999
  }

  /** Signed years compare by sign first, then by their digits. */
  lemma SignedOrder(sign: char, n: nat, m: nat, u: string, v: string)
    requires n < 1_000_000 && m < 1_000_000 && n != m
    ensures TextLess([sign] + Pad(n, 6) + u, [sign] + Pad(m, 6) + v) <==> n < m
  {
    Widths();
    FieldOrder(n, m, 6, u, v);
    assert [sign] + Pad(n, 6) + u == [sign] + (Pad(n, 6) + u);
    assert [sign] + Pad(m, 6) + v == [sign] + (Pad(m, 6) + v);
    SepOrder(sign, Pad(n, 6) + u, Pad(m, 6) + v);
  }

  lemma HeadOrder(s: string, t: string)
    requires s != "" && t != "" && s[0] != t[0]
    ensures TextLess(s, t) <==> s[0] < t[0]
  {
  }

  lemma YearHead(y: int, u: string)
    ensures YearText(y) + u != ""
    ensures (YearText(y) + u)[0] == YearText(y)[0]
    ensures if 0 <= y <= 9999 then Text.IsDigit(YearText(y)[0]) else YearText(y)[0] == if y > 0 then '+' else '-'
  {
  }

  lemma YearOrder(y: int, z: int, u: string, v: string)
    requires Writable(y) && Writable(z) && y != z
    ensures TextLess(YearText(y) + u, YearText(z) + v) <==> (if SortsByYear(y, z) then y < z else y > z)
  {
    if 0 <= y <= 9999 && 0 <= z <= 9999 {
      FourDigitOrder(y, z, u, v);
    } else if y > 9999 && z > 9999 {
      SignedOrder('+', y, z, u, v);
    } else if y < 0 && z < 0 {
      SignedOrder('-', -y, -z, u, v);
    } else {
      YearHead(y, u);
      YearHead(z, v);
      HeadOrder(YearText(y) + u, YearText(z) + v);
    }
  }

  lemma FourDigitOrder(y: int, z: int, u: string, v: string)
    requires 0 <= y <= 9999 && 0 <= z <= 9999 && y != z
    ensures TextLess(YearText(y) + u, YearText(z) + v) <==> y < z
  {
    Widths();
    FieldOrder(y, z, 4, u, v);
  }

  /**
   * Two timestamps compare as text as their instants do exactly when their years do. Two four-digit
   * years always qualify; a year past 9999 sorts before every one of them.
   */
  lemma TextOrderIsTimeOrderExactly(a: Civil, b: Civil)
    requires Valid(a) && Valid(b) && Writable(a.year) && Writable(b.year)
    ensures (TextLess(Iso(a), Iso(b)) <==> Instant(a) < Instant(b)) <==> SortsByYear(a.year, b.year)
  {
    InstantsFollowFields(a, b);
    AfterYearOrder(a, b);
    if a.year == b.year {
      LessOfParts(YearText(a.year), YearText(b.year), AfterYear(a), AfterYear(b));
      NotLessThanItself(YearText(a.year));
    } else {
      YearOrder(a.year, b.year, AfterYear(a), AfterYear(b));
    }
  }

  lemma {:induction false} NotLessThanItself(s: string)
    ensures !TextLess(s, s)
  {
    if s != "" {
      NotLessThanItself(s[1..]);
    }
  }

  // ---- The clock functions and their use -------------------------------------------------------------

  /** `nowIso`. */
  function NowIso(now: int): string {
    Iso(CivilOf(now))
  }

  predicate InEra(t: int) {
    0 <= CivilOf(t).year <= 9999
  }

  lemma StampsCompareAsInstants(t: int, u: int)
    requires InEra(t) && InEra(u)
    ensures TextLess(NowIso(t), NowIso(u)) <==> t < u
  {
    TextOrderIsTimeOrderExactly(CivilOf(t), CivilOf(u));
    ReadingKeepsTheInstant(t);
    ReadingKeepsTheInstant(u);
  }

  // ---- Reading timestamps back -----------------------------------------------------------------------

  predicate DigitsAt(s: string, i: nat, w: nat) {
    i + w <= |s| && forall k :: i <= k < i + w ==> Text.IsDigit(s[k])
  }

  function NumberAt(s: string, i: nat, w: nat): nat
    requires DigitsAt(s, i, w)
  {
    Text.Number(s[i..i + w])
  }

  /** Digits and separators of a date and a time of day, the two joined by `join`. */
  predicate Shaped(s: string, join: char) {
    && |s| >= 19
    && DigitsAt(s, 0, 4) && s[4] == '-' && DigitsAt(s, 5, 2) && s[7] == '-' && DigitsAt(s, 8, 2)
    && s[10] == join
    && DigitsAt(s, 11, 2) && s[13] == ':' && DigitsAt(s, 14, 2) && s[16] == ':' && DigitsAt(s, 17, 2)
  }

  /** The regular expression of the legacy format. */
  predicate IsLegacyShape(s: string) {
    |s| == 19 && Shaped(s, ' ')
  }

  function Fields(s: string, milli: nat): Civil
    requires |s| >= 19 && Shaped(s, s[10])
  {
    Civil(NumberAt(s, 0, 4), NumberAt(s, 5, 2), NumberAt(s, 8, 2),
          NumberAt(s, 11, 2), NumberAt(s, 14, 2), NumberAt(s, 17, 2), milli)
  }

  /**
   * Date.parse on the interchange format with a four-digit year and `Z`, with or without milliseconds
   * (section 21.4.1.32 of ECMA-262). Other forms are no result here.
   */
  function DateParse(s: string): Option<int> {
    if !Shaped(s, 'T') || s[|s| - 1] != 'Z' then None
    else if |s| == 20 then InstantOf(Fields(s, 0))
    else if |s| == 24 && s[19] == '.' && DigitsAt(s, 20, 3) then InstantOf(Fields(s, NumberAt(s, 20, 3)))
    else None
  }

  /** The instant of the fields read; 24:00:00 is the end of its day. */
  function InstantOf(c: Civil): Option<int> {
    if Valid(c) then Some(Instant(c))
    else if TimeOfDay(c) == MS_PER_DAY && c.hour == 24 && Valid(c.(hour := 0)) then
      Some(Instant(c.(hour := 0)) + MS_PER_DAY)
    else None
  }

  /** The end of a day is the start of the next: both texts are read as one instant. */
  lemma EndOfDayIsNextMidnight(c: Civil, next: Civil)
    requires Valid(c) && Valid(next) && TimeOfDay(c) == 0 == TimeOfDay(next) && DayNumber(next) == DayNumber(c) + 1
    ensures InstantOf(c.(hour := 24)) == InstantOf(next)
  {
    assert c.(hour := 24).(hour := 0) == c;
  }

  /** Every `from` of a text replaced by `to`. */
  function Replace(s: string, from: char, to: char): (r: string)
    ensures |r| == |s| && forall i :: 0 <= i < |s| ==> r[i] == if s[i] == from then to else s[i]
  {
    seq(|s|, i requires 0 <= i < |s| => if s[i] == from then to else s[i])
  }

  /** `parseStoreTimestamp`; the legacy shape holds one space only, so the first is every one. */
  function ParseStoreTimestamp(s: string): Option<int> {
    if IsLegacyShape(s) then DateParse(Replace(s, ' ', 'T') + "Z") else DateParse(s)
  }

  lemma PadAt(s: string, i: nat, n: nat, w: nat)
    requires i + w <= |s| && s[i..i + w] == Pad(n, w) && n < Pow10(w)
    ensures DigitsAt(s, i, w) && NumberAt(s, i, w) == n
  {
    assert forall k :: i <= k < i + w ==> s[k] == s[i..i + w][k - i];
    NumberOfPad(n, w);
  }

  /** A text that spells a date and time of day is read as they are, whatever follows. */
  lemma SpelledIsRead(c: Civil, join: char, rest: string, s: string)
    requires Valid(c) && FourDigitYear(c)
    requires s == Pad(c.year, 4) + (Date(c) + ([join] + (Clock(c) + rest)))
    ensures |s| == 19 + |rest| && s[19..] == rest
    ensures Shaped(s, join)
    ensures Fields(s, c.milli) == c || c.milli < 0
  {
    Widths();
    assert s[0..4] == Pad(c.year, 4);
    assert s[5..7] == Pad(c.month, 2);
    assert s[8..10] == Pad(c.day, 2);
    assert s[11..13] == Pad(c.hour, 2);
    assert s[14..16] == Pad(c.minute, 2);
    assert s[17..19] == Pad(c.second, 2);
    PadAt(s, 0, c.year, 4);
    PadAt(s, 5, c.month, 2);
    PadAt(s, 8, c.day, 2);
    PadAt(s, 11, c.hour, 2);
    PadAt(s, 14, c.minute, 2);
    PadAt(s, 17, c.second, 2);
  }

  lemma IsoIsRead(c: Civil)
    requires Valid(c) && FourDigitYear(c)
    ensures |Iso(c)| == 24 && ParseStoreTimestamp(Iso(c)) == Some(Instant(c))
  {
    var rest := "." + (Pad(c.milli, 3) + "Z");
    SpelledIsRead(c, 'T', rest, Iso(c));
    Widths();
    assert Iso(c)[19..][0] == '.' && Iso(c)[19..][4] == 'Z';
    assert Iso(c)[20..23] == rest[1..4] == Pad(c.milli, 3);
    PadAt(Iso(c), 20, c.milli, 3);
  }

  lemma LegacyRewritten(c: Civil)
    requires Valid(c) && FourDigitYear(c)
    ensures Replace(Legacy(c), ' ', 'T') + "Z" == Pad(c.year, 4) + (Date(c) + ("T" + (Clock(c) + "Z")))
  {
  }

  lemma LegacyIsRead(c: Civil)
    requires Valid(c) && FourDigitYear(c) && c.milli == 0
    ensures IsLegacyShape(Legacy(c)) && ParseStoreTimestamp(Legacy(c)) == Some(Instant(c))
  {
    assert Legacy(c) == Pad(c.year, 4) + (Date(c) + (" " + (Clock(c) + "")));
    SpelledIsRead(c, ' ', "", Legacy(c));
    LegacyRewritten(c);
    SpelledIsRead(c, 'T', "Z", Replace(Legacy(c), ' ', 'T') + "Z");
  }

  /** A legacy stamp loses the milliseconds and nothing else. */
  lemma LegacyIsReadToTheSecond(c: Civil)
    requires Valid(c) && FourDigitYear(c)
    ensures ParseStoreTimestamp(Legacy(c.(milli := 0))) == Some(Instant(c) - c.milli)
  {
    LegacyIsRead(c.(milli := 0));
    WithoutMillis(c);
  }

  /** Every stamp the clock writes is read back as the very instant. */
  lemma StampsAreReadBack(t: int)
    requires InEra(t)
    ensures ParseStoreTimestamp(NowIso(t)) == Some(t)
  {
    IsoIsRead(CivilOf(t));
    ReadingKeepsTheInstant(t);
  }

  // ---- Nothing else is read --------------------------------------------------------------------------

  lemma {:induction false} PadOfNumber(s: string)
    requires forall i :: 0 <= i < |s| ==> Text.IsDigit(s[i])
    ensures Text.Number(s) < Pow10(|s|) && Pad(Text.Number(s), |s|) == s
  {
    if s != "" {
      var init, d := s[..|s| - 1], s[|s| - 1];
      PadOfNumber(init);
      assert Text.IsDigit(d) && Text.Number(s) == 10 * Text.Number(init) + (d - '0') as nat;
      assert Text.Number(s) / 10 == Text.Number(init) && Text.Number(s) % 10 == (d - '0') as nat;
      assert s == init + [d];
    }
  }

  lemma PadOfNumberAt(s: string, i: nat, w: nat)
    requires DigitsAt(s, i, w)
    ensures s[i..i + w] == Pad(NumberAt(s, i, w), w)
  {
    PadOfNumber(s[i..i + w]);
  }

  lemma SixParts(s: string, a: string, b: string, c: string, d: string, e: string, f: string, join: char)
    requires |s| >= 19 && s[0..4] == a && s[4] == '-' && s[5..7] == b && s[7] == '-' && s[8..10] == c
    requires s[10] == join && s[11..13] == d && s[13] == ':' && s[14..16] == e && s[16] == ':' && s[17..19] == f
    ensures s == a + (("-" + (b + ("-" + c))) + ([join] + ((d + (":" + (e + (":" + f)))) + s[19..])))
  {
  }

  /** A text of the shape spells the fields that are read from it. */
  lemma ShapedIsSpelled(s: string, join: char, milli: nat)
    requires |s| >= 19 && Shaped(s, join) && Valid(Fields(s, milli))
    ensures var c := Fields(s, milli);
            FourDigitYear(c) && s == Pad(c.year, 4) + (Date(c) + ([join] + (Clock(c) + s[19..])))
  {
    PadOfNumberAt(s, 0, 4);
    PadOfNumberAt(s, 5, 2);
    PadOfNumberAt(s, 8, 2);
    PadOfNumberAt(s, 11, 2);
    PadOfNumberAt(s, 14, 2);
    PadOfNumberAt(s, 17, 2);
    SixParts(s, s[0..4], s[5..7], s[8..10], s[11..13], s[14..16], s[17..19], join);
    FourDigits(s);
  }

  lemma FourDigits(s: string)
    requires |s| >= 4 && DigitsAt(s, 0, 4)
    ensures 0 <= NumberAt(s, 0, 4) <= 9999
  {
    PadOfNumber(s[0..4]);
    Widths();
  }

  /** The canonical text without milliseconds. */
  function IsoSeconds(c: Civil): string
    requires Valid(c)
  {
    YearText(c.year) + (Date(c) + ("T" + (Clock(c) + "Z")))
  }

  /** One of the three texts that stand for a calendar reading. */
  ghost predicate StandsFor(s: string, c: Civil) {
    && Valid(c) && FourDigitYear(c)
    && (s == Iso(c) || (c.milli == 0 && (s == IsoSeconds(c) || s == Legacy(c))))
  }

  lemma IsoSecondsIsRead(c: Civil)
    requires Valid(c) && FourDigitYear(c) && c.milli == 0
    ensures ParseStoreTimestamp(IsoSeconds(c)) == Some(Instant(c))
  {
    SpelledIsRead(c, 'T', "Z", IsoSeconds(c));
  }

  lemma LegacyStands(s: string)
    requires IsLegacyShape(s) && Valid(Fields(s, 0))
    ensures StandsFor(s, Fields(s, 0)) && s == Legacy(Fields(s, 0))
  {
    ShapedIsSpelled(s, ' ', 0);
    assert s[19..] == "";
    assert Clock(Fields(s, 0)) + "" == Clock(Fields(s, 0));
  }

  lemma CanonicalStands(s: string)
    requires |s| == 24 && Shaped(s, 'T') && s[19] == '.' && DigitsAt(s, 20, 3) && s[23] == 'Z'
    requires Valid(Fields(s, NumberAt(s, 20, 3)))
    ensures StandsFor(s, Fields(s, NumberAt(s, 20, 3)))
  {
    ShapedIsSpelled(s, 'T', NumberAt(s, 20, 3));
    PadOfNumberAt(s, 20, 3);
    assert s[19..] == "." + (s[20..23] + "Z");
  }

  lemma SecondsStand(s: string)
    requires |s| == 20 && Shaped(s, 'T') && s[19] == 'Z' && Valid(Fields(s, 0))
    ensures StandsFor(s, Fields(s, 0))
  {
    ShapedIsSpelled(s, 'T', 0);
    assert s[19..] == "Z";
  }

  lemma DateParseStands(s: string) returns (c: Civil)
    requires DateParse(s).Some? && s[11..13] != "24"
    ensures StandsFor(s, c) && DateParse(s) == Some(Instant(c))
  {
    HourIsNot24(s);
    if |s| == 20 {
      c := Fields(s, 0);
      SecondsStand(s);
    } else {
      c := Fields(s, NumberAt(s, 20, 3));
      CanonicalStands(s);
    }
  }

  lemma HourIsNot24(s: string)
    requires |s| >= 19 && DigitsAt(s, 11, 2) && s[11..13] != "24"
    ensures NumberAt(s, 11, 2) != 24
  {
    PadOfNumberAt(s, 11, 2);
    assert Pad(24, 2) == "24";
  }

  /**
   * A text is read, as an instant, only if it is one of the three that stand for a calendar reading of
   * it; the one exception are texts with the hour 24.
   */
  lemma OnlyTimestampsAreRead(s: string)
    requires ParseStoreTimestamp(s).Some? && s[11..13] != "24"
    ensures exists c :: StandsFor(s, c) && ParseStoreTimestamp(s) == Some(Instant(c))
  {
    if IsLegacyShape(s) {
      HourIsNot24(s);
      LegacyRead(s);
    } else {
      var c := DateParseStands(s);
    }
  }

  lemma LegacyRead(s: string)
    requires IsLegacyShape(s) && ParseStoreTimestamp(s).Some? && NumberAt(s, 11, 2) != 24
    ensures Valid(Fields(s, 0)) && StandsFor(s, Fields(s, 0))
    ensures ParseStoreTimestamp(s) == Some(Instant(Fields(s, 0)))
  {
    var t := Replace(s, ' ', 'T') + "Z";
    assert forall i :: 0 <= i < 19 && i != 10 ==> t[i] == s[i];
    assert t[0..4] == s[0..4] && t[5..7] == s[5..7] && t[8..10] == s[8..10];
    assert t[11..13] == s[11..13] && t[14..16] == s[14..16] && t[17..19] == s[17..19];
    assert Fields(t, 0) == Fields(s, 0);
    LegacyStands(s);
  }
}
