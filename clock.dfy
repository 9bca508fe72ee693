/**
 * Time-of-day values and the two time parsers of `scheduler/views.py`:
 * `parse_time` (used on schedule strings) and `parse_user_time` (used on
 * the query).  Both lower-case the token, drop its spaces and then run
 * `datetime.strptime` with one or two formats.
 *
 * A strptime numeric directive reads one or two ASCII digits whose value
 * lies in the directive's range (`%H` 0-23, `%I` 1-12, `%M` 0-59); `%p`
 * reads `am` or `pm`.  In every format used here a directive is followed
 * by a non-digit or by the end of the token, so the leftmost-longest
 * reading of the regular expression strptime builds is the maximal digit
 * run, and the whole token must be consumed.
 */
module Clock {

  import opened Outcomes
  import opened Text

  /** Seconds since midnight; `time(23, 59, 59)` is 86399. */
  type Time = t: nat | t < 86400

  const Midnight: Time := 0
  const LastSecond: Time := 86399

  /** The raised `ValueError`, carrying the normalised token. */
  datatype TimeError = InvalidTime(token: string)

  function HourMinute(h: nat, m: nat): (t: Time)
    requires h < 24 && m < 60
    ensures t % 60 == 0 && t / 3600 == h && (t % 3600) / 60 == m
  {
    h * 3600 + m * 60
  }

  predicate IsDigit(c: char) {
    '0' <= c <= '9'
  }

  function DigitValue(c: char): nat
    requires IsDigit(c)
  {
    c as int - '0' as int
  }

  /** Length of the leading run of ASCII digits. */
  function DigitRun(s: string): (n: nat)
    ensures n <= |s|
    ensures forall j :: 0 <= j < n ==> IsDigit(s[j])
    ensures n < |s| ==> !IsDigit(s[n])
  {
    if s == [] || !IsDigit(s[0]) then 0 else 1 + DigitRun(s[1..])
  }

  /** What one directive read: its value and the unread rest of the token. */
  datatype Reading = Reading(value: nat, rest: string)

  /** One numeric directive: one or two digits with a value in `[lo, hi]`. */
  function Field(s: string, lo: nat, hi: nat): (r: Option<Reading>)
    ensures r.Some? ==> lo <= r.value.value <= hi
    ensures r.Some? ==> 1 <= |s| - |r.value.rest| <= 2 && r.value.rest == s[|s| - |r.value.rest|..]
    ensures r.Some? ==> forall j :: 0 <= j < |s| - |r.value.rest| ==> IsDigit(s[j])
    ensures r.Some? ==> r.value.rest == [] || !IsDigit(r.value.rest[0])
  {
    var n := DigitRun(s);
    if n == 0 || n > 2 then None
    else
      var v := if n == 1 then DigitValue(s[0]) else 10 * DigitValue(s[0]) + DigitValue(s[1]);
      if lo <= v <= hi then Some(Reading(v, s[n..])) else None
  }

  /** `%p` as the last directive: the rest is exactly `am` (false) or `pm` (true). */
  function Meridiem(s: string): (r: Option<bool>)
    ensures r.Some? <==> s == "am" || s == "pm"
    ensures r.Some? ==> s == MeridiemText(r.value)
  {
    if s == "am" then Some(false) else if s == "pm" then Some(true) else None
  }

  /** The 24-hour clock hour of a 12-hour reading: 12am is 0, 12pm is 12. */
  function To24(h: nat, pm: bool): (r: nat)
    requires 1 <= h <= 12
    ensures r < 24
    ensures pm <==> r >= 12
    ensures r % 12 == h % 12
  {
    h % 12 + (if pm then 12 else 0)
  }

  /** `strptime(s, '%H')` */
  function FormatH(s: string): (r: Option<Time>)
    ensures r.Some? ==> ':' !in s && r.value % 3600 == 0
  {
    match Field(s, 0, 23)
    case Some(Reading(h, rest)) =>
      if rest == [] then Some(HourMinute(h, 0)) else None
    case None => None
  }

  /** `strptime(s, '%H:%M')` */
  function FormatHM(s: string): (r: Option<Time>)
    ensures r.Some? ==> ':' in s && r.value % 60 == 0
  {
    match Field(s, 0, 23)
    case Some(Reading(h, rest)) =>
      if rest != [] && rest[0] == ':' then
        assert rest[0] in s;
        match Field(rest[1..], 0, 59) {
          case Some(Reading(m, rest')) => if rest' == [] then Some(HourMinute(h, m)) else None
          case None => None
        }
      else None
    case None => None
  }

  /** `strptime(s, '%I%p')` */
  function FormatIp(s: string): (r: Option<Time>)
    ensures r.Some? ==> ':' !in s && r.value % 3600 == 0
  {
    match Field(s, 1, 12)
    case Some(Reading(h, rest)) =>
      match Meridiem(rest) {
        case Some(pm) => Some(HourMinute(To24(h, pm), 0))
        case None => None
      }
    case None => None
  }

  /** `strptime(s, '%I:%M%p')` */
  function FormatIMp(s: string): (r: Option<Time>)
    ensures r.Some? ==> ':' in s && r.value % 60 == 0
  {
    match Field(s, 1, 12)
    case Some(Reading(h, rest)) =>
      if rest != [] && rest[0] == ':' then
        assert rest[0] in s;
        match Field(rest[1..], 0, 59) {
          case Some(Reading(m, rest')) =>
            match Meridiem(rest') {
              case Some(pm) => Some(HourMinute(To24(h, pm), m))
              case None => None
            }
          case None => None
        }
      else None
    case None => None
  }

  /** `time_str.lower().replace(' ', '')`, the first step of both parsers. */
  function Normalize(token: string): (r: string)
    ensures ' ' !in r
    ensures forall i :: 0 <= i < |r| ==> !('A' <= r[i] <= 'Z')
  {
    var low := Lower(token);
    var r := RemoveSpaces(low);
    assert forall i :: 0 <= i < |r| ==> r[i] in low;
    r
  }

  /** `'am' in s or 'pm' in s` */
  predicate HasMeridiem(s: string) {
    Occurs(s, "am") || Occurs(s, "pm")
  }

  function Lift(t: Option<Time>, s: string): (r: Result<Time, TimeError>)
    ensures r.Ok? <==> t.Some?
    ensures r.Ok? ==> r.value == t.value
    ensures r.Err? ==> r.error == InvalidTime(s)
  {
    if t.Some? then Ok(t.value) else Err(InvalidTime(s))
  }

  /**
   * `parse_time`: with `am`/`pm` present, `%I%p` and then `%I:%M%p`;
   * otherwise `%H:%M`, and on failure `%H:%M` once more.
   */
  function ParseTime(token: string): (r: Result<Time, TimeError>)
    ensures r.Ok? ==> r.value % 60 == 0
  {
    var s := Normalize(token);
    if HasMeridiem(s) then
      var first := FormatIp(s);
      if first.Some? then Ok(first.value) else Lift(FormatIMp(s), s)
    else
      var first := FormatHM(s);
      if first.Some? then Ok(first.value) else Lift(FormatHM(s), s)
  }

  /**
   * `parse_user_time`: a colon selects the forms with minutes, `am`/`pm`
   * selects the 12-hour forms; a bare hour is read with `%H`.
   */
  function ParseUserTime(token: string): (r: Result<Time, TimeError>)
    ensures r.Ok? ==> r.value % 60 == 0
  {
    var s := Normalize(token);
    if ':' in s then
      if HasMeridiem(s) then Lift(FormatIMp(s), s) else Lift(FormatHM(s), s)
    else
      if HasMeridiem(s) then Lift(FormatIp(s), s) else Lift(FormatH(s), s)
  }

  // ---------------------------------------------------------------------
  // Properties of the two parsers

  /** Whenever `parse_time` accepts a token, `parse_user_time` reads the same time from it. */
  lemma ParseTimeAgreesWithUserTime(token: string)
    ensures ParseTime(token).Ok? ==> ParseUserTime(token) == ParseTime(token)
  {
  }

  /**
   * The two parsers differ on exactly one kind of token: a bare 24-hour
   * hour such as "21", which `parse_user_time` reads with `%H` and
   * `parse_time` rejects, because its fallback repeats `%H:%M`.
   */
  lemma OnlyUserTimeReadsBareHour(token: string)
    ensures ParseTime(token).Err? && ParseUserTime(token).Ok?
        <==> !HasMeridiem(Normalize(token)) && FormatH(Normalize(token)).Some?
  {
  }

  /** `parse_time` rejects every token with neither a colon nor am/pm, e.g. "21". */
  lemma ParseTimeNeedsColonOrMeridiem(token: string)
    requires ':' !in Normalize(token) && !HasMeridiem(Normalize(token))
    ensures ParseTime(token) == Err(InvalidTime(Normalize(token)))
  {
  }

  // ---------------------------------------------------------------------
  // Spellings of a time and the round trip through the parsers

  /** One or two ASCII digits, a spelling a numeric directive reads: "9", "09", "12". */
  predicate Numeral(d: string) {
    1 <= |d| <= 2 && forall j :: 0 <= j < |d| ==> IsDigit(d[j])
  }

  /** Value of a numeral, as a directive reads it. */
  function FieldValue(d: string): nat
    requires Numeral(d)
  {
    if |d| == 1 then DigitValue(d[0]) else 10 * DigitValue(d[0]) + DigitValue(d[1])
  }

  function MeridiemText(pm: bool): string {
    if pm then "pm" else "am"
  }

  /** Characters `Normalize` leaves alone: digits, colons and lower-case letters. */
  predicate Kept(s: string) {
    forall j :: 0 <= j < |s| ==> IsDigit(s[j]) || s[j] == ':' || 'a' <= s[j] <= 'z'
  }

  lemma {:induction false} OccursHead(s: string, t: string)
    requires t != [] && Occurs(s, t)
    ensures t[0] in s
  {
    if !(t <= s) {
      OccursHead(s[1..], t);
    }
  }

  lemma {:induction false} OccursAtEnd(a: string, t: string)
    ensures Occurs(a + t, t)
  {
    if a != [] {
      assert (a + t)[1..] == a[1..] + t;
      OccursAtEnd(a[1..], t);
    }
  }

  lemma {:induction false} NormalizeKeeps(s: string)
    requires Kept(s)
    ensures Normalize(s) == s
  {
    if s != [] {
      NormalizeKeeps(s[1..]);
      assert Lower(s) == [s[0]] + Lower(s[1..]);
    }
  }

  /** `'am' in s or 'pm' in s`: some 'a' or 'p' is directly followed by 'm'. */
  lemma HasMeridiemIff(s: string)
    ensures HasMeridiem(s) <==> exists i :: 0 <= i < |s| - 1 && (s[i] == 'a' || s[i] == 'p') && s[i + 1] == 'm'
  {
    OccursIff(s, "am");
    OccursIff(s, "pm");
    if HasMeridiem(s) {
      var i :| OccursAt(s, "am", i) || OccursAt(s, "pm", i);
      assert s[i..i + 2][0] == s[i] && s[i..i + 2][1] == s[i + 1];
    }
    if exists i :: 0 <= i < |s| - 1 && (s[i] == 'a' || s[i] == 'p') && s[i + 1] == 'm' {
      var i :| 0 <= i < |s| - 1 && (s[i] == 'a' || s[i] == 'p') && s[i + 1] == 'm';
      assert s[i..i + 2] == [s[i], 'm'];
      assert OccursAt(s, "am", i) || OccursAt(s, "pm", i);
    }
  }

  lemma NoLettersNoMeridiem(s: string)
    requires 'a' !in s && 'p' !in s
    ensures !HasMeridiem(s)
  {
    if Occurs(s, "am") { OccursHead(s, "am"); }
    if Occurs(s, "pm") { OccursHead(s, "pm"); }
  }

  /** `Normalize` is idempotent: its output is already lower case and free of spaces. */
  lemma NormalizeIdempotent(token: string)
    ensures Normalize(Normalize(token)) == Normalize(token)
  {
    var low := Lower(token);
    var n := RemoveSpaces(low);
    forall j | 0 <= j < |n| ensures LowerChar(n[j]) == n[j] {
      assert n[j] in low;
      var i :| 0 <= i < |low| && low[i] == n[j];
    }
    assert Lower(n) == n;
    RemoveSpacesFixed(n);
  }

  /**
   * Both parsers read only the lower-cased token with its spaces removed:
   * "9 AM", "9am" and " 9 am" are the same input to them.
   */
  lemma ParsersSeeNormalizedToken(token: string)
    ensures ParseTime(Normalize(token)) == ParseTime(token)
    ensures ParseUserTime(Normalize(token)) == ParseUserTime(token)
  {
    NormalizeIdempotent(token);
  }

  /** `Normalize` works piece by piece. */
  lemma NormalizeConcat(a: string, b: string)
    ensures Normalize(a + b) == Normalize(a) + Normalize(b)
  {
    LowerConcat(a, b);
    RemoveSpacesConcat(Lower(a), Lower(b));
  }

  /** A space anywhere in a token changes nothing: "9am ", " 5pm" and "9 am" read as "9am", "5pm", "9am". */
  lemma ParsersIgnoreSpace(a: string, b: string)
    ensures ParseTime(a + " " + b) == ParseTime(a + b)
    ensures ParseUserTime(a + " " + b) == ParseUserTime(a + b)
  {
    NormalizeConcat(a + " ", b);
    NormalizeConcat(a, " ");
    NormalizeConcat(a, b);
    assert Normalize(" ") == [] by {
      RemoveSpacesChar(' ');
    }
    assert Normalize(a) + [] == Normalize(a);
  }

  /** Upper case changes nothing: "9AM" reads as "9am". */
  lemma ParsersIgnoreCase(token: string)
    ensures ParseTime(Lower(token)) == ParseTime(token)
    ensures ParseUserTime(Lower(token)) == ParseUserTime(token)
  {
    LowerIdempotent(token);
    assert Normalize(Lower(token)) == Normalize(token);
  }

  lemma {:induction false} DigitRunOf(d: string, r: string)
    requires forall j :: 0 <= j < |d| ==> IsDigit(d[j])
    requires r == [] || !IsDigit(r[0])
    ensures DigitRun(d + r) == |d|
  {
    if d != [] {
      assert (d + r)[1..] == d[1..] + r;
      DigitRunOf(d[1..], r);
    }
  }

  /** A directive reads exactly the numeral in front of a non-digit, or rejects it when out of range. */
  lemma FieldOf(d: string, r: string, lo: nat, hi: nat)
    requires Numeral(d)
    requires r == [] || !IsDigit(r[0])
    ensures Field(d + r, lo, hi) == if lo <= FieldValue(d) <= hi then Some(Reading(FieldValue(d), r)) else None
  {
    DigitRunOf(d, r);
    assert (d + r)[|d|..] == r;
    assert (d + r)[0] == d[0];
    if |d| == 2 {
      assert (d + r)[1] == d[1];
    }
  }

  lemma FormatHMOf(hd: string, md: string)
    requires Numeral(hd) && Numeral(md) && FieldValue(hd) < 24 && FieldValue(md) < 60
    ensures FormatHM(hd + ":" + md) == Some(HourMinute(FieldValue(hd), FieldValue(md)))
  {
    FieldOf(hd, ":" + md, 0, 23);
    assert hd + ":" + md == hd + (":" + md);
    FieldOf(md, [], 0, 59);
    assert (":" + md)[1..] == md + [];
  }

  lemma FormatIMpOf(hd: string, md: string, pm: bool)
    requires Numeral(hd) && Numeral(md) && 1 <= FieldValue(hd) <= 12 && FieldValue(md) < 60
    ensures FormatIMp(hd + ":" + md + MeridiemText(pm)) == Some(HourMinute(To24(FieldValue(hd), pm), FieldValue(md)))
  {
    var mer := MeridiemText(pm);
    var tail := [':'] + (md + mer);
    var s := hd + tail;
    assert hd + ":" + md + mer == s;
    FieldOf(hd, tail, 1, 12);
    FieldOf(md, mer, 0, 59);
    assert tail[1..] == md + mer;
    FormatIMpRead(s, tail, FieldValue(hd), FieldValue(md), pm);
  }

  /** `%I:%M%p` once its three directives have read their parts. */
  lemma FormatIMpRead(s: string, tail: string, h: nat, m: nat, pm: bool)
    requires 1 <= h <= 12 && m < 60
    requires Field(s, 1, 12) == Some(Reading(h, tail)) && tail != [] && tail[0] == ':'
    requires Field(tail[1..], 0, 59) == Some(Reading(m, MeridiemText(pm)))
    ensures FormatIMp(s) == Some(HourMinute(To24(h, pm), m))
  {
  }

  lemma FormatIpOf(hd: string, pm: bool)
    requires Numeral(hd) && 1 <= FieldValue(hd) <= 12
    ensures FormatIp(hd + MeridiemText(pm)) == Some(HourMinute(To24(FieldValue(hd), pm), 0))
  {
    FieldOf(hd, MeridiemText(pm), 1, 12);
  }

  lemma FormatHOf(hd: string)
    requires Numeral(hd) && FieldValue(hd) < 24
    ensures FormatH(hd) == Some(HourMinute(FieldValue(hd), 0))
  {
    FieldOf(hd, [], 0, 23);
    assert hd + [] == hd;
  }

  /**
   * "H:M" with any one- or two-digit fields ("14:00", "9:30", "09:5")
   * reads back as the time it spells.
   */
  lemma RoundTrip24(hd: string, md: string)
    requires Numeral(hd) && Numeral(md) && FieldValue(hd) < 24 && FieldValue(md) < 60
    ensures ParseTime(hd + ":" + md) == Ok(HourMinute(FieldValue(hd), FieldValue(md)))
    ensures ParseUserTime(hd + ":" + md) == Ok(HourMinute(FieldValue(hd), FieldValue(md)))
  {
    FormatHMOf(hd, md);
    ClockToken(hd, md);
  }

  /**
   * An "H:M" spelling is its own normal form, and both parsers read it
   * with `%H:%M` alone.
   */
  lemma ClockToken(hd: string, md: string)
    requires Numeral(hd) && Numeral(md)
    ensures var s := hd + ":" + md;
      ParseTime(s) == Lift(FormatHM(s), s) && ParseUserTime(s) == Lift(FormatHM(s), s)
  {
    var s := hd + ":" + md;
    assert Normalize(s) == s && !HasMeridiem(s) && ':' in s by {
      assert Kept(s);
      NormalizeKeeps(s);
      assert 'a' !in s && 'p' !in s;
      NoLettersNoMeridiem(s);
      assert s[|hd|] == ':';
    }
  }

  /**
   * "H:Mam" / "H:Mpm" with any one- or two-digit fields ("5:30pm",
   * "09:30pm", "5:7pm") reads back as the 24-hour time it spells.
   */
  lemma RoundTrip12Minutes(hd: string, md: string, pm: bool)
    requires Numeral(hd) && Numeral(md) && 1 <= FieldValue(hd) <= 12 && FieldValue(md) < 60
    ensures ParseTime(hd + ":" + md + MeridiemText(pm)) == Ok(HourMinute(To24(FieldValue(hd), pm), FieldValue(md)))
    ensures ParseUserTime(hd + ":" + md + MeridiemText(pm)) == Ok(HourMinute(To24(FieldValue(hd), pm), FieldValue(md)))
  {
    var s := hd + ":" + md + MeridiemText(pm);
    assert Kept(s);
    NormalizeKeeps(s);
    OccursAtEnd(hd + ":" + md, MeridiemText(pm));
    FormatIMpOf(hd, md, pm);
    assert s[|hd|] == ':';
  }

  /** "Ham" / "Hpm" with a one- or two-digit hour ("9am", "09am") reads back as the whole hour it spells. */
  lemma RoundTrip12Hour(hd: string, pm: bool)
    requires Numeral(hd) && 1 <= FieldValue(hd) <= 12
    ensures ParseTime(hd + MeridiemText(pm)) == Ok(HourMinute(To24(FieldValue(hd), pm), 0))
    ensures ParseUserTime(hd + MeridiemText(pm)) == Ok(HourMinute(To24(FieldValue(hd), pm), 0))
  {
    var s := hd + MeridiemText(pm);
    assert Kept(s);
    NormalizeKeeps(s);
    OccursAtEnd(hd, MeridiemText(pm));
    FormatIpOf(hd, pm);
  }

  /** A bare hour "H" or "HH" ("9", "09", "21") is a time for `parse_user_time` and an error for `parse_time`. */
  lemma BareHour(hd: string)
    requires Numeral(hd) && FieldValue(hd) < 24
    ensures ParseUserTime(hd) == Ok(HourMinute(FieldValue(hd), 0))
    ensures ParseTime(hd).Err?
  {
    assert Kept(hd);
    NormalizeKeeps(hd);
    assert 'a' !in hd && 'p' !in hd;
    NoLettersNoMeridiem(hd);
    FormatHOf(hd);
  }

  // ---------------------------------------------------------------------
  // The values the repository's tests pin down

  function DigitChar(d: nat): (c: char)
    requires d < 10
    ensures IsDigit(c) && DigitValue(c) == d
  {
    ('0' as int + d) as char
  }

  /** `n` written with two digits ("07"). */
  function TwoDigits(n: nat): (s: string)
    requires n < 100
  {
    [DigitChar(n / 10), DigitChar(n % 10)]
  }

  /** `n` written without a leading zero ("7", "12"). */
  function Digits(n: nat): (s: string)
    requires n < 100
  {
    if n < 10 then [DigitChar(n)] else TwoDigits(n)
  }

  lemma DigitsShape(n: nat)
    requires n < 100
    ensures Numeral(Digits(n)) && FieldValue(Digits(n)) == n
    ensures Numeral(TwoDigits(n)) && FieldValue(TwoDigits(n)) == n
  {
  }

  lemma ParseTimeNineAm()
    ensures ParseTime("9am") == Ok(9 * 3600) && ParseUserTime("9am") == Ok(9 * 3600)
  {
    assert "9am" == Digits(9) + MeridiemText(false);
    DigitsShape(9);
    RoundTrip12Hour(Digits(9), false);
  }

  lemma ParseTimeHalfPastFivePm()
    ensures ParseTime("5:30pm") == Ok(17 * 3600 + 30 * 60)
    ensures ParseUserTime("5:30pm") == Ok(17 * 3600 + 30 * 60)
  {
    assert "5:30pm" == Digits(5) + ":" + TwoDigits(30) + MeridiemText(true);
    DigitsShape(5);
    DigitsShape(30);
    RoundTrip12Minutes(Digits(5), TwoDigits(30), true);
  }

  lemma ParseTimeFourteenHundred()
    ensures ParseTime("14:00") == Ok(14 * 3600) && ParseUserTime("14:00") == Ok(14 * 3600)
  {
    assert "14:00" == TwoDigits(14) + ":" + TwoDigits(0);
    DigitsShape(14);
    DigitsShape(0);
    RoundTrip24(TwoDigits(14), TwoDigits(0));
  }

  lemma ParseTimeTwelveAm()
    ensures ParseTime("12am") == Ok(0)
  {
    assert "12am" == Digits(12) + MeridiemText(false) by {
      assert Digits(12) == "12" && MeridiemText(false) == "am";
    }
    DigitsShape(12);
    assert HourMinute(To24(12, false), 0) == 0;
    RoundTrip12Hour(Digits(12), false);
  }

  lemma ParseTimeTwelvePm()
    ensures ParseTime("12pm") == Ok(12 * 3600)
  {
    assert "12pm" == Digits(12) + MeridiemText(true) by {
      assert Digits(12) == "12" && MeridiemText(true) == "pm";
    }
    DigitsShape(12);
    assert HourMinute(To24(12, true), 0) == 12 * 3600;
    RoundTrip12Hour(Digits(12), true);
  }

  lemma ParseTimeTwentyOne()
    ensures ParseTime("21").Err? && ParseUserTime("21") == Ok(21 * 3600)
  {
    assert "21" == Digits(21);
    DigitsShape(21);
    BareHour(Digits(21));
  }

  /** The pieces the tests' "9am - 5pm" splits into on '-' keep their spaces and still read. */
  lemma ParseTimeSpacedPieces()
    ensures ParseTime("9am ") == Ok(9 * 3600)
    ensures ParseTime(" 5pm") == Ok(17 * 3600)
  {
    assert "9am " == "9am" + " " + [] && "9am" + [] == "9am";
    assert " 5pm" == [] + " " + "5pm" && [] + "5pm" == "5pm";
    ParseTimeNineAm();
    ParsersIgnoreSpace("9am", []);
    ParseTimeFivePm();
    ParsersIgnoreSpace([], "5pm");
  }

  lemma ParseTimeFivePm()
    ensures ParseTime("5pm") == Ok(17 * 3600)
  {
    assert "5pm" == Digits(5) + MeridiemText(true);
    DigitsShape(5);
    RoundTrip12Hour(Digits(5), true);
  }

  /** "9 AM" is read as "9am". */
  lemma ParseTimeSpacedUpperCase()
    ensures ParseTime("9 AM") == Ok(9 * 3600) && ParseUserTime("9 AM") == Ok(9 * 3600)
  {
    assert "9 AM" == "9" + " " + "AM" && "9" + "AM" == "9AM";
    ParseTimeUpperCase();
    ParsersIgnoreSpace("9", "AM");
  }

  lemma ParseTimeUpperCase()
    ensures ParseTime("9AM") == Ok(9 * 3600) && ParseUserTime("9AM") == Ok(9 * 3600)
  {
    ParseTimeNineAm();
    ParsersIgnoreCase("9AM");
    assert Lower("9AM") == "9am";
  }

  /** A leading zero on the hour is read as strptime reads it: "09am" is 09:00, "09:30pm" is 21:30. */
  lemma ParseTimeLeadingZero()
    ensures ParseTime("09am") == Ok(9 * 3600)
    ensures ParseTime("09:30pm") == Ok(21 * 3600 + 30 * 60)
  {
    assert "09am" == TwoDigits(9) + MeridiemText(false);
    assert "09:30pm" == TwoDigits(9) + ":" + TwoDigits(30) + MeridiemText(true);
    DigitsShape(9);
    DigitsShape(30);
    RoundTrip12Hour(TwoDigits(9), false);
    RoundTrip12Minutes(TwoDigits(9), TwoDigits(30), true);
  }

  /** `parse_user_time("09")` is 09:00. */
  lemma BareHourLeadingZero()
    ensures ParseUserTime("09") == Ok(9 * 3600)
  {
    assert "09" == TwoDigits(9);
    DigitsShape(9);
    BareHour(TwoDigits(9));
  }

  /** So is a one-digit minute: "9:5" is 09:05. */
  lemma ParseTimeOneDigitMinute()
    ensures ParseTime("9:5") == Ok(9 * 3600 + 5 * 60)
  {
    assert "9:5" == Digits(9) + ":" + Digits(5);
    DigitsShape(9);
    DigitsShape(5);
    RoundTrip24(Digits(9), Digits(5));
  }

  /** An hour above 23 in "H:M" is rejected ("25:00"). */
  lemma RejectsHourOutOfRange(hd: string, md: string)
    requires Numeral(hd) && Numeral(md) && FieldValue(hd) >= 24
    ensures ParseTime(hd + ":" + md).Err?
    ensures ParseUserTime(hd + ":" + md).Err?
  {
    var s := hd + ":" + md;
    assert FormatHM(s).None? by {
      FieldOf(hd, ":" + md, 0, 23);
      assert s == hd + (":" + md);
    }
    ClockTokenRejected(hd, md);
  }

  /** A minute above 59 is rejected ("13:60"). */
  lemma RejectsMinuteOutOfRange(hd: string, md: string)
    requires Numeral(hd) && Numeral(md) && FieldValue(hd) < 24 && FieldValue(md) >= 60
    ensures ParseTime(hd + ":" + md).Err?
    ensures ParseUserTime(hd + ":" + md).Err?
  {
    var s := hd + ":" + md;
    assert FormatHM(s).None? by {
      var tail := [':'] + (md + []);
      assert s == hd + tail;
      FieldOf(hd, tail, 0, 23);
      assert tail[1..] == md + [];
      FieldOf(md, [], 0, 59);
    }
    ClockTokenRejected(hd, md);
  }

  /** An "H:M" spelling that `%H:%M` does not read is rejected by both parsers. */
  lemma ClockTokenRejected(hd: string, md: string)
    requires Numeral(hd) && Numeral(md)
    requires FormatHM(hd + ":" + md).None?
    ensures ParseTime(hd + ":" + md).Err?
    ensures ParseUserTime(hd + ":" + md).Err?
  {
    ClockToken(hd, md);
  }

  /** The empty token is rejected. */
  lemma RejectsEmpty()
    ensures ParseTime([]).Err? && ParseUserTime([]).Err?
  {
    assert Normalize([]) == [];
    NoLettersNoMeridiem([]);
  }
}
