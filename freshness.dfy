/** How old the displayed data is: the ISO timestamp read back with `sscanf`,
    its age in whole minutes against the wall clock, and the label printed in
    the corner once the data is more than half an hour old. The wall clock and
    `mktime` are inputs. */
module Freshness {
  import opened Support

  /** The broken-down time handed to `mktime`. */
  datatype Tm = Tm(year: int, mon: int, mday: int, hour: int, min: int, sec: int, isdst: int)

  /** The six numbers of "YYYY-MM-DDTHH:MM:SS" as written. */
  datatype DateTime = DateTime(year: int, month: int, day: int, hour: int, minute: int, second: int)

  /** White space as `isspace` sees it in the C locale. */
  predicate IsSpace(c: char)
  {
    c == ' ' || c == '\t' || c == '\n' || c == '\U{000B}' || c == '\U{000C}' || c == '\r'
  }

  /** The input after the white space `%d` skips. */
  function SkipSpaces(s: string): (t: string)
    ensures |t| <= |s|
    ensures t == [] || !IsSpace(t[0])
  {
    if |s| > 0 && IsSpace(s[0]) then SkipSpaces(s[1..]) else s
  }

  /** The number of leading decimal digits. */
  function DigitRun(s: string): (n: nat)
    ensures n <= |s| && AllDigits(s[..n])
    ensures n == |s| || !IsDigit(s[n])
  {
    if |s| > 0 && IsDigit(s[0]) then
      var m := DigitRun(s[1..]);
      assert s[..m + 1] == [s[0]] + s[1..][..m];
      m + 1
    else 0
  }

  /** `%d`: skips white space, takes an optional sign and then as many digits
      as follow; fails when there is not at least one. Gives the value and the
      rest of the input. */
  function ScanInt(s: string): (r: Option<(int, string)>)
    ensures r.Some? ==> |r.value.1| < |s|
  {
    var t := SkipSpaces(s);
    if |t| > 0 && t[0] == '-' then
      match ScanDigits(t[1..])
      case None => None
      case Some(p) => var v: int := p.0; Some((-v, p.1))
    else if |t| > 0 && t[0] == '+' then
      match ScanDigits(t[1..])
      case None => None
      case Some(p) => Some((p.0 as int, p.1))
    else
      match ScanDigits(t)
      case None => None
      case Some(p) => Some((p.0 as int, p.1))
  }

  /** The unsigned part of `%d`: the value of the leading digits, if any, and
      the rest of the input. */
  function ScanDigits(u: string): (r: Option<(nat, string)>)
    ensures r.Some? ==> |r.value.1| < |u|
  {
    var n := DigitRun(u);
    if n == 0 then None else Some((DecimalValue(u[..n]), u[n..]))
  }

  /** A directive of a `sscanf` format: a `%d` conversion or a character that
      must come next. */
  datatype Directive = Number | Literal(c: char)

  /** "%d-%d-%dT%d:%d:%d" */
  const TimestampFormat: seq<Directive> :=
    [Number, Literal('-'), Number, Literal('-'), Number, Literal('T'),
     Number, Literal(':'), Number, Literal(':'), Number]

  function NumberCount(format: seq<Directive>): nat
  {
    if format == [] then 0 else (if format[0].Number? then 1 else 0) + NumberCount(format[1..])
  }

  /** `sscanf`, as far as the caller can tell whether every conversion
      happened: the converted values when every directive matched, `None` as
      soon as one did not. */
  function Scan(s: string, format: seq<Directive>): (r: Option<seq<int>>)
    ensures r.Some? ==> |r.value| == NumberCount(format)
    decreases format
  {
    if format == [] then Some([])
    else
      match format[0]
      case Number =>
        (match ScanInt(s)
         case None => None
         case Some(p) =>
           match Scan(p.1, format[1..])
           case None => None
           case Some(rest) => Some([p.0] + rest))
      case Literal(c) =>
        if |s| > 0 && s[0] == c then Scan(s[1..], format[1..]) else None
  }

  /** The six numbers of an ISO timestamp, when all six are there. */
  function ParseTimestamp(s: string): Option<DateTime>
  {
    assert NumberCount(TimestampFormat) == 6;
    match Scan(s, TimestampFormat)
    case None => None
    case Some(v) => Some(DateTime(v[0], v[1], v[2], v[3], v[4], v[5]))
  }

  /** The digit run of digits followed by a non-digit is those digits. */
  lemma {:induction false} DigitRunOf(d: string, rest: string)
    requires AllDigits(d)
    requires rest == [] || !IsDigit(rest[0])
    ensures DigitRun(d + rest) == |d|
  {
    if d == [] {
      assert d + rest == rest;
    } else {
      assert (d + rest)[1..] == d[1..] + rest;
      DigitRunOf(d[1..], rest);
    }
  }

  /** `%d` on digits followed by a non-digit reads exactly those digits. */
  lemma ScanIntOfDigits(d: string, rest: string)
    requires |d| >= 1 && AllDigits(d)
    requires rest == [] || !IsDigit(rest[0])
    ensures ScanInt(d + rest) == Some((DecimalValue(d) as int, rest))
  {
    var s := d + rest;
    assert s[0] == d[0] && IsDigit(s[0]);
    assert SkipSpaces(s) == s;
    DigitRunOf(d, rest);
    assert s[..|d|] == d && s[|d|..] == rest;
    assert ScanDigits(s) == Some((DecimalValue(d), rest));
  }

  /** The text "Y-M-DTh:m:s" of six fields. */
  function IsoText(year: string, month: string, day: string, hour: string, minute: string, second: string): string
  {
    year + ("-" + (month + ("-" + (day + ("T" + TimeText(hour, minute, second))))))
  }

  /** The "h:m:s" part of an ISO timestamp. */
  function TimeText(hour: string, minute: string, second: string): string
  {
    hour + (":" + (minute + (":" + second)))
  }

  /** Scanning past a literal that is there. */
  lemma ScanLiteral(c: char, rest: string, format: seq<Directive>, values: seq<int>)
    requires |format| > 0 && format[0] == Literal(c)
    requires Scan(rest, format[1..]) == Some(values)
    ensures Scan([c] + rest, format) == Some(values)
  {
    assert ([c] + rest)[1..] == rest;
  }

  /** Scanning a number that is there. */
  lemma ScanNumber(d: string, rest: string, format: seq<Directive>, values: seq<int>)
    requires |d| >= 1 && AllDigits(d)
    requires rest == [] || !IsDigit(rest[0])
    requires |format| > 0 && format[0] == Number
    requires Scan(rest, format[1..]) == Some(values)
    ensures Scan(d + rest, format) == Some([DecimalValue(d) as int] + values)
  {
    ScanIntOfDigits(d, rest);
  }

  /** The values of six digit strings, in the order of an ISO timestamp. */
  function DateTimeOf(year: string, month: string, day: string, hour: string, minute: string, second: string): DateTime
    requires AllDigits(year) && AllDigits(month) && AllDigits(day)
    requires AllDigits(hour) && AllDigits(minute) && AllDigits(second)
  {
    DateTime(DecimalValue(year), DecimalValue(month), DecimalValue(day),
             DecimalValue(hour), DecimalValue(minute), DecimalValue(second))
  }

  /** Scanning a number and the separator after it. */
  lemma ScanField(d: string, c: char, rest: string, format: seq<Directive>, values: seq<int>)
    requires |d| >= 1 && AllDigits(d) && !IsDigit(c)
    requires |format| > 1 && format[0] == Number && format[1] == Literal(c)
    requires Scan(rest, format[2..]) == Some(values)
    ensures Scan(d + ([c] + rest), format) == Some([DecimalValue(d) as int] + values)
  {
    assert format[1..][1..] == format[2..];
    ScanLiteral(c, rest, format[1..], values);
    ScanNumber(d, [c] + rest, format, values);
  }

  /** The last five directives of the timestamp format read "h:m:s". */
  lemma TimeTextScans(hour: string, minute: string, second: string)
    requires |hour| >= 1 && AllDigits(hour)
    requires |minute| >= 1 && AllDigits(minute) && |second| >= 1 && AllDigits(second)
    ensures Scan(TimeText(hour, minute, second), TimestampFormat[6..])
      == Some([DecimalValue(hour) as int] + ([DecimalValue(minute) as int] + ([DecimalValue(second) as int] + [])))
  {
    var f := TimestampFormat[6..];
    assert f == [Number, Literal(':'), Number, Literal(':'), Number];
    assert f[4..][1..] == [];
    ScanNumber(second, [], f[4..], []);
    assert second + [] == second;
    var v := [DecimalValue(second) as int] + [];
    assert f[2..][2..] == f[4..];
    ScanField(minute, ':', second, f[2..], v);
    assert f[2..] == f[2..];
    ScanField(hour, ':', minute + (":" + second), f, [DecimalValue(minute) as int] + v);
    assert TimeText(hour, minute, second) == hour + ([':'] + (minute + ([':'] + second)));
  }

  /** The timestamp format reads the whole ISO text. */
  lemma IsoTextScans(year: string, month: string, day: string, hour: string, minute: string, second: string)
    requires |year| >= 1 && AllDigits(year) && |month| >= 1 && AllDigits(month)
    requires |day| >= 1 && AllDigits(day) && |hour| >= 1 && AllDigits(hour)
    requires |minute| >= 1 && AllDigits(minute) && |second| >= 1 && AllDigits(second)
    ensures var v := Scan(IsoText(year, month, day, hour, minute, second), TimestampFormat);
      && v.Some? && |v.value| == 6
      && v.value[0] == DecimalValue(year) && v.value[1] == DecimalValue(month) && v.value[2] == DecimalValue(day)
      && v.value[3] == DecimalValue(hour) && v.value[4] == DecimalValue(minute) && v.value[5] == DecimalValue(second)
  {
    var f := TimestampFormat;
    var v := [DecimalValue(hour) as int] + ([DecimalValue(minute) as int] + ([DecimalValue(second) as int] + []));
    TimeTextScans(hour, minute, second);
    var t := TimeText(hour, minute, second);
    assert f[4..][2..] == f[6..];
    ScanField(day, 'T', t, f[4..], v);
    assert f[2..][2..] == f[4..];
    ScanField(month, '-', day + ("T" + t), f[2..], [DecimalValue(day) as int] + v);
    ScanField(year, '-', month + ("-" + (day + ("T" + t))), f, [DecimalValue(month) as int] + ([DecimalValue(day) as int] + v));
  }

  /** The ISO text of six digit strings parses back to their six values. */
  lemma IsoTimestampScans(year: string, month: string, day: string, hour: string, minute: string, second: string)
    requires |year| >= 1 && AllDigits(year) && |month| >= 1 && AllDigits(month)
    requires |day| >= 1 && AllDigits(day) && |hour| >= 1 && AllDigits(hour)
    requires |minute| >= 1 && AllDigits(minute) && |second| >= 1 && AllDigits(second)
    ensures ParseTimestamp(IsoText(year, month, day, hour, minute, second))
      == Some(DateTimeOf(year, month, day, hour, minute, second))
  {
    IsoTextScans(year, month, day, hour, minute, second);
  }

  /** A timestamp in ISO form reaches `mktime` as the fields it spells, with
      years counted from 1900, months from 0 and daylight saving left to
      `mktime`. */
  lemma IsoTimestampToEpoch(year: string, month: string, day: string, hour: string, minute: string, second: string, mktime: Tm -> int)
    requires |year| >= 1 && AllDigits(year) && |month| >= 1 && AllDigits(month)
    requires |day| >= 1 && AllDigits(day) && |hour| >= 1 && AllDigits(hour)
    requires |minute| >= 1 && AllDigits(minute) && |second| >= 1 && AllDigits(second)
    ensures TimestampToEpoch(IsoText(year, month, day, hour, minute, second), mktime)
      == mktime(BrokenDown(DateTimeOf(year, month, day, hour, minute, second)))
    ensures BrokenDown(DateTimeOf(year, month, day, hour, minute, second))
      == Tm(DecimalValue(year) - 1900, DecimalValue(month) - 1, DecimalValue(day),
            DecimalValue(hour), DecimalValue(minute), DecimalValue(second), -1)
  {
    IsoTextToEpoch(year, month, day, hour, minute, second, mktime);
  }

  /** The ISO text scans, so `mktime` gets its broken-down fields. */
  lemma IsoTextToEpoch(year: string, month: string, day: string, hour: string, minute: string, second: string, mktime: Tm -> int)
    requires |year| >= 1 && AllDigits(year) && |month| >= 1 && AllDigits(month)
    requires |day| >= 1 && AllDigits(day) && |hour| >= 1 && AllDigits(hour)
    requires |minute| >= 1 && AllDigits(minute) && |second| >= 1 && AllDigits(second)
    ensures TimestampToEpoch(IsoText(year, month, day, hour, minute, second), mktime)
      == mktime(BrokenDown(DateTimeOf(year, month, day, hour, minute, second)))
  {
    IsoTimestampScans(year, month, day, hour, minute, second);
    assert |IsoText(year, month, day, hour, minute, second)| > 0;
  }

  /** `parse_timestamp_to_epoch`: the empty string and text that does not
      scan give 0; otherwise `mktime` of the fields, with years counted from
      1900, months from 0 and daylight saving left to `mktime`. */
  function TimestampToEpoch(timestamp: string, mktime: Tm -> int): (epoch: int)
    ensures (|timestamp| == 0 || ParseTimestamp(timestamp).None?) ==> epoch == 0
  {
    if |timestamp| == 0 then 0
    else
      match ParseTimestamp(timestamp)
      case None => 0
      case Some(dt) => mktime(BrokenDown(dt))
  }

  /** The `struct tm` filled from scanned fields: years counted from 1900,
      months from 0, daylight saving left to `mktime`. */
  function BrokenDown(dt: DateTime): Tm
  {
    Tm(dt.year - 1900, dt.month - 1, dt.day, dt.hour, dt.minute, dt.second, -1)
  }

  /** Seconds elapsed, a span into the future counting as none. */
  function ElapsedSeconds(seconds: int): nat
  {
    if seconds < 0 then 0 else seconds
  }

  /** `get_data_age_minutes`: -1 exactly when the age cannot be told (no
      timestamp, a timestamp that does not parse, or a clock not yet set);
      otherwise the whole minutes elapsed, 0 for a timestamp in the future. */
  function DataAgeMinutes(timestamp: string, now: int, mktime: Tm -> int): (age: int)
    ensures age >= -1
    ensures age == -1 <==> |timestamp| == 0 || now == 0 || TimestampToEpoch(timestamp, mktime) == 0
    ensures age >= 0 ==>
      var elapsed := ElapsedSeconds(now - TimestampToEpoch(timestamp, mktime));
      60 * age <= elapsed < 60 * age + 60
  {
    if |timestamp| == 0 then -1
    else
      var dataTime := TimestampToEpoch(timestamp, mktime);
      if dataTime == 0 || now == 0 then -1
      else
        var ageSeconds := now - dataTime;
        if ageSeconds < 0 then 0 else CDiv(ageSeconds, 60)
  }

  /** Ages up to this many minutes show no label. */
  const FreshMinutes: int := 30

  /** The text `format_data_age` prints: nothing for an unknown or fresh age,
      "<m>m" under an hour, "<h>h <m>m" from an hour on. */
  function AgeLabel(age: int): (text: string)
    ensures text == "" <==> age <= FreshMinutes
    ensures age > FreshMinutes ==> text[|text| - 1] == 'm'
    ensures age > FreshMinutes ==> ('h' in text <==> age >= 60)
  {
    if age < 0 then ""
    else if age <= FreshMinutes then ""
    else
      // both operands are positive, so C's / and % agree with Dafny's here
      var hours := age / 60;
      var minutes := age % 60;
      if hours > 0 then NatToDecimal(hours) + "h " + NatToDecimal(minutes) + "m"
      else NatToDecimal(age) + "m"
  }

  /** The first position of `c` in `s`. */
  function IndexOf(s: string, c: char): (r: Option<nat>)
    ensures r.Some? ==> r.value < |s| && s[r.value] == c && forall i :: 0 <= i < r.value ==> s[i] != c
    ensures r.None? ==> forall i :: 0 <= i < |s| ==> s[i] != c
  {
    if s == [] then None
    else if s[0] == c then Some(0)
    else
      match IndexOf(s[1..], c)
      case None => None
      case Some(k) => Some(k + 1)
  }

  /** Reads an age label back into minutes. */
  function ParseAgeLabel(text: string): Option<int>
  {
    if |text| < 2 || text[|text| - 1] != 'm' then None
    else ParseAgeBody(text[..|text| - 1])
  }

  /** An age label without its final "m". */
  function ParseAgeBody(body: string): Option<int>
  {
    match IndexOf(body, 'h')
    case None => if AllDigits(body) then Some(DecimalValue(body)) else None
    case Some(k) => ParseHoursMinutes(body[..k], body[k + 1..])
  }

  /** The hours before the "h" and the " <m>" after it. */
  function ParseHoursMinutes(hours: string, rest: string): Option<int>
  {
    if 1 <= |hours| && AllDigits(hours) && 2 <= |rest| && rest[0] == ' ' && AllDigits(rest[1..])
    then Some(60 * DecimalValue(hours) + DecimalValue(rest[1..]))
    else None
  }

  /** In digits followed by a non-digit, that non-digit comes first. */
  lemma {:induction false} IndexAfterDigits(d: string, c: char, rest: string)
    requires AllDigits(d) && !IsDigit(c)
    ensures IndexOf(d + ([c] + rest), c) == Some(|d|)
  {
    if d != [] {
      assert (d + ([c] + rest))[1..] == d[1..] + ([c] + rest);
      IndexAfterDigits(d[1..], c, rest);
    }
  }

  /** The two numbers around the "h" are read as hours and minutes. */
  lemma HoursMinutesParse(h: string, m: string)
    requires |h| >= 1 && AllDigits(h) && |m| >= 1 && AllDigits(m)
    ensures ParseHoursMinutes(h, " " + m) == Some(60 * DecimalValue(h) + DecimalValue(m))
  {
    assert (" " + m)[1..] == m;
  }

  /** "<h>h <m>" splits at its "h". */
  lemma HoursBodyParses(h: string, m: string)
    requires |h| >= 1 && AllDigits(h) && |m| >= 1 && AllDigits(m)
    ensures ParseAgeBody(h + ("h" + (" " + m))) == Some(60 * DecimalValue(h) + DecimalValue(m))
  {
    var body := h + ("h" + (" " + m));
    assert body == h + (['h'] + (" " + m));
    IndexAfterDigits(h, 'h', " " + m);
    assert IndexOf(body, 'h') == Some(|h|);
    assert body[..|h|] == h;
    assert body[|h| + 1..] == " " + m;
    HoursMinutesParse(h, m);
    assert ParseAgeBody(body) == ParseHoursMinutes(h, " " + m);
  }

  /** "<h>h <m>m" of two digit strings reads back as h hours and m minutes. */
  lemma HoursTextParses(h: string, m: string)
    requires |h| >= 1 && AllDigits(h) && |m| >= 1 && AllDigits(m)
    ensures ParseAgeLabel(h + "h " + m + "m") == Some(60 * DecimalValue(h) + DecimalValue(m))
  {
    var text := h + "h " + m + "m";
    var body := h + ("h" + (" " + m));
    assert text == body + "m";
    assert text[..|text| - 1] == body;
    HoursBodyParses(h, m);
  }

  /** "<h>h <m>m" reads back as h hours and m minutes. */
  lemma HoursLabelRoundTrip(hours: nat, minutes: nat)
    ensures ParseAgeLabel(NatToDecimal(hours) + "h " + NatToDecimal(minutes) + "m") == Some(60 * hours + minutes)
  {
    HoursTextParses(NatToDecimal(hours), NatToDecimal(minutes));
    DecimalRoundTrip(hours);
    DecimalRoundTrip(minutes);
  }

  /** "<m>m" reads back as m minutes. */
  lemma MinutesLabelRoundTrip(minutes: nat)
    ensures ParseAgeLabel(NatToDecimal(minutes) + "m") == Some(minutes)
  {
    var d := NatToDecimal(minutes);
    var text := d + "m";
    assert text[..|text| - 1] == d;
    assert IndexOf(d, 'h').None?;
    DecimalRoundTrip(minutes);
  }

  /** Every label shown reads back as the age it was printed for: the hours
      and minutes of "<h>h <m>m" add up to the age. */
  lemma AgeLabelRoundTrip(age: int)
    requires age > FreshMinutes
    ensures ParseAgeLabel(AgeLabel(age)) == Some(age)
  {
    if age / 60 > 0 {
      HoursLabelRoundTrip(age / 60, age % 60);
    } else {
      MinutesLabelRoundTrip(age);
    }
  }

  /** Size of the buffer the label is printed into (`char age_str[16]`). */
  const AgeBufferSize: nat := 16

  /** For any 32-bit age the label fits in the 16-byte buffer, so `snprintf`
      never cuts it short. */
  lemma AgeLabelFits(age: Int32)
    ensures |AgeLabel(age)| < AgeBufferSize
    ensures Snprintf(AgeLabel(age), AgeBufferSize) == AgeLabel(age)
  {
    if age > FreshMinutes {
      var hours := age / 60;
      if hours > 0 {
        assert Pow10(8) == 100000000;
        DecimalLength(hours, 8);
        assert Pow10(2) == 100;
        DecimalLength(age % 60, 2);
      } else {
        assert Pow10(2) == 100;
        DecimalLength(age, 2);
      }
    }
  }

  /** `format_data_age` into a buffer of `outputSize` bytes: the label as
      `snprintf` leaves it, NUL-terminated, the bytes after the NUL untouched. */
  method FormatDataAge(ageMinutes: int, output: array<char>, outputSize: nat)
    requires 1 <= outputSize <= output.Length
    modifies output
    ensures var written := Snprintf(AgeLabel(ageMinutes), outputSize);
      && output[..|written|] == written
      && output[|written|] == '\0'
      && output[|written| + 1..] == old(output[|written| + 1..])
  {
    if ageMinutes < 0 {
      output[0] := '\0';
      return;
    }
    if ageMinutes <= FreshMinutes {
      output[0] := '\0';
      return;
    }
    var ageHours := ageMinutes / 60;
    var remainingMinutes := ageMinutes % 60;
    if ageHours > 0 {
      SnprintfInto(output, outputSize, NatToDecimal(ageHours) + "h " + NatToDecimal(remainingMinutes) + "m");
    } else {
      SnprintfInto(output, outputSize, NatToDecimal(ageMinutes) + "m");
    }
  }
}
