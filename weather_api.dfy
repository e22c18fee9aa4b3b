/** The worker's WeatherAPI.com provider, the side that prepares what the
    device fetches: the mapping from WeatherAPI condition codes to the
    device's condition names, the twelve-hour precipitation window taken from
    today's hourly forecast, and the `updated` timestamp assembled from the
    parts of a formatted date. The HTTP request, the JSON document as a whole,
    the float rounding of temperatures and UV and the time-zone formatting are
    not part of this model; the clock's hour and the formatted parts are
    inputs. */
module WeatherApi {
  import opened Support
  import opened WeatherIcons
  import opened WeatherFetch
  import opened Freshness

  /** WeatherAPI condition codes, list by list, as the provider tests them. */
  const SunnyCode: int := 1000
  const PartlyCloudyCode: int := 1003
  const CloudyCodes: set<int> := {1006, 1009}
  const FogCodes: set<int> := {1030, 1135, 1147}
  const RainCodes: set<int> :=
    {1063, 1150, 1153, 1168, 1171, 1180, 1183, 1186, 1189, 1192, 1195, 1198, 1201, 1240, 1243, 1246}
  const SnowCodes: set<int> :=
    {1066, 1069, 1072, 1114, 1117, 1204, 1207, 1210, 1213, 1216, 1219, 1222, 1225, 1237, 1249, 1252,
     1255, 1258, 1261, 1264}
  const ThunderCodes: set<int> := {1087, 1273, 1276, 1279, 1282}

  /** A code that none of the lists names. */
  predicate Unlisted(code: int)
  {
    code != SunnyCode && code !in CloudyCodes && code !in FogCodes
    && code !in RainCodes && code !in SnowCodes && code !in ThunderCodes
  }

  /** The condition a code stands for, read off the lists in the reverse of
      the provider's order: since no code is on two lists, the order of the
      tests does not matter. */
  function ConditionOf(code: int): WeatherIcon
  {
    if code in ThunderCodes then Thunderstorm
    else if code in SnowCodes then Snowy
    else if code in RainCodes then Rainy
    else if code in FogCodes then Fog
    else if code in CloudyCodes then Cloudy
    else if code == SunnyCode then Sunny
    else PartlyCloudy
  }

  /** `_mapConditionToIcon`: the name of a code's condition, partly cloudy for
      1003 and for every code that is on no list; the day flag plays no part. */
  function MapConditionToIcon(code: int, isDay: bool): (name: string)
    ensures name in IconNames
    ensures name == "partly_cloudy" <==> code == PartlyCloudyCode || Unlisted(code)
    ensures name == "sunny" <==> code == SunnyCode
  {
    if code == SunnyCode then "sunny"
    else if code == PartlyCloudyCode then "partly_cloudy"
    else if code in CloudyCodes then "cloudy"
    else if code in FogCodes then "fog"
    else if code in RainCodes then "rainy"
    else if code in SnowCodes then "snowy"
    else if code in ThunderCodes then "thunderstorm"
    else "partly_cloudy"
  }

  /** Whatever the code and the day flag, the device reads the name the
      worker sends as the code's condition: the name is one it recognises, so
      it never falls back to its default, and the day flag changes nothing. */
  lemma MappedConditionReachesDevice(code: int, isDay: bool)
    ensures ParseWeatherIcon(MapConditionToIcon(code, isDay)) == ConditionOf(code)
  {
    MappedName(code, isDay);
    ParseIconName(ConditionOf(code));
  }

  /** The provider sends each code under the device's name for the code's
      condition. */
  lemma MappedName(code: int, isDay: bool)
    ensures MapConditionToIcon(code, isDay) == IconName(ConditionOf(code))
  {
    if code in ThunderCodes {
      ThunderCodesUnlisted(code);
    } else if code in SnowCodes {
      SnowCodesUnlisted(code);
    } else if code in RainCodes {
      RainCodesUnlisted(code);
    }
  }

  /** The thunder codes are on no earlier list. */
  lemma ThunderCodesUnlisted(code: int)
    requires code in ThunderCodes
    ensures code != SunnyCode && code != PartlyCloudyCode && code !in CloudyCodes
    ensures code !in FogCodes && code !in RainCodes && code !in SnowCodes
  {
  }

  /** The snow codes are on no earlier list. */
  lemma SnowCodesUnlisted(code: int)
    requires code in SnowCodes
    ensures code != SunnyCode && code != PartlyCloudyCode && code !in CloudyCodes
    ensures code !in FogCodes && code !in RainCodes
  {
  }

  /** The rain codes are on no earlier list. */
  lemma RainCodesUnlisted(code: int)
    requires code in RainCodes
    ensures code != SunnyCode && code != PartlyCloudyCode && code !in CloudyCodes && code !in FogCodes
  {
  }

  /** One hour of today's forecast; `None` is a chance that is missing. */
  datatype HourForecast = HourForecast(chanceOfRain: Option<int>, chanceOfSnow: Option<int>)

  /** Entries of the window, and hours in the day's forecast. */
  const WindowHours: nat := 12
  const HoursPerDay: nat := 24

  /** `chance || 0`. */
  function OrZero(chance: Option<int>): int
  {
    match chance
    case Some(c) => c
    case None => 0
  }

  /** The precipitation chance of an hour: the larger of the rain and the
      snow chance, a missing one counting as 0. */
  function PrecipChance(hour: HourForecast): (p: int)
    ensures p >= OrZero(hour.chanceOfRain) && p >= OrZero(hour.chanceOfSnow)
    ensures p == OrZero(hour.chanceOfRain) || p == OrZero(hour.chanceOfSnow)
  {
    var rain := OrZero(hour.chanceOfRain);
    var snow := OrZero(hour.chanceOfSnow);
    if rain >= snow then rain else snow
  }

  /** The hour of today's forecast that entry i of the window reads. */
  function WindowIndex(currentHour: nat, i: nat): (k: nat)
    ensures k < HoursPerDay
  {
    (currentHour + i) % HoursPerDay
  }

  /** The forecast has every hour the window reads. */
  predicate WindowCovered(hourly: seq<HourForecast>, currentHour: nat)
  {
    forall i :: 0 <= i < WindowHours ==> WindowIndex(currentHour, i) < |hourly|
  }

  /** The precipitation loop of `transform`: twelve entries, entry i the
      chance of hour `(currentHour + i) % 24` of today's forecast. Reading an
      hour the forecast does not have makes `transform` throw, which is
      `None` here. */
  method PrecipitationWindow(hourly: seq<HourForecast>, currentHour: nat) returns (window: Option<seq<int>>)
    ensures window.Some? <==> WindowCovered(hourly, currentHour)
    ensures window.Some? ==> |window.value| == WindowHours
    ensures window.Some? ==>
      forall i :: 0 <= i < WindowHours ==> window.value[i] == PrecipChance(hourly[WindowIndex(currentHour, i)])
  {
    var precipitation := [];
    var i := 0;
    while i < WindowHours
      invariant 0 <= i <= WindowHours && |precipitation| == i
      invariant forall j :: 0 <= j < i ==> WindowIndex(currentHour, j) < |hourly|
      invariant forall j :: 0 <= j < i ==> precipitation[j] == PrecipChance(hourly[WindowIndex(currentHour, j)])
    {
      var hourIndex := (currentHour + i) % HoursPerDay;
      if hourIndex >= |hourly| {
        assert WindowIndex(currentHour, i) >= |hourly|;
        return None;
      }
      precipitation := precipitation + [PrecipChance(hourly[hourIndex])];
      i := i + 1;
    }
    window := Some(precipitation);
  }

  /** A whole day's forecast always covers the window, wherever the clock is. */
  lemma FullDayCoversWindow(hourly: seq<HourForecast>, currentHour: nat)
    requires |hourly| >= HoursPerDay
    ensures WindowCovered(hourly, currentHour)
  {
  }

  /** Entry i reads today's hour `currentHour + i` while that is still today,
      and hour `currentHour + i - 24` (earlier today) once it is past
      midnight. */
  lemma WindowWrapsWithinToday(currentHour: nat, i: nat)
    requires currentHour < HoursPerDay && i < WindowHours
    ensures currentHour + i < HoursPerDay ==> WindowIndex(currentHour, i) == currentHour + i
    ensures currentHour + i >= HoursPerDay ==> WindowIndex(currentHour, i) == currentHour + i - HoursPerDay
    ensures currentHour + i >= HoursPerDay ==> WindowIndex(currentHour, i) < currentHour
  {
  }

  /** At 20:00 entry 4 of the window reads midnight of the day that is
      ending, twenty hours in the past, not the midnight four hours ahead. */
  lemma LateWindowReadsPastHour(hourly: seq<HourForecast>)
    requires |hourly| == HoursPerDay
    ensures WindowIndex(20, 4) == 0
    ensures PrecipChance(hourly[WindowIndex(20, 4)]) == PrecipChance(hourly[0])
  {
  }

  /** The forecast for i hours after hour `currentHour` of the first
      forecast day, when the forecast reaches that far. */
  function HourAhead(days: seq<seq<HourForecast>>, currentHour: nat, i: nat): Option<HourForecast>
  {
    var d := (currentHour + i) / HoursPerDay;
    var h := (currentHour + i) % HoursPerDay;
    if d < |days| && h < |days[d]| then Some(days[d][h]) else None
  }

  /** The forecast reaches every hour of the next twelve. */
  predicate ReachesAhead(days: seq<seq<HourForecast>>, currentHour: nat)
  {
    forall i :: 0 <= i < WindowHours ==> HourAhead(days, currentHour, i).Some?
  }

  /** The window as its title promises it, "the next 12 hours": entry i is
      the chance of the hour i hours after the current one, read from the
      next day's forecast once midnight is passed (so it needs a forecast
      of two days from the evening on). */
  function NextHoursWindow(days: seq<seq<HourForecast>>, currentHour: nat): (window: Option<seq<int>>)
    ensures window.Some? <==> ReachesAhead(days, currentHour)
    ensures window.Some? ==> |window.value| == WindowHours
  {
    if ReachesAhead(days, currentHour) then
      Some(seq(WindowHours, i requires 0 <= i < WindowHours => PrecipChance(HourAhead(days, currentHour, i).value)))
    else None
  }

  /** Entry i of the corrected window is the forecast for i hours from now,
      and until midnight it agrees with the provider's window over today. */
  lemma NextHoursWindowFollowsClock(days: seq<seq<HourForecast>>, currentHour: nat, i: nat)
    requires ReachesAhead(days, currentHour) && i < WindowHours
    ensures HourAhead(days, currentHour, i).Some?
    ensures NextHoursWindow(days, currentHour).value[i] == PrecipChance(HourAhead(days, currentHour, i).value)
    ensures currentHour + i < HoursPerDay ==>
      |days| > 0 && WindowIndex(currentHour, i) < |days[0]|
      && NextHoursWindow(days, currentHour).value[i] == PrecipChance(days[0][WindowIndex(currentHour, i)])
  {
    assert HourAhead(days, currentHour, i).Some?;
  }

  /** One part of a formatted date: its type ("year", "month", ...) and its text. */
  datatype DatePart = DatePart(kind: string, value: string)

  /** `parts.find(p => p.type === kind)`: the first part of that type. */
  function FindPart(parts: seq<DatePart>, kind: string): (found: Option<nat>)
    ensures found.None? <==> forall i :: 0 <= i < |parts| ==> parts[i].kind != kind
    ensures found.Some? ==> found.value < |parts| && parts[found.value].kind == kind
    ensures found.Some? ==> forall j :: 0 <= j < found.value ==> parts[j].kind != kind
  {
    if |parts| == 0 then None
    else if parts[0].kind == kind then Some(0)
    else
      match FindPart(parts[1..], kind)
      case None => None
      case Some(i) => Some(i + 1)
  }

  /** The part types the timestamp is built from. */
  const DateKinds: set<string> := {"year", "month", "day", "hour", "minute", "second"}

  /** The `updated` string: "Y-M-DTh:m:s" from the six parts. */
  function UpdatedString(parts: seq<DatePart>): string
  {
    IsoText(PartValue(parts, "year"), PartValue(parts, "month"), PartValue(parts, "day"),
            PartValue(parts, "hour"), PartValue(parts, "minute"), PartValue(parts, "second"))
  }

  /** The date fields are written in digits. */
  predicate DigitParts(parts: seq<DatePart>)
  {
    forall i :: 0 <= i < |parts| && parts[i].kind in DateKinds ==> AllDigits(parts[i].value)
  }

  /** `get(kind)`: the text of the first part of that type, or "00" when
      there is none or its text is empty. */
  function PartValue(parts: seq<DatePart>, kind: string): (value: string)
    ensures |value| > 0
    ensures DigitParts(parts) && kind in DateKinds ==> AllDigits(value)
    ensures (forall i :: 0 <= i < |parts| ==> parts[i].kind != kind) ==> value == "00"
    ensures forall i :: 0 <= i < |parts| && parts[i].kind == kind && (forall j :: 0 <= j < i ==> parts[j].kind != kind) ==>
                value == (if parts[i].value != "" then parts[i].value else "00")
  {
    match FindPart(parts, kind)
    case Some(i) => if parts[i].value != "" then parts[i].value else "00"
    case None => "00"
  }

  lemma PartValueDigits(parts: seq<DatePart>, kind: string)
    requires DigitParts(parts) && kind in DateKinds
    ensures |PartValue(parts, kind)| > 0 && AllDigits(PartValue(parts, kind))
  {
  }

  /** When the date fields are digits, the `updated` string reads back, with
      the device's six-number timestamp format, as exactly the six values
      (a missing field as 0). */
  lemma UpdatedStringParses(parts: seq<DatePart>)
    requires DigitParts(parts)
    ensures ParseTimestamp(UpdatedString(parts)) == Some(DateTime(
      DecimalValue(PartValue(parts, "year")), DecimalValue(PartValue(parts, "month")),
      DecimalValue(PartValue(parts, "day")), DecimalValue(PartValue(parts, "hour")),
      DecimalValue(PartValue(parts, "minute")), DecimalValue(PartValue(parts, "second"))))
  {
    PartValueDigits(parts, "year");
    PartValueDigits(parts, "month");
    PartValueDigits(parts, "day");
    PartValueDigits(parts, "hour");
    PartValueDigits(parts, "minute");
    PartValueDigits(parts, "second");
    IsoTimestampScans(PartValue(parts, "year"), PartValue(parts, "month"), PartValue(parts, "day"),
                      PartValue(parts, "hour"), PartValue(parts, "minute"), PartValue(parts, "second"));
  }
}
