/** The device side of acquisition: the `WeatherData` snapshot, the mapping
    from condition names to icons, and what `fetchWeatherData` writes into the
    snapshot from the parsed JSON document over at most three HTTP attempts.
    The network and the JSON parser are inputs: a response per attempt number,
    and a document whose fields are present or missing. */
module WeatherFetch {
  import opened Support
  import opened WeatherIcons

  /** Entries of the precipitation series (`int precipitation[12]`). */
  const PrecipHours: nat := 12
  /** Bytes of the `updated` field (`char updated[32]`), NUL included. */
  const UpdatedCapacity: nat := 32
  /** HTTP attempts per fetch. */
  const MaxRetries: nat := 3
  const HttpCodeOk: int := 200

  type Precipitation = s: seq<int> | |s| == PrecipHours witness [0, 0, 0, 0, 0, 0, 0, 0, 0, 0, 0, 0]

  /** The text of the `updated` field: it always ends within its 32 bytes. */
  type UpdatedText = s: string | |s| < UpdatedCapacity

  /** One weather snapshot. */
  datatype WeatherData = WeatherData(
    tempCurrent: int,
    tempHigh: int,
    tempLow: int,
    weather: WeatherIcon,
    precipitation: Precipitation,
    uvCurrent: int,
    uvHigh: int,
    updated: UpdatedText,
    valid: bool)

  /** The zero-initialised global snapshot before the first fetch. */
  const ZeroWeather: WeatherData :=
    WeatherData(0, 0, 0, Sunny, [0, 0, 0, 0, 0, 0, 0, 0, 0, 0, 0, 0], 0, 0, "", false)

  /** The condition names the device recognises. */
  const IconNames: set<string> := {"sunny", "cloudy", "partly_cloudy", "rainy", "snowy", "thunderstorm", "fog"}

  /** The name each condition is sent under. */
  function IconName(icon: WeatherIcon): (name: string)
    ensures name in IconNames
  {
    match icon
    case Sunny => "sunny"
    case Cloudy => "cloudy"
    case PartlyCloudy => "partly_cloudy"
    case Rainy => "rainy"
    case Snowy => "snowy"
    case Thunderstorm => "thunderstorm"
    case Fog => "fog"
  }

  /** `parseWeatherIcon`: a recognised name gives the condition of that name,
      anything else gives partly cloudy. */
  function ParseWeatherIcon(s: string): (icon: WeatherIcon)
    ensures s in IconNames ==> IconName(icon) == s
    ensures s !in IconNames ==> icon == PartlyCloudy
  {
    if s == "sunny" then Sunny
    else if s == "cloudy" then Cloudy
    else if s == "partly_cloudy" then PartlyCloudy
    else if s == "rainy" then Rainy
    else if s == "snowy" then Snowy
    else if s == "thunderstorm" then Thunderstorm
    else if s == "fog" then Fog
    else PartlyCloudy
  }

  /** Every condition survives being named and parsed back. */
  lemma ParseIconName(icon: WeatherIcon)
    ensures ParseWeatherIcon(IconName(icon)) == icon
  {
  }

  /** The parts of the JSON document the device reads; `None` is a missing
      field (or one of another JSON type). A missing or non-array
      `precipitation` reads as an empty array. */
  datatype JsonDoc = JsonDoc(
    temperatureCurrent: Option<int>,
    temperatureHigh: Option<int>,
    temperatureLow: Option<int>,
    weather: Option<string>,
    precipitation: seq<int>,
    uvCurrent: Option<int>,
    uvHigh: Option<int>,
    updated: Option<string>)

  /** One HTTP attempt: the status code and, for a 200, the body as parsed
      (`None` when deserialisation failed). */
  datatype Response = Response(httpCode: int, body: Option<JsonDoc>)

  /** `doc[...] | fallback`. */
  function OrElse<T>(o: Option<T>, fallback: T): T
  {
    match o
    case Some(v) => v
    case None => fallback
  }

  /** `strncpy(updated, s, 31)` followed by a NUL in the last byte: the first
      31 characters at most. */
  function TruncatedUpdated(s: string): (u: UpdatedText)
    ensures u <= s
    ensures |s| < UpdatedCapacity ==> u == s
    ensures |s| >= UpdatedCapacity ==> |u| == UpdatedCapacity - 1
  {
    if |s| < UpdatedCapacity then s else s[..UpdatedCapacity - 1]
  }

  /** Entry i of the padded series: the array element when there is one, else 0. */
  function PaddedEntry(values: seq<int>, i: nat): int
  {
    if i < |values| then values[i] else 0
  }

  /** The snapshot written from a parsed document. */
  function Extracted(doc: JsonDoc): (data: WeatherData)
    ensures data.valid
    ensures doc.temperatureCurrent.None? ==> data.tempCurrent == 0
    ensures doc.temperatureHigh.None? ==> data.tempHigh == 0
    ensures doc.temperatureLow.None? ==> data.tempLow == 0
    ensures doc.uvCurrent.None? ==> data.uvCurrent == 0
    ensures doc.uvHigh.None? ==> data.uvHigh == 0
    ensures doc.weather.None? ==> data.weather == PartlyCloudy
    ensures doc.updated.None? ==> data.updated == ""
    ensures forall i :: 0 <= i < PrecipHours ==> data.precipitation[i] == PaddedEntry(doc.precipitation, i)
  {
    WeatherData(
      OrElse(doc.temperatureCurrent, 0),
      OrElse(doc.temperatureHigh, 0),
      OrElse(doc.temperatureLow, 0),
      ParseWeatherIcon(OrElse(doc.weather, "partly_cloudy")),
      seq(PrecipHours, i requires 0 <= i < PrecipHours => PaddedEntry(doc.precipitation, i)),
      OrElse(doc.uvCurrent, 0),
      OrElse(doc.uvHigh, 0),
      TruncatedUpdated(OrElse(doc.updated, "")),
      true)
  }

  /** The precipitation loop: exactly twelve entries, the JSON array's
      elements first and zeros after them. */
  method PadPrecipitation(values: seq<int>) returns (precipitation: Precipitation)
    ensures forall i :: 0 <= i < PrecipHours ==>
      precipitation[i] == (if i < |values| then values[i] else 0)
  {
    var filled: seq<int> := [];
    var i := 0;
    while i < PrecipHours
      invariant 0 <= i <= PrecipHours && |filled| == i
      invariant forall j :: 0 <= j < i ==> filled[j] == (if j < |values| then values[j] else 0)
    {
      filled := filled + [if i < |values| then values[i] else 0];
      i := i + 1;
    }
    precipitation := filled;
  }

  /** The first attempt, from `attempt` up to the last, that gets a 200 with
      a body that parses, and that body. */
  function FirstParsed(network: nat -> Response, attempt: nat): (hit: Option<(nat, JsonDoc)>)
    ensures hit.Some? ==> attempt <= hit.value.0 <= MaxRetries
    decreases MaxRetries + 1 - attempt
  {
    if attempt > MaxRetries then None
    else
      var response := network(attempt);
      if response.httpCode == HttpCodeOk && response.body.Some? then Some((attempt, response.body.value))
      else FirstParsed(network, attempt + 1)
  }

  /** `fetchWeatherData`: `network(a)` is the outcome of attempt a. The
      snapshot is marked invalid on entry and becomes valid only once every
      field has been written; on failure its other fields keep whatever they
      held. `attempts` counts the HTTP requests made. */
  method FetchWeatherData(network: nat -> Response, data: WeatherData)
    returns (ok: bool, result: WeatherData, attempts: nat)
    ensures result.valid == ok
    ensures 1 <= attempts <= MaxRetries
    ensures match FirstParsed(network, 1)
      case Some(hit) => ok && attempts == hit.0 && result == Extracted(hit.1)
      case None => !ok && attempts == MaxRetries && result == data.(valid := false)
  {
    result := data.(valid := false);
    attempts := 0;
    var attempt := 1;
    while attempt <= MaxRetries
      invariant 1 <= attempt <= MaxRetries + 1 && attempts == attempt - 1
      invariant result == data.(valid := false)
      invariant FirstParsed(network, attempt) == FirstParsed(network, 1)
    {
      attempts := attempt;
      var response := network(attempt);
      if response.httpCode == HttpCodeOk {
        if response.body.None? {
          if attempt < MaxRetries {
            attempt := attempt + 1;
            continue;
          }
          return false, result, attempts;
        }
        var doc := response.body.value;
        var precipitation := PadPrecipitation(doc.precipitation);
        result := result.(
          tempCurrent := OrElse(doc.temperatureCurrent, 0),
          tempHigh := OrElse(doc.temperatureHigh, 0),
          tempLow := OrElse(doc.temperatureLow, 0),
          weather := ParseWeatherIcon(OrElse(doc.weather, "partly_cloudy")),
          precipitation := precipitation,
          uvCurrent := OrElse(doc.uvCurrent, 0),
          uvHigh := OrElse(doc.uvHigh, 0),
          updated := TruncatedUpdated(OrElse(doc.updated, "")));
        result := result.(valid := true);
        assert result.precipitation == Extracted(doc).precipitation;
        return true, result, attempts;
      }
      attempt := attempt + 1;
    }
    ok := false;
  }
}
