/** How the three programs meet: the icon converter produces the arrays the
    display code links against, and the worker writes the fields the device
    reads back into its snapshot. */
module Pipeline {
  import opened Support
  import opened WeatherIcons
  import opened WeatherFetch
  import opened Freshness
  import opened ConvertIcons
  import opened WeatherApi

  /** The image file each condition's bitmap is converted from. */
  function StemOf(icon: WeatherIcon): string
  {
    match icon
    case Sunny => "sun"
    case Cloudy => "cloud"
    case PartlyCloudy => "partly"
    case Rainy => "rainy"
    case Snowy => "snowflake"
    case Thunderstorm => "lighting"
    case Fog => "fog"
  }

  /** Every condition's image is among those the converter is run on. */
  lemma StemConverted(icon: WeatherIcon)
    ensures StemOf(icon) in ConvertedStems
  {
    match icon
    case Sunny => assert ConvertedStems[0] == "sun";
    case Cloudy => assert ConvertedStems[4] == "cloud";
    case PartlyCloudy => assert ConvertedStems[2] == "partly";
    case Rainy => assert ConvertedStems[5] == "rainy";
    case Snowy => assert ConvertedStems[6] == "snowflake";
    case Thunderstorm => assert ConvertedStems[7] == "lighting";
    case Fog => assert ConvertedStems[8] == "fog";
  }

  /** The array the converter generates for a condition's image at the icon
      size bears the name the display links against. */
  lemma ConvertedBitmapName(icon: WeatherIcon)
    ensures ArrayName(StemOf(icon), IconOutputSize) == BitmapName(icon)
  {
    match icon
    case Sunny => PlainArrayName("sun", "icon_sun_200");
    case Cloudy => PlainArrayName("cloud", "icon_cloud_200");
    case PartlyCloudy => PlainArrayName("partly", "icon_partly_200");
    case Rainy => PlainArrayName("rainy", "icon_rainy_200");
    case Snowy => PlainArrayName("snowflake", "icon_snowflake_200");
    case Thunderstorm => PlainArrayName("lighting", "icon_lighting_200");
    case Fog => PlainArrayName("fog", "icon_fog_200");
  }

  /** The array name of a stem without hyphens at the icon size. */
  lemma PlainArrayName(stem: string, name: string)
    requires forall i :: 0 <= i < |stem| ==> stem[i] != '-'
    requires name == "icon_" + stem + "_200"
    ensures ArrayName(stem, IconOutputSize) == name
  {
    DecimalOfIconSize();
    PlainIdentifier(stem);
  }

  /** A stem without hyphens is its own C identifier. */
  lemma {:induction false} PlainIdentifier(stem: string)
    requires forall i :: 0 <= i < |stem| ==> stem[i] != '-'
    ensures CIdentifier(stem) == stem
  {
    if stem != [] {
      PlainIdentifier(stem[1..]);
    }
  }

  lemma DecimalOfIconSize()
    ensures NatToDecimal(IconOutputSize) == "200"
  {
    assert NatToDecimal(2) == "2";
    assert NatToDecimal(20) == "20";
  }

  /** A converted icon is exactly as long as the bitmap the blit reads, so a
      table of converted icons is complete. */
  lemma ConvertedIconFitsBlit(img: seq<seq<Byte>>)
    requires |img| == IconOutputSize && RowsOfWidth(img, IconOutputSize)
    ensures |Packed(Quantised(img))| == IconBytes
  {
    PackedIconSize(img, IconOutputSize);
  }

  /** A document as the worker writes it reads back on the device as what the
      worker meant: the condition of the code, the twelve-hour window entry
      for entry, and an `updated` string that is kept whole and scans as a
      timestamp. */
  lemma WorkerDocumentReadsBack(doc: JsonDoc, code: int, isDay: bool, parts: seq<DatePart>)
    requires doc.weather == Some(MapConditionToIcon(code, isDay))
    requires |doc.precipitation| == WindowHours
    requires doc.updated == Some(UpdatedString(parts))
    requires DigitParts(parts) && |UpdatedString(parts)| < UpdatedCapacity
    ensures Extracted(doc).weather == ConditionOf(code)
    ensures Extracted(doc).precipitation == doc.precipitation
    ensures Extracted(doc).updated == UpdatedString(parts)
    ensures ParseTimestamp(Extracted(doc).updated).Some?
  {
    MappedConditionReachesDevice(code, isDay);
    UpdatedStringParses(parts);
    PrecipitationArrives(doc);
    UpdatedArrives(doc, UpdatedString(parts));
  }

  /** A twelve-entry series is kept as sent. */
  lemma PrecipitationArrives(doc: JsonDoc)
    requires |doc.precipitation| == WindowHours
    ensures Extracted(doc).precipitation == doc.precipitation
  {
    var data := Extracted(doc);
    assert forall i :: 0 <= i < PrecipHours ==> data.precipitation[i] == PaddedEntry(doc.precipitation, i);
  }

  /** An `updated` text that fits its field is kept as sent. */
  lemma UpdatedArrives(doc: JsonDoc, text: string)
    requires doc.updated == Some(text) && |text| < UpdatedCapacity
    ensures Extracted(doc).updated == text
  {
  }
}
