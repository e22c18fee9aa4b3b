/** Whether a new snapshot is worth a panel refresh: `weather_data_changed`
    compares the snapshot shown last with the new one, and the battery
    readings with a tolerance. */
module ChangeDetection {
  import opened WeatherIcons
  import opened WeatherFetch

  /** Battery readings closer than this many points count as unchanged. */
  const BatteryTolerance: int := 10

  function Abs(x: int): (r: nat)
    ensures r == x || r == -x
  {
    if x < 0 then -x else x
  }

  /** The displayed fields of two valid snapshots agree. */
  predicate SameContent(previous: WeatherData, current: WeatherData)
  {
    && previous.updated == current.updated
    && previous.tempCurrent == current.tempCurrent
    && previous.tempHigh == current.tempHigh
    && previous.tempLow == current.tempLow
    && previous.weather == current.weather
    && previous.uvCurrent == current.uvCurrent
    && previous.uvHigh == current.uvHigh
    && previous.precipitation == current.precipitation
  }

  /** When the panel is redrawn: validity flipped, or both snapshots are
      valid and they differ in a displayed field or the battery moved by more
      than the tolerance. Two invalid snapshots never ask for a redraw. */
  predicate Changed(previous: WeatherData, current: WeatherData, oldBattery: int, newBattery: int)
  {
    || previous.valid != current.valid
    || (previous.valid && current.valid
        && (!SameContent(previous, current) || Abs(oldBattery - newBattery) > BatteryTolerance))
  }

  /** `weather_data_changed`: the checks in the order the firmware makes
      them, one early return per check. */
  method WeatherDataChanged(previous: WeatherData, current: WeatherData, oldBattery: int, newBattery: int)
    returns (changed: bool)
    ensures changed == Changed(previous, current, oldBattery, newBattery)
  {
    if previous.valid != current.valid {
      return true;
    }
    if !previous.valid && !current.valid {
      return false;
    }
    if previous.updated != current.updated {
      return true;
    }
    if previous.tempCurrent != current.tempCurrent {
      return true;
    }
    if previous.tempHigh != current.tempHigh {
      return true;
    }
    if previous.tempLow != current.tempLow {
      return true;
    }
    if previous.weather != current.weather {
      return true;
    }
    if previous.uvCurrent != current.uvCurrent {
      return true;
    }
    if previous.uvHigh != current.uvHigh {
      return true;
    }
    var i := 0;
    while i < PrecipHours
      invariant 0 <= i <= PrecipHours
      invariant previous.precipitation[..i] == current.precipitation[..i]
    {
      if previous.precipitation[i] != current.precipitation[i] {
        return true;
      }
      assert previous.precipitation[..i + 1] == previous.precipitation[..i] + [previous.precipitation[i]];
      assert current.precipitation[..i + 1] == current.precipitation[..i] + [current.precipitation[i]];
      i := i + 1;
    }
    assert previous.precipitation == previous.precipitation[..PrecipHours];
    assert current.precipitation == current.precipitation[..PrecipHours];
    if Abs(oldBattery - newBattery) > BatteryTolerance {
      return true;
    }
    return false;
  }

  /** A snapshot that turns valid or invalid always redraws. */
  lemma ValidityFlipRedraws(previous: WeatherData, current: WeatherData, oldBattery: int, newBattery: int)
    requires previous.valid != current.valid
    ensures Changed(previous, current, oldBattery, newBattery)
  {
  }

  /** Two invalid snapshots never redraw, whatever their fields and the
      battery say. */
  lemma BothInvalidNeverRedraw(previous: WeatherData, current: WeatherData, oldBattery: int, newBattery: int)
    requires !previous.valid && !current.valid
    ensures !Changed(previous, current, oldBattery, newBattery)
  {
  }

  /** A new `updated` timestamp alone redraws two valid snapshots. */
  lemma NewTimestampRedraws(previous: WeatherData, current: WeatherData, oldBattery: int, newBattery: int)
    requires previous.valid && current.valid && previous.updated != current.updated
    ensures Changed(previous, current, oldBattery, newBattery)
  {
  }

  /** A change in a single precipitation hour redraws two valid snapshots. */
  lemma PrecipitationHourRedraws(previous: WeatherData, current: WeatherData, oldBattery: int, newBattery: int, i: nat)
    requires previous.valid && current.valid
    requires i < PrecipHours && previous.precipitation[i] != current.precipitation[i]
    ensures Changed(previous, current, oldBattery, newBattery)
  {
  }

  /** With the weather unchanged, the battery alone redraws exactly when it
      moved by more than ten points, in either direction. */
  lemma BatteryTolerated(data: WeatherData, oldBattery: int, newBattery: int)
    requires data.valid
    ensures Changed(data, data, oldBattery, newBattery) <==> (newBattery > oldBattery + 10 || newBattery < oldBattery - 10)
  {
  }

  /** The verdict does not depend on which snapshot is the old one. */
  lemma ChangedSymmetric(a: WeatherData, b: WeatherData, batteryA: int, batteryB: int)
    ensures Changed(a, b, batteryA, batteryB) == Changed(b, a, batteryB, batteryA)
  {
  }

  /** Nothing redraws for a snapshot compared with itself at the same
      battery level. */
  lemma UnchangedNeverRedraws(data: WeatherData, battery: int)
    ensures !Changed(data, data, battery, battery)
  {
  }
}
