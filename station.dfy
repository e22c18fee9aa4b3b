/** The refresh cycle of `setup` and `loop`: fetch a snapshot, pick what to
    show, work out the data's age, decide whether the panel needs a redraw,
    and remember this cycle's snapshot, battery level and age for the next
    one. The surroundings of a cycle (whether WiFi connected, the HTTP
    attempts, the battery reading, the clock, and what the uninitialised
    `weather` variable on the stack happens to hold) are its inputs. */
module Station {
  import opened Support
  import opened Epd
  import opened WeatherIcons
  import opened WeatherFetch
  import opened Freshness
  import opened ChangeDetection
  import opened Render

  /** Seconds between two cycles of `loop`. */
  const UpdateIntervalSeconds: int := 300

  /** A battery level as `read_battery_percent` reports it: clamped to 0-100. */
  type Percent = p: int | 0 <= p <= 100

  /** What a cycle meets: whether WiFi connected, the HTTP attempts, what
      the stack variable `weather` holds before its `valid` flag is cleared,
      the battery level and the clock (0 while the clock is not synced). */
  datatype Cycle = Cycle(wifi: bool, network: nat -> Response, stack: WeatherData, battery: Percent, now: int)

  /** The snapshot a cycle ends up with: a fetched one when WiFi connected
      and an attempt succeeded, otherwise the stack variable marked invalid. */
  function Fetched(c: Cycle): WeatherData
  {
    if !c.wifi then c.stack.(valid := false)
    else
      match FirstParsed(c.network, 1)
      case Some(hit) => Extracted(hit.1)
      case None => c.stack.(valid := false)
  }

  /** A snapshot is valid exactly when WiFi connected and one of the three
      attempts got a document. */
  lemma FetchedValid(c: Cycle)
    ensures Fetched(c).valid <==> c.wifi && FirstParsed(c.network, 1).Some?
    ensures !Fetched(c).valid ==> Fetched(c) == c.stack.(valid := false)
  {
  }

  /** The age text: `format_data_age` into the 16-byte buffer. */
  function AgeText(age: int): string
  {
    Snprintf(AgeLabel(age), AgeBufferSize)
  }

  /** The screen for a snapshot, an age text and a battery level. */
  function ReadingsOf(w: WeatherData, ageText: string, battery: int): Readings
  {
    Readings(w.tempCurrent, w.tempHigh, w.tempLow, w.weather, w.precipitation, w.uvCurrent, w.uvHigh, ageText, battery)
  }

  /** What `setup` shows when its fetch failed: zeros and the cloudy icon. */
  function ErrorScreen(): WeatherData
  {
    WeatherData(0, 0, 0, Cloudy, [0, 0, 0, 0, 0, 0, 0, 0, 0, 0, 0, 0], 0, 0, "", false)
  }

  /** What a cycle remembers for the next one. */
  datatype Saved = Saved(prevWeather: WeatherData, prevBattery: int, prevAge: int)

  /** The globals before `setup`: a zeroed snapshot and -1 for the rest. */
  const Initial: Saved := Saved(ZeroWeather, -1, -1)

  /** The timestamp a cycle measures the age from: the new snapshot's when
      it is valid, otherwise the previous snapshot's. */
  function AgeSource(s: Saved, weather: WeatherData): string
  {
    if weather.valid then weather.updated else s.prevWeather.updated
  }

  /** The snapshot whose fields a cycle of `loop` displays. */
  function Shown(s: Saved, weather: WeatherData): WeatherData
  {
    if weather.valid then weather else s.prevWeather
  }

  /** The age, in minutes, that a cycle computes. */
  function CycleAge(s: Saved, c: Cycle, mktime: Tm -> int): int
  {
    DataAgeMinutes(AgeSource(s, Fetched(c)), c.now, mktime)
  }

  /** The screen `setup` draws: the snapshot, or the error screen; the age
      is measured as in `loop`, from the saved timestamp after a failure. */
  function SetupReadings(s: Saved, c: Cycle, mktime: Tm -> int): Readings
  {
    ReadingsOf(SetupShown(Fetched(c)), AgeText(CycleAge(s, c, mktime)), c.battery)
  }

  /** The snapshot whose fields `setup` displays. */
  function SetupShown(weather: WeatherData): WeatherData
  {
    if weather.valid then weather else ErrorScreen()
  }

  /** The screen a cycle of `loop` draws, if it draws one. */
  function LoopReadings(s: Saved, c: Cycle, mktime: Tm -> int): Readings
  {
    ReadingsOf(Shown(s, Fetched(c)), AgeText(CycleAge(s, c, mktime)), c.battery)
  }

  /** The age text is on screen exactly when the age is over 30 minutes. */
  predicate ShowsAge(age: int)
  {
    age > FreshMinutes
  }

  /** A cycle of `loop` redraws when the snapshot or battery changed, or when
      the age text appears or disappears. */
  predicate Redraws(s: Saved, c: Cycle, mktime: Tm -> int)
  {
    || Changed(s.prevWeather, Fetched(c), s.prevBattery, c.battery)
    || ShowsAge(s.prevAge) != ShowsAge(CycleAge(s, c, mktime))
  }

  /** What a cycle saves: its own snapshot, battery level and age, whether
      it redraws or not. */
  function Next(s: Saved, c: Cycle, mktime: Tm -> int): Saved
  {
    Saved(Fetched(c), c.battery, CycleAge(s, c, mktime))
  }

  /** The age text never contains a NUL, so reading the buffer back stops
      exactly at its end. */
  lemma AgeTextHasNoNul(age: int)
    ensures '\0' !in AgeText(age)
  {
    var text := AgeLabel(age);
    if age > FreshMinutes {
      var hours := age / 60;
      if hours > 0 {
        var h, m := NatToDecimal(hours), NatToDecimal(age % 60);
        assert text == h + "h " + m + "m";
        assert forall i :: 0 <= i < |h| ==> text[i] == h[i];
        assert forall i :: 0 <= i < |m| ==> text[|h| + 2 + i] == m[i];
      } else {
        var d := NatToDecimal(age);
        assert text == d + "m";
        assert forall i :: 0 <= i < |d| ==> text[i] == d[i];
      }
    }
    assert AgeText(age) <= text;
  }

  /** `format_data_age` into a fresh 16-byte buffer, read back with `strlen`. */
  method FormatAgeText(age: int) returns (text: string)
    ensures text == AgeText(age)
  {
    var buffer := new char[AgeBufferSize];
    FormatDataAge(age, buffer, AgeBufferSize);
    var written := Snprintf(AgeLabel(age), AgeBufferSize);
    text := CStringOf(buffer);
    AgeTextHasNoNul(age);
    CStringOfWritten(buffer[..], written, text);
  }

  /** The stack variable `weather` after its `valid` flag is cleared and the
      connection and fetch have run. */
  method Acquire(c: Cycle) returns (weather: WeatherData)
    ensures weather == Fetched(c)
  {
    weather := c.stack.(valid := false);
    if c.wifi {
      var ok, attempts;
      ok, weather, attempts := FetchWeatherData(c.network, weather);
    }
  }

  /** The firmware's globals: the framebuffer and panel, and what the last
      cycle saved. The icon table, `mktime` and the fonts' advances are fixed
      for the device's lifetime. */
  class Station {
    var prevWeather: WeatherData
    var prevBatteryPercent: int
    var prevAgeMinutes: int
    const panel: Panel
    const table: IconTable
    const mktime: Tm -> int
    const advance: Advance

    ghost predicate Valid()
      reads this, panel
    {
      panel.Valid() && CompleteTable(table)
    }

    /** What the globals remember between cycles. */
    function Remembered(): Saved
      reads this
    {
      Saved(prevWeather, prevBatteryPercent, prevAgeMinutes)
    }

    /** The globals as the firmware starts: the saved snapshot zeroed, the
        saved battery level and age -1, and the framebuffer as `ps_calloc`
        returns it. */
    constructor (table: IconTable, mktime: Tm -> int, advance: Advance)
      requires CompleteTable(table)
      ensures Valid() && fresh(panel) && fresh(panel.fb)
      ensures Remembered() == Initial && panel.commands == []
      ensures this.table == table && this.mktime == mktime && this.advance == advance
    {
      prevWeather := ZeroWeather;
      prevBatteryPercent := -1;
      prevAgeMinutes := -1;
      panel := new Panel();
      this.table := table;
      this.mktime := mktime;
      this.advance := advance;
    }

    /** `setup`: clear the framebuffer, start the driver, fetch once, read
        the battery (powering the panel on and off around the reading), and
        draw either the snapshot or the error screen; the age is measured
        from the fetched timestamp, or from the still-empty saved one. */
    method Setup(c: Cycle)
      requires Valid()
      modifies this, panel, panel.fb
      ensures Valid()
      ensures Remembered() == Next(old(Remembered()), c, mktime)
      ensures panel.commands == old(panel.commands) + [InitPanel] + BatteryReadCommands
        + DisplayCommands(SetupReadings(old(Remembered()), c, mktime), advance)
      ensures panel.fb[..] == RenderedFrame(table[BitmapName(SetupReadings(old(Remembered()), c, mktime).icon)])
    {
      var saved := Remembered();
      panel.ClearFramebuffer();
      panel.InitDriver();
      var weather, ageMinutes, readings := SetupScreen(c, saved, mktime);
      panel.ReadBattery();
      ghost var booted := panel.commands;
      panel.RenderDisplay(readings, table, advance);
      assert panel.commands == booted + DisplayCommands(readings, advance);
      prevWeather := weather;
      prevBatteryPercent := c.battery;
      prevAgeMinutes := ageMinutes;
    }

    /** One pass of `loop` (after its five-minute delay): fetch, read the
        battery (the panel's power pair is issued on every cycle), and redraw
        only when the snapshot, the battery or the age display changed; the
        cycle's snapshot, battery level and age are saved either way. */
    method Loop(c: Cycle) returns (redrawn: bool)
      requires Valid()
      modifies this, panel, panel.fb
      ensures Valid()
      ensures redrawn == Redraws(old(Remembered()), c, mktime)
      ensures Remembered() == Next(old(Remembered()), c, mktime)
      ensures panel.commands == old(panel.commands) + BatteryReadCommands
        + (if redrawn then DisplayCommands(LoopReadings(old(Remembered()), c, mktime), advance) else [])
      ensures redrawn ==> panel.fb[..] == RenderedFrame(table[BitmapName(LoopReadings(old(Remembered()), c, mktime).icon)])
      ensures !redrawn ==> panel.fb[..] == old(panel.fb[..])
    {
      var weather, ageMinutes, readings;
      weather, ageMinutes, readings, redrawn := LoopScreen(c, Remembered(), mktime);
      panel.ReadBattery();
      if redrawn {
        panel.RenderDisplay(readings, table, advance);
      }
      prevWeather := weather;
      prevBatteryPercent := c.battery;
      prevAgeMinutes := ageMinutes;
    }
  }

  /** The part of `setup` between the fetch and the drawing: zeros and the
      cloudy icon stand in for a failed fetch, and the age is measured from
      the fetched timestamp or from the saved snapshot's (still the zeroed
      one at this point). */
  method SetupScreen(c: Cycle, s: Saved, mktime: Tm -> int)
    returns (weather: WeatherData, ageMinutes: int, readings: Readings)
    ensures weather == Fetched(c) && ageMinutes == CycleAge(s, c, mktime)
    ensures readings == SetupReadings(s, c, mktime)
  {
    weather := Acquire(c);
    var shown := if weather.valid then weather else ErrorScreen();
    assert shown == SetupShown(weather);
    var timestamp := if weather.valid then weather.updated else s.prevWeather.updated;
    ageMinutes := DataAgeMinutes(timestamp, c.now, mktime);
    var ageText := FormatAgeText(ageMinutes);
    readings := ReadingsOf(shown, ageText, c.battery);
  }

  /** The part of `loop` between the fetch and the drawing: the screen to
      show (the new snapshot, or the saved one after a failed fetch), the age,
      and whether to redraw. */
  method LoopScreen(c: Cycle, s: Saved, mktime: Tm -> int)
    returns (weather: WeatherData, ageMinutes: int, readings: Readings, redrawn: bool)
    ensures weather == Fetched(c) && ageMinutes == CycleAge(s, c, mktime)
    ensures readings == LoopReadings(s, c, mktime) && redrawn == Redraws(s, c, mktime)
  {
    weather := Acquire(c);
    var shown := if weather.valid then weather else s.prevWeather;
    var timestamp := if weather.valid then weather.updated else s.prevWeather.updated;
    ageMinutes := DataAgeMinutes(timestamp, c.now, mktime);
    var ageText := FormatAgeText(ageMinutes);
    readings := ReadingsOf(shown, ageText, c.battery);
    var dataChanged := WeatherDataChanged(s.prevWeather, weather, s.prevBattery, c.battery);
    var prevShowingAge := s.prevAge > 30;
    var nowShowingAge := ageMinutes > 30;
    var ageDisplayChanged := prevShowingAge != nowShowingAge;
    redrawn := dataChanged || ageDisplayChanged;
  }

  /** When `setup`'s fetch fails the error screen is drawn, and no age is
      shown, since there is no timestamp to measure from. */
  lemma FailedSetupShowsErrorScreen(c: Cycle, mktime: Tm -> int)
    requires !Fetched(c).valid
    ensures SetupReadings(Initial, c, mktime).icon == Cloudy && SetupReadings(Initial, c, mktime).tempCurrent == 0
    ensures SetupReadings(Initial, c, mktime).precipitation == [0, 0, 0, 0, 0, 0, 0, 0, 0, 0, 0, 0]
    ensures SetupReadings(Initial, c, mktime).age == "" && Next(Initial, c, mktime).prevAge == -1
  {
  }

  /** A cycle whose fetch fails while the previous one also failed redraws
      only if the age text appears or disappears. */
  lemma FailureRedrawsOnlyOnAgeFlip(s: Saved, c: Cycle, mktime: Tm -> int)
    requires !s.prevWeather.valid && !Fetched(c).valid
    ensures Redraws(s, c, mktime) <==> ShowsAge(s.prevAge) != ShowsAge(CycleAge(s, c, mktime))
  {
  }

  /** The first good fetch after a failed one always redraws, and so does
      the first failure after a good fetch. */
  lemma ValidityChangeRedraws(s: Saved, c: Cycle, mktime: Tm -> int)
    requires s.prevWeather.valid != Fetched(c).valid
    ensures Redraws(s, c, mktime)
  {
    ValidityFlipRedraws(s.prevWeather, Fetched(c), s.prevBattery, c.battery);
  }

  /** Fetching the same snapshot again, with the battery within ten points
      and the age text neither appearing nor disappearing, does not refresh
      the panel. */
  lemma SteadyStateKeepsPanel(s: Saved, c: Cycle, mktime: Tm -> int)
    requires Fetched(c) == s.prevWeather
    requires -10 <= c.battery - s.prevBattery <= 10
    requires ShowsAge(s.prevAge) == ShowsAge(CycleAge(s, c, mktime))
    ensures !Redraws(s, c, mktime)
  {
    UnchangedNeverRedraws(s.prevWeather, s.prevBattery);
    assert Abs(s.prevBattery - c.battery) <= BatteryTolerance;
  }

  /** A failed fetch keeps the previous snapshot's readings on screen and
      measures the age from the previous snapshot's timestamp. */
  lemma FailedFetchShowsPrevious(s: Saved, c: Cycle, mktime: Tm -> int)
    requires !Fetched(c).valid
    ensures var r := LoopReadings(s, c, mktime);
      && r.tempCurrent == s.prevWeather.tempCurrent && r.tempHigh == s.prevWeather.tempHigh
      && r.tempLow == s.prevWeather.tempLow && r.icon == s.prevWeather.weather
      && r.precipitation == s.prevWeather.precipitation
      && r.uvCurrent == s.prevWeather.uvCurrent && r.uvHigh == s.prevWeather.uvHigh
    ensures CycleAge(s, c, mktime) == DataAgeMinutes(s.prevWeather.updated, c.now, mktime)
  {
  }

  /** The age text is on screen after a cycle exactly when the cycle's age
      is over 30 minutes. */
  lemma AgeOnScreenIffStale(s: Saved, c: Cycle, mktime: Tm -> int)
    ensures |LoopReadings(s, c, mktime).age| > 0 <==> ShowsAge(CycleAge(s, c, mktime))
  {
    var age := CycleAge(s, c, mktime);
    if ShowsAge(age) {
      assert |AgeLabel(age)| > 0;
      assert |Snprintf(AgeLabel(age), AgeBufferSize)| > 0;
    }
  }

  /** As written, a failed cycle saves its own invalid snapshot, whose fields
      are the uninitialised stack variable's. A second failed cycle then
      displays those fields: the readings come from memory no fetch wrote. */
  lemma SecondFailureShowsStack(s: Saved, c1: Cycle, c2: Cycle, mktime: Tm -> int)
    requires !Fetched(c1).valid && !Fetched(c2).valid
    ensures var r := LoopReadings(Next(s, c1, mktime), c2, mktime);
      && r.tempCurrent == c1.stack.tempCurrent && r.tempHigh == c1.stack.tempHigh
      && r.tempLow == c1.stack.tempLow && r.icon == c1.stack.weather
      && r.precipitation == c1.stack.precipitation
    ensures CycleAge(Next(s, c1, mktime), c2, mktime) == DataAgeMinutes(c1.stack.updated, c2.now, mktime)
  {
    FetchedValid(c1);
  }

  /** A concrete run of the firmware as written: a good snapshot on screen,
      then two cycles without WiFi. The stack variable of the first holds a
      temperature of 12345 and a parseable timestamp; the second cycle finds
      the age text newly due (measured from that timestamp) and redraws the
      screen with 12345 degrees, a reading no fetch produced. */
  lemma StackReachesScreen()
    ensures var good := WeatherData(20, 25, 15, Sunny, [0, 0, 0, 0, 0, 0, 0, 0, 0, 0, 0, 0], 3, 5, "", true);
      var stack := WeatherData(12345, 0, 0, Sunny, [0, 0, 0, 0, 0, 0, 0, 0, 0, 0, 0, 0], 0, 0,
        IsoText("2020", "01", "01", "00", "00", "00"), true);
      var offline := (a: nat) => Response(0, None);
      var mktime := (tm: Tm) => 1;
      var c1 := Cycle(false, offline, stack, 50, 1000000);
      var c2 := Cycle(false, offline, stack, 50, 1000000);
      var s1 := Next(Saved(good, 50, -1), c1, mktime);
      && Redraws(s1, c2, mktime)
      && LoopReadings(s1, c2, mktime).tempCurrent == 12345
  {
    var stack := WeatherData(12345, 0, 0, Sunny, [0, 0, 0, 0, 0, 0, 0, 0, 0, 0, 0, 0], 0, 0,
      IsoText("2020", "01", "01", "00", "00", "00"), true);
    var mktime := (tm: Tm) => 1;
    IsoTimestampScans("2020", "01", "01", "00", "00", "00");
    assert TimestampToEpoch(stack.updated, mktime) == 1;
    assert DataAgeMinutes(stack.updated, 1000000, mktime) == 16666;
  }

  /** The state of the corrected firmware: besides what the firmware saves,
      the last valid snapshot, which is what a failed cycle displays. */
  datatype KeptState = KeptState(saved: Saved, lastGood: WeatherData)

  /** The corrected `setup` state: the last good snapshot is the fetched one,
      or the error screen. */
  function KeptSetup(c: Cycle, mktime: Tm -> int): KeptState
  {
    var weather := Fetched(c);
    KeptState(Next(Initial, c, mktime), if weather.valid then weather else ErrorScreen())
  }

  /** The corrected cycle's age: from the new snapshot, or from the last
      valid one. */
  function KeptAge(k: KeptState, c: Cycle, mktime: Tm -> int): int
  {
    var weather := Fetched(c);
    DataAgeMinutes(if weather.valid then weather.updated else k.lastGood.updated, c.now, mktime)
  }

  /** The corrected cycle's screen: the new snapshot or the last valid one. */
  function KeptReadings(k: KeptState, c: Cycle, mktime: Tm -> int): Readings
  {
    var weather := Fetched(c);
    ReadingsOf(if weather.valid then weather else k.lastGood, AgeText(KeptAge(k, c, mktime)), c.battery)
  }

  /** The corrected redraw decision. */
  predicate KeptRedraws(k: KeptState, c: Cycle, mktime: Tm -> int)
  {
    || Changed(k.saved.prevWeather, Fetched(c), k.saved.prevBattery, c.battery)
    || ShowsAge(k.saved.prevAge) != ShowsAge(KeptAge(k, c, mktime))
  }

  /** The corrected cycle: the saved snapshot is kept for change detection
      as before, and the last valid snapshot moves only on a good fetch. */
  function KeptNext(k: KeptState, c: Cycle, mktime: Tm -> int): KeptState
  {
    var weather := Fetched(c);
    KeptState(Saved(weather, c.battery, KeptAge(k, c, mktime)), if weather.valid then weather else k.lastGood)
  }

  /** Two corrected states that differ at most in stack contents saved by a
      failed cycle. */
  predicate SameButStack(a: KeptState, b: KeptState)
  {
    && a.lastGood == b.lastGood
    && a.saved.prevBattery == b.saved.prevBattery && a.saved.prevAge == b.saved.prevAge
    && a.saved.prevWeather.valid == b.saved.prevWeather.valid
    && (a.saved.prevWeather.valid ==> a.saved.prevWeather == b.saved.prevWeather)
  }

  /** The corrected cycle never shows the stack: whatever the stack variable
      holds, in this cycle or saved from an earlier one, the screen, the
      redraw decision and the next state (up to stack contents) come out the
      same. */
  lemma KeptIgnoresStack(a: KeptState, b: KeptState, c: Cycle, other: WeatherData, mktime: Tm -> int)
    requires SameButStack(a, b)
    ensures KeptReadings(a, c, mktime) == KeptReadings(b, c.(stack := other), mktime)
    ensures KeptRedraws(a, c, mktime) == KeptRedraws(b, c.(stack := other), mktime)
    ensures SameButStack(KeptNext(a, c, mktime), KeptNext(b, c.(stack := other), mktime))
  {
    var d := c.(stack := other);
    FetchedValid(c);
    FetchedValid(d);
    assert Fetched(c).valid == Fetched(d).valid;
    if Fetched(c).valid {
      assert Fetched(c) == Fetched(d);
    }
  }

  /** The corrected `setup` shows no stack contents either. */
  lemma KeptSetupIgnoresStack(c: Cycle, other: WeatherData, mktime: Tm -> int)
    ensures SameButStack(KeptSetup(c, mktime), KeptSetup(c.(stack := other), mktime))
    ensures SetupReadings(Initial, c, mktime) == SetupReadings(Initial, c.(stack := other), mktime)
  {
    var d := c.(stack := other);
    FetchedValid(c);
    FetchedValid(d);
    if Fetched(c).valid {
      assert Fetched(c) == Fetched(d);
    }
  }

  /** The corrected cycle agrees with the firmware whenever the previous
      cycle's fetch succeeded. */
  lemma KeptAgreesAfterGoodFetch(k: KeptState, c: Cycle, mktime: Tm -> int)
    requires k.saved.prevWeather.valid && k.lastGood == k.saved.prevWeather
    ensures KeptReadings(k, c, mktime) == LoopReadings(k.saved, c, mktime)
    ensures KeptRedraws(k, c, mktime) == Redraws(k.saved, c, mktime)
    ensures KeptNext(k, c, mktime).saved == Next(k.saved, c, mktime)
  {
  }
}
