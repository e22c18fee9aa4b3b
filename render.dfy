/** `render_display` and `draw_battery_icon`: the screen layout. The
    framebuffer is cleared to white, the icon is blitted into it, and every
    other element is a driver call recorded in order; the frame is then pushed
    to the panel. */
module Render {
  import opened Support
  import opened Epd
  import opened WeatherIcons
  import opened WeatherFetch
  import opened PrecipChart

  /** The battery outline and its tip. */
  const BatteryWidth: int := 40
  const BatteryHeight: int := 20
  const BatteryTipWidth: int := 4
  /** The battery sits in the lower-right corner. */
  const BatteryX: int := EpdWidth - 55
  const BatteryY: int := EpdHeight - 35

  /** The degree sign as the two bytes of its UTF-8 encoding (strings here
      hold one byte per character, as the C buffers do). */
  const Degree: string := ['\U{00C2}', '\U{00B0}']

  /** Bytes of `temp_str` and of the other text buffers. */
  const TempBufferSize: nat := 8
  const TextBufferSize: nat := 16

  /** A white framebuffer: every byte 0xFF, two white pixels. */
  function Blank(): (frame: seq<Byte>)
    ensures |frame| == FramebufferSize
    ensures forall k :: 0 <= k < |frame| ==> frame[k] == 0xFF
  {
    seq(FramebufferSize, _ => 0xFF)
  }

  /** The icon's top-left corner: it is centred on (780, 122). */
  const IconLeft: int := 780 - IconSize / 2
  const IconTop: int := 122 - IconSize / 2

  /** What one refresh shows. `precipitation` is the series the chart plots
      and `age` the text of the age buffer up to its NUL. */
  datatype Readings = Readings(
    tempCurrent: int,
    tempHigh: int,
    tempLow: int,
    icon: WeatherIcon,
    precipitation: Precipitation,
    uvCurrent: int,
    uvHigh: int,
    age: string,
    battery: int)

  /** The current temperature as `temp_str` holds it. */
  function TempText(t: int): string
  {
    Snprintf(IntToDecimal(t) + Degree, TempBufferSize)
  }

  /** A labelled temperature ("H: " or "L: ") as its 16-byte buffer holds it. */
  function LabelledTempText(prefix: string, t: int): string
  {
    Snprintf(prefix + IntToDecimal(t) + Degree, TextBufferSize)
  }

  /** The UV line, current then daily maximum. */
  function UvText(current: int, high: int): string
  {
    Snprintf(" " + IntToDecimal(current) + " / " + IntToDecimal(high), TextBufferSize)
  }

  /** Width of the battery's fill for a percentage, truncated toward zero. */
  function BatteryFillWidth(percent: int): (fill: int)
    ensures 0 <= percent <= 100 ==> 0 <= fill <= BatteryWidth - 2
    ensures percent >= 0 ==> 100 * fill <= (BatteryWidth - 2) * percent < 100 * fill + 100
  {
    CDiv((BatteryWidth - 2) * percent, 100)
  }

  /** `draw_battery_icon`: the outline, the tip on its right side, and the
      fill when it is at least a pixel wide. */
  function BatteryCommands(x: int, y: int, percent: int): seq<DrawCmd>
  {
    var fill := BatteryFillWidth(percent);
    [Rect(x, y, BatteryWidth, BatteryHeight, OutlineGray),
     FillRect(x + BatteryWidth, y + 6, BatteryTipWidth, BatteryHeight - 12, OutlineGray)]
    + (if fill > 0 then [FillRect(x + 1, y + 1, fill, BatteryHeight - 2, IconGray)] else [])
  }

  /** Where the low temperature starts: 30 pixels after the end of the high one. */
  function LowTempX(r: Readings, advance: Advance): int
  {
    50 + advance(FiraSansMedium, LabelledTempText("H: ", r.tempHigh)) + 30
  }

  /** Where the low temperature ends; the sun and the UV line are placed from it. */
  function LowTempEnd(r: Readings, advance: Advance): int
  {
    LowTempX(r, advance) + advance(FiraSansMedium, LabelledTempText("L: ", r.tempLow))
  }

  /** The top part of the screen: temperatures, icon, UV line and divider. */
  function HeaderCommands(r: Readings, advance: Advance): seq<DrawCmd>
  {
    var lx := LowTempEnd(r, advance);
    [Text(FiraSansLarge, TempText(r.tempCurrent), 50, 130),
     WeatherIconAt(780, 122, IconSize),
     Text(FiraSansMedium, LabelledTempText("H: ", r.tempHigh), 50, 215),
     Text(FiraSansMedium, LabelledTempText("L: ", r.tempLow), LowTempX(r, advance), 215),
     SunSmall(lx + 80, 197),
     Text(FiraSans, UvText(r.uvCurrent, r.uvHigh), lx + 107, 212),
     HLine(40, 265, 880, DividerGray)]
  }

  /** The age text, left of the battery, only when there is any. */
  function AgeCommands(age: string): seq<DrawCmd>
  {
    if |age| > 0 then [Text(FiraSans, age, BatteryX - 80, EpdHeight - 15)] else []
  }

  /** Pushing the frame: power on, clear the panel, draw the whole screen,
      power off. */
  const PushCommands: seq<DrawCmd> := [PowerOn, ClearPanel, DrawFullScreen, PowerOff]

  /** The power cycle around the battery's ADC read: the panel's supply is
      switched on for the reading and off again. */
  const BatteryReadCommands: seq<DrawCmd> := [PowerOn, PowerOff]

  /** Every driver call of one refresh, in order. */
  function DisplayCommands(r: Readings, advance: Advance): seq<DrawCmd>
  {
    HeaderCommands(r, advance)
    + ChartCommands(40, 270, 280, 210, r.precipitation, PrecipHours)
    + BatteryCommands(BatteryX, BatteryY, r.battery)
    + AgeCommands(r.age)
    + PushCommands
  }

  /** The framebuffer after a refresh: white, with the icon of `bitmap`. */
  function RenderedFrame(bitmap: seq<Byte>): (frame: seq<Byte>)
    requires |bitmap| == IconBytes
    ensures |frame| == FramebufferSize
  {
    Blitted(Blank(), bitmap, IconLeft, IconTop)
  }

  /** The global framebuffer and the driver calls made so far. */
  class Panel {
    const fb: array<Byte>
    var commands: seq<DrawCmd>

    ghost predicate Valid()
      reads this
    {
      fb.Length == FramebufferSize
    }

    /** The framebuffer as `ps_calloc` returns it: all zero. */
    constructor ()
      ensures Valid() && fresh(fb) && commands == []
      ensures forall k :: 0 <= k < fb.Length ==> fb[k] == 0
    {
      fb := new Byte[FramebufferSize](_ => 0);
      commands := [];
    }

    /** `epd_init`. */
    method InitDriver()
      modifies this
      ensures commands == old(commands) + [InitPanel]
    {
      commands := commands + [InitPanel];
    }

    /** The driver calls of `read_battery_percent`; the level it reads is
        an input of the cycle. */
    method ReadBattery()
      modifies this
      ensures commands == old(commands) + BatteryReadCommands
    {
      commands := commands + [PowerOn, PowerOff];
    }

    /** The `memset` to 0xFF: every byte white. */
    method ClearFramebuffer()
      requires Valid()
      modifies fb
      ensures fb[..] == Blank()
    {
      var k := 0;
      while k < fb.Length
        invariant 0 <= k <= fb.Length
        invariant forall j :: 0 <= j < k ==> fb[j] == 0xFF
      {
        fb[k] := 0xFF;
        k := k + 1;
      }
      assert fb[..] == Blank();
    }

    /** `render_display`: the recorded calls are the refresh's calls, and the
        framebuffer holds the white frame with the condition's icon. */
    method RenderDisplay(r: Readings, table: IconTable, advance: Advance)
      requires Valid() && CompleteTable(table)
      modifies this, fb
      ensures Valid()
      ensures commands == old(commands) + DisplayCommands(r, advance)
      ensures fb[..] == RenderedFrame(table[BitmapName(r.icon)])
    {
      ClearFramebuffer();
      DrawWeatherIcon(r.icon, 780, 122, IconSize, fb, table);
      ghost var frame := fb[..];
      assert frame == RenderedFrame(table[BitmapName(r.icon)]);
      var header := LayOutHeader(r, advance);
      var chart := DrawPrecipChart(40, 270, 280, 210, r.precipitation, PrecipHours);
      var battery := BatteryCommands(BatteryX, BatteryY, r.battery);
      var ageCalls := [];
      if |r.age| > 0 {
        ageCalls := [Text(FiraSans, r.age, BatteryX - 80, EpdHeight - 15)];
      }
      commands := commands + (header + chart + battery + ageCalls + PushCommands);
      assert fb[..] == frame;
    }
  }

  /** The header as placed by the cursor: the high temperature at x = 50,
      the low one on the same row 30 pixels after the high text's advance,
      the sun 80 pixels after the low text's advance, the UV line 27 pixels
      after the sun; the icon centred on (780, 122) and the divider at
      y = 265 from x = 40, 880 pixels long. */
  predicate HeaderLaidOut(calls: seq<DrawCmd>, r: Readings, advance: Advance)
  {
    && |calls| == 7
    && calls[0].Text? && calls[0].text == TempText(r.tempCurrent)
    && calls[1] == WeatherIconAt(780, 122, IconSize)
    && calls[2].Text? && calls[2].text == LabelledTempText("H: ", r.tempHigh) && calls[2].x == 50
    && calls[3].Text? && calls[3].text == LabelledTempText("L: ", r.tempLow) && calls[3].y == calls[2].y
    && calls[3].x == calls[2].x + advance(calls[2].font, calls[2].text) + 30
    && calls[4].SunSmall? && calls[4].x == calls[3].x + advance(calls[3].font, calls[3].text) + 80
    && calls[5].Text? && calls[5].text == UvText(r.uvCurrent, r.uvHigh) && calls[5].x == calls[4].x + 27
    && calls[6] == HLine(40, 265, 880, DividerGray)
  }

  /** The upper part of `render_display`, with `writeln` moving its cursor
      by the text's advance. The icon's own pixels are blitted into the
      framebuffer by `RenderDisplay`. */
  method LayOutHeader(r: Readings, advance: Advance) returns (calls: seq<DrawCmd>)
    ensures calls == HeaderCommands(r, advance)
    ensures HeaderLaidOut(calls, r, advance)
  {
    calls := [Text(FiraSansLarge, TempText(r.tempCurrent), 50, 130)];
    calls := calls + [WeatherIconAt(780, 122, IconSize)];
    var hiText := LabelledTempText("H: ", r.tempHigh);
    var loText := LabelledTempText("L: ", r.tempLow);
    var hx := 50;
    calls := calls + [Text(FiraSansMedium, hiText, hx, 215)];
    hx := hx + advance(FiraSansMedium, hiText);
    var lx := hx + 30;
    calls := calls + [Text(FiraSansMedium, loText, lx, 215)];
    lx := lx + advance(FiraSansMedium, loText);
    calls := calls + [SunSmall(lx + 80, 197)];
    calls := calls + [Text(FiraSans, UvText(r.uvCurrent, r.uvHigh), lx + 107, 212)];
    calls := calls + [HLine(40, 265, 880, DividerGray)];
  }

  /** The current temperature is shown whole, degree sign included, exactly
      for values of at most five characters (-9999 to 99999); beyond that the
      8-byte buffer cuts the text. */
  lemma TempTextWhole(t: int)
    ensures TempText(t) == IntToDecimal(t) + Degree <==> -9999 <= t <= 99999
  {
    SnprintfWhole(IntToDecimal(t) + Degree, TempBufferSize);
    assert Pow10(5) == 100000 && Pow10(4) == 10000;
    if -9999 <= t <= 99999 {
      IntDecimalAtMost(t, 5);
    } else {
      IntDecimalMore(t, 5);
    }
  }

  /** A high or low temperature that fits `int` is shown whole, except below
      -999999999, where the sign and ten digits fill the 16-byte buffer. */
  lemma LabelledTempWhole(prefix: string, t: Int32)
    requires |prefix| == 3
    ensures LabelledTempText(prefix, t) == prefix + IntToDecimal(t) + Degree <==> t >= -999999999
  {
    SnprintfWhole(prefix + IntToDecimal(t) + Degree, TextBufferSize);
    assert Pow10(10) == 10000000000 && Pow10(9) == 1000000000;
    if t >= -999999999 {
      IntDecimalAtMost(t, 10);
    } else {
      IntDecimalMore(t, 10);
    }
  }

  /** UV indices of up to two digits each are shown whole. */
  lemma UvTextWhole(current: int, high: int)
    requires 0 <= current <= 99 && 0 <= high <= 99
    ensures UvText(current, high) == " " + IntToDecimal(current) + " / " + IntToDecimal(high)
  {
    DecimalLength(current, 2);
    DecimalLength(high, 2);
  }

  /** The fill shows from 3 percent up: below that it rounds to nothing. */
  lemma BatteryFillShown(percent: int)
    requires percent >= 0
    ensures BatteryFillWidth(percent) > 0 <==> percent >= 3
  {
  }

  /** A fuller battery never draws a narrower fill. */
  lemma BatteryFillMonotone(p: int, q: int)
    requires 0 <= p <= q
    ensures BatteryFillWidth(p) <= BatteryFillWidth(q)
  {
    assert (BatteryWidth - 2) * p <= (BatteryWidth - 2) * q;
  }

  /** For 0 to 100 percent the fill lies inside the outline, a pixel in from
      each edge, and a full battery fills it edge to edge. */
  lemma BatteryFillInside(x: int, y: int, percent: int)
    requires 0 <= percent <= 100
    ensures x + 1 + BatteryFillWidth(percent) <= x + BatteryWidth - 1
    ensures BatteryFillWidth(100) == BatteryWidth - 2
  {
  }

  /** A bar's hour label sits below the baseline. */
  lemma BarLabelRow(x: int, y: int, w: int, h: int, count: int, percent: int, i: nat, k: int)
    requires count != 0 && 0 <= k < |BarCommands(x, y, w, h, count, percent, i)|
    requires BarCommands(x, y, w, h, count, percent, i)[k].Text?
    ensures BarCommands(x, y, w, h, count, percent, i)[k].y == ChartBottom(y, h) + 22
  {
  }

  /** The bars' hour labels all sit on one row, below the baseline. */
  lemma {:induction false} BarLabelsRow(x: int, y: int, w: int, h: int, data: seq<int>, count: int, n: nat, k: int)
    requires count != 0 && n <= |data| && 0 <= k < |BarsCommands(x, y, w, h, data, count, n)|
    requires BarsCommands(x, y, w, h, data, count, n)[k].Text?
    ensures BarsCommands(x, y, w, h, data, count, n)[k].y == ChartBottom(y, h) + 22
  {
    if n > 0 {
      var prefix := BarsCommands(x, y, w, h, data, count, n - 1);
      var last := BarCommands(x, y, w, h, count, data[n - 1], n - 1);
      assert BarsCommands(x, y, w, h, data, count, n) == prefix + last;
      if k < |prefix| {
        BarLabelsRow(x, y, w, h, data, count, n - 1, k);
      } else {
        BarLabelRow(x, y, w, h, count, data[n - 1], n - 1, k - |prefix|);
      }
    }
  }

  /** No text of the chart is written where the age goes. */
  lemma ChartLeavesAgeSpot(r: Readings, text: string)
    ensures Text(FiraSans, text, BatteryX - 80, EpdHeight - 15) !in ChartCommands(40, 270, 280, 210, r.precipitation, PrecipHours)
  {
    var age := Text(FiraSans, text, BatteryX - 80, EpdHeight - 15);
    var bars := BarsCommands(40, 270, 280, 210, r.precipitation, PrecipHours, PrecipHours);
    assert ChartCommands(40, 270, 280, 210, r.precipitation, PrecipHours)
      == [Text(FiraSans, ChartTitle, 40, 290)] + GridCommands(40, 270, 280, 210) + bars;
    if age in bars {
      var k :| 0 <= k < |bars| && bars[k] == age;
      BarLabelsRow(40, 270, 280, 210, r.precipitation, PrecipHours, PrecipHours, k);
    }
  }

  /** No text of the upper part is written where the age goes. */
  lemma HeaderLeavesAgeSpot(r: Readings, advance: Advance, text: string)
    ensures Text(FiraSans, text, BatteryX - 80, EpdHeight - 15) !in HeaderCommands(r, advance)
  {
  }

  /** The age text appears on screen exactly when the age buffer is not
      empty, and nothing else is written where it goes. */
  lemma AgeShownIffPresent(r: Readings, advance: Advance)
    ensures Text(FiraSans, r.age, BatteryX - 80, EpdHeight - 15) in DisplayCommands(r, advance) <==> |r.age| > 0
  {
    var age := Text(FiraSans, r.age, BatteryX - 80, EpdHeight - 15);
    var before := HeaderCommands(r, advance)
      + ChartCommands(40, 270, 280, 210, r.precipitation, PrecipHours)
      + BatteryCommands(BatteryX, BatteryY, r.battery);
    HeaderLeavesAgeSpot(r, advance, r.age);
    ChartLeavesAgeSpot(r, r.age);
    assert age !in before;
    assert DisplayCommands(r, advance) == before + AgeCommands(r.age) + PushCommands;
  }

  /** Every refresh ends by pushing the frame to the panel and powering off. */
  lemma RefreshEndsWithPush(r: Readings, advance: Advance)
    ensures var calls := DisplayCommands(r, advance);
      |calls| >= 4 && calls[|calls| - 4..] == [PowerOn, ClearPanel, DrawFullScreen, PowerOff]
      && calls[0] == Text(FiraSansLarge, TempText(r.tempCurrent), 50, 130)
  {
  }

  /** The rendered frame in closed form: framebuffer byte k holds icon
      byte (row - 22, col - 340) inside the icon's 200-row, 100-byte box and
      white everywhere else; no part of the icon is clipped. */
  lemma RenderedFrameContents(bitmap: seq<Byte>, k: int)
    requires |bitmap| == IconBytes && 0 <= k < FramebufferSize
    ensures RenderedFrame(bitmap)[k] ==
      if 22 <= k / 480 < 222 && 340 <= k % 480 < 440
      then bitmap[(k / 480 - 22) * IconRowBytes + (k % 480 - 340)]
      else 0xFF
  {
    var row, col := k / (EpdWidth / 2), k % (EpdWidth / 2);
    if 22 <= row < 222 && 340 <= col < 440 {
      assert InIcon(row - 22, col - 340) && OnPanel(IconLeft, IconTop, row - 22, col - 340);
      assert IconSource(IconLeft, IconTop, k) == Some(BitmapIndex(row - 22, col - 340));
    } else {
      assert IconSource(IconLeft, IconTop, k) == None;
    }
  }
}
