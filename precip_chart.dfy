/** `draw_precip_chart`: a bar chart of precipitation chances, one bar per
    hour, with a title above, gridlines at a quarter, half and three quarters
    of the plotting height, and an hour label under each bar. */
module PrecipChart {
  import opened Support
  import opened Epd

  /** Room kept for the hour labels under the plot. */
  const LabelHeight: int := 30
  /** Room kept for the title above the plot. */
  const TitleHeight: int := 25
  /** Space before, between and after the bars. */
  const BarGap: int := 8
  const ChartTitle: string := "Precipitation next 12h"
  /** Bytes of the hour label buffer (`char label[4]`). */
  const HourLabelSize: nat := 4

  /** Height of the plotting area. */
  function ChartHeight(h: int): int
  {
    h - LabelHeight - TitleHeight
  }

  /** Top edge of the plotting area. */
  function ChartTop(y: int): int
  {
    y + TitleHeight
  }

  /** The baseline the bars stand on. */
  function ChartBottom(y: int, h: int): int
  {
    ChartTop(y) + ChartHeight(h)
  }

  /** The width left for each bar once the gaps are taken out, shared out
      with C's truncating division. */
  function BarWidth(w: int, count: int): int
    requires count != 0
  {
    CDiv(w - BarGap * (count + 1), count)
  }

  /** Left edge of bar i. */
  function BarLeft(x: int, w: int, count: int, i: int): int
    requires count != 0
  {
    x + BarGap + i * (BarWidth(w, count) + BarGap)
  }

  /** Height of a bar for a percentage, truncated toward zero. */
  function BarHeight(h: int, percent: int): int
  {
    CDiv(ChartHeight(h) * percent, 100)
  }

  /** Row of the gridline at `pct` percent of the plotting height. */
  function GridlineY(y: int, h: int, pct: int): int
  {
    ChartBottom(y, h) - CDiv(ChartHeight(h) * pct, 100)
  }

  /** The hour printed under bar i: the bars are labelled 12, 1, 2, ... */
  function HourLabel(i: nat): (hour: int)
    ensures 1 <= hour <= 12 && hour % 12 == i % 12
  {
    var hour := (12 + i) % 12;
    if hour == 0 then 12 else hour
  }

  /** An hour label always fits its 4-byte buffer whole. */
  lemma HourLabelWhole(i: nat)
    ensures Snprintf(IntToDecimal(HourLabel(i)), HourLabelSize) == IntToDecimal(HourLabel(i))
  {
    assert Pow10(2) == 100;
    IntDecimalAtMost(HourLabel(i), 2);
  }

  /** The commands for bar i: a filled bar standing on the baseline when its
      height is positive, then its hour label (which `snprintf` keeps whole,
      by `HourLabelWhole`). */
  function BarCommands(x: int, y: int, w: int, h: int, count: int, percent: int, i: nat): seq<DrawCmd>
    requires count != 0
  {
    var barH := BarHeight(h, percent);
    var barW := BarWidth(w, count);
    var bx := BarLeft(x, w, count, i);
    (if barH > 0 then [FillRect(bx, ChartBottom(y, h) - barH, barW, barH, Black)] else [])
    + [Text(FiraSans, IntToDecimal(HourLabel(i)), bx + CDiv(barW, 2) - 5, ChartBottom(y, h) + 22)]
  }

  /** The commands for the first n bars. */
  function BarsCommands(x: int, y: int, w: int, h: int, data: seq<int>, count: int, n: nat): seq<DrawCmd>
    requires count != 0 && n <= |data|
  {
    if n == 0 then []
    else BarsCommands(x, y, w, h, data, count, n - 1) + BarCommands(x, y, w, h, count, data[n - 1], n - 1)
  }

  /** The three gridlines, from the lowest up. */
  function GridCommands(x: int, y: int, w: int, h: int): seq<DrawCmd>
  {
    [HLine(x, GridlineY(y, h, 25), w, GridGray),
     HLine(x, GridlineY(y, h, 50), w, GridGray),
     HLine(x, GridlineY(y, h, 75), w, GridGray)]
  }

  /** Everything the chart draws, in order: title, gridlines, bars. */
  function ChartCommands(x: int, y: int, w: int, h: int, data: seq<int>, count: int): seq<DrawCmd>
    requires count != 0 && (count < 0 || count <= |data|)
  {
    [Text(FiraSans, ChartTitle, x, y + 20)] + GridCommands(x, y, w, h)
    + (if count < 0 then [] else BarsCommands(x, y, w, h, data, count, count))
  }

  /** Bar i as the chart shows it: a filled rectangle standing on the
      baseline, as tall as the percentage makes it, exactly when that height
      is positive; then the whole hour label, centred under the bar on the
      label row. */
  predicate BarPlaced(bar: seq<DrawCmd>, x: int, y: int, w: int, h: int, count: int, percent: int, i: nat)
    requires count != 0
  {
    && |bar| == (if BarHeight(h, percent) > 0 then 2 else 1)
    && (BarHeight(h, percent) > 0 ==>
         && bar[0].FillRect? && bar[0].x == BarLeft(x, w, count, i)
         && bar[0].w == BarWidth(w, count) && bar[0].h == BarHeight(h, percent)
         && bar[0].y + bar[0].h == ChartBottom(y, h))
    && bar[|bar| - 1].Text? && bar[|bar| - 1].text == IntToDecimal(HourLabel(i))
    && bar[|bar| - 1].x + 5 == BarLeft(x, w, count, i) + CDiv(BarWidth(w, count), 2)
    && bar[|bar| - 1].y == ChartBottom(y, h) + 22
  }

  /** One pass of the bar loop: the bar, if it has any height, then its
      hour label. */
  method DrawBar(x: int, y: int, w: int, h: int, count: int, percent: int, i: nat)
    returns (commands: seq<DrawCmd>)
    requires count != 0
    ensures commands == BarCommands(x, y, w, h, count, percent, i)
    ensures BarPlaced(commands, x, y, w, h, count, percent, i)
  {
    HourLabelWhole(i);
    var chartH := h - LabelHeight - TitleHeight;
    var chartY := y + TitleHeight;
    var barW := CDiv(w - BarGap * (count + 1), count);
    var barH := CDiv(chartH * percent, 100);
    var bx := x + BarGap + i * (barW + BarGap);
    var barTop := chartY + chartH - barH;
    commands := [];
    if barH > 0 {
      commands := [FillRect(bx, barTop, barW, barH, Black)];
    }
    var hour := (12 + i) % 12;
    if hour == 0 {
      hour := 12;
    }
    var hourText := Snprintf(IntToDecimal(hour), HourLabelSize);
    commands := commands + [Text(FiraSans, hourText, bx + CDiv(barW, 2) - 5, chartY + chartH + 22)];
  }

  /** The gridline loop: one line across the chart at 25, 50 and 75 percent
      of the plotting height. */
  method DrawGridlines(x: int, y: int, w: int, h: int) returns (commands: seq<DrawCmd>)
    ensures commands == GridCommands(x, y, w, h)
  {
    var chartH := h - LabelHeight - TitleHeight;
    var chartY := y + TitleHeight;
    commands := [];
    var pct := 25;
    while pct <= 75
      invariant pct == 25 || pct == 50 || pct == 75 || pct == 100
      invariant commands == GridCommands(x, y, w, h)[..pct / 25 - 1]
    {
      var gy := chartY + chartH - CDiv(chartH * pct, 100);
      assert GridCommands(x, y, w, h)[..pct / 25] == commands + [HLine(x, gy, w, GridGray)];
      commands := commands + [HLine(x, gy, w, GridGray)];
      pct := pct + 25;
    }
  }

  /** `draw_precip_chart`: the title, the gridline loop and the bar loop
      issue exactly the chart's commands, in order. */
  method DrawPrecipChart(x: int, y: int, w: int, h: int, data: seq<int>, count: int)
    returns (commands: seq<DrawCmd>)
    requires count != 0 && (count < 0 || count <= |data|)
    ensures commands == ChartCommands(x, y, w, h, data, count)
  {
    var gridlines := DrawGridlines(x, y, w, h);
    var bars := [];
    var i := 0;
    while i < count
      invariant 0 <= i && (count < 0 ==> i == 0) && (count > 0 ==> i <= count)
      invariant bars == BarsCommands(x, y, w, h, data, count, i)
    {
      var bar := DrawBar(x, y, w, h, count, data[i], i);
      assert BarsCommands(x, y, w, h, data, count, i + 1) == BarsCommands(x, y, w, h, data, count, i) + bar;
      bars := bars + bar;
      i := i + 1;
    }
    assert bars == if count < 0 then [] else BarsCommands(x, y, w, h, data, count, count);
    commands := [Text(FiraSans, ChartTitle, x, y + 20)] + gridlines + bars;
  }

  /** Consecutive bars are exactly one gap apart. */
  lemma BarsSpaced(x: int, w: int, count: int, i: int)
    requires count != 0
    ensures BarLeft(x, w, count, i + 1) == BarLeft(x, w, count, i) + BarWidth(w, count) + BarGap
  {
    var s := BarWidth(w, count) + BarGap;
    assert (i + 1) * s == i * s + s;
  }

  /** When the chart is wide enough for its gaps, every bar lies inside it
      with at least one gap to either side. */
  lemma BarsWithinChart(x: int, w: int, count: int, i: int)
    requires 0 <= i < count && w >= BarGap * (count + 1)
    ensures x + BarGap <= BarLeft(x, w, count, i)
    ensures BarLeft(x, w, count, i) + BarWidth(w, count) <= x + w - BarGap
  {
    var room := w - BarGap * (count + 1);
    var bw := BarWidth(w, count);
    assert bw == room / count;
    assert 0 <= bw && bw * count <= room;
    MultiplyMonotone(i + 1, count, bw);
    assert i * (bw + BarGap) + bw == (i + 1) * bw + i * BarGap;
  }

  lemma MultiplyMonotone(a: int, b: int, c: int)
    requires a <= b && 0 <= c
    ensures a * c <= b * c
  {
    assert b * c - a * c == (b - a) * c;
  }

  /** For a percentage between 0 and 100 a bar is never taller than the
      plotting area, so it stays between the top of the plot and the baseline. */
  lemma BarHeightBounds(y: int, h: int, percent: int)
    requires ChartHeight(h) >= 0 && 0 <= percent <= 100
    ensures 0 <= BarHeight(h, percent) <= ChartHeight(h)
    ensures ChartTop(y) <= ChartBottom(y, h) - BarHeight(h, percent) <= ChartBottom(y, h)
  {
    var ch := ChartHeight(h);
    assert 0 <= ch * percent <= ch * 100;
  }

  /** A bar is drawn exactly when its percentage of the plotting height comes
      to at least one pixel. */
  lemma BarDrawnWhenTallEnough(h: int, percent: int)
    requires ChartHeight(h) >= 0 && percent >= 0
    ensures BarHeight(h, percent) > 0 <==> ChartHeight(h) * percent >= 100
  {
    assert ChartHeight(h) * percent >= 0;
  }

  /** The gridlines go up the plot in order and stay inside it. */
  lemma GridlinesOrdered(y: int, h: int)
    requires ChartHeight(h) >= 0
    ensures ChartTop(y) <= GridlineY(y, h, 75) <= GridlineY(y, h, 50) <= GridlineY(y, h, 25) <= ChartBottom(y, h)
  {
    var ch := ChartHeight(h);
    assert 0 <= ch * 25 <= ch * 50 <= ch * 75 <= ch * 100;
  }

  /** The bars are labelled 12, 1, 2, ..., 11. */
  lemma HourLabelsRun(i: nat)
    requires i < 12
    ensures HourLabel(i) == if i == 0 then 12 else i
  {
  }

  /** The chart as the firmware places it (at (40, 270), 280 by 210, twelve
      bars): a 155-pixel plot from row 295, 14-pixel bars 22 pixels apart,
      all of them inside the chart. */
  lemma FirmwareChartLayout(i: int)
    requires 0 <= i < 12
    ensures ChartHeight(210) == 155 && ChartTop(270) == 295 && BarWidth(280, 12) == 14
    ensures BarLeft(40, 280, 12, i) == 48 + 22 * i
    ensures 48 <= BarLeft(40, 280, 12, i) && BarLeft(40, 280, 12, i) + 14 <= 312
  {
    assert CDiv(280 - 8 * 13, 12) == 14;
  }
}
