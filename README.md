# weather-esp32 in Dafny

A model of the weather station: an ESP32 driving a 960×540 e-paper panel
with 4-bit grey levels. It has three parts.

- **Worker.** A Cloudflare worker turns a WeatherAPI.com forecast into a small
  JSON snapshot. That snapshot holds the temperatures, a condition name, a
  twelve-hour precipitation series, UV and an `updated` timestamp.
- **Firmware.** It fetches the snapshot, with up to three HTTP attempts. It
  works out how old the data is and decides whether the panel needs a redraw:
  a refresh costs power and flashes the screen. When it does redraw, it lays
  out the screen into a packed framebuffer: big temperature, weather icon,
  high/low, UV, a precipitation bar chart, a battery gauge and a "data age"
  label.
- **Icon converter.** A desktop tool turns the icon images into the
  nibble-packed C arrays that the firmware blits.

Modules, one per component:

| module | models |
|---|---|
| `Support` | C integer division, `%d` printing and reading back, `snprintf` truncation, and reading a C string out of a char buffer |
| `Epd` | the driver calls the display code makes, recorded as `DrawCmd` values; the grey levels |
| `WeatherIcons` | `src/weather_icons.h`: the condition enum, the bitmap each condition selects, and the clipped, nibble-packed icon blit on the framebuffer `array` |
| `WeatherFetch` | `src/weather_fetch.h`: `WeatherData`, `parseWeatherIcon`, and what `fetchWeatherData` writes over at most three attempts |
| `Freshness` | `parse_timestamp_to_epoch`, `get_data_age_minutes` and `format_data_age` in `src/main.cpp` |
| `ChangeDetection` | `weather_data_changed` in `src/main.cpp` |
| `PrecipChart` | `src/precip_chart.h`: chart geometry, and the gridline and bar loops as methods that emit exactly the chart's draw commands |
| `Render` | `draw_battery_icon` and `render_display` in `src/main.cpp`; `Panel` is the framebuffer plus the log of driver calls |
| `Station` | `setup()` and `loop()` in `src/main.cpp`: the `Station` class holds the three `prev_*` globals and the panel |
| `WeatherApi` | `worker/src/providers/weatherapi.js`: condition-code mapping, the precipitation window, the `updated` string |
| `ConvertIcons` | `tools/convert_icons.py`: quantising, nibble packing, C-array formatting |
| `Pipeline` | how the three programs fit: array names and sizes, and the worker's document as the device reads it |

Inputs that the source takes from the world become parameters:
- Each cycle's network is a function from attempt number to response. The
  JSON document is a record of optional fields.
- `mktime` is a function `Tm -> int`; `time()` is the cycle's `now`.
- The battery percentage is an input (`Percent`), and so is the worker's
  clock hour.
- The glyph advance of `writeln` is a function `Advance`; the low
  temperature's x position depends on it.

Screen output is modelled two ways. Every drawing call is recorded as a
`DrawCmd` in order. The framebuffer `array` models the `memset` and the icon
blit byte for byte.

## Model

| member | source | states |
|---|---|---|
| `Support.CDiv` | src/precip_chart.h:17 | C's `/` truncates toward zero: for a positive divisor the remainder lies in `[0, b)` for a non-negative dividend and in `(-b, 0]` for a negative one |
| `Support.NatToDecimal` | src/main.cpp:96-98 | `%d` of a non-negative value is a non-empty run of digits |
| `Support.IntToDecimal` | src/main.cpp:144 | `%d` prints a non-empty text that starts with a minus sign exactly when the value is negative |
| `Support.IntDecimalRoundTrip` | src/main.cpp:144 | the text `%d` prints for any integer is a signed run of digits that reads back as that integer |
| `Support.DecimalRoundTrip` | src/main.cpp:35 | reading back (as `sscanf`'s `%d` does) the digits `%d` printed gives the value printed |
| `Support.DecimalLength` | src/main.cpp:144 | a value below 10^k prints in at most k digits |
| `Support.DecimalLengthAtLeast` | src/main.cpp:144 | a value of at least 10^k prints in more than k digits |
| `Support.Snprintf` | src/main.cpp:96 | `snprintf` into `size` bytes keeps a prefix of at most `size - 1` characters, and the whole text when it fits |
| `Support.SnprintfWhole` | src/main.cpp:153-154 | `snprintf` keeps the text whole exactly when it is shorter than the buffer |
| `Support.IntDecimalAtMost` | src/main.cpp:143-144 | an integer strictly between -10^(k-1) and 10^k prints in at most k characters |
| `Support.IntDecimalMore` | src/main.cpp:143-144 | an integer outside that range needs more than k characters |
| `Support.SnprintfInto` | src/main.cpp:96-98 | the buffer receives the kept prefix, then a NUL; bytes after the NUL are untouched |
| `Support.CStringOf` | src/main.cpp:240 | reading a buffer up to its first NUL (`strlen`) gives a NUL-free prefix that ends at a NUL |
| `WeatherIcons.BitmapNamesDistinct` | src/weather_icons.h:59-81 | distinct conditions select distinct bitmap arrays |
| `WeatherIcons.FbIndex` | src/weather_icons.h:88-91 | every framebuffer index that passes the clip test lies in `[0, EPD_WIDTH*EPD_HEIGHT/2)` |
| `WeatherIcons.BitmapIndex` | src/weather_icons.h:86-92 | every bitmap index `row*100 + col` lies in `[0, 20000)`, and its row and column are recovered by `/` and `%` |
| `WeatherIcons.SourceOfWrite` | src/weather_icons.h:88-93 | the byte written for (row, col) is attributed by the inverse map back to bitmap byte `row*100 + col` |
| `WeatherIcons.WriteOfSource` | src/weather_icons.h:88-93 | every framebuffer byte the inverse map attributes to the icon is the write target of exactly that (row, col) |
| `WeatherIcons.BlitStep` | src/weather_icons.h:86-96 | one pass of the inner loop changes only the clipped target byte of that (row, col) |
| `WeatherIcons.DrawWeatherIcon` | src/weather_icons.h:43-98 | `draw_weather_icon` leaves the framebuffer equal to the blit of the condition's bitmap at `(cx - 100, cy - 100)`; `size` plays no part |
| `WeatherIcons.BlitCopiesIcon` | src/weather_icons.h:90-93 | every on-panel icon byte lands at its target index |
| `WeatherIcons.BlitKeepsRest` | src/weather_icons.h:86-96 | framebuffer bytes that no in-bounds (row, col) targets are unchanged |
| `WeatherIcons.BlitWritesOnlyIcon` | src/weather_icons.h:86-96 | every byte that changed was written from some (row, col) and holds that bitmap byte |
| `WeatherIcons.BlitFullIcon` | src/weather_icons.h:86-93 | for an icon fully on screen at even x, `fb[((y+row)*EPD_WIDTH + x + 2*col)/2] == bitmap[row*100 + col]` |
| `WeatherFetch.IconName` | src/weather_fetch.h:95-102 | every condition has one of the seven recognised names |
| `WeatherFetch.ParseWeatherIcon` | src/weather_fetch.h:95-104 | a recognised name gives the condition of that name; any other string gives partly cloudy |
| `WeatherFetch.ParseIconName` | src/weather_fetch.h:95-104 | parsing a condition's name gives the condition back |
| `WeatherFetch.TruncatedUpdated` | src/weather_fetch.h:162-164 | `updated` is a prefix of the sent text, kept whole below 32 characters and cut to 31 otherwise, so it always ends within its field |
| `WeatherFetch.Extracted` | src/weather_fetch.h:145-166 | missing temperatures and UV read 0, a missing condition reads partly cloudy, precipitation is padded with 0 to twelve entries, and the snapshot is marked valid |
| `WeatherFetch.PadPrecipitation` | src/weather_fetch.h:154-157 | entry i is the array element when i is below the array size, else 0, for exactly twelve entries |
| `WeatherFetch.FirstParsed` | src/weather_fetch.h:115-143 | the attempt that yields a document is within the three attempts |
| `WeatherFetch.FetchWeatherData` | src/weather_fetch.h:107-228 | `valid` is true exactly when the fetch returns true, at most three attempts are made, and a failed fetch leaves every other field as it was |
| `Freshness.DigitRun` | src/main.cpp:35 | `%d` reads the longest run of digits |
| `Freshness.Scan` | src/main.cpp:35 | a successful scan yields one number per `%d` of the format |
| `Freshness.ScanIntOfDigits` | src/main.cpp:35 | `%d` on digits followed by a non-digit reads their value and stops at the non-digit |
| `Freshness.IsoTextScans` | src/main.cpp:35 | `%d-%d-%dT%d:%d:%d` reads all six fields of a `Y-M-DTh:m:s` text |
| `Freshness.IsoTimestampScans` | src/main.cpp:34-35 | the ISO 8601 extended date-time text of six digit strings parses back to their six values |
| `Freshness.TimestampToEpoch` | src/main.cpp:28-48 | an empty or unparseable timestamp gives 0 |
| `Freshness.IsoTimestampToEpoch` | src/main.cpp:34-44 | an ISO timestamp of digit fields reaches `mktime` as year − 1900, month − 1, day, hour, minute, second and `tm_isdst` −1, and its epoch is what `mktime` returns for that |
| `Freshness.DataAgeMinutes` | src/main.cpp:51-75 | the age is -1 exactly for an empty or unparseable timestamp or an unsynced clock, and is never below -1; otherwise it is the whole minutes in the elapsed seconds, a timestamp in the future counting as age 0 |
| `Freshness.AgeLabel` | src/main.cpp:78-100 | the label is empty exactly when the age is unknown or at most 30 minutes; otherwise it ends in `m` and carries an hours part (`h`) exactly when the age is an hour or more |
| `Freshness.HoursLabelRoundTrip` | src/main.cpp:95-96 | an `"Hh Mm"` label reads back as 60·H + M minutes |
| `Freshness.MinutesLabelRoundTrip` | src/main.cpp:97-98 | an `"Nm"` label reads back as N minutes |
| `Freshness.AgeLabelRoundTrip` | src/main.cpp:91-99 | every shown label reads back as the age it was made from, so no two ages share a label |
| `Freshness.AgeLabelFits` | src/main.cpp:341-342 | for every 32-bit age the label fits the 16-byte `age_str` and is never cut |
| `Freshness.FormatDataAge` | src/main.cpp:78-100 | `format_data_age` writes the label, cut by `snprintf` to the buffer, then a NUL, and nothing after it |
| `ChangeDetection.Abs` | src/main.cpp:282 | `abs` is the value or its negation, never negative |
| `ChangeDetection.WeatherDataChanged` | src/main.cpp:254-286 | the early-return comparison, precipitation loop included, decides exactly the change predicate |
| `ChangeDetection.ValidityFlipRedraws` | src/main.cpp:256 | a change of validity is always a change |
| `ChangeDetection.BothInvalidNeverRedraw` | src/main.cpp:259 | two invalid snapshots are never a change, whatever else differs |
| `ChangeDetection.NewTimestampRedraws` | src/main.cpp:262 | two valid snapshots with different `updated` strings are a change |
| `ChangeDetection.PrecipitationHourRedraws` | src/main.cpp:277-279 | a difference in any precipitation hour is a change |
| `ChangeDetection.BatteryTolerated` | src/main.cpp:282 | between equal valid snapshots it is a change exactly when the battery moved by more than 10 |
| `ChangeDetection.ChangedSymmetric` | src/main.cpp:254-286 | swapping old and new, snapshot and battery together, gives the same verdict |
| `ChangeDetection.UnchangedNeverRedraws` | src/main.cpp:254-286 | a snapshot compared with itself at the same battery level is no change |
| `PrecipChart.HourLabel` | src/precip_chart.h:43-46 | the hour label lies in 1..12 and agrees with i modulo 12 |
| `PrecipChart.HourLabelWhole` | src/precip_chart.h:43-46 | every hour label fits `label[4]` whole, so `snprintf` never cuts it |
| `PrecipChart.DrawBar` | src/precip_chart.h:34-50 | one pass of the bar loop draws bar i as a filled rectangle exactly when its height is positive, one bar width wide, as tall as the percentage of the plot and standing on the baseline; it is followed by the whole hour label (1..12), centred under the bar 5 px left of its middle, 22 px below the baseline |
| `PrecipChart.DrawGridlines` | src/precip_chart.h:25-30 | the gridline loop draws exactly the lines at 25, 50 and 75 percent |
| `PrecipChart.DrawPrecipChart` | src/precip_chart.h:10-52 | `draw_precip_chart` issues the title at `(x, y+20)`, then the gridlines, then every bar, in order |
| `PrecipChart.BarsSpaced` | src/precip_chart.h:35 | consecutive bars start exactly one bar width plus 8 pixels apart |
| `PrecipChart.BarsWithinChart` | src/precip_chart.h:17-35 | when `w >= 8*(count+1)` every bar lies within `[x + 8, x + w - 8]` |
| `PrecipChart.BarHeightBounds` | src/precip_chart.h:36-39 | for data in 0..100 the bar height is in `[0, chart_h]` and the bar stands on `chart_y + chart_h` |
| `PrecipChart.BarDrawnWhenTallEnough` | src/precip_chart.h:36-40 | a bar is drawn exactly when `chart_h * data[i]` reaches 100 |
| `PrecipChart.GridlinesOrdered` | src/precip_chart.h:26-30 | the gridlines go up the plot in order and stay inside it |
| `PrecipChart.HourLabelsRun` | src/precip_chart.h:43-46 | the bars are labelled 12, 1, 2, …, 11 |
| `PrecipChart.FirmwareChartLayout` | src/main.cpp:173 | at the firmware's placement the plot is 155 pixels high from row 295, and bar i is 14 pixels wide at x = 48 + 22i, inside the chart |
| `Render.Blank` | src/main.cpp:140 | the cleared framebuffer is `EPD_WIDTH*EPD_HEIGHT/2` bytes of 0xFF |
| `Render.BatteryFillWidth` | src/main.cpp:129 | the fill is `38*percent/100` truncated: between 0 and 38 for percentages 0..100 |
| `Render.RenderedFrame` | src/main.cpp:140-149 | the frame after a render is framebuffer-sized |
| `Render.Panel.constructor` | src/main.cpp:303 | `ps_calloc` gives a zeroed framebuffer, with no driver call made yet |
| `Render.Panel.InitDriver` | src/main.cpp:310 | `epd_init` is recorded |
| `Render.Panel.ClearFramebuffer` | src/main.cpp:140 | the memset loop leaves every byte 0xFF |
| `Render.Panel.RenderDisplay` | src/main.cpp:136-251 | `render_display` issues exactly the screen's commands in order, and leaves the framebuffer as the cleared frame with the icon blitted at (680, 22) |
| `Render.LayOutHeader` | src/main.cpp:142-170 | seven calls: the high temperature at x = 50 and the low one on the same row 30 px after the high text's advance; the sun 80 px after the low text's advance and the UV line 27 px after the sun; the icon centred on (780, 122); the divider at y = 265 from x = 40, 880 px long |
| `Render.TempTextWhole` | src/main.cpp:143-144 | the temperature fits `temp_str[8]` uncut exactly for -9999..99999 |
| `Render.LabelledTempWhole` | src/main.cpp:152-154 | `H:`/`L:` texts of a 32-bit value fit their 16-byte buffers unless the value is below -999999999 |
| `Render.UvTextWhole` | src/main.cpp:164-165 | two-digit UV values fit `uv_str[16]` uncut |
| `Render.BatteryFillShown` | src/main.cpp:129-132 | the fill rectangle is drawn exactly from 3 percent up, so 0 percent draws none |
| `Render.BatteryFillMonotone` | src/main.cpp:129 | a fuller battery never shows a shorter fill |
| `Render.BatteryFillInside` | src/main.cpp:120-132 | the fill stays inside the outline, and 100 percent fills all 38 pixels |
| `Render.BarLabelsRow` | src/precip_chart.h:43-50 | every text the bar loop writes sits on the label row under the plot |
| `Render.ChartLeavesAgeSpot` | src/main.cpp:173 | the chart never writes at the age label's position |
| `Render.HeaderLeavesAgeSpot` | src/main.cpp:142-170 | the header never writes at the age label's position |
| `Render.AgeShownIffPresent` | src/main.cpp:239-244 | the age label is drawn exactly when its string is non-empty |
| `Render.RefreshEndsWithPush` | src/main.cpp:143-250 | a render starts with the large temperature and ends with power on, clear, full-screen draw, power off |
| `Render.RenderedFrameContents` | src/main.cpp:140-149 | every byte of the rendered frame is 0xFF except the 200×200 icon box at rows 22..221, where it is the bitmap byte |
| `Station.FetchedValid` | src/main.cpp:364-376 | the cycle's snapshot is valid exactly when WiFi connected and an attempt parsed; otherwise it is the stack contents marked invalid |
| `Station.AgeTextHasNoNul` | src/main.cpp:341-342 | the age text has no NUL, so `strlen` reads all of it |
| `Station.FormatAgeText` | src/main.cpp:341-342 | formatting into `age_str[16]` and reading it back gives the label cut to 15 characters |
| `Station.Acquire` | src/main.cpp:313-325 | the connect-and-fetch step yields the cycle's snapshot |
| `Station.Station.constructor` | src/main.cpp:17-25 | the globals start zeroed and invalid, with battery and age -1, and the panel is fresh |
| `Render.Panel.ReadBattery` | src/main.cpp:103-107 | reading the battery powers the panel on and off again |
| `Station.Station.Setup` | src/main.cpp:288-354 | `setup` clears, initialises, powers the panel on and off for the battery reading, renders the fetched snapshot or the error screen, and saves the cycle's snapshot, battery and age |
| `Station.Station.Loop` | src/main.cpp:356-424 | `loop` powers the panel on and off for the battery reading on every cycle, redraws exactly when the data changed or the age label's visibility flipped, makes no other driver call and leaves the framebuffer as it was otherwise, and saves the cycle's values on both paths |
| `Station.SetupScreen` | src/main.cpp:327-342 | setup's readings: the fetched values, or zeros, cloudy and an all-zero series on failure; the age comes from the fetched or the previous timestamp |
| `Station.LoopScreen` | src/main.cpp:378-399 | loop's readings fall back field by field to `prev_weather`, and the redraw verdict is `data_changed || age_display_changed` |
| `Station.FailedSetupShowsErrorScreen` | src/main.cpp:327-333 | a failed first fetch shows 0 degrees, the cloudy icon, an empty chart and no age |
| `Station.FailureRedrawsOnlyOnAgeFlip` | src/main.cpp:394-399 | while fetches keep failing, the panel redraws only when the age label appears or disappears |
| `Station.ValidityChangeRedraws` | src/main.cpp:395-399 | losing or regaining data always redraws |
| `Station.SteadyStateKeepsPanel` | src/main.cpp:394-409 | the same snapshot, a battery within 10 and no age flip do not refresh the panel |
| `Station.FailedFetchShowsPrevious` | src/main.cpp:378-390 | a failed fetch shows every value of `prev_weather` and ages its timestamp |
| `Station.AgeOnScreenIffStale` | src/main.cpp:390-397 | the age text is non-empty exactly when the age is over 30 minutes |
| `Station.SecondFailureShowsStack` | src/main.cpp:364-421 | after two failures in a row the screen shows the first failure's stack contents |
| `Station.StackReachesScreen` | src/main.cpp:364-405 | an instance where stack contents redraw the panel with a temperature of 12345 |
| `Station.KeptIgnoresStack` | src/main.cpp:378-388 | with the last good snapshot kept, the readings, the redraw verdict and the next state never depend on stack contents |
| `Station.KeptSetupIgnoresStack` | src/main.cpp:327-353 | setup under the corrected state never depends on stack contents |
| `Station.KeptAgreesAfterGoodFetch` | src/main.cpp:378-423 | while the last fetch was good the corrected state behaves exactly as the firmware |
| `WeatherApi.MapConditionToIcon` | worker/src/providers/weatherapi.js:99-137 | the name is always one the device recognises; it is partly cloudy exactly for 1003 and unlisted codes, and sunny exactly for 1000 |
| `WeatherApi.MappedConditionReachesDevice` | worker/src/providers/weatherapi.js:99-137 | the device parses the sent name as the code's condition, the lists taken in any order, whatever the day flag |
| `WeatherApi.MappedName` | worker/src/providers/weatherapi.js:101-136 | the provider's if-chain agrees with the reverse-order reading of the lists |
| `WeatherApi.PrecipChance` | worker/src/providers/weatherapi.js:40 | an hour's chance is the larger of the rain and snow chances, a missing one counting as 0 |
| `WeatherApi.WindowIndex` | worker/src/providers/weatherapi.js:38 | the hour index is always in 0..23 |
| `WeatherApi.PrecipitationWindow` | worker/src/providers/weatherapi.js:36-42 | the loop yields twelve entries, entry i the chance of hour `(currentHour + i) % 24`, and fails exactly when the forecast lacks an hour it reads |
| `WeatherApi.FullDayCoversWindow` | worker/src/providers/weatherapi.js:27-39 | a full 24-hour forecast always covers the window |
| `WeatherApi.WindowWrapsWithinToday` | worker/src/providers/weatherapi.js:38-39 | past midnight, entry i reads an hour earlier today than the current one |
| `WeatherApi.LateWindowReadsPastHour` | worker/src/providers/weatherapi.js:37-40 | at 20:00, entry 4 reads hour 0 of today |
| `WeatherApi.NextHoursWindow` | worker/src/providers/weatherapi.js:34-42 | the corrected window exists exactly when the forecast reaches twelve hours ahead, and then has twelve entries |
| `WeatherApi.NextHoursWindowFollowsClock` | worker/src/providers/weatherapi.js:34-42 | corrected entry i is the forecast for i hours ahead, and before midnight it equals the provider's entry |
| `WeatherApi.FindPart` | worker/src/providers/weatherapi.js:89 | `find` gives the first part of the type, or none when no part has it |
| `WeatherApi.PartValue` | worker/src/providers/weatherapi.js:89 | `get` gives the text of the first part of that type, or "00" when there is no such part or its text is empty |
| `WeatherApi.UpdatedStringParses` | worker/src/providers/weatherapi.js:88-90 | with digit fields, `updated` parses back through the device's six-field format to the six values |
| `ConvertIcons.Gray4` | tools/convert_icons.py:48-51 | `gray8 >> 4` is the 16-level band that the grey value lies in, so it is in 0..15 |
| `ConvertIcons.QuantisedAt` | tools/convert_icons.py:45-52 | pixel (x, y) sits at position `y*n + x`: pixels are collected row by row |
| `ConvertIcons.QuantisePixels` | tools/convert_icons.py:45-52 | the nested loops produce the quantised image, `n²` pixels |
| `ConvertIcons.Packed` | tools/convert_icons.py:55-60 | n pixels pack into ⌈n/2⌉ bytes |
| `ConvertIcons.PackedRoundTrip` | tools/convert_icons.py:55-60 | `byte >> 4` and `byte & 0xF` recover the pixels, plus one 0 nibble after an odd-length list |
| `ConvertIcons.PackNibbles` | tools/convert_icons.py:55-60 | the stride-2 loop produces the packed bytes |
| `ConvertIcons.HexByte` | tools/convert_icons.py:74 | each byte prints as four characters starting `0x` |
| `ConvertIcons.HexByteRoundTrip` | tools/convert_icons.py:74 | both printed digits are uppercase hexadecimal digits, and they read back as the byte |
| `ConvertIcons.CIdentifier` | tools/convert_icons.py:63-65 | each hyphen of the stem becomes `_`, every other character is kept, so the identifier has no hyphen |
| `ConvertIcons.ChunkSizes` | tools/convert_icons.py:72-75 | every data line holds 1 to 12 bytes, all but the last exactly 12 |
| `ConvertIcons.ChunksCoverBytes` | tools/convert_icons.py:72-75 | the data lines hold the bytes in order, each exactly once |
| `ConvertIcons.CArrayLines` | tools/convert_icons.py:68-78 | the C text has ⌈len/12⌉ data lines plus the comment, declaration, closing and empty lines |
| `ConvertIcons.CArrayDataLine` | tools/convert_icons.py:72-75 | data line j of the C text prints bytes 12j up to 12j+12 (or the end), so with `ChunksCoverBytes` the text prints every byte in order |
| `ConvertIcons.FormatCArray` | tools/convert_icons.py:62-80 | the stride-12 loop builds exactly those lines |
| `ConvertIcons.PngToEpd47Bitmap` | tools/convert_icons.py:17-80 | the C text is the formatting of the packed, quantised image |
| `ConvertIcons.PackedIconSize` | tools/convert_icons.py:55-60 | an n×n image packs into ⌈n²/2⌉ bytes: 20000 at size 200 |
| `Pipeline.StemConverted` | tools/convert_icons.py:86-96 | every condition's image is among those converted |
| `Pipeline.ConvertedBitmapName` | src/weather_icons.h:59-81 | the generated array for each condition's image has the name the blit links against |
| `Pipeline.ConvertedIconFitsBlit` | src/weather_icons.h:86-93 | a converted 200×200 icon is exactly `ICON_SIZE*ICON_SIZE/2` bytes, the size the blit reads |
| `Pipeline.WorkerDocumentReadsBack` | src/weather_fetch.h:145-164 | the worker's condition, window and `updated` string reach the device's snapshot as sent, and the timestamp scans |
| `Pipeline.PrecipitationArrives` | src/weather_fetch.h:154-157 | a twelve-entry precipitation array reaches the snapshot unchanged |
| `Pipeline.UpdatedArrives` | src/weather_fetch.h:162-164 | an `updated` text shorter than its 32-byte field reaches the snapshot unchanged |

## Left out

- WiFi association, HTTP requests, retry delays, `Serial` logging and `disconnectWiFi` are network and console I/O. Each attempt's outcome is an input.
- ArduinoJson parsing and the worker's JSON output are left out. The document is a record of optional fields.
- `read_battery_percent` and the ADC `vref` calibration use floating-point maths on hardware readings. The percentage is an input in 0..100; only the function's `epd_poweron`/`epd_poweroff` pair is recorded, by `Render.Panel.ReadBattery`.
- `draw_sun_small` uses floating-point `cos`/`sin`. It is recorded as a command only.
- Glyph rasterising by `writeln` and line/rectangle drawing by the `epd_*` driver are left out. The framebuffer model covers only the `memset` and the icon blit; the rest is the command log.
- `mktime` (calendar, time zone, daylight saving) and `time()` are parameters. `delay` between cycles is not modelled.
- The commented-out UV meter in `render_display` is dead code.
- `EPD_WIDTH`, `EPD_HEIGHT` and `PRECIP_HOURS` are defined outside the files modelled. They are taken as 960, 540 and 12.
- `Station.Station.Setup` models `setup` running once, on the statically initialised globals, with `ps_calloc` already succeeded. A failed allocation hangs the device forever and is not modelled.
- `Freshness.DataAgeMinutes`: the `(int)difftime(...)` cast in `get_data_age_minutes` is taken as exact; its overflow for spans beyond 68 years is not modelled.
- `Render.LabelledTempWhole`: only the 32-bit range of the temperatures is covered.
- The uninitialised fields of the stack snapshot are an input of each cycle, `Cycle.stack`, not an unspecified value.
- `Cycle.stack` is a well-formed `WeatherData`: its icon is one of the seven conditions and its `updated` is a NUL-free string under 32 characters. Uninitialised memory can also hold an out-of-range enum value, for which the `switch` in `draw_weather_icon` leaves `bitmap` NULL. It can also hold an `updated` with no NUL, which `strlen` and `strcmp` would read past. Neither case is modelled.
- Strings are sequences without NUL characters. `strncpy` in `fetchWeatherData` and `strcmp` in `weather_data_changed` stop at an embedded NUL; `WeatherFetch.TruncatedUpdated` and `ChangeDetection.SameContent` work on the whole sequence, so a JSON `updated` value with an embedded NUL is not modelled.
- `transform`'s `Math.round`/`Math.max` over float temperatures and UV, the moon fields and `is_day` are not modelled.
- `Intl.DateTimeFormat` with the America/New_York zone is an input: the list of formatted parts.
- `fetchRaw`, the worker's routing and cache, the provider registry, the worker test script, `preview.py` and `icon_viewer.cpp` are glue, mock-ups or demos.
- PIL loading, resizing, compositing over white and grey conversion in the converter are left out, as are its file reads and writes. The tool's input is the 8-bit grey image.

## Findings

| source | as written | input that shows it | evidently intended | confidence | as-written member | corrected member |
|---|---|---|---|---|---|---|
| src/main.cpp:364-421 | `loop` declares `weather` on the stack and sets only `valid = false`. On a failed fetch it saves that snapshot as `prev_weather`, so the next failed cycle's fallback reads uninitialised fields. | A good snapshot, then two failed cycles. The second one displays and ages whatever well-formed values the stack held, e.g. a temperature of 12345, and redraws the panel. | While fetches fail, keep showing the last good data (the comment at line 378), i.e. keep the last valid snapshot | not executed; high | `Station.StackReachesScreen` | `Station.KeptIgnoresStack` |
| worker/src/providers/weatherapi.js:37-39 | The window reads hour `(currentHour + i) % 24` of today's forecast only. | At 20:00, entries 4..11 read hours 0..7 of the current day, which are already past, instead of the coming night. | The next twelve hours, crossing into tomorrow's forecast (the device titles the chart "Precipitation next 12h") | not executed; medium | `WeatherApi.LateWindowReadsPastHour` | `WeatherApi.NextHoursWindowFollowsClock` |

The `Station` class models the firmware as written, so the first finding is
visible in it. The corrected state, `KeptState`, keeps the last valid snapshot
beside the saved globals. It agrees with the firmware while fetches succeed,
and nothing it shows or decides depends on stack contents.
