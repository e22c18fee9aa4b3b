/** The weather-condition enum and the icon blit: a 200x200 icon, stored as
    nibble-packed 4-bit gray (two pixels per byte, 20000 bytes), is copied into
    the packed framebuffer of the 960x540 panel, clipped to the panel edges. */
module WeatherIcons {
  import opened Support

  /** Panel size in pixels; the framebuffer packs two pixels per byte. */
  const EpdWidth: int := 960
  const EpdHeight: int := 540
  const FramebufferSize: int := EpdWidth * EpdHeight / 2

  /** Every icon is square, IconSize pixels on a side. */
  const IconSize: int := 200
  /** Bytes in one icon row and in one whole icon. */
  const IconRowBytes: int := IconSize / 2
  const IconBytes: int := IconSize * IconSize / 2

  /** The conditions the display knows, in the order of the C enum
      (so `Sunny` is the value of a zero-initialised field). */
  datatype WeatherIcon = Sunny | Cloudy | PartlyCloudy | Rainy | Snowy | Thunderstorm | Fog

  /** The generated bitmap array each condition selects. */
  function BitmapName(icon: WeatherIcon): string
  {
    match icon
    case Sunny => "icon_sun_200"
    case Cloudy => "icon_cloud_200"
    case PartlyCloudy => "icon_partly_200"
    case Rainy => "icon_rainy_200"
    case Snowy => "icon_snowflake_200"
    case Thunderstorm => "icon_lighting_200"
    case Fog => "icon_fog_200"
  }

  /** Distinct conditions select distinct bitmaps. */
  lemma BitmapNamesDistinct(a: WeatherIcon, b: WeatherIcon)
    requires a != b
    ensures BitmapName(a) != BitmapName(b)
  {
  }

  /** The linked bitmap arrays, by name. */
  type IconTable = map<string, seq<Byte>>

  /** Every condition's bitmap is present and holds a whole icon. */
  ghost predicate CompleteTable(table: IconTable)
  {
    forall icon: WeatherIcon {:trigger BitmapName(icon)} ::
      BitmapName(icon) in table && |table[BitmapName(icon)]| == IconBytes
  }

  /** Icon byte (row, col) holds the pixels at icon columns 2*col and 2*col + 1. */
  predicate InIcon(row: int, col: int)
  {
    0 <= row < IconSize && 0 <= col < IconRowBytes
  }

  /** The clip test of the copy loop for icon byte (row, col) of an icon whose
      top-left corner is (x, y). */
  predicate OnPanel(x: int, y: int, row: int, col: int)
  {
    var fbX := x + col * 2;
    var fbY := y + row;
    0 <= fbX < EpdWidth - 1 && 0 <= fbY < EpdHeight
  }

  /** The framebuffer byte that icon byte (row, col) is written to; every index
      that passes the clip test lies inside the framebuffer. */
  function FbIndex(x: int, y: int, row: int, col: int): (k: int)
    requires OnPanel(x, y, row, col)
    ensures 0 <= k < FramebufferSize
    ensures k == (y + row) * (EpdWidth / 2) + (x + col * 2) / 2
  {
    ((y + row) * EpdWidth + x + col * 2) / 2
  }

  /** The bitmap byte read for icon byte (row, col); it lies inside the icon. */
  function BitmapIndex(row: int, col: int): (b: int)
    requires InIcon(row, col)
    ensures 0 <= b < IconBytes && b == row * IconRowBytes + col
    ensures b / IconRowBytes == row && b % IconRowBytes == col
  {
    var b := (row * IconSize + col * 2) / 2;
    assert IconSize == 200 && IconRowBytes == 100;
    assert row * 200 + col * 2 == 2 * (row * 100 + col);
    assert b == row * 100 + col;
    assert b / 100 == row && b % 100 == col;
    b
  }

  /** The inverse of the copy loop's addressing: which bitmap byte, if any,
      lands on framebuffer byte k. */
  function IconSource(x: int, y: int, k: nat): Option<int>
  {
    var row := k / (EpdWidth / 2) - y;
    var col := k % (EpdWidth / 2) - x / 2;
    if InIcon(row, col) && OnPanel(x, y, row, col) then Some(BitmapIndex(row, col)) else None
  }

  /** A byte the loop writes is attributed to the bitmap byte written there. */
  lemma SourceOfWrite(x: int, y: int, row: int, col: int)
    requires InIcon(row, col) && OnPanel(x, y, row, col)
    ensures IconSource(x, y, FbIndex(x, y, row, col)) == Some(BitmapIndex(row, col))
  {
    var k := FbIndex(x, y, row, col);
    assert (x + col * 2) / 2 == x / 2 + col;
    assert k / (EpdWidth / 2) == y + row;
    assert k % (EpdWidth / 2) == x / 2 + col;
  }

  /** A byte attributed to bitmap byte b is exactly where the loop writes b. */
  lemma WriteOfSource(x: int, y: int, k: nat, b: int)
    requires IconSource(x, y, k) == Some(b)
    ensures InIcon(b / IconRowBytes, b % IconRowBytes)
    ensures OnPanel(x, y, b / IconRowBytes, b % IconRowBytes)
    ensures FbIndex(x, y, b / IconRowBytes, b % IconRowBytes) == k
  {
    var row := k / (EpdWidth / 2) - y;
    var col := k % (EpdWidth / 2) - x / 2;
    assert b == BitmapIndex(row, col);
    assert (x + col * 2) / 2 == x / 2 + col;
  }

  /** The framebuffer after the first `done` bitmap bytes (in the loop's
      row-major order) have been copied over `orig`. */
  function BlitPrefix(orig: seq<Byte>, bitmap: seq<Byte>, x: int, y: int, done: int): (r: seq<Byte>)
    requires |bitmap| == IconBytes
    ensures |r| == |orig|
  {
    seq(|orig|, k requires 0 <= k < |orig| =>
      match IconSource(x, y, k)
      case Some(b) => if b < done then bitmap[b] else orig[k]
      case None => orig[k])
  }

  /** The framebuffer after the whole icon has been copied over `orig`. */
  function Blitted(orig: seq<Byte>, bitmap: seq<Byte>, x: int, y: int): (r: seq<Byte>)
    requires |bitmap| == IconBytes
    ensures |r| == |orig|
  {
    BlitPrefix(orig, bitmap, x, y, IconBytes)
  }

  /** Copying one more bitmap byte changes at most the byte it is written to. */
  lemma BlitStep(orig: seq<Byte>, bitmap: seq<Byte>, x: int, y: int, row: int, col: int)
    requires |bitmap| == IconBytes && |orig| == FramebufferSize && InIcon(row, col)
    ensures var done := BitmapIndex(row, col);
      BlitPrefix(orig, bitmap, x, y, done + 1) ==
        if OnPanel(x, y, row, col)
        then BlitPrefix(orig, bitmap, x, y, done)[FbIndex(x, y, row, col) := bitmap[done]]
        else BlitPrefix(orig, bitmap, x, y, done)
  {
    var done := BitmapIndex(row, col);
    var before := BlitPrefix(orig, bitmap, x, y, done);
    var after := BlitPrefix(orig, bitmap, x, y, done + 1);
    if OnPanel(x, y, row, col) {
      var k0 := FbIndex(x, y, row, col);
      SourceOfWrite(x, y, row, col);
      forall k | 0 <= k < |orig| && k != k0
        ensures after[k] == before[k]
      {
        if IconSource(x, y, k).Some? && IconSource(x, y, k).value == done {
          WriteOfSource(x, y, k, done);
        }
      }
      assert after == before[k0 := bitmap[done]];
    } else {
      forall k | 0 <= k < |orig|
        ensures after[k] == before[k]
      {
        if IconSource(x, y, k).Some? && IconSource(x, y, k).value == done {
          WriteOfSource(x, y, k, done);
        }
      }
    }
  }

  /** `draw_weather_icon`: the icon is centred on (cx, cy), so its top-left
      corner is (cx - 100, cy - 100); `size` does not affect what is drawn. */
  method DrawWeatherIcon(icon: WeatherIcon, cx: int, cy: int, size: int, fb: array<Byte>, table: IconTable)
    requires fb.Length == FramebufferSize && CompleteTable(table)
    modifies fb
    ensures fb[..] == Blitted(old(fb[..]), table[BitmapName(icon)], cx - IconSize / 2, cy - IconSize / 2)
  {
    var x := cx - IconSize / 2;
    var y := cy - IconSize / 2;
    var bitmap := table[BitmapName(icon)];
    assert |bitmap| == IconBytes;
    ghost var orig := fb[..];
    var row := 0;
    while row < IconSize
      invariant 0 <= row <= IconSize
      invariant fb[..] == BlitPrefix(orig, bitmap, x, y, row * IconRowBytes)
    {
      var col := 0;
      while col < IconSize / 2
        invariant 0 <= col <= IconRowBytes
        invariant fb[..] == BlitPrefix(orig, bitmap, x, y, row * IconRowBytes + col)
      {
        var fbX := x + col * 2;
        var fbY := y + row;
        BlitStep(orig, bitmap, x, y, row, col);
        ghost var done := BitmapIndex(row, col);
        assert done == row * IconRowBytes + col;
        if fbX >= 0 && fbX < EpdWidth - 1 && fbY >= 0 && fbY < EpdHeight {
          var fbIndex := (fbY * EpdWidth + fbX) / 2;
          var bitmapIndex := (row * IconSize + col * 2) / 2;
          assert fbIndex == FbIndex(x, y, row, col) && bitmapIndex == done;
          fb[fbIndex] := bitmap[bitmapIndex];
        }
        col := col + 1;
      }
      assert row * IconRowBytes + IconRowBytes == (row + 1) * IconRowBytes;
      row := row + 1;
    }
  }

  /** Every icon byte that passes the clip test ends up at its framebuffer byte. */
  lemma BlitCopiesIcon(orig: seq<Byte>, bitmap: seq<Byte>, x: int, y: int, row: int, col: int)
    requires |bitmap| == IconBytes && |orig| == FramebufferSize
    requires InIcon(row, col) && OnPanel(x, y, row, col)
    ensures Blitted(orig, bitmap, x, y)[FbIndex(x, y, row, col)] == bitmap[BitmapIndex(row, col)]
  {
    SourceOfWrite(x, y, row, col);
  }

  /** A framebuffer byte that no clipped icon byte addresses keeps its value. */
  lemma BlitKeepsRest(orig: seq<Byte>, bitmap: seq<Byte>, x: int, y: int, k: int)
    requires |bitmap| == IconBytes && 0 <= k < |orig|
    requires forall row, col :: InIcon(row, col) && OnPanel(x, y, row, col) ==> FbIndex(x, y, row, col) != k
    ensures Blitted(orig, bitmap, x, y)[k] == orig[k]
  {
    if IconSource(x, y, k).Some? {
      WriteOfSource(x, y, k, IconSource(x, y, k).value);
    }
  }

  /** Every byte the blit changes is a copy of the bitmap byte addressed there. */
  lemma BlitWritesOnlyIcon(orig: seq<Byte>, bitmap: seq<Byte>, x: int, y: int, k: int)
    requires |bitmap| == IconBytes && 0 <= k < |orig|
    requires Blitted(orig, bitmap, x, y)[k] != orig[k]
    ensures exists row, col ::
      && InIcon(row, col) && OnPanel(x, y, row, col) && FbIndex(x, y, row, col) == k
      && Blitted(orig, bitmap, x, y)[k] == bitmap[BitmapIndex(row, col)]
  {
    var b := IconSource(x, y, k).value;
    WriteOfSource(x, y, k, b);
    var row, col := b / IconRowBytes, b % IconRowBytes;
    assert BitmapIndex(row, col) == b;
  }

  /** An icon whose box lies on the panel with an even left edge is never
      clipped, and each of its bytes lands at its row and column. */
  lemma BlitFullIcon(orig: seq<Byte>, bitmap: seq<Byte>, x: int, y: int, row: int, col: int)
    requires |bitmap| == IconBytes && |orig| == FramebufferSize
    requires 0 <= x && x + IconSize <= EpdWidth && x % 2 == 0 && 0 <= y && y + IconSize <= EpdHeight
    requires InIcon(row, col)
    ensures OnPanel(x, y, row, col)
    ensures Blitted(orig, bitmap, x, y)[((y + row) * EpdWidth + x + col * 2) / 2] == bitmap[row * IconRowBytes + col]
  {
    assert OnPanel(x, y, row, col);
    BlitCopiesIcon(orig, bitmap, x, y, row, col);
  }
}
