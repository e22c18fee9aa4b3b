/** The calls the display code makes into the e-paper driver, recorded in the
    order they are made. The driver's own rasterising of text, lines and
    rectangles and its panel waveforms are not part of this model. */
module Epd {

  /** The three typefaces the display uses. */
  datatype Font = FiraSans | FiraSansMedium | FiraSansLarge

  /** One driver call. `Text` is `writeln` with the cursor it starts from. */
  datatype DrawCmd =
    | Text(font: Font, text: string, x: int, y: int)
    | HLine(x: int, y: int, length: int, color: int)
    | Rect(x: int, y: int, w: int, h: int, color: int)
    | FillRect(x: int, y: int, w: int, h: int, color: int)
    | SunSmall(x: int, y: int)
    | WeatherIconAt(cx: int, cy: int, size: int)
    | InitPanel
    | PowerOn
    | ClearPanel
    | DrawFullScreen
    | PowerOff

  /** Grey levels of the 4-bit palette (0x00 black, 0xFF white). */
  const Black: int := 0x00
  const IconGray: int := 0x50
  const DividerGray: int := 0x80
  const OutlineGray: int := 0xA0
  const GridGray: int := 0xC0
  const White: int := 0xFF

  /** How far `writeln` moves the cursor to the right for a text in a font:
      the glyph metrics live in the font tables, so this is a parameter. */
  type Advance = (Font, string) -> int
}
