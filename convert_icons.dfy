/** The desktop tool that turns the icon images into C arrays: each 8-bit gray
    pixel is quantised to 4 bits, pixels are packed two per byte (high nibble
    first), and the bytes are printed as a C array, twelve per line. */
module ConvertIcons {
  import opened Support

  /** A 4-bit gray level. */
  type Nibble = n: int | 0 <= n < 16

  /** The icon files the tool converts, by file stem (`<stem>.png`). */
  const ConvertedStems: seq<string> :=
    ["sun", "moon", "partly", "partly-night", "cloud", "rainy", "snowflake", "lighting", "fog"]

  /** The size every icon is converted at. */
  const IconOutputSize: nat := 200

  /** `gray8 >> 4`: the 16-level band that the 8-bit gray value falls in. */
  function Gray4(gray8: Byte): (g: Nibble)
    ensures 16 * g <= gray8 < 16 * g + 16
  {
    gray8 / 16
  }

  /** Every row of the (already resized) image is `n` pixels wide. */
  predicate RowsOfWidth(img: seq<seq<Byte>>, n: nat)
  {
    forall y :: 0 <= y < |img| ==> |img[y]| == n
  }

  function QuantiseRow(row: seq<Byte>): (q: seq<Nibble>)
    ensures |q| == |row|
  {
    seq(|row|, x requires 0 <= x < |row| => Gray4(row[x]))
  }

  /** The quantised pixels in row-major order (rows top to bottom, each row
      left to right). */
  function Quantised(img: seq<seq<Byte>>): (q: seq<Nibble>)
  {
    if img == [] then [] else Quantised(img[..|img| - 1]) + QuantiseRow(img[|img| - 1])
  }

  /** Pixel (x, y) of an image of width n is entry y * n + x of the quantised list. */
  lemma {:induction false} QuantisedAt(img: seq<seq<Byte>>, n: nat, y: int, x: int)
    requires RowsOfWidth(img, n)
    requires 0 <= y < |img| && 0 <= x < n
    ensures |Quantised(img)| == |img| * n
    ensures y * n + x < |img| * n && Quantised(img)[y * n + x] == Gray4(img[y][x])
  {
    QuantisedLength(img, n);
    var last := |img| - 1;
    var front := img[..last];
    assert RowsOfWidth(front, n);
    QuantisedLength(front, n);
    assert Quantised(img) == Quantised(front) + QuantiseRow(img[last]);
    if y < last {
      QuantisedAt(front, n, y, x);
      assert y * n + x < last * n;
    } else {
      assert y * n + x == last * n + x;
    }
  }

  lemma {:induction false} QuantisedLength(img: seq<seq<Byte>>, n: nat)
    requires RowsOfWidth(img, n)
    ensures |Quantised(img)| == |img| * n
  {
    if img != [] {
      var last := |img| - 1;
      assert RowsOfWidth(img[..last], n);
      QuantisedLength(img[..last], n);
      assert Quantised(img) == Quantised(img[..last]) + QuantiseRow(img[last]);
      assert |img[last]| == n;
      Distribute(last, n);
    }
  }

  lemma Distribute(a: nat, n: nat)
    ensures (a + 1) * n == a * n + n
  {
  }

  /** The nested pixel loop: reads the image row by row and appends each
      quantised pixel. */
  method QuantisePixels(img: seq<seq<Byte>>, outputSize: nat) returns (pixels: seq<Nibble>)
    requires |img| == outputSize && RowsOfWidth(img, outputSize)
    ensures pixels == Quantised(img)
    ensures |pixels| == outputSize * outputSize
  {
    pixels := [];
    var y := 0;
    while y < outputSize
      invariant 0 <= y <= outputSize
      invariant pixels == Quantised(img[..y])
    {
      var x := 0;
      while x < outputSize
        invariant 0 <= x <= outputSize
        invariant pixels == Quantised(img[..y]) + QuantiseRow(img[y][..x])
      {
        var gray8 := img[y][x];
        var gray4 := gray8 / 16;
        assert QuantiseRow(img[y][..x + 1]) == QuantiseRow(img[y][..x]) + [gray4];
        pixels := pixels + [gray4];
        x := x + 1;
      }
      assert img[y][..x] == img[y];
      assert img[..y + 1][..y] == img[..y];
      y := y + 1;
    }
    assert img[..y] == img;
    QuantisedLength(img, outputSize);
  }

  /** Byte k of the packed output: pixel 2k in the high nibble, pixel 2k + 1
      (or 0 past the end of an odd-length list) in the low nibble. */
  function Packed(pixels: seq<Nibble>): (bytes: seq<Byte>)
    ensures |bytes| == (|pixels| + 1) / 2
  {
    seq((|pixels| + 1) / 2, k requires 0 <= k < (|pixels| + 1) / 2 =>
      (pixels[2 * k] as int) * 16 + (if 2 * k + 1 < |pixels| then pixels[2 * k + 1] else 0))
  }

  /** Splitting every byte back into its high and low nibble. */
  function Unpacked(bytes: seq<Byte>): (pixels: seq<Nibble>)
    ensures |pixels| == 2 * |bytes|
  {
    if bytes == [] then [] else [bytes[0] / 16, bytes[0] % 16] + Unpacked(bytes[1..])
  }

  /** `byte >> 4` and `byte & 0xF` give back the pixels that were packed,
      followed by the zero nibble that pads an odd-length list. */
  lemma {:induction false} PackedRoundTrip(pixels: seq<Nibble>)
    ensures Unpacked(Packed(pixels)) == pixels + (if |pixels| % 2 == 1 then [0] else [])
  {
    if |pixels| == 1 {
      var first: Byte := (pixels[0] as int) * 16;
      assert Packed(pixels) == [first] + [];
      UnpackedCons(first, []);
      NibbleSplit(pixels[0], 0);
    } else if |pixels| >= 2 {
      var rest := pixels[2..];
      var first: Byte := (pixels[0] as int) * 16 + pixels[1];
      PackedStep(pixels);
      UnpackedCons(first, Packed(rest));
      NibbleSplit(pixels[0], pixels[1]);
      PackedRoundTrip(rest);
      assert pixels == [pixels[0], pixels[1]] + rest;
    }
  }

  /** The first two pixels make the first byte; the rest pack on their own. */
  lemma PackedStep(pixels: seq<Nibble>)
    requires |pixels| >= 2
    ensures Packed(pixels) == [(pixels[0] as int) * 16 + pixels[1]] + Packed(pixels[2..])
  {
    var b, rest := Packed(pixels), Packed(pixels[2..]);
    assert |b| == |rest| + 1;
    forall k | 0 <= k < |rest|
      ensures b[k + 1] == rest[k]
    {
      assert 2 * (k + 1) == 2 * k + 2;
    }
  }

  /** Unpacking a byte in front of others. */
  lemma UnpackedCons(byte: Byte, bytes: seq<Byte>)
    ensures Unpacked([byte] + bytes) == [byte / 16, byte % 16] + Unpacked(bytes)
  {
    assert ([byte] + bytes)[1..] == bytes;
  }

  lemma NibbleSplit(high: Nibble, low: Nibble)
    ensures (high * 16 + low) / 16 == high && (high * 16 + low) % 16 == low
  {
  }

  /** The stride-2 packing loop. */
  method PackNibbles(pixels: seq<Nibble>) returns (bytes: seq<Byte>)
    ensures bytes == Packed(pixels)
  {
    bytes := [];
    var i := 0;
    while i < |pixels|
      invariant 0 <= i <= |pixels| + 1 && i % 2 == 0
      invariant |bytes| == i / 2
      invariant forall k :: 0 <= k < |bytes| ==> bytes[k] == Packed(pixels)[k]
    {
      var highNibble := pixels[i];
      var lowNibble := if i + 1 < |pixels| then pixels[i + 1] else 0;
      var byteVal := (highNibble as int) * 16 + lowNibble;
      bytes := bytes + [byteVal];
      i := i + 2;
    }
  }

  /** An uppercase hexadecimal digit. */
  function HexDigit(d: Nibble): char
  {
    "0123456789ABCDEF"[d]
  }

  function HexDigitValue(c: char): int
  {
    if '0' <= c <= '9' then c as int - '0' as int
    else if 'A' <= c <= 'F' then c as int - 'A' as int + 10
    else -1
  }

  /** `f'0x{b:02X}'`. */
  function HexByte(b: Byte): (s: string)
    ensures |s| == 4 && s[..2] == "0x"
  {
    "0x" + [HexDigit(b / 16), HexDigit(b % 16)]
  }

  /** A printed byte reads back as the byte printed. */
  lemma HexByteRoundTrip(b: Byte)
    ensures HexByte(b)[2] in "0123456789ABCDEF" && HexByte(b)[3] in "0123456789ABCDEF"
    ensures HexDigitValue(HexByte(b)[2]) * 16 + HexDigitValue(HexByte(b)[3]) == b
  {
    var h, l := b / 16, b % 16;
    assert HexDigitValue(HexDigit(h)) == h;
    assert HexDigitValue(HexDigit(l)) == l;
  }

  /** `', '.join(...)` of the printed bytes of one chunk. */
  function JoinHex(chunk: seq<Byte>): string
  {
    if chunk == [] then "" else if |chunk| == 1 then HexByte(chunk[0])
    else HexByte(chunk[0]) + ", " + JoinHex(chunk[1..])
  }

  /** One data line of the array: indented, comma-terminated. */
  function HexLine(chunk: seq<Byte>): string
  {
    "    " + JoinHex(chunk) + ","
  }

  /** `icon_name.replace('-', '_')`. */
  function CIdentifier(stem: string): (id: string)
    ensures |id| == |stem|
    ensures forall i :: 0 <= i < |stem| ==> id[i] == (if stem[i] == '-' then '_' else stem[i])
    ensures forall i :: 0 <= i < |id| ==> id[i] != '-'
  {
    if stem == [] then [] else [if stem[0] == '-' then '_' else stem[0]] + CIdentifier(stem[1..])
  }

  /** The name of the C array generated for `<stem>.png` at `size`. */
  function ArrayName(stem: string, size: nat): string
  {
    "icon_" + CIdentifier(stem) + "_" + NatToDecimal(size)
  }

  function HeaderLine(stem: string, size: nat): string
  {
    "// " + stem + ".png - " + NatToDecimal(size) + "x" + NatToDecimal(size) + " 4-bit grayscale"
  }

  function DeclarationLine(stem: string, size: nat): string
  {
    "const uint8_t " + ArrayName(stem, size) + "[] = {"
  }

  /** Bytes per data line. */
  const BytesPerLine: nat := 12

  function Min(a: int, b: int): int { if a <= b then a else b }

  /** `byte_array[i:i+12]` for the j-th line (i = 12 * j); Python slices stop
      at the end of the list. */
  function ChunkAt(bytes: seq<Byte>, j: nat): seq<Byte>
    requires BytesPerLine * j <= |bytes|
  {
    bytes[BytesPerLine * j .. Min(BytesPerLine * j + BytesPerLine, |bytes|)]
  }

  /** The number of data lines: one per started group of twelve bytes. */
  function LineCount(n: nat): nat { (n + BytesPerLine - 1) / BytesPerLine }

  /** Every data line holds between one and twelve bytes; all but the last hold twelve. */
  lemma ChunkSizes(bytes: seq<Byte>, j: nat)
    requires j < LineCount(|bytes|)
    ensures BytesPerLine * j < |bytes|
    ensures 1 <= |ChunkAt(bytes, j)| <= BytesPerLine
    ensures j + 1 < LineCount(|bytes|) ==> |ChunkAt(bytes, j)| == BytesPerLine
  {
  }

  /** The chunks of the data lines, in order. */
  function Chunks(bytes: seq<Byte>): (chunks: seq<seq<Byte>>)
    ensures |chunks| == LineCount(|bytes|)
  {
    seq(LineCount(|bytes|), j requires 0 <= j < LineCount(|bytes|) => ChunkAt(bytes, j))
  }

  /** Read in order, the data lines hold exactly the bytes, nothing lost or repeated. */
  lemma {:induction false} ChunksCoverBytes(bytes: seq<Byte>)
    ensures Concat(Chunks(bytes)) == bytes
  {
    var n := LineCount(|bytes|);
    var chunks := Chunks(bytes);
    if |bytes| > BytesPerLine {
      var rest := bytes[BytesPerLine..];
      ChunksCoverBytes(rest);
      var m := LineCount(|rest|);
      assert n == m + 1;
      var restChunks := Chunks(rest);
      forall j | 0 <= j < m ensures chunks[j + 1] == restChunks[j] {
        ChunkAtShift(bytes, j);
      }
      assert chunks[0] == bytes[..BytesPerLine];
      assert chunks[1..] == restChunks;
      assert Concat(chunks) == chunks[0] + Concat(chunks[1..]);
      assert bytes == bytes[..BytesPerLine] + rest;
    } else if |bytes| > 0 {
      assert n == 1;
      assert chunks[0] == bytes;
      assert Concat(chunks) == chunks[0] + Concat(chunks[1..]);
      assert chunks[1..] == [];
    } else {
      assert chunks == [];
    }
  }

  /** The chunks after the first line are the chunks of the rest of the bytes. */
  lemma ChunkAtShift(bytes: seq<Byte>, j: nat)
    requires |bytes| > BytesPerLine && BytesPerLine * j < |bytes| - BytesPerLine
    ensures ChunkAt(bytes, j + 1) == ChunkAt(bytes[BytesPerLine..], j)
  {
    var rest := bytes[BytesPerLine..];
    var lo := BytesPerLine * j;
    var hi := Min(lo + BytesPerLine, |rest|);
    assert BytesPerLine * (j + 1) == lo + BytesPerLine;
    assert Min(BytesPerLine * (j + 1) + BytesPerLine, |bytes|) == hi + BytesPerLine;
    assert rest[lo..hi] == bytes[lo + BytesPerLine .. hi + BytesPerLine];
  }

  function Concat(chunks: seq<seq<Byte>>): seq<Byte>
  {
    if chunks == [] then [] else chunks[0] + Concat(chunks[1..])
  }

  /** The lines of the generated C source for one icon. */
  function CArrayLines(stem: string, size: nat, bytes: seq<Byte>): (lines: seq<string>)
    ensures |lines| == LineCount(|bytes|) + 4
  {
    [HeaderLine(stem, size), DeclarationLine(stem, size)]
    + seq(LineCount(|bytes|), j requires 0 <= j < LineCount(|bytes|) => HexLine(Chunks(bytes)[j]))
    + ["};", ""]
  }

  /** Line `2 + j` of the C text prints the bytes `12j ..` up to twelve of them,
      so with `ChunksCoverBytes` the data lines print every byte in order. */
  lemma CArrayDataLine(stem: string, size: nat, bytes: seq<Byte>, j: nat)
    requires j < LineCount(|bytes|)
    ensures CArrayLines(stem, size, bytes)[2 + j] == HexLine(Chunks(bytes)[j])
    ensures Chunks(bytes)[j] == bytes[BytesPerLine * j .. Min(BytesPerLine * j + BytesPerLine, |bytes|)]
  {
    ChunkSizes(bytes, j);
  }

  /** `'\n'.join(lines)`. */
  function JoinLines(lines: seq<string>): string
  {
    if lines == [] then "" else if |lines| == 1 then lines[0] else lines[0] + "\n" + JoinLines(lines[1..])
  }

  /** The stride-12 formatting loop. */
  method FormatCArray(stem: string, outputSize: nat, byteArray: seq<Byte>) returns (text: string)
    ensures text == JoinLines(CArrayLines(stem, outputSize, byteArray))
  {
    var lines := [HeaderLine(stem, outputSize), DeclarationLine(stem, outputSize)];
    var i := 0;
    while i < |byteArray|
      invariant i % BytesPerLine == 0 && 0 <= i <= |byteArray| + BytesPerLine - 1
      invariant i / BytesPerLine <= LineCount(|byteArray|)
      invariant lines == [HeaderLine(stem, outputSize), DeclarationLine(stem, outputSize)]
        + seq(i / BytesPerLine, j requires 0 <= j < i / BytesPerLine => HexLine(Chunks(byteArray)[j]))
    {
      var chunk := byteArray[i..Min(i + BytesPerLine, |byteArray|)];
      assert chunk == Chunks(byteArray)[i / BytesPerLine];
      lines := lines + [HexLine(chunk)];
      i := i + BytesPerLine;
    }
    assert i / BytesPerLine == LineCount(|byteArray|);
    lines := lines + ["};", ""];
    assert lines == CArrayLines(stem, outputSize, byteArray);
    text := JoinLines(lines);
  }

  /** `png_to_epd47_bitmap` after the image has been loaded, resized to
      `outputSize` square and converted to 8-bit gray (`img[y][x]` is pixel (x, y)). */
  method PngToEpd47Bitmap(img: seq<seq<Byte>>, stem: string, outputSize: nat) returns (text: string)
    requires |img| == outputSize && RowsOfWidth(img, outputSize)
    ensures text == JoinLines(CArrayLines(stem, outputSize, Packed(Quantised(img))))
  {
    var pixels := QuantisePixels(img, outputSize);
    var byteArray := PackNibbles(pixels);
    text := FormatCArray(stem, outputSize, byteArray);
  }

  /** An image of side n packs into ceil(n*n / 2) bytes; at the icon size of
      200 that is the 20000 bytes the display's blit reads. */
  lemma PackedIconSize(img: seq<seq<Byte>>, n: nat)
    requires |img| == n && RowsOfWidth(img, n)
    ensures |Packed(Quantised(img))| == (n * n + 1) / 2
    ensures n == IconOutputSize ==> |Packed(Quantised(img))| == 20000
  {
    QuantisedLength(img, n);
  }
}
