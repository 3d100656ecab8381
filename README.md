# wplace-place progress label: a Dafny model of the pixel and font core

The job in `index.ts` does three things. It downloads the map tiles of a collaborative pixel canvas and counts how many of their pixels are transparent, which the job counts as done. It sums those counts over all tiles. It then renders a small progress label with a bitmap font and uploads it. This project models the integer and pixel-buffer core of that job, and proves what it does:

- **Font tables** (`font.dfy`, module `Font`).
  - The alphabet `FontOrder` and the width table `CharWidths` (`CHAR_WIDTHS`) are modelled as constants.
  - `BuildOffsets` is the loop that fills `CHAR_X_OFFSETS`. It is proved equal to a prefix-sum specification.
  - The lemmas give the offset chain: the first glyph is at 0, each next glyph follows the previous one plus its width plus the gap, and the offsets strictly increase.
  - `FontOffsets` runs that loop over the font's own tables, as the module does when it loads. Its result is chained in this way, because the 32 glyphs of `FONT_ORDER` are distinct and each has a width.
- **Pixel buffers** (`raster.dfy`, module `Raster`).
  - A `Png` class has the source's `width`, `height` and flat RGBA `data` array. Its constructor stands for the zero-filled allocation of a new label image.
  - Pixel (col, row) occupies bytes `(row * width + col) * 4 .. +3`.
  - One specification function, `Paint`, describes writing a rectangle of pixels from an `Ink`. The ink is either a solid colour or the pixels of another image. Every other byte is left alone.
  - `DrawRect` (`drawRect`) is proved against `Paint` with a solid colour. Its inner loop, one row, is `FillRow`.
- **Text** (`text.dfy`, module `Text`).
  - `CalculateTextWidth` (`calculateTextWidth`) is proved against its closed form.
  - `RenderTextOntoImage` (`renderTextOntoImage`) is proved against `Rendered`, a recursive specification that paints one glyph per known character.
  - `BlitGlyph` holds the method's `y` loop over the rows of one glyph, and `BlitRow` its innermost `x` loop.
  - The lemmas cover:
    - skipping unknown characters;
    - the position of the k-th glyph;
    - which bytes are left untouched;
    - that glyphs stay visible when the gap is at least 1;
    - that measuring and drawing agree.
- **Progress counting** (`progress.dfy`, module `Progress`).
  - `CountPixels` is the counting loop of `processTile`.
  - `TotalPixels` and `TransparentPixels` are the two `reduce` sums of `run`.
  - `CountTiles` is `run` up to the point where the percentage is computed.

Both glyph tables are passed to the renderer explicitly, as a `GlyphTable` value. The font's own offset table is the one `FontOffsets` returns.

Two behaviours of the code are easy to misread, and the model keeps both as written:

- **Empty text.** `calculateTextWidth` removes the last gap with an unconditional subtraction (index.ts:134). So empty text, or text with no known character, measures `-gap` rather than 0. `CalculateTextWidth` states exactly that.
- **Cursor advance.** The renderer advances the cursor by `charW + (gap - 1)` (index.ts:118), not by `charW + gap`. The model keeps this. `GlyphsFitMeasured` shows the effect: text drawn with gap `g` spans exactly its width measured with gap `g - 1`.

## Model

| member | source | states |
|---|---|---|
| `Font.BuildOffsets` | index.ts:78-83 | The loop gives each glyph of the alphabet the running offset and then advances it by width plus gap. The table it returns has exactly the alphabet as keys, and the final offset is the prefix sum over the whole alphabet. For an alphabet without repeats and a positive gap, the table is chained: first glyph at 0, each next one after the previous one plus its width plus the gap, strictly increasing. |
| `Font.OffsetTableKeys` | index.ts:80-81 | After n iterations, the offset table holds exactly the first n glyphs of the alphabet. |
| `Font.OffsetTableAt` | index.ts:78-83 | In an alphabet without repeats, glyph i's offset is the sum of width plus gap over the glyphs before it. |
| `Font.StripOffsetIncreasing` | index.ts:79-82 | With a positive gap, the running offset strictly increases along the alphabet. |
| `Font.OffsetTableChain` | index.ts:78-83 | The first glyph's offset is 0. Each next glyph's offset is the previous glyph's offset plus the previous glyph's width plus the gap. The offsets strictly increase. |
| `Font.FontOrderDistinct` | index.ts:17 | `FONT_ORDER` has 32 glyphs, and no two of them are the same character. |
| `Font.FontTablesAgree` | index.ts:17-52 | `CHAR_WIDTHS` gives a width to exactly the glyphs of `FONT_ORDER`. |
| `Font.FontOffsets` | index.ts:78-83 | `CHAR_X_OFFSETS`, as the loop builds it from `FONT_ORDER`, `CHAR_WIDTHS` and `GAP`, has an entry for exactly the glyphs of `FONT_ORDER`. `#` is at 0, every next glyph follows the previous one plus its width plus `GAP`, and the offsets strictly increase. |
| `Raster.Png.constructor` | index.ts:171-174 | A new `w` by `h` image, as `new PNG({width, height})` allocates it, has a fresh buffer of `w * h * 4` bytes, all zero. |
| `Raster.IdxDecode` | index.ts:142 | The byte index `(row * width + col) << 2` plus a channel decodes back to that column, row and channel, so distinct pixels never share a byte. |
| `Raster.PaintAt` | index.ts:140-147 | After painting a rectangle, each channel of each pixel inside it holds the ink's value. Each byte of a pixel outside it keeps its old value. |
| `Raster.PaintIdempotent` | index.ts:139-149 | Filling the same rectangle with the same colour twice gives the same buffer as filling it once. |
| `Raster.FillRow` | index.ts:141-147 | One pass of the inner loop over `xx` sets all four channels of the pixels `x <= xx < x + w` of row `yy` to `rgba`. No other byte changes. |
| `Raster.DrawRect` | index.ts:139-149 | The new buffer is the old one with all four channels of every pixel in `x <= xx < x + w`, `y <= yy < y + h` set to `rgba`. No other byte changes. |
| `Text.CalculateTextWidth` | index.ts:122-135 | The result is the sum of the widths of the characters known to `CHAR_WIDTHS`, plus `gap * (n - 1)` for n such characters. Unknown characters add nothing. With no known character the result is `-gap`. |
| `Text.MeasureStep` | index.ts:125-132 | One measuring step adds `width + gap` for a known character and nothing for an unknown one. |
| `Text.TextWidthAppend` | index.ts:122-135 | The width of two texts measured together is the sum of their widths plus one gap. |
| `Text.BlitRow` | index.ts:107-115 | Row `y` of the glyph block: target pixel (drawX + x, yStart + y) receives font pixel (srcX + x, y) for `0 <= x < charW`. The rest of the target is unchanged. |
| `Text.BlitGlyph` | index.ts:106-116 | The `CHAR_HEIGHT × charW` block at (drawX, yStart) receives font pixels (srcX + x, y). The rest of the target is unchanged. |
| `Text.RenderTextOntoImage` | index.ts:96-120 | The target buffer ends as `Rendered` of the old buffer: each known character's glyph is painted at the cursor, which then moves by `charW + (gap - 1)`. The font buffer is unchanged. |
| `Text.RenderedSkipsUnknown` | index.ts:101-104 | A character missing from `CHAR_WIDTHS` or `CHAR_X_OFFSETS` writes nothing and does not move the cursor. Drawing the text equals drawing only its known characters. |
| `Text.RenderedAppend` | index.ts:99-118 | Drawing `a + b` draws `a` and then `b` from the cursor `a` left behind, which is the start plus the width plus `gap - 1` of each known character of `a`. |
| `Text.GlyphPlacement` | index.ts:99-118 | The k-th known character is painted at `xStart + (sum of the earlier known widths) + k * (gap - 1)`, after the earlier glyphs and before the later ones. |
| `Text.RenderedUntouched` | index.ts:106-116 | A target byte outside every drawn glyph block keeps its old value. |
| `Text.GlyphVisible` | index.ts:106-118 | When gap >= 1, every pixel (at + x, yStart + y) of the k-th glyph's block finally holds font pixel (offset + x, y), all four channels. |
| `Text.GlyphsFitMeasured` | index.ts:96-135 | For text with a known character, gap >= 1, and tables where every glyph with a width also has an offset, every glyph drawn from x lies within the image width exactly when `0 <= x` and `x + calculateTextWidth(text, gap - 1) <= width`. |
| `Text.LabelFits` | index.ts:168-186 | With the font's widths and an offset table for the glyphs of `FONT_ORDER`, the label text, measured with `GAP` and drawn from column 0 with gap 2, fits in an image `textWidth + 4` columns wide. |
| `Progress.AlphaZeroCount` | index.ts:65-70 | The number of transparent pixels among the first n is at most n. |
| `Progress.AlphaZeroCountIsSetSize` | index.ts:65-70 | That count is the number of pixel indices k < n whose byte 4k+3 exists and is 0. |
| `Progress.AllTransparentCountsAll` | index.ts:67-69 | When every pixel has alpha 0, every pixel is counted as done. |
| `Progress.NoneTransparentCountsNone` | index.ts:67-69 | When no pixel has alpha 0, none is counted as done. |
| `Progress.CountPixels` | index.ts:63-74 | `total` is `ceil(data.length / 4)`, which is `width * height` for a well-formed image. `done` is the number of transparent pixels, and `0 <= done <= total`. |
| `Progress.SumsBounded` | index.ts:193-194 | When every tile has `0 <= done <= total`, the summed transparent pixels lie between 0 and the summed total pixels. |
| `Progress.CountTiles` | index.ts:192-194 | Every tile gets its own `CountPixels` result. The two returned sums are the `reduce` sums of those results, with `0 <= transparentPixels <= totalPixels`. |

## Left out

- Tile download, URL substitution and PNG decoding and encoding (index.ts:57-61, 85-94, 235) are network I/O and an external library. Decoded images are inputs to `CountPixels` and `CountTiles`, and the font image is an input to `RenderTextOntoImage`.
- The upload, the API key read from the environment and the handling of the response (index.ts:229-252) are network and environment I/O.
- `runCommand`, `setInterval` and the initial `run()` (index.ts:151-162, 255-259) are process and scheduling concerns. The commented-out git steps (index.ts:201-226) are dead code.
- The console messages in `calculateTextWidth` and `run` (index.ts:129, 131, 197-199) have no effect on any result.
- The percentage `transparentPixels / totalPixels * 100` and `toFixed(1)` (index.ts:168, 195) are floating-point work. Only the integer counts are modelled. The division is unguarded when no pixel is counted.
- `drawProgressOnImage` (index.ts:167-189) is not modelled as a whole. `LabelFits` covers only its text placement. The image is `textWidth + 4` columns wide and `CHAR_HEIGHT + 4` = 11 rows tall (index.ts:171-174). Both background rectangles overflow it (index.ts:177-183):
  - The black rectangle starts at (2, 2) and is `textWidth + 4` wide and 11 tall. Its two rightmost columns wrap into columns 0 and 1 of the next row. Its rows 11 and 12 lie past the end of the typed array, so those writes are dropped.
  - The white rectangle starts at (3, 3) and is `textWidth + 2` wide and 9 tall. Its rightmost column wraps into column 0 of the next row. Its row 11 lies past the end of the array, so those writes are dropped.
- `Raster.DrawRect`: requires the rectangle to lie inside the image, or to be empty. The source's behaviour for writes outside the image (wrapping into the next row, or writes past the end that are silently dropped) is not modelled.
- `Text.RenderTextOntoImage`: requires these conditions, which the source does not demand of its callers:
  - every glyph lies inside the target image;
  - rows `yStart .. yStart + 6` exist in the target;
  - the font and target buffers are different arrays;
  - every glyph the tables know lies inside the font image, although the source reads only the glyphs it draws.

  The source's out-of-range reads and writes (`undefined` stored as 0, dropped writes) are not modelled.
- `Text.BlitGlyph`: requires both blocks in bounds, for the same reason.
- `Raster.FillRow`, `Text.BlitRow`: these have the same in-bounds requirement as `DrawRect` and `BlitGlyph`, and `BlitRow` also requires distinct font and target buffers. The source's inner loops also run with columns out of range: both `drawRect` calls at index.ts:182-183 write past the image's right edge. Those writes, wrapped into the next row or dropped past the end, are not modelled.
- The index shift `<< 2` works on 32-bit integers in the source. The model multiplies by 4 without limit, which agrees for byte indices below 2^31, and so for images of fewer than 2^29 pixels.
- `calculateTextWidth` splits the text into UTF-16 code units, while `renderTextOntoImage` iterates over code points. The model treats text as a sequence of characters. All characters in the tables are single code units, so both readings agree on every character the tables know.
- The font image's actual width, and whether it holds all 32 glyphs, are not modelled. The renderer takes them as a precondition.
