/**
 * Measuring and drawing text with the bitmap font. A character is drawn
 * only when the glyph tables know it; any other character is skipped, draws
 * nothing and does not move the cursor.
 */
module Text {
  import opened Raster
  import opened Font

  /** The two glyph tables: `CHAR_WIDTHS` and `CHAR_X_OFFSETS`. */
  datatype GlyphTable = GlyphTable(widths: map<char, nat>, offsets: map<char, int>) {
    /** Characters present in both tables, the ones the renderer draws. */
    function Known(): set<char> {
      widths.Keys * offsets.Keys
    }
  }

  /** The characters of `text` that are in `known`, in order. */
  function Keep(text: string, known: set<char>): (r: string)
    ensures |r| <= |text|
    ensures forall i :: 0 <= i < |r| ==> r[i] in known
  {
    if text == [] then []
    else (if text[0] in known then [text[0]] else []) + Keep(text[1..], known)
  }

  lemma {:induction false} KeepAppend(a: string, b: string, known: set<char>)
    ensures Keep(a + b, known) == Keep(a, known) + Keep(b, known)
  {
    if a == [] {
      assert a + b == b;
    } else {
      assert (a + b)[1..] == a[1..] + b;
      KeepAppend(a[1..], b, known);
    }
  }

  /** Text made only of known characters is kept whole. */
  lemma {:induction false} KeepAll(text: string, known: set<char>)
    requires forall c :: c in text ==> c in known
    ensures Keep(text, known) == text
  {
    if text != [] {
      assert forall c :: c in text[1..] ==> c in text;
      KeepAll(text[1..], known);
    }
  }

  /** The sum of the widths of `glyphs`. */
  function SumWidths(glyphs: string, widths: map<char, nat>): nat
    requires forall i :: 0 <= i < |glyphs| ==> glyphs[i] in widths
  {
    if glyphs == [] then 0 else widths[glyphs[0]] + SumWidths(glyphs[1..], widths)
  }

  lemma {:induction false} SumWidthsAppend(a: string, b: string, widths: map<char, nat>)
    requires forall i :: 0 <= i < |a + b| ==> (a + b)[i] in widths
    ensures forall i :: 0 <= i < |a| ==> a[i] in widths
    ensures forall i :: 0 <= i < |b| ==> b[i] in widths
    ensures SumWidths(a + b, widths) == SumWidths(a, widths) + SumWidths(b, widths)
  {
    assert forall i :: 0 <= i < |a| ==> a[i] == (a + b)[i];
    assert forall i :: 0 <= i < |b| ==> b[i] == (a + b)[|a| + i];
    if a == [] {
      assert a + b == b;
    } else {
      assert (a + b)[1..] == a[1..] + b;
      SumWidthsAppend(a[1..], b, widths);
    }
  }

  // ---------------------------------------------------------------------
  // calculateTextWidth

  /**
   * The width of `text` drawn with `gap` columns between glyphs: the widths
   * of its known characters plus one gap between each two of them.
   */
  function TextWidth(text: string, widths: map<char, nat>, gap: int): int {
    var glyphs := Keep(text, widths.Keys);
    SumWidths(glyphs, widths) + (|glyphs| - 1) * gap
  }

  /**
   * `calculateTextWidth`: add width plus gap for each known character, then
   * take one gap off. Unknown characters add nothing, and text without known
   * characters measures `-gap`.
   */
  method CalculateTextWidth(text: string, widths: map<char, nat>, gap: int) returns (textWidth: int)
    ensures textWidth == TextWidth(text, widths, gap)
    ensures Keep(text, widths.Keys) == [] ==> textWidth == -gap
  {
    textWidth := 0;
    for i := 0 to |text|
      invariant textWidth == SumWidths(Keep(text[..i], widths.Keys), widths) + |Keep(text[..i], widths.Keys)| * gap
    {
      var ch := text[i];
      assert text[..i + 1] == text[..i] + [ch];
      MeasureStep(text[..i], ch, widths, gap);
      if ch in widths {
        textWidth := textWidth + widths[ch] + gap;
      }
    }
    assert text[..|text|] == text;
    MulAddLeft(|Keep(text, widths.Keys)| - 1, 1, gap);
    textWidth := textWidth - gap;
  }

  /** One iteration of the measuring loop: a known character adds its width and a gap. */
  lemma MeasureStep(prefix: string, ch: char, widths: map<char, nat>, gap: int)
    ensures var k, k' := Keep(prefix, widths.Keys), Keep(prefix + [ch], widths.Keys);
      SumWidths(k', widths) + |k'| * gap
        == SumWidths(k, widths) + |k| * gap + (if ch in widths then widths[ch] + gap else 0)
  {
    var before := Keep(prefix, widths.Keys);
    var added := Keep([ch], widths.Keys);
    assert [ch][1..] == [];
    assert added == if ch in widths then [ch] else [];
    KeepAppend(prefix, [ch], widths.Keys);
    SumWidthsAppend(before, added, widths);
    MulAddLeft(|before|, |added|, gap);
  }

  /** Measuring two texts one after the other costs one extra gap. */
  lemma TextWidthAppend(a: string, b: string, widths: map<char, nat>, gap: int)
    ensures TextWidth(a + b, widths, gap) == TextWidth(a, widths, gap) + TextWidth(b, widths, gap) + gap
  {
    var ka, kb := Keep(a, widths.Keys), Keep(b, widths.Keys);
    KeepAppend(a, b, widths.Keys);
    SumWidthsAppend(ka, kb, widths);
    var n := |ka| + |kb|;
    assert |ka + kb| - 1 == (|ka| - 1) + |kb|;
    MulAddLeft(|ka| - 1, |kb|, gap);
    MulAddLeft(|kb| - 1, 1, gap);
  }

  lemma MulAddLeft(m: int, n: int, g: int)
    ensures (m + n) * g == m * g + n * g
  {
  }

  // ---------------------------------------------------------------------
  // renderTextOntoImage

  /** The font image holds the glyph block of every character the tables know. */
  ghost predicate FontHolds(font: Bitmap, table: GlyphTable) {
    font.Valid() && CharHeight <= font.height &&
    forall c :: c in table.Known() ==>
      0 <= table.offsets[c] && table.offsets[c] + table.widths[c] <= font.width
  }

  /** Where glyph `ch` lands when the cursor is at (drawX, yStart). */
  function GlyphRect(table: GlyphTable, ch: char, drawX: int, yStart: int): Rect
    requires ch in table.widths
  {
    Rect(drawX, yStart, table.widths[ch], CharHeight)
  }

  /** Target pixel (drawX + x, yStart + y) reads font pixel (offset + x, y). */
  function GlyphInk(font: Bitmap, table: GlyphTable, ch: char, drawX: int, yStart: int): Ink
    requires ch in table.offsets
  {
    Sprite(font, table.offsets[ch] - drawX, -yStart)
  }

  /**
   * The target buffer after drawing `text` from cursor `drawX`: each known
   * character copies its glyph and moves the cursor by its width plus
   * `gap - 1`; any other character is passed over.
   */
  ghost function Rendered(dst: seq<byte>, width: nat, font: Bitmap, table: GlyphTable,
                          text: string, drawX: int, yStart: int, gap: int): (e: seq<byte>)
    requires FontHolds(font, table)
    ensures |e| == |dst|
    decreases |text|
  {
    if text == [] then dst
    else
      var ch := text[0];
      if ch !in table.widths || ch !in table.offsets then
        Rendered(dst, width, font, table, text[1..], drawX, yStart, gap)
      else
        Rendered(Paint(dst, width, GlyphRect(table, ch, drawX, yStart), GlyphInk(font, table, ch, drawX, yStart)),
                 width, font, table, text[1..], drawX + table.widths[ch] + (gap - 1), yStart, gap)
  }

  /** Every glyph drawn from cursor `drawX` lies between columns 0 and `width`. */
  predicate GlyphsFit(table: GlyphTable, text: string, drawX: int, gap: int, width: int)
    decreases |text|
  {
    if text == [] then true
    else
      var ch := text[0];
      if ch !in table.widths || ch !in table.offsets then
        GlyphsFit(table, text[1..], drawX, gap, width)
      else
        0 <= drawX && drawX + table.widths[ch] <= width &&
        GlyphsFit(table, text[1..], drawX + table.widths[ch] + (gap - 1), gap, width)
  }

  /** The inner loop of `renderTextOntoImage`: row `y` of one glyph block, copied from the font into the target. */
  method BlitRow(font: Png, target: Png, srcX: int, charW: nat, drawX: int, yStart: int, y: int)
    requires font.Valid() && target.Valid() && font.data != target.data
    requires Rect(srcX, y, charW, 1).Within(font.width, font.height)
    requires Rect(drawX, yStart + y, charW, 1).Within(target.width, target.height)
    modifies target.data
    ensures target.data[..] == Paint(old(target.data[..]), target.width, Rect(drawX, yStart + y, charW, 1),
                                     Sprite(font.View(), srcX - drawX, -yStart))
  {
    ghost var row := target.data[..];
    ghost var ink := Sprite(font.View(), srcX - drawX, -yStart);
    for x := 0 to charW
      invariant target.data[..] == Paint(row, target.width, Rect(drawX, yStart + y, x, 1), ink)
      invariant font.View() == ink.src
    {
      PaintNextPixel(row, target.width, target.height, Rect(drawX, yStart + y, charW, 1), ink, x);
      var srcIdx := ((y * font.width) + (srcX + x)) * 4;
      var dstIdx := ((yStart + y) * target.width + (drawX + x)) * 4;
      IdxInBounds(font.width, font.height, srcX + x, y, 3);
      ghost var pixel := Rect(drawX, yStart + y, charW, 1);
      assert ink.At(pixel, drawX + x, yStart + y, 0) == font.data[srcIdx];
      assert ink.At(pixel, drawX + x, yStart + y, 1) == font.data[srcIdx + 1];
      assert ink.At(pixel, drawX + x, yStart + y, 2) == font.data[srcIdx + 2];
      assert ink.At(pixel, drawX + x, yStart + y, 3) == font.data[srcIdx + 3];
      target.data[dstIdx] := font.data[srcIdx];
      target.data[dstIdx + 1] := font.data[srcIdx + 1];
      target.data[dstIdx + 2] := font.data[srcIdx + 2];
      target.data[dstIdx + 3] := font.data[srcIdx + 3];
    }
  }

  /** The two nested loops that copy one glyph block from the font into the target. */
  method BlitGlyph(font: Png, target: Png, srcX: int, charW: nat, drawX: int, yStart: int)
    requires font.Valid() && target.Valid() && font.data != target.data
    requires Rect(srcX, 0, charW, CharHeight).Within(font.width, font.height)
    requires Rect(drawX, yStart, charW, CharHeight).Within(target.width, target.height)
    modifies target.data
    ensures target.data[..] == Paint(old(target.data[..]), target.width, Rect(drawX, yStart, charW, CharHeight),
                                     Sprite(font.View(), srcX - drawX, -yStart))
  {
    ghost var d := target.data[..];
    ghost var r := Rect(drawX, yStart, charW, CharHeight);
    ghost var ink := Sprite(font.View(), srcX - drawX, -yStart);
    for y := 0 to CharHeight
      invariant target.data[..] == Paint(d, target.width, Rect(drawX, yStart, charW, y), ink)
      invariant font.View() == ink.src
    {
      BlitRow(font, target, srcX, charW, drawX, yStart, y);
      PaintNextRow(d, target.width, r, ink, y);
    }
  }

  /**
   * `renderTextOntoImage`: draws `text` with its top-left corner at
   * (xStart, yStart); the font image is only read.
   */
  method RenderTextOntoImage(text: string, table: GlyphTable, font: Png, target: Png,
                             xStart: int, yStart: int, gap: int)
    requires font.Valid() && target.Valid() && font.data != target.data
    requires FontHolds(font.View(), table)
    requires 0 <= yStart && yStart + CharHeight <= target.height
    requires GlyphsFit(table, text, xStart, gap, target.width)
    modifies target.data
    ensures target.data[..] == Rendered(old(target.data[..]), target.width, old(font.View()), table, text, xStart, yStart, gap)
    ensures font.data[..] == old(font.data[..])
  {
    ghost var fontView := font.View();
    ghost var goal := Rendered(target.data[..], target.width, fontView, table, text, xStart, yStart, gap);
    var drawX := xStart;
    for i := 0 to |text|
      invariant font.View() == fontView
      invariant FontHolds(fontView, table)
      invariant GlyphsFit(table, text[i..], drawX, gap, target.width)
      invariant Rendered(target.data[..], target.width, fontView, table, text[i..], drawX, yStart, gap) == goal
    {
      var ch := text[i];
      assert text[i..][1..] == text[i + 1..];
      if ch !in table.widths || ch !in table.offsets {
        continue;
      }
      var charW := table.widths[ch];
      var srcX := table.offsets[ch];
      BlitGlyph(font, target, srcX, charW, drawX, yStart);
      drawX := drawX + charW + (gap - 1);
    }
  }

  // ---------------------------------------------------------------------
  // What drawing text does

  /** How far the cursor moves over `text`: width plus `gap - 1` per known character. */
  function Advance(table: GlyphTable, text: string, gap: int): int {
    var glyphs := Keep(text, table.Known());
    SumWidths(glyphs, table.widths) + |glyphs| * (gap - 1)
  }

  /** The cursor at which the k-th drawn glyph of `text` starts. */
  function GlyphX(table: GlyphTable, text: string, xStart: int, gap: int, k: nat): int
    requires k <= |Keep(text, table.Known())|
  {
    var glyphs := Keep(text, table.Known());
    xStart + SumWidths(glyphs[..k], table.widths) + k * (gap - 1)
  }

  /** Unknown characters change nothing: drawing `text` is drawing its known characters. */
  lemma {:induction false} RenderedSkipsUnknown(d: seq<byte>, width: nat, font: Bitmap, table: GlyphTable,
                                                text: string, x: int, y: int, gap: int)
    requires FontHolds(font, table)
    decreases text
    ensures Rendered(d, width, font, table, text, x, y, gap)
         == Rendered(d, width, font, table, Keep(text, table.Known()), x, y, gap)
  {
    if text != [] {
      var ch, rest := text[0], text[1..];
      var kept := Keep(rest, table.Known());
      if ch !in table.widths || ch !in table.offsets {
        assert Keep(text, table.Known()) == kept;
        RenderedSkipsUnknown(d, width, font, table, rest, x, y, gap);
      } else {
        var d' := Paint(d, width, GlyphRect(table, ch, x, y), GlyphInk(font, table, ch, x, y));
        RenderedSkipsUnknown(d', width, font, table, rest, x + table.widths[ch] + (gap - 1), y, gap);
        assert ([ch] + kept)[0] == ch && ([ch] + kept)[1..] == kept;
      }
    }
  }

  /** The cursor moves by width plus `gap - 1` over a known first character, and not at all over an unknown one. */
  lemma AdvanceStep(table: GlyphTable, text: string, gap: int)
    requires text != []
    ensures Advance(table, text, gap)
         == Advance(table, text[1..], gap)
          + (if text[0] in table.widths && text[0] in table.offsets then table.widths[text[0]] + (gap - 1) else 0)
  {
    var ch, kept := text[0], Keep(text[1..], table.Known());
    if ch in table.widths && ch in table.offsets {
      assert Keep(text, table.Known()) == [ch] + kept;
      assert ([ch] + kept)[0] == ch && ([ch] + kept)[1..] == kept;
      MulAddLeft(1, |kept|, gap - 1);
    } else {
      assert Keep(text, table.Known()) == kept;
    }
  }

  /** Drawing text that starts with a known character paints that glyph first. */
  lemma RenderedKnownHead(d: seq<byte>, width: nat, font: Bitmap, table: GlyphTable,
                          text: string, x: int, y: int, gap: int)
    requires FontHolds(font, table)
    requires text != [] && text[0] in table.Known()
    ensures Rendered(d, width, font, table, text, x, y, gap)
         == Rendered(Paint(d, width, GlyphRect(table, text[0], x, y), GlyphInk(font, table, text[0], x, y)),
                     width, font, table, text[1..], x + table.widths[text[0]] + (gap - 1), y, gap)
  {
  }

  /** Drawing `a + b` draws `a`, then `b` from where the cursor stopped. */
  lemma {:induction false} RenderedAppend(d: seq<byte>, width: nat, font: Bitmap, table: GlyphTable,
                                          a: string, b: string, x: int, y: int, gap: int)
    requires FontHolds(font, table)
    decreases a
    ensures Rendered(d, width, font, table, a + b, x, y, gap)
         == Rendered(Rendered(d, width, font, table, a, x, y, gap), width, font, table, b,
                     x + Advance(table, a, gap), y, gap)
  {
    if a == [] {
      assert a + b == b;
      assert Advance(table, a, gap) == 0;
    } else {
      var ch, rest := a[0], a[1..];
      assert (a + b)[0] == ch && (a + b)[1..] == rest + b;
      AdvanceStep(table, a, gap);
      if ch !in table.widths || ch !in table.offsets {
        RenderedAppend(d, width, font, table, rest, b, x, y, gap);
      } else {
        var x' := x + table.widths[ch] + (gap - 1);
        var d' := Paint(d, width, GlyphRect(table, ch, x, y), GlyphInk(font, table, ch, x, y));
        calc {
          Rendered(d, width, font, table, a + b, x, y, gap);
          { RenderedKnownHead(d, width, font, table, a + b, x, y, gap); }
          Rendered(d', width, font, table, rest + b, x', y, gap);
          { RenderedAppend(d', width, font, table, rest, b, x', y, gap); }
          Rendered(Rendered(d', width, font, table, rest, x', y, gap), width, font, table, b,
                   x' + Advance(table, rest, gap), y, gap);
          { RenderedKnownHead(d, width, font, table, a, x, y, gap); }
          Rendered(Rendered(d, width, font, table, a, x, y, gap), width, font, table, b,
                   x + Advance(table, a, gap), y, gap);
        }
      }
    }
  }

  /**
   * The k-th known character of `text` is drawn with its glyph at cursor
   * `GlyphX(k)`, after the characters before it and before those after it.
   */
  lemma GlyphPlacement(d: seq<byte>, width: nat, font: Bitmap, table: GlyphTable,
                       text: string, x: int, y: int, gap: int, k: nat)
    requires FontHolds(font, table)
    requires k < |Keep(text, table.Known())|
    ensures var glyphs := Keep(text, table.Known());
      var g, at := glyphs[k], GlyphX(table, text, x, gap, k);
      g in table.Known() &&
      Rendered(d, width, font, table, text, x, y, gap)
        == Rendered(Paint(Rendered(d, width, font, table, glyphs[..k], x, y, gap), width,
                          GlyphRect(table, g, at, y), GlyphInk(font, table, g, at, y)),
                    width, font, table, glyphs[k + 1..], at + table.widths[g] + (gap - 1), y, gap)
  {
    var glyphs := Keep(text, table.Known());
    var g := glyphs[k];
    var at := GlyphX(table, text, x, gap, k);
    var before := Rendered(d, width, font, table, glyphs[..k], x, y, gap);
    assert Rendered(d, width, font, table, text, x, y, gap)
        == Rendered(before, width, font, table, glyphs[k..], at, y, gap) by {
      RenderedSkipsUnknown(d, width, font, table, text, x, y, gap);
      assert glyphs == glyphs[..k] + glyphs[k..];
      RenderedAppend(d, width, font, table, glyphs[..k], glyphs[k..], x, y, gap);
      KeepAll(glyphs[..k], table.Known());
      assert |glyphs[..k]| == k;
    }
    assert glyphs[k..][0] == g && glyphs[k..][1..] == glyphs[k + 1..];
    RenderedKnownHead(before, width, font, table, glyphs[k..], at, y, gap);
  }

  /** Byte `i` lies in the glyph block of some known character of `text`. */
  predicate Drawn(width: nat, i: nat, table: GlyphTable, text: string, x: int, y: int, gap: int)
    decreases |text|
  {
    if text == [] then false
    else
      var ch := text[0];
      if ch !in table.widths || ch !in table.offsets then
        Drawn(width, i, table, text[1..], x, y, gap)
      else
        Hits(width, i, GlyphRect(table, ch, x, y)) ||
        Drawn(width, i, table, text[1..], x + table.widths[ch] + (gap - 1), y, gap)
  }

  /** Bytes outside every glyph block keep their value. */
  lemma {:induction false} RenderedUntouched(d: seq<byte>, width: nat, font: Bitmap, table: GlyphTable,
                                             text: string, x: int, y: int, gap: int, i: nat)
    requires FontHolds(font, table)
    requires i < |d| && !Drawn(width, i, table, text, x, y, gap)
    decreases text
    ensures Rendered(d, width, font, table, text, x, y, gap)[i] == d[i]
  {
    if text != [] {
      var ch, rest := text[0], text[1..];
      if ch !in table.widths || ch !in table.offsets {
        RenderedUntouched(d, width, font, table, rest, x, y, gap, i);
      } else {
        var d' := Paint(d, width, GlyphRect(table, ch, x, y), GlyphInk(font, table, ch, x, y));
        RenderedUntouched(d', width, font, table, rest, x + table.widths[ch] + (gap - 1), y, gap, i);
      }
    }
  }

  /** With a positive gap the cursor never moves left, so columns left of it are never drawn. */
  lemma {:induction false} RenderedLeftOf(d: seq<byte>, width: nat, font: Bitmap, table: GlyphTable,
                                          text: string, x: int, y: int, gap: int, i: nat)
    requires FontHolds(font, table)
    requires gap >= 1 && width > 0 && i < |d| && ColOf(width, i) < x
    decreases text
    ensures Rendered(d, width, font, table, text, x, y, gap)[i] == d[i]
  {
    if text != [] {
      var ch, rest := text[0], text[1..];
      if ch !in table.widths || ch !in table.offsets {
        RenderedLeftOf(d, width, font, table, rest, x, y, gap, i);
      } else {
        var d' := Paint(d, width, GlyphRect(table, ch, x, y), GlyphInk(font, table, ch, x, y));
        RenderedLeftOf(d', width, font, table, rest, x + table.widths[ch] + (gap - 1), y, gap, i);
      }
    }
  }

  /**
   * With a positive gap no later glyph overwrites an earlier one: in the
   * result, target pixel (at + dx, y + dy) of the k-th known character holds
   * font pixel (offset + dx, dy).
   */
  lemma GlyphVisible(d: seq<byte>, width: nat, height: nat, font: Bitmap, table: GlyphTable,
                     text: string, x: int, y: int, gap: int, k: nat, col: int, row: int, ch: int)
    requires |d| == width * height * 4 && FontHolds(font, table) && gap >= 1
    requires k < |Keep(text, table.Known())|
    requires 0 <= col < width && 0 <= row < height && 0 <= ch < 4
    requires var g := Keep(text, table.Known())[k];
      Rect(GlyphX(table, text, x, gap, k), y, table.widths[g], CharHeight).Contains(col, row)
    ensures var g, at := Keep(text, table.Known())[k], GlyphX(table, text, x, gap, k);
      0 <= table.offsets[g] + (col - at) < font.width && 0 <= row - y < font.height &&
      0 <= Idx(width, col, row, ch) < |d| &&
      Rendered(d, width, font, table, text, x, y, gap)[Idx(width, col, row, ch)]
        == PixelByte(font, table.offsets[g] + (col - at), row - y, ch)
  {
    var glyphs := Keep(text, table.Known());
    var g, at := glyphs[k], GlyphX(table, text, x, gap, k);
    GlyphPlacement(d, width, font, table, text, x, y, gap, k);
    var before := Rendered(d, width, font, table, glyphs[..k], x, y, gap);
    var r, ink := GlyphRect(table, g, at, y), GlyphInk(font, table, g, at, y);
    var painted := Paint(before, width, r, ink);
    PaintAt(before, width, height, r, ink, col, row, ch);
    IdxDecode(width, col, row, ch);
    RenderedLeftOf(painted, width, font, table, glyphs[k + 1..], at + table.widths[g] + (gap - 1), y, gap,
                   Idx(width, col, row, ch));
  }

  // ---------------------------------------------------------------------
  // Measuring and drawing agree

  /** Text without known characters fits anywhere. */
  lemma {:induction false} GlyphsFitNone(table: GlyphTable, text: string, x: int, gap: int, width: int)
    requires Keep(text, table.Known()) == []
    decreases text
    ensures GlyphsFit(table, text, x, gap, width)
  {
    if text != [] {
      GlyphsFitNone(table, text[1..], x, gap, width);
    }
  }

  /**
   * Drawn with `gap`, text that has a known character spans exactly its
   * width measured with `gap - 1`: it fits in `width` columns from `x`
   * exactly when `x + TextWidth(text, gap - 1) <= width`.
   */
  lemma {:induction false} GlyphsFitMeasured(table: GlyphTable, text: string, x: int, gap: int, width: int)
    requires gap >= 1 && table.widths.Keys <= table.offsets.Keys
    requires Keep(text, table.widths.Keys) != []
    decreases text
    ensures GlyphsFit(table, text, x, gap, width)
        <==> 0 <= x && x + TextWidth(text, table.widths, gap - 1) <= width
  {
    assert table.Known() == table.widths.Keys;
    var ch, rest := text[0], text[1..];
    var kept := Keep(rest, table.widths.Keys);
    if ch !in table.widths {
      assert Keep(text, table.widths.Keys) == kept;
      GlyphsFitMeasured(table, rest, x, gap, width);
    } else {
      var w := table.widths[ch];
      var x' := x + w + (gap - 1);
      assert GlyphsFit(table, text, x, gap, width)
         <==> 0 <= x && x + w <= width && GlyphsFit(table, rest, x', gap, width);
      if kept == [] {
        assert TextWidth(text, table.widths, gap - 1) == w by {
          assert Keep(text, table.widths.Keys) == [ch] + kept == [ch];
          assert [ch][1..] == [];
          assert SumWidths([ch], table.widths) == w;
        }
        GlyphsFitNone(table, rest, x', gap, width);
      } else {
        var restWidth := TextWidth(rest, table.widths, gap - 1);
        assert TextWidth(text, table.widths, gap - 1) == w + (gap - 1) + restWidth by {
          assert Keep(text, table.widths.Keys) == [ch] + kept;
          assert ([ch] + kept)[0] == ch && ([ch] + kept)[1..] == kept;
          assert SumWidths([ch] + kept, table.widths) == w + SumWidths(kept, table.widths);
          MulAddLeft(|kept| - 1, 1, gap - 1);
        }
        assert restWidth >= 0 by {
          MulMonotone(0, |kept| - 1, gap - 1);
        }
        GlyphsFitMeasured(table, rest, x', gap, width);
      }
    }
  }

  /**
   * The label arrangement: with the font's widths and an offset table for the
   * same glyphs, as `FontOffsets` builds, text measured with the font's gap
   * and drawn from column 0 with a gap of 2 fits in an image `textWidth + 4`
   * wide.
   */
  lemma LabelFits(text: string, offsets: map<char, int>)
    requires forall c :: c in offsets <==> c in FontOrder
    requires Keep(text, CharWidths.Keys) != []
    ensures GlyphsFit(GlyphTable(CharWidths, offsets), text, 0, 2, TextWidth(text, CharWidths, Gap) + 4)
  {
    FontTablesAgree();
    GlyphsFitMeasured(GlyphTable(CharWidths, offsets), text, 0, 2, TextWidth(text, CharWidths, Gap) + 4);
  }
}
