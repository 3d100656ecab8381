/**
 * The bitmap font: a strip image holding the glyphs of `FontOrder` side by
 * side, each `CharHeight` pixels tall and as wide as `CharWidths` says, with
 * `Gap` empty columns after each. The x-offset of every glyph in the strip is
 * computed once, by a loop that advances a running offset.
 */
module Font {

  const CharHeight: nat := 7
  const Gap: int := 1

  /** The glyphs of the font strip, from left to right. */
  const FontOrder: string := "#¹²³⁴⁵⁶⁷⁸⁹⁰R/PLACE:% .1234567890"

  const CharWidths: map<char, nat> := map[
    '#' := 6, '¹' := 3, '²' := 5, '³' := 4, '⁴' := 6, '⁵' := 4, '⁶' := 5,
    '⁷' := 4, '⁸' := 5, '⁹' := 5, '⁰' := 5,
    'R' := 5, '/' := 4, 'P' := 5, 'L' := 4, 'A' := 5, 'C' := 4, 'E' := 4,
    ':' := 2, '%' := 6, ' ' := 2, '.' := 2,
    '1' := 4, '2' := 4, '3' := 4, '4' := 4, '5' := 4, '6' := 4, '7' := 4,
    '8' := 4, '9' := 4, '0' := 4
  ]

  /** Every glyph of `order` has a width. */
  predicate HasWidths(order: string, widths: map<char, nat>) {
    forall i :: 0 <= i < |order| ==> order[i] in widths
  }

  predicate Distinct(s: string) {
    forall i, j :: 0 <= i < j < |s| ==> s[i] != s[j]
  }

  /** The running `xOffset` after the first `n` glyphs of `order`. */
  function StripOffset(order: string, widths: map<char, nat>, gap: int, n: nat): int
    requires HasWidths(order, widths) && n <= |order|
  {
    if n == 0 then 0
    else StripOffset(order, widths, gap, n - 1) + widths[order[n - 1]] + gap
  }

  /** The offset table after the first `n` glyphs of `order` are entered. */
  function OffsetTable(order: string, widths: map<char, nat>, gap: int, n: nat): map<char, int>
    requires HasWidths(order, widths) && n <= |order|
  {
    if n == 0 then map[]
    else OffsetTable(order, widths, gap, n - 1)[order[n - 1] := StripOffset(order, widths, gap, n - 1)]
  }

  /**
   * The offsets of `order` are chained: the first glyph sits at 0, each next
   * glyph starts after the previous one and the gap, and the offsets
   * strictly increase along `order`.
   */
  predicate Chained(order: string, widths: map<char, nat>, gap: int, offsets: map<char, int>)
    requires HasWidths(order, widths)
  {
    (forall c :: c in order ==> c in offsets) &&
    (|order| > 0 ==> offsets[order[0]] == 0) &&
    (forall i :: 0 <= i < |order| - 1 ==>
      offsets[order[i + 1]] == offsets[order[i]] + widths[order[i]] + gap) &&
    (forall i, j :: 0 <= i < j < |order| ==> offsets[order[i]] < offsets[order[j]])
  }

  /**
   * The loop that fills `CHAR_X_OFFSETS`: each glyph gets the current
   * offset, which then advances by the glyph's width and the gap.
   */
  method BuildOffsets(order: string, widths: map<char, nat>, gap: int) returns (offsets: map<char, int>, xOffset: int)
    requires HasWidths(order, widths)
    ensures offsets == OffsetTable(order, widths, gap, |order|)
    ensures xOffset == StripOffset(order, widths, gap, |order|)
    ensures forall c :: c in offsets <==> c in order
    ensures Distinct(order) && gap >= 1 ==> Chained(order, widths, gap, offsets)
  {
    offsets := map[];
    xOffset := 0;
    for n := 0 to |order|
      invariant offsets == OffsetTable(order, widths, gap, n)
      invariant xOffset == StripOffset(order, widths, gap, n)
    {
      offsets := offsets[order[n] := xOffset];
      xOffset := xOffset + widths[order[n]] + gap;
    }
    OffsetTableKeys(order, widths, gap, |order|);
    assert order[..|order|] == order;
    if Distinct(order) && gap >= 1 {
      OffsetTableChain(order, widths, gap);
    }
  }

  /** The table holds exactly the glyphs entered so far. */
  lemma {:induction false} OffsetTableKeys(order: string, widths: map<char, nat>, gap: int, n: nat)
    requires HasWidths(order, widths) && n <= |order|
    ensures forall c :: c in OffsetTable(order, widths, gap, n) <==> c in order[..n]
  {
    if n > 0 {
      OffsetTableKeys(order, widths, gap, n - 1);
      assert order[..n] == order[..n - 1] + [order[n - 1]];
    }
  }

  /**
   * In an alphabet without repeats, the offset of the i-th glyph is the sum
   * of width plus gap over the glyphs before it.
   */
  lemma {:induction false} OffsetTableAt(order: string, widths: map<char, nat>, gap: int, n: nat, i: nat)
    requires HasWidths(order, widths) && Distinct(order) && i < n <= |order|
    ensures order[i] in OffsetTable(order, widths, gap, n)
    ensures OffsetTable(order, widths, gap, n)[order[i]] == StripOffset(order, widths, gap, i)
  {
    if i < n - 1 {
      OffsetTableAt(order, widths, gap, n - 1, i);
    }
  }

  /** With a positive gap, offsets strictly increase along the strip. */
  lemma {:induction false} StripOffsetIncreasing(order: string, widths: map<char, nat>, gap: int, i: nat, j: nat)
    requires HasWidths(order, widths) && gap >= 1 && i < j <= |order|
    ensures StripOffset(order, widths, gap, i) < StripOffset(order, widths, gap, j)
  {
    if i < j - 1 {
      StripOffsetIncreasing(order, widths, gap, i, j - 1);
    }
  }

  /** The font's alphabet has 32 glyphs, no two alike. */
  lemma FontOrderDistinct()
    ensures |FontOrder| == 32 && Distinct(FontOrder)
  {
  }

  /** The font's tables agree: each glyph of the alphabet has a width, and nothing else has one. */
  lemma FontTablesAgree()
    ensures HasWidths(FontOrder, CharWidths)
    ensures forall c :: c in CharWidths <==> c in FontOrder
  {
  }

  /**
   * The offset table of an alphabet without repeats: the first glyph sits
   * at 0, each next one right after the previous glyph and the gap, so with a
   * positive gap the offsets strictly increase.
   */
  lemma OffsetTableChain(order: string, widths: map<char, nat>, gap: int)
    requires HasWidths(order, widths) && Distinct(order) && gap >= 1
    ensures forall c :: c in OffsetTable(order, widths, gap, |order|) <==> c in order
    ensures |order| > 0 ==> OffsetTable(order, widths, gap, |order|)[order[0]] == 0
    ensures forall i :: 0 <= i < |order| - 1 ==>
      OffsetTable(order, widths, gap, |order|)[order[i + 1]]
        == OffsetTable(order, widths, gap, |order|)[order[i]] + widths[order[i]] + gap
    ensures forall i, j :: 0 <= i < j < |order| ==>
      OffsetTable(order, widths, gap, |order|)[order[i]] < OffsetTable(order, widths, gap, |order|)[order[j]]
  {
    var table := OffsetTable(order, widths, gap, |order|);
    OffsetTableKeys(order, widths, gap, |order|);
    assert order[..|order|] == order;
    if |order| > 0 {
      OffsetTableAt(order, widths, gap, |order|, 0);
    }
    forall i | 0 <= i < |order| - 1
      ensures table[order[i + 1]] == table[order[i]] + widths[order[i]] + gap
    {
      OffsetTableAt(order, widths, gap, |order|, i);
      OffsetTableAt(order, widths, gap, |order|, i + 1);
    }
    forall i, j | 0 <= i < j < |order|
      ensures table[order[i]] < table[order[j]]
    {
      OffsetTableAt(order, widths, gap, |order|, i);
      OffsetTableAt(order, widths, gap, |order|, j);
      StripOffsetIncreasing(order, widths, gap, i, j);
    }
  }

  /**
   * `CHAR_X_OFFSETS`, filled by the offset loop over the font's own tables:
   * every glyph of the strip gets an offset, `#` sits at column 0,
   * and each next glyph starts after the previous one and `GAP`.
   */
  method FontOffsets() returns (offsets: map<char, int>)
    ensures forall c :: c in offsets <==> c in FontOrder
    ensures HasWidths(FontOrder, CharWidths) && Chained(FontOrder, CharWidths, Gap, offsets)
  {
    FontTablesAgree();
    FontOrderDistinct();
    var xOffset;
    offsets, xOffset := BuildOffsets(FontOrder, CharWidths, Gap);
  }
}
