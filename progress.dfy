/**
 * Measuring progress: each decoded tile is scanned four bytes at a time,
 * counting its pixels and the pixels whose alpha byte is zero, and the
 * per-tile counts are summed over all tiles.
 */
module Progress {
  import opened Raster

  /** Result of scanning one tile: pixels seen and transparent pixels among them. */
  datatype TileCount = TileCount(total: int, done: int)

  /** Pixel `k` counts as transparent: its alpha byte exists and is zero. */
  predicate AlphaZero(d: seq<byte>, k: int) {
    0 <= 4 * k + 3 < |d| && d[4 * k + 3] == 0
  }

  /** How many of the pixels 0 .. n-1 are transparent. */
  function AlphaZeroCount(d: seq<byte>, n: nat): (r: nat)
    ensures r <= n
  {
    if n == 0 then 0
    else AlphaZeroCount(d, n - 1) + (if AlphaZero(d, n - 1) then 1 else 0)
  }

  /** The count is the size of the set of transparent pixel indices below n. */
  lemma {:induction false} AlphaZeroCountIsSetSize(d: seq<byte>, n: nat)
    ensures AlphaZeroCount(d, n) == |set k | 0 <= k < n && AlphaZero(d, k)|
  {
    if n > 0 {
      AlphaZeroCountIsSetSize(d, n - 1);
      var below := set k | 0 <= k < n - 1 && AlphaZero(d, k);
      if AlphaZero(d, n - 1) {
        assert (set k | 0 <= k < n && AlphaZero(d, k)) == below + {n - 1};
      } else {
        assert (set k | 0 <= k < n && AlphaZero(d, k)) == below;
      }
    }
  }

  /** A tile whose every pixel has alpha 0 counts all its pixels as done. */
  lemma {:induction false} AllTransparentCountsAll(d: seq<byte>, n: nat)
    requires 4 * n <= |d|
    requires forall k :: 0 <= k < n ==> d[4 * k + 3] == 0
    ensures AlphaZeroCount(d, n) == n
  {
    if n > 0 {
      AllTransparentCountsAll(d, n - 1);
    }
  }

  /** A tile without a pixel of alpha 0 counts none as done. */
  lemma {:induction false} NoneTransparentCountsNone(d: seq<byte>, n: nat)
    requires forall k :: 0 <= k < n && 4 * k + 3 < |d| ==> d[4 * k + 3] != 0
    ensures AlphaZeroCount(d, n) == 0
  {
    if n > 0 {
      NoneTransparentCountsNone(d, n - 1);
    }
  }

  /**
   * The counting loop of `processTile`: one pixel per four bytes (a trailing
   * partial pixel included, whose missing alpha byte is not zero), and the
   * transparent ones among them.
   */
  method CountPixels(png: Png) returns (count: TileCount)
    ensures count.total == (png.data.Length + 3) / 4
    ensures count.done == AlphaZeroCount(png.data[..], count.total)
    ensures 0 <= count.done <= count.total
    ensures png.Valid() ==> count.total == png.width * png.height
  {
    var total := 0;
    var transparentPixels := 0;
    var i := 0;
    while i < png.data.Length
      invariant i == 4 * total && i <= png.data.Length + 3
      invariant transparentPixels == AlphaZeroCount(png.data[..], total)
    {
      total := total + 1;
      if i + 3 < png.data.Length && png.data[i + 3] == 0 {
        transparentPixels := transparentPixels + 1;
      }
      i := i + 4;
    }
    count := TileCount(total, transparentPixels);
  }

  /** `results.reduce((sum, r) => sum + r.total, 0)`. */
  function TotalPixels(results: seq<TileCount>): int {
    if results == [] then 0
    else TotalPixels(results[..|results| - 1]) + results[|results| - 1].total
  }

  /** `results.reduce((sum, r) => sum + r.done, 0)`. */
  function TransparentPixels(results: seq<TileCount>): int {
    if results == [] then 0
    else TransparentPixels(results[..|results| - 1]) + results[|results| - 1].done
  }

  /** Summing keeps the per-tile bound: 0 <= done <= total for the whole map. */
  lemma {:induction false} SumsBounded(results: seq<TileCount>)
    requires forall i :: 0 <= i < |results| ==> 0 <= results[i].done <= results[i].total
    ensures 0 <= TransparentPixels(results) <= TotalPixels(results)
  {
    if results != [] {
      SumsBounded(results[..|results| - 1]);
    }
  }

  /**
   * The tile counts of `run`: every tile is scanned, then both sums are
   * taken. The floating-point percentage is not part of this model.
   */
  method CountTiles(tiles: seq<Png>) returns (results: seq<TileCount>, totalPixels: int, transparentPixels: int)
    ensures |results| == |tiles|
    ensures forall i :: 0 <= i < |tiles| ==>
      results[i].total == (tiles[i].data.Length + 3) / 4 &&
      results[i].done == AlphaZeroCount(tiles[i].data[..], results[i].total)
    ensures totalPixels == TotalPixels(results) && transparentPixels == TransparentPixels(results)
    ensures 0 <= transparentPixels <= totalPixels
  {
    results := [];
    for t := 0 to |tiles|
      invariant |results| == t
      invariant forall i :: 0 <= i < t ==>
        results[i].total == (tiles[i].data.Length + 3) / 4 &&
        results[i].done == AlphaZeroCount(tiles[i].data[..], results[i].total)
    {
      var count := CountPixels(tiles[t]);
      results := results + [count];
    }
    SumsBounded(results);
    totalPixels := TotalPixels(results);
    transparentPixels := TransparentPixels(results);
  }
}
