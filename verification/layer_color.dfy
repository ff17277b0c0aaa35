/**
 * `getLayerColor` of src/Map.jsx and the colour table it reads: a record's
 * magnitude, rank and the dataset size give the fill colour of its hexagon.
 * Percentiles are exact reals.
 */
module LayerColor {
  import opened Wrappers
  import opened StableSort

  /** One colour channel. */
  type Channel = x: int | 0 <= x < 256

  datatype Rgba = Rgba(r: Channel, g: Channel, b: Channel, a: Channel)

  /** A palette entry: the colour applies from `lowerPercentile` upwards. */
  datatype ColorBand = ColorBand(lowerPercentile: real, rgba: Rgba)

  const Transparent: Rgba := Rgba(0, 0, 0, 0)

  /** Cells above this percentile are hidden. */
  const UpperPercentile: real := 100.0

  /** Cells below this percentile are hidden. */
  const LowerPercentile: real := 0.0

  /** `colorPalette`, as declared. */
  const ColorPalette: seq<ColorBand> := [
    ColorBand(99.999, Rgba(255, 255, 255, 255)),
    ColorBand(99.99, Rgba(220, 232, 247, 255)),
    ColorBand(99.95, Rgba(201, 219, 244, 255)),
    ColorBand(99.8, Rgba(182, 204, 242, 255)),
    ColorBand(99.5, Rgba(162, 187, 240, 255)),
    ColorBand(99.0, Rgba(120, 146, 239, 255)),
    ColorBand(98.0, Rgba(97, 122, 239, 255)),
    ColorBand(96.0, Rgba(82, 105, 240, 255)),
    ColorBand(93.0, Rgba(76, 87, 219, 255)),
    ColorBand(88.0, Rgba(55, 94, 192, 255)),
    ColorBand(81.0, Rgba(55, 100, 169, 255)),
    ColorBand(72.0, Rgba(54, 100, 147, 255)),
    ColorBand(61.0, Rgba(52, 96, 125, 255)),
    ColorBand(48.0, Rgba(49, 89, 105, 255)),
    ColorBand(33.0, Rgba(45, 79, 87, 255)),
    ColorBand(0.0, Rgba(40, 66, 69, 255))
  ]

  function BandThreshold(band: ColorBand): real
  {
    band.lowerPercentile
  }

  /** `sortedcolorPalette`: the palette sorted by threshold, largest first. */
  function SortedColorPalette(): seq<ColorBand>
  {
    SortDesc(ColorPalette, BandThreshold)
  }

  /** The palette is declared in descending order already, so sorting it changes nothing. */
  lemma SortedColorPaletteIsPalette()
    ensures SortedColorPalette() == ColorPalette
    ensures |ColorPalette| == 16 && ColorPalette[15].lowerPercentile == 0.0
  {
    NeighboursSorted(ColorPalette, BandThreshold);
    SortDescOfSorted(ColorPalette, BandThreshold);
  }

  /** Band `i` is the first of `bands` whose threshold is at or below `p`. */
  ghost predicate IsFirstBand(bands: seq<ColorBand>, p: real, i: int)
  {
    0 <= i < |bands| && bands[i].lowerPercentile <= p &&
    forall j :: 0 <= j < i ==> bands[j].lowerPercentile > p
  }

  /** `bands.find(color => p >= color.lowerPercentile)`, as the index of the band found. */
  function FindBand(bands: seq<ColorBand>, p: real): (found: Option<nat>)
    ensures found.Some? ==> IsFirstBand(bands, p, found.value)
    ensures found.None? ==> forall j :: 0 <= j < |bands| ==> bands[j].lowerPercentile > p
  {
    if bands == [] then None
    else if p >= bands[0].lowerPercentile then Some(0)
    else match FindBand(bands[1..], p)
      case None => None
      case Some(i) => Some(i + 1)
  }

  /** The percentile of the record of rank `rank` among `n` records (rank 1 is 100). */
  function Percentile(rank: int, n: int): real
    requires n != 0
  {
    ((n - (rank - 1)) as real / n as real) * 100.0
  }

  /**
   * `getLayerColor(density, rank, datasetLength)`, with `None` for a `null` density.
   * The source divides by `datasetLength` only for a non-zero density; that division
   * must not be by zero.
   */
  function GetLayerColor(density: Option<real>, rank: int, datasetLength: int): (c: Rgba)
    requires density.Some? && density.value != 0.0 ==> datasetLength != 0
    ensures density == None || density == Some(0.0) ==> c == Transparent
    ensures density.Some? && density.value != 0.0 ==>
      var p := Percentile(rank, datasetLength);
      (UpperPercentile < p || p < LowerPercentile ==> c == Transparent) &&
      (LowerPercentile <= p <= UpperPercentile ==>
        exists i :: IsFirstBand(ColorPalette, p, i) && c == ColorPalette[i].rgba)
  {
    match density
    case None => Transparent
    case Some(d) =>
      if d == 0.0 then Transparent
      else
        var p := Percentile(rank, datasetLength);
        if UpperPercentile < p || LowerPercentile > p then Transparent
        else
          SortedColorPaletteIsPalette();
          var found := FindBand(SortedColorPalette(), p);
          assert found.Some? by {
            assert ColorPalette[15].lowerPercentile <= p;
          }
          SortedColorPalette()[found.value].rgba
  }

  /** The band `FindBand` picks is the first one at or below `p`, whichever list is searched. */
  lemma FindBandIs(bands: seq<ColorBand>, p: real, i: nat)
    requires IsFirstBand(bands, p, i)
    ensures FindBand(bands, p) == Some(i)
  {
  }

  /** A higher percentile never selects a band at a later index (one with a lower threshold). */
  lemma FindBandMonotone(bands: seq<ColorBand>, p: real, q: real)
    requires p <= q && FindBand(bands, p).Some?
    ensures FindBand(bands, q).Some? && FindBand(bands, q).value <= FindBand(bands, p).value
  {
  }

  /** For ranks 1..n the percentile lies in (0, 100]; rank 1 gives exactly 100. */
  lemma PercentileBounds(rank: int, n: int)
    requires 1 <= rank <= n
    ensures 0.0 < Percentile(rank, n) <= 100.0
    ensures rank == 1 ==> Percentile(rank, n) == 100.0
  {
  }

  /** A better (smaller) rank never has a smaller percentile. */
  lemma PercentileAntitone(r1: int, r2: int, n: int)
    requires r1 <= r2 && 0 < n
    ensures Percentile(r1, n) >= Percentile(r2, n)
  {
  }

  /**
   * A non-zero density with a rank in 1..n is never hidden: it takes the colour of the
   * first band at or below its percentile, which is opaque.
   */
  lemma RankedDensityColor(d: real, rank: int, n: int)
    requires d != 0.0 && 1 <= rank <= n
    ensures FindBand(ColorPalette, Percentile(rank, n)).Some?
    ensures GetLayerColor(Some(d), rank, n)
         == ColorPalette[FindBand(ColorPalette, Percentile(rank, n)).value].rgba
    ensures GetLayerColor(Some(d), rank, n).a == 255
  {
    PercentileBounds(rank, n);
    var p := Percentile(rank, n);
    var c := GetLayerColor(Some(d), rank, n);
    assert LowerPercentile <= p <= UpperPercentile;
    assert exists i :: IsFirstBand(ColorPalette, p, i) && c == ColorPalette[i].rgba;
    var i :| IsFirstBand(ColorPalette, p, i) && c == ColorPalette[i].rgba;
    FindBandIs(ColorPalette, p, i);
    PaletteOpaque(i);
  }

  /** Every colour of the palette is fully opaque. */
  lemma PaletteOpaque(i: int)
    requires 0 <= i < |ColorPalette|
    ensures ColorPalette[i].rgba.a == 255
  {
  }

  /** Rank 1 with a non-zero density is the top colour, white. */
  lemma RankOneIsWhite(d: real, n: int)
    requires d != 0.0 && 1 <= n
    ensures GetLayerColor(Some(d), 1, n) == Rgba(255, 255, 255, 255)
  {
    PercentileBounds(1, n);
    RankedDensityColor(d, 1, n);
    FindBandIs(ColorPalette, 100.0, 0);
  }

  /** Of two ranked records with non-zero density, the better-ranked one never gets a later band. */
  lemma BetterRankNoLaterBand(r1: int, r2: int, n: int)
    requires 1 <= r1 <= r2 <= n
    ensures FindBand(ColorPalette, Percentile(r1, n)).Some?
    ensures FindBand(ColorPalette, Percentile(r2, n)).Some?
    ensures FindBand(ColorPalette, Percentile(r1, n)).value <= FindBand(ColorPalette, Percentile(r2, n)).value
  {
    RankedDensityColor(1.0, r1, n);
    RankedDensityColor(1.0, r2, n);
    PercentileAntitone(r1, r2, n);
    FindBandMonotone(ColorPalette, Percentile(r2, n), Percentile(r1, n));
  }

  /** Three records: percentiles 100, 66.7 and 33.3 give white, band 61 and band 33. */
  lemma ThreeRecordColors(d: real)
    requires d != 0.0
    ensures GetLayerColor(Some(d), 1, 3) == Rgba(255, 255, 255, 255)
    ensures GetLayerColor(Some(d), 2, 3) == Rgba(52, 96, 125, 255)
    ensures GetLayerColor(Some(d), 3, 3) == Rgba(45, 79, 87, 255)
  {
    RankOneIsWhite(d, 3);
    assert Percentile(2, 3) == 200.0 / 3.0;
    assert Percentile(3, 3) == 100.0 / 3.0;
    RankedDensityColor(d, 2, 3);
    RankedDensityColor(d, 3, 3);
    assert IsFirstBand(ColorPalette, 200.0 / 3.0, 12);
    FindBandIs(ColorPalette, 200.0 / 3.0, 12);
    assert IsFirstBand(ColorPalette, 100.0 / 3.0, 14);
    FindBandIs(ColorPalette, 100.0 / 3.0, 14);
  }
}
