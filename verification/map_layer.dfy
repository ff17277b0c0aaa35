/**
 * The data the `Map` component of src/Map.jsx hands to its hexagon layer for one
 * filter time: the ranked records in the time window, each with its fill colour
 * (from its magnitude, its rank and the dataset size) and its elevation (its
 * magnitude). The hexagon id of each record comes from a geo-indexing library
 * and is not part of this model.
 */
module MapLayer {
  import opened Wrappers
  import opened Records
  import opened Ranking
  import opened TimeFilter
  import opened LayerColor

  /** One datum of the layer with the two accessors the map supplies for it. */
  datatype Cell = Cell(datum: Ranked, fill: Rgba, elevation: real)

  /** The cells for the ranked records `ranked` of a dataset of `n` records at filter time `t`. */
  function LayerCells(ranked: seq<Ranked>, n: int, t: int): (cells: seq<Cell>)
    requires ranked != [] ==> n != 0
    ensures |cells| == |GetFilteredData(ranked, t)|
    ensures forall i :: 0 <= i < |cells| ==>
      cells[i].datum == GetFilteredData(ranked, t)[i] && cells[i].elevation == cells[i].datum.record.magnitude
  {
    var shown := GetFilteredData(ranked, t);
    FilterMembers(ranked, t);
    seq(|shown|, i requires 0 <= i < |shown| =>
      assert shown[i] in ranked;
      Cell(shown[i], GetLayerColor(Some(shown[i].record.magnitude), shown[i].rank, n), shown[i].record.magnitude))
  }

  /**
   * For a loaded dataset `s` and any filter time: every cell shown is a record of `s`
   * with its rank; a zero magnitude is transparent; any other magnitude gets the
   * opaque colour of the first palette band at or below its rank's percentile.
   */
  lemma ShownCellsColoured(s: seq<Record>, t: int)
    ensures var cells := LayerCells(RankedOf(s), |s|, t);
      forall i :: 0 <= i < |cells| ==>
        && cells[i].datum in RankedOf(s)
        && 1 <= cells[i].datum.rank <= |s|
        && (cells[i].elevation == 0.0 ==> cells[i].fill == Transparent)
        && (cells[i].elevation != 0.0 ==>
              FindBand(ColorPalette, Percentile(cells[i].datum.rank, |s|)).Some? &&
              cells[i].fill == ColorPalette[FindBand(ColorPalette, Percentile(cells[i].datum.rank, |s|)).value].rgba &&
              cells[i].fill.a == 255)
  {
    var ranked := RankedOf(s);
    RanksDense(s);
    FilterMembers(ranked, t);
    var cells := LayerCells(ranked, |s|, t);
    forall i | 0 <= i < |cells|
      ensures cells[i].datum in ranked && 1 <= cells[i].datum.rank <= |s|
      ensures cells[i].elevation == 0.0 ==> cells[i].fill == Transparent
      ensures cells[i].elevation != 0.0 ==>
              FindBand(ColorPalette, Percentile(cells[i].datum.rank, |s|)).Some? &&
              cells[i].fill == ColorPalette[FindBand(ColorPalette, Percentile(cells[i].datum.rank, |s|)).value].rgba &&
              cells[i].fill.a == 255
    {
      var x := cells[i].datum;
      assert x in GetFilteredData(ranked, t);
      var k :| 0 <= k < |ranked| && ranked[k] == x;
      if x.record.magnitude != 0.0 {
        RankedDensityColor(x.record.magnitude, x.rank, |s|);
      }
    }
  }
}
