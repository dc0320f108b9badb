/** The state and actions of the tile generator component
    (tools/leaflet_tile_generator.tsx:4-128): the loaded image, the
    `generating` flag, the progress percentage and the finished tiles, the
    generation run that fills them, and the structure summary computed from
    them. */
module Generator {
  import opened TileMath
  import opened Crop
  import opened Tiling
  import opened Structure

  datatype Option<T> = None | Some(value: T)

  class LeafletTileGenerator {
    var image: Option<Image>
    var generating: bool
    var progress: int
    var tiles: seq<Tile>
    /** The values written to `progress` during the latest generation run, in order. */
    ghost var progressLog: seq<int>

    /** The initial component state (tools/leaflet_tile_generator.tsx:5-8). */
    constructor ()
      ensures image == None && !generating && progress == 0 && tiles == [] && progressLog == []
    {
      image := None;
      generating := false;
      progress := 0;
      tiles := [];
      progressLog := [];
    }

    /** A decoded upload replaces the image and discards the previous tiles
        (tools/leaflet_tile_generator.tsx:17-19). */
    method LoadImage(img: Image)
      modifies this
      ensures image == Some(img) && tiles == []
      ensures generating == old(generating) && progress == old(progress) && progressLog == old(progressLog)
    {
      image := Some(img);
      tiles := [];
    }

    /** `generateTiles` (tools/leaflet_tile_generator.tsx:27-86). With no
        image it changes nothing. Otherwise it produces the full pyramid for
        the image's maxZoom, in (zoom, y, x) order, writes 0 and then one
        percentage per tile to `progress`, and ends with `generating` false. */
    method GenerateTiles()
      modifies this
      ensures old(image).None? ==> unchanged(this)
      ensures old(image).Some? ==>
        var img := old(image).value;
        var n := Levels(MaxZoom(LongerSide(img)));
        && image == old(image)
        && !generating
        && tiles == Pyramid(img, n)
        && progressLog == [0] + ProgressSeries(|tiles|, if n == 0 then 0 else n - 1)
        && progress == progressLog[|progressLog| - 1]
    {
      if image.None? {
        return;
      }
      var img := image.value;
      generating := true;
      progress := 0;
      progressLog := [0];
      var maxZoom := MaxZoom(LongerSide(img));
      var generatedTiles := GenerateLevels(img, maxZoom);
      tiles := generatedTiles;
      generating := false;
    }

    /** The zoom loop of `generateTiles` (tools/leaflet_tile_generator.tsx:43-84):
        levels 0 .. maxZoom in increasing order; none when maxZoom is negative
        or minus infinity. Progress is computed against maxZoom. */
    method GenerateLevels(img: Image, maxZoom: Bound) returns (generated: seq<Tile>)
      requires progressLog == [0] && progress == 0
      modifies this
      ensures var n := Levels(maxZoom);
        && generated == Pyramid(img, n)
        && progressLog == [0] + ProgressSeries(|generated|, if n == 0 then 0 else n - 1)
      ensures progress == progressLog[|progressLog| - 1]
      ensures image == old(image) && generating == old(generating) && tiles == old(tiles)
    {
      ghost var n := Levels(maxZoom);
      ghost var top: nat := if n == 0 then 0 else n - 1;
      generated := [];
      var zoom := 0;
      while maxZoom.Finite? && zoom <= maxZoom.z
        invariant 0 <= zoom <= n
        invariant (maxZoom.Finite? && zoom <= maxZoom.z) <==> zoom < n
        invariant zoom < n ==> maxZoom == Finite(top)
        invariant generated == Pyramid(img, zoom)
        invariant progressLog == [0] + ProgressSeries(|generated|, top)
        invariant progress == progressLog[|progressLog| - 1]
        invariant image == old(image) && generating == old(generating) && tiles == old(tiles)
        decreases n - zoom
      {
        generated := GenerateLevel(img, zoom, maxZoom.z, generated);
        zoom := zoom + 1;
      }
    }

    /** One pass of the outer loop of `generateTiles`
        (tools/leaflet_tile_generator.tsx:43-49): the rows of level `zoom`,
        top to bottom. */
    method GenerateLevel(img: Image, zoom: nat, maxZoom: nat, done: seq<Tile>) returns (generated: seq<Tile>)
      requires progressLog == [0] + ProgressSeries(|done|, maxZoom)
      requires progress == progressLog[|progressLog| - 1]
      modifies this
      ensures generated == done + Level(img, zoom)
      ensures progressLog == [0] + ProgressSeries(|generated|, maxZoom)
      ensures progress == progressLog[|progressLog| - 1]
      ensures image == old(image) && generating == old(generating) && tiles == old(tiles)
    {
      generated := done;
      var tilesPerSide := Pow2(zoom);
      var y := 0;
      while y < tilesPerSide
        invariant 0 <= y <= tilesPerSide
        invariant generated == done + Rows(img, zoom, y)
        invariant progressLog == [0] + ProgressSeries(|generated|, maxZoom)
        invariant progress == progressLog[|progressLog| - 1]
        invariant image == old(image) && generating == old(generating) && tiles == old(tiles)
      {
        generated := GenerateRow(img, zoom, y, maxZoom, generated);
        y := y + 1;
      }
    }

    /** One run of the innermost loop of `generateTiles`
        (tools/leaflet_tile_generator.tsx:49-80): the tiles of row y of level
        `zoom` are appended in column order, and after each one `progress`
        is set from the running count. */
    method GenerateRow(img: Image, zoom: nat, y: nat, maxZoom: nat, done: seq<Tile>) returns (generated: seq<Tile>)
      requires progressLog == [0] + ProgressSeries(|done|, maxZoom)
      requires progress == progressLog[|progressLog| - 1]
      modifies this
      ensures generated == done + Row(img, zoom, y)
      ensures progressLog == [0] + ProgressSeries(|generated|, maxZoom)
      ensures progress == progressLog[|progressLog| - 1]
      ensures image == old(image) && generating == old(generating) && tiles == old(tiles)
    {
      generated := done;
      var tilesPerSide := Pow2(zoom);
      var x := 0;
      while x < tilesPerSide
        invariant 0 <= x <= tilesPerSide
        invariant generated == done + Row(img, zoom, y)[..x]
        invariant progressLog == [0] + ProgressSeries(|generated|, maxZoom)
        invariant progress == progressLog[|progressLog| - 1]
        invariant image == old(image) && generating == old(generating) && tiles == old(tiles)
      {
        var src := SourceRect(img.width, img.height, zoom, x, y);
        var tile := Tile(zoom, x, y, src, DestRect);
        RowPrefixGrows(img, zoom, y, x);
        generated := generated + [tile];

        progress := ProgressAfter(|generated|, maxZoom);
        progressLog := progressLog + [progress];
        ProgressSeriesGrows(|generated| - 1, maxZoom);
        x := x + 1;
      }
      assert Row(img, zoom, y)[..tilesPerSide] == Row(img, zoom, y);
    }

    /** The values `downloadAsZip` assembles its text from: the tile count,
        the `structure` dictionary from zoom to the (x, y) cells of that zoom
        in tile order, and the layer's maximum zoom
        (tools/leaflet_tile_generator.tsx:97-116). */
    method DownloadAsZip() returns (tileCount: nat, structure: map<nat, seq<Cell>>, maxZoom: Bound)
      ensures tileCount == |tiles|
      ensures structure.Keys == Zooms(tiles)
      ensures forall z :: z in structure ==> structure[z] == CellsAt(tiles, z)
      ensures maxZoom == LayerMaxZoom(tiles)
    {
      structure := map[];
      var i := 0;
      while i < |tiles|
        invariant 0 <= i <= |tiles|
        invariant structure.Keys == Zooms(tiles[..i])
        invariant forall z :: z in structure ==> structure[z] == CellsAt(tiles[..i], z)
      {
        var tile := tiles[i];
        var cells := if tile.zoom in structure then structure[tile.zoom] else [];
        GroupStep(structure, tiles[..i], tile);
        structure := structure[tile.zoom := cells + [Cell(tile.x, tile.y)]];
        assert tiles[..i + 1] == tiles[..i] + [tile];
        i := i + 1;
      }
      assert tiles[..|tiles|] == tiles;
      tileCount := |tiles|;
      maxZoom := LayerMaxZoom(tiles);
    }
  }
}
