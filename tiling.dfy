/** The tile pyramid the generator produces, as a specification: for zoom
    0, 1, ..., n - 1, for y from 0 and x from 0 below 2^zoom, one tile
    (tools/leaflet_tile_generator.tsx:43-49, 69-75). */
module Tiling {
  import opened TileMath
  import opened Crop

  /** A decoded image; only its pixel size matters to the generator. */
  datatype Image = Image(width: nat, height: nat)

  /** `Math.max(image.width, image.height)` (tools/leaflet_tile_generator.tsx:39). */
  function LongerSide(img: Image): (m: nat)
    ensures m >= img.width && m >= img.height
    ensures m == img.width || m == img.height
  {
    if img.width >= img.height then img.width else img.height
  }

  /** A generated tile: its address and the rectangle of the image it is
      drawn from and the canvas rectangle it is drawn onto. */
  datatype Tile = Tile(zoom: nat, x: nat, y: nat, src: Rect, dst: Rect)

  /** The tile the loop body produces for address (z, x, y)
      (tools/leaflet_tile_generator.tsx:58-75). */
  function MkTile(img: Image, z: nat, x: nat, y: nat): (t: Tile)
  {
    Tile(z, x, y, SourceRect(img.width, img.height, z, x, y), DestRect)
  }

  /** `t` is a well-placed tile of `img`: inside its level's 2^z x 2^z grid,
      carrying the crop and canvas rectangles of its address. */
  predicate IsTileOf(img: Image, t: Tile)
  {
    t.x < Pow2(t.zoom) && t.y < Pow2(t.zoom) && t == MkTile(img, t.zoom, t.x, t.y)
  }

  /** Generation order: zoom first, then row y, then column x. */
  predicate Before(a: Tile, b: Tile)
  {
    a.zoom < b.zoom || (a.zoom == b.zoom && (a.y < b.y || (a.y == b.y && a.x < b.x)))
  }

  predicate StrictlyOrdered(s: seq<Tile>)
  {
    forall i, j :: 0 <= i < j < |s| ==> Before(s[i], s[j])
  }

  /** The address of a tile. */
  function Addr(t: Tile): (nat, nat, nat)
  {
    (t.zoom, t.x, t.y)
  }

  /** Row y of level z: one run of the innermost loop. */
  function Row(img: Image, z: nat, y: nat): seq<Tile>
  {
    seq(Pow2(z), x requires 0 <= x => MkTile(img, z, x, y))
  }

  /** Rows 0 .. r - 1 of level z. */
  function Rows(img: Image, z: nat, r: nat): seq<Tile>
  {
    if r == 0 then [] else Rows(img, z, r - 1) + Row(img, z, r - 1)
  }

  /** All 2^z rows of level z. */
  function Level(img: Image, z: nat): seq<Tile>
  {
    Rows(img, z, Pow2(z))
  }

  /** Levels 0 .. n - 1. */
  function Pyramid(img: Image, n: nat): seq<Tile>
  {
    if n == 0 then [] else Pyramid(img, n - 1) + Level(img, n - 1)
  }

  /** Number of tiles of zoom `z` in `s`. */
  function CountAt(s: seq<Tile>, z: nat): nat
  {
    if s == [] then 0
    else CountAt(s[..|s| - 1], z) + (if s[|s| - 1].zoom == z then 1 else 0)
  }

  /** One more step of the innermost loop extends the row prefix by tile x. */
  lemma RowPrefixGrows(img: Image, z: nat, y: nat, x: nat)
    requires x < Pow2(z)
    ensures Row(img, z, y)[..x + 1] == Row(img, z, y)[..x] + [Tile(z, x, y, SourceRect(img.width, img.height, z, x, y), DestRect)]
  {
  }

  // ---------------------------------------------------------------- sizes

  lemma {:induction false} RowsSize(img: Image, z: nat, r: nat)
    ensures |Rows(img, z, r)| == r * Pow2(z)
  {
    if r > 0 {
      RowsSize(img, z, r - 1);
    }
  }

  /** Level z holds exactly 4^z tiles. */
  lemma LevelSize(img: Image, z: nat)
    ensures |Level(img, z)| == Pow4(z)
  {
    RowsSize(img, z, Pow2(z));
    Pow2Square(z);
  }

  /** A pyramid of n levels holds (4^n - 1) / 3 tiles. */
  lemma {:induction false} PyramidSize(img: Image, n: nat)
    ensures |Pyramid(img, n)| == TotalCount(n)
  {
    if n > 0 {
      PyramidSize(img, n - 1);
      LevelSize(img, n - 1);
      TotalCountExact(n);
      TotalCountExact(n - 1);
    }
  }

  // ----------------------------------------------------------- membership

  lemma RowMembers(img: Image, z: nat, y: nat)
    ensures forall t :: t in Row(img, z, y) <==> t.zoom == z && t.y == y && t.x < Pow2(z) && t == MkTile(img, z, t.x, y)
  {
    var row := Row(img, z, y);
    forall t: Tile | t.zoom == z && t.y == y && t.x < Pow2(z) && t == MkTile(img, z, t.x, y)
      ensures t in row
    {
      assert row[t.x] == t;
    }
  }

  /** The first r rows of level z hold exactly the tiles of that level with
      row index below r. */
  lemma {:induction false} RowsMembers(img: Image, z: nat, r: nat)
    requires r <= Pow2(z)
    ensures forall t :: t in Rows(img, z, r) <==> t.zoom == z && t.y < r && IsTileOf(img, t)
  {
    if r > 0 {
      RowsMembers(img, z, r - 1);
      RowMembers(img, z, r - 1);
    }
  }

  /** A pyramid of n levels holds exactly the well-placed tiles of zoom below n. */
  lemma {:induction false} PyramidMembers(img: Image, n: nat)
    ensures forall t :: t in Pyramid(img, n) <==> t.zoom < n && IsTileOf(img, t)
  {
    if n > 0 {
      PyramidMembers(img, n - 1);
      RowsMembers(img, n - 1, Pow2(n - 1));
    }
  }

  // ---------------------------------------------------------------- order

  lemma OrderedConcat(a: seq<Tile>, b: seq<Tile>)
    requires StrictlyOrdered(a) && StrictlyOrdered(b)
    requires forall i, j :: 0 <= i < |a| && 0 <= j < |b| ==> Before(a[i], b[j])
    ensures StrictlyOrdered(a + b)
  {
    var s := a + b;
    forall i, j | 0 <= i < j < |s|
      ensures Before(s[i], s[j])
    {
      if j < |a| {
        assert s[i] == a[i] && s[j] == a[j];
      } else if i >= |a| {
        assert s[i] == b[i - |a|] && s[j] == b[j - |a|];
      } else {
        assert s[i] == a[i] && s[j] == b[j - |a|];
      }
    }
  }

  lemma {:induction false} RowsOrdered(img: Image, z: nat, r: nat)
    requires r <= Pow2(z)
    ensures StrictlyOrdered(Rows(img, z, r))
  {
    if r > 0 {
      RowsOrdered(img, z, r - 1);
      RowsMembers(img, z, r - 1);
      var a, b := Rows(img, z, r - 1), Row(img, z, r - 1);
      forall i, j | 0 <= i < |a| && 0 <= j < |b|
        ensures Before(a[i], b[j])
      {
        assert a[i] in a;
      }
      OrderedConcat(a, b);
    }
  }

  /** The pyramid lists its tiles in strictly increasing (zoom, y, x) order. */
  lemma {:induction false} PyramidOrdered(img: Image, n: nat)
    ensures StrictlyOrdered(Pyramid(img, n))
  {
    if n > 0 {
      PyramidOrdered(img, n - 1);
      PyramidMembers(img, n - 1);
      RowsMembers(img, n - 1, Pow2(n - 1));
      RowsOrdered(img, n - 1, Pow2(n - 1));
      var a, b := Pyramid(img, n - 1), Level(img, n - 1);
      forall i, j | 0 <= i < |a| && 0 <= j < |b|
        ensures Before(a[i], b[j])
      {
        assert a[i] in a;
        assert b[j] in b;
      }
      OrderedConcat(a, b);
    }
  }

  /** Every address (z, x, y) with z < n and x, y < 2^z occurs exactly once. */
  lemma PyramidExactlyOnce(img: Image, n: nat, z: nat, x: nat, y: nat)
    requires z < n && x < Pow2(z) && y < Pow2(z)
    ensures exists i :: 0 <= i < |Pyramid(img, n)| && Addr(Pyramid(img, n)[i]) == (z, x, y)
    ensures forall i, j ::
              (0 <= i < |Pyramid(img, n)| && 0 <= j < |Pyramid(img, n)| &&
               Addr(Pyramid(img, n)[i]) == (z, x, y) && Addr(Pyramid(img, n)[j]) == (z, x, y)) ==> i == j
  {
    var p := Pyramid(img, n);
    PyramidMembers(img, n);
    assert MkTile(img, z, x, y) in p;
    PyramidOrdered(img, n);
    forall i, j | 0 <= i < |p| && 0 <= j < |p| && Addr(p[i]) == (z, x, y) && Addr(p[j]) == (z, x, y)
      ensures i == j
    {
      assert i < j ==> Before(p[i], p[j]);
      assert j < i ==> Before(p[j], p[i]);
    }
  }

  // --------------------------------------------------------------- counts

  lemma {:induction false} CountAtConcat(a: seq<Tile>, b: seq<Tile>, z: nat)
    ensures CountAt(a + b, z) == CountAt(a, z) + CountAt(b, z)
    decreases |b|
  {
    if b != [] {
      var b' := b[..|b| - 1];
      assert (a + b)[..|a + b| - 1] == a + b';
      CountAtConcat(a, b', z);
    } else {
      assert a + b == a;
    }
  }

  lemma {:induction false} CountAtUniform(s: seq<Tile>, z: nat, z': nat)
    requires forall i :: 0 <= i < |s| ==> s[i].zoom == z'
    ensures CountAt(s, z) == if z == z' then |s| else 0
  {
    if s != [] {
      CountAtUniform(s[..|s| - 1], z, z');
    }
  }

  lemma LevelZooms(img: Image, z: nat)
    ensures forall i :: 0 <= i < |Level(img, z)| ==> Level(img, z)[i].zoom == z
  {
    var lv := Level(img, z);
    RowsMembers(img, z, Pow2(z));
    forall i | 0 <= i < |lv|
      ensures lv[i].zoom == z
    {
      assert lv[i] in lv;
    }
  }

  /** Every tile of an n-level pyramid has zoom below n. */
  lemma PyramidZoomsBelow(img: Image, n: nat)
    ensures forall i :: 0 <= i < |Pyramid(img, n)| ==> Pyramid(img, n)[i].zoom < n
  {
    var p := Pyramid(img, n);
    PyramidMembers(img, n);
    forall i | 0 <= i < |p|
      ensures p[i].zoom < n
    {
      assert p[i] in p;
    }
  }

  /** A non-empty pyramid ends with a tile of its top level. */
  lemma PyramidTopLast(img: Image, n: nat)
    requires n > 0
    ensures |Pyramid(img, n)| > 0 && Pyramid(img, n)[|Pyramid(img, n)| - 1].zoom == n - 1
  {
    var below, lv := Pyramid(img, n - 1), Level(img, n - 1);
    LevelSize(img, n - 1);
    LevelZooms(img, n - 1);
    assert (below + lv)[|below + lv| - 1] == lv[|lv| - 1];
  }

  /** Appending a block of tiles that all have zoom z' adds its length to
      the count of z' and nothing to any other zoom. */
  lemma CountAtAppendUniform(a: seq<Tile>, b: seq<Tile>, z: nat, z': nat)
    requires forall i :: 0 <= i < |b| ==> b[i].zoom == z'
    ensures CountAt(a + b, z) == CountAt(a, z) + (if z == z' then |b| else 0)
  {
    CountAtConcat(a, b, z);
    CountAtUniform(b, z, z');
  }

  /** Level z of an n-level pyramid contributes exactly 4^z tiles; no other
      zoom occurs. */
  lemma {:induction false} PyramidCountAt(img: Image, n: nat, z: nat)
    ensures CountAt(Pyramid(img, n), z) == if z < n then Pow4(z) else 0
  {
    if n > 0 {
      PyramidCountAt(img, n - 1, z);
      LevelZooms(img, n - 1);
      LevelSize(img, n - 1);
      CountAtAppendUniform(Pyramid(img, n - 1), Level(img, n - 1), z, n - 1);
    }
  }
}
