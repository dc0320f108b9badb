/** What the "Download Structure Info" action computes from the finished
    tiles before formatting it as text: the (x, y) cells grouped under each
    zoom, and the largest zoom (tools/leaflet_tile_generator.tsx:99-103, 116). */
module Structure {
  import opened TileMath
  import opened Tiling

  /** The `{ x, y }` entry recorded per tile (tools/leaflet_tile_generator.tsx:102). */
  datatype Cell = Cell(x: nat, y: nat)

  /** The cells of the tiles of zoom `z`, in the order the tiles appear in `s`. */
  function CellsAt(s: seq<Tile>, z: nat): seq<Cell>
  {
    if s == [] then []
    else
      var t := s[|s| - 1];
      CellsAt(s[..|s| - 1], z) + (if t.zoom == z then [Cell(t.x, t.y)] else [])
  }

  /** The zooms that occur in `s`: the keys the grouping creates. */
  function Zooms(s: seq<Tile>): set<nat>
  {
    set t | t in s :: t.zoom
  }

  /** The keys are exactly the zooms of the tiles: every tile's zoom is one,
      and each one is the zoom of some tile. */
  lemma ZoomsExact(s: seq<Tile>)
    ensures forall i :: 0 <= i < |s| ==> s[i].zoom in Zooms(s)
    ensures forall z :: z in Zooms(s) ==> exists i :: 0 <= i < |s| && s[i].zoom == z
  {
    forall i | 0 <= i < |s|
      ensures s[i].zoom in Zooms(s)
    {
      assert s[i] in s;
    }
    forall z | z in Zooms(s)
      ensures exists i :: 0 <= i < |s| && s[i].zoom == z
    {
      var t :| t in s && t.zoom == z;
      var i :| 0 <= i < |s| && s[i] == t;
    }
  }

  /** The cells of a sequence of tiles, in order. */
  function CellsOf(s: seq<Tile>): seq<Cell>
  {
    seq(|s|, i requires 0 <= i < |s| => Cell(s[i].x, s[i].y))
  }

  /** `Math.max(...tiles.map(t => t.zoom))`: minus infinity for no tiles,
      otherwise the largest zoom present (tools/leaflet_tile_generator.tsx:116). */
  function LayerMaxZoom(s: seq<Tile>): (r: Bound)
    ensures r == NegInfinity <==> s == []
    ensures r.Finite? ==> (exists i :: 0 <= i < |s| && s[i].zoom == r.z)
    ensures r.Finite? ==> forall i :: 0 <= i < |s| ==> s[i].zoom <= r.z
  {
    if s == [] then NegInfinity
    else
      var rest := LayerMaxZoom(s[..|s| - 1]);
      var z := s[|s| - 1].zoom;
      if rest.Finite? && rest.z >= z then
        assert forall i :: 0 <= i < |s| - 1 ==> s[i] == s[..|s| - 1][i];
        rest
      else
        assert forall i :: 0 <= i < |s| - 1 ==> s[i] == s[..|s| - 1][i];
        Finite(z)
  }

  /** Appending a tile adds its cell to the end of its own zoom's list only. */
  lemma CellsAtSnoc(s: seq<Tile>, t: Tile, z: nat)
    ensures CellsAt(s + [t], z) == CellsAt(s, z) + (if t.zoom == z then [Cell(t.x, t.y)] else [])
  {
    assert (s + [t])[..|s + [t]| - 1] == s;
  }

  /** Appending a tile adds its zoom to the keys. */
  lemma ZoomsSnoc(s: seq<Tile>, t: Tile)
    ensures Zooms(s + [t]) == Zooms(s) + {t.zoom}
  {
  }

  lemma CellsAtSnocAll(s: seq<Tile>, t: Tile)
    ensures forall z :: CellsAt(s + [t], z) == CellsAt(s, z) + (if t.zoom == z then [Cell(t.x, t.y)] else [])
    ensures Zooms(s + [t]) == Zooms(s) + {t.zoom}
  {
    forall z: nat
      ensures CellsAt(s + [t], z) == CellsAt(s, z) + (if t.zoom == z then [Cell(t.x, t.y)] else [])
    {
      CellsAtSnoc(s, t, z);
    }
    ZoomsSnoc(s, t);
  }

  /** A zoom that occurs in no tile gets no cells. */
  lemma {:induction false} CellsAtAbsent(s: seq<Tile>, z: nat)
    ensures z !in Zooms(s) ==> CellsAt(s, z) == []
  {
    if s != [] {
      var s' := s[..|s| - 1];
      assert s' + [s[|s| - 1]] == s;
      CellsAtSnoc(s', s[|s| - 1], z);
      CellsAtAbsent(s', z);
    }
  }

  /** One step of the grouping loop: creating the tile's key when missing and
      appending its cell keeps the dictionary equal to the grouping of the
      tiles seen so far. */
  lemma GroupStep(structure: map<nat, seq<Cell>>, done: seq<Tile>, t: Tile)
    requires structure.Keys == Zooms(done)
    requires forall z :: z in structure ==> structure[z] == CellsAt(done, z)
    ensures var cells := if t.zoom in structure then structure[t.zoom] else [];
      var next := structure[t.zoom := cells + [Cell(t.x, t.y)]];
      && next.Keys == Zooms(done + [t])
      && forall z :: z in next ==> next[z] == CellsAt(done + [t], z)
  {
    CellsAtSnocAll(done, t);
    CellsAtAbsent(done, t.zoom);
  }

  /** Each key's list holds one cell per tile of that zoom: nothing is
      dropped or duplicated. */
  lemma {:induction false} CellsAtCount(s: seq<Tile>, z: nat)
    ensures |CellsAt(s, z)| == CountAt(s, z)
  {
    if s != [] {
      CellsAtCount(s[..|s| - 1], z);
    }
  }

  /** A cell is filed under zoom z exactly when some tile of zoom z has it:
      every tile lands under its own zoom key and under no other. */
  lemma {:induction false} CellsAtSound(s: seq<Tile>, z: nat)
    ensures forall c :: c in CellsAt(s, z) <==> exists i :: 0 <= i < |s| && s[i].zoom == z && Cell(s[i].x, s[i].y) == c
  {
    if s != [] {
      var s' := s[..|s| - 1];
      CellsAtSound(s', z);
      assert forall i :: 0 <= i < |s'| ==> s'[i] == s[i];
    }
  }

  /** Sum of the group sizes for zooms 0 .. n - 1. */
  function GroupTotal(s: seq<Tile>, n: nat): (t: nat)
    ensures s == [] ==> t == 0
  {
    if n == 0 then 0 else GroupTotal(s, n - 1) + |CellsAt(s, n - 1)|
  }

  lemma {:induction false} GroupTotalAppend(s: seq<Tile>, t: Tile, n: nat)
    ensures GroupTotal(s + [t], n) == GroupTotal(s, n) + (if t.zoom < n then 1 else 0)
  {
    if n > 0 {
      GroupTotalAppend(s, t, n - 1);
      CellsAtSnoc(s, t, n - 1);
    }
  }

  /** Grouping loses no tile: when every zoom is below n, the groups of zooms
      0 .. n - 1 together hold as many cells as there are tiles. */
  lemma {:induction false} GroupsAddUp(s: seq<Tile>, n: nat)
    requires forall i :: 0 <= i < |s| ==> s[i].zoom < n
    ensures GroupTotal(s, n) == |s|
  {
    if s != [] {
      var s' := s[..|s| - 1];
      assert s' + [s[|s| - 1]] == s;
      GroupsAddUp(s', n);
      GroupTotalAppend(s', s[|s| - 1], n);
    }
  }

  lemma {:induction false} CellsAtConcat(a: seq<Tile>, b: seq<Tile>, z: nat)
    ensures CellsAt(a + b, z) == CellsAt(a, z) + CellsAt(b, z)
    decreases |b|
  {
    if b == [] {
      assert a + b == a;
    } else {
      var b' := b[..|b| - 1];
      assert (a + b)[..|a + b| - 1] == a + b';
      CellsAtConcat(a, b', z);
    }
  }

  lemma {:induction false} CellsAtUniform(s: seq<Tile>, z: nat, z': nat)
    requires forall i :: 0 <= i < |s| ==> s[i].zoom == z'
    ensures CellsAt(s, z) == if z == z' then CellsOf(s) else []
  {
    if s != [] {
      var s' := s[..|s| - 1];
      CellsAtUniform(s', z, z');
      assert CellsOf(s) == CellsOf(s') + [Cell(s[|s| - 1].x, s[|s| - 1].y)];
    }
  }

  /** Appending a block of tiles that all have zoom z' appends their cells to
      the list of z' and leaves every other list alone. */
  lemma CellsAtAppendUniform(a: seq<Tile>, b: seq<Tile>, z: nat, z': nat)
    requires forall i :: 0 <= i < |b| ==> b[i].zoom == z'
    ensures CellsAt(a + b, z) == CellsAt(a, z) + (if z == z' then CellsOf(b) else [])
  {
    CellsAtConcat(a, b, z);
    CellsAtUniform(b, z, z');
  }

  /** Grouping a generated pyramid of n levels: zoom z < n gets the cells of
      level z in generation order (row by row, left to right); higher zooms
      get nothing. */
  lemma {:induction false} PyramidGroupOrder(img: Image, n: nat, z: nat)
    ensures CellsAt(Pyramid(img, n), z) == if z < n then CellsOf(Level(img, z)) else []
  {
    if n > 0 {
      var below, top := Pyramid(img, n - 1), Level(img, n - 1);
      PyramidGroupOrder(img, n - 1, z);
      LevelZooms(img, n - 1);
      CellsAtAppendUniform(below, top, z, n - 1);
      if z == n - 1 {
        assert CellsAt(below, z) == [];
        assert [] + CellsOf(top) == CellsOf(top);
      } else {
        assert CellsAt(below, z) + [] == CellsAt(below, z);
      }
    }
  }

  /** In the grouping of an n-level pyramid, zoom z < n holds 4^z cells. */
  lemma PyramidGroupSize(img: Image, n: nat, z: nat)
    ensures |CellsAt(Pyramid(img, n), z)| == if z < n then Pow4(z) else 0
  {
    CellsAtCount(Pyramid(img, n), z);
    PyramidCountAt(img, n, z);
  }

  /** The grouping of a generated pyramid of n levels has exactly the keys
      0 .. n - 1. */
  lemma PyramidKeys(img: Image, n: nat)
    ensures forall z: nat :: z in Zooms(Pyramid(img, n)) <==> z < n
  {
    PyramidMembers(img, n);
    forall z: nat | z < n
      ensures z in Zooms(Pyramid(img, n))
    {
      assert MkTile(img, z, 0, 0) in Pyramid(img, n);
    }
  }

  /** The zoom reported for the map layer of an n-level pyramid is n - 1. */
  lemma PyramidLayerMaxZoom(img: Image, n: nat)
    ensures LayerMaxZoom(Pyramid(img, n)) == if n == 0 then NegInfinity else Finite(n - 1)
  {
    if n > 0 {
      var p := Pyramid(img, n);
      PyramidTopLast(img, n);
      PyramidZoomsBelow(img, n);
      var r := LayerMaxZoom(p);
      var j :| 0 <= j < |p| && p[j].zoom == r.z;
    }
  }

  /** The layer's reported maximum zoom equals the generator's maxZoom
      whenever that produced any tiles. */
  lemma LayerMaxZoomMatchesGenerator(img: Image)
    ensures var mz := MaxZoom(LongerSide(img));
      LayerMaxZoom(Pyramid(img, Levels(mz))) == if Levels(mz) == 0 then NegInfinity else mz
  {
    PyramidLayerMaxZoom(img, Levels(MaxZoom(LongerSide(img))));
  }
}
