/** The rectangles a tile is drawn from and to. At zoom `z` the image is cut
    into 2^z equal slices along each axis; slice `i` of an axis of length
    `extent` starts at i * extent / 2^z and is extent / 2^z long
    (tools/leaflet_tile_generator.tsx:58-61). Coordinates are exact reals, as
    the source's divisions by a power of two are exact. */
module Crop {
  import opened TileMath

  /** An axis-aligned rectangle: origin (x, y), width w, height h. */
  datatype Rect = Rect(x: real, y: real, w: real, h: real)

  /** Every tile is drawn onto the whole 256 x 256 canvas
      (tools/leaflet_tile_generator.tsx:64). */
  const DestRect: Rect := Rect(0.0, 0.0, TileSize as real, TileSize as real)

  function SliceLength(extent: nat, z: nat): real
  {
    extent as real / Pow2(z) as real
  }

  function SliceStart(extent: nat, z: nat, i: nat): real
  {
    i as real * extent as real / Pow2(z) as real
  }

  /** Source crop of tile (x, y) at zoom z in a w x h image: a 1 / 2^z share
      of each side, offset by x (resp. y) such shares. It lies inside the
      image whenever the tile index is inside the grid. */
  function SourceRect(w: nat, h: nat, z: nat, x: nat, y: nat): (r: Rect)
    ensures x < Pow2(z) ==> 0.0 <= r.x && r.x + r.w <= w as real
    ensures y < Pow2(z) ==> 0.0 <= r.y && r.y + r.h <= h as real
  {
    SliceInside(w, z, x);
    SliceInside(h, z, y);
    Rect(SliceStart(w, z, x), SliceStart(h, z, y), SliceLength(w, z), SliceLength(h, z))
  }

  /** A slice whose index is inside the grid lies inside [0, extent]. */
  lemma SliceInside(extent: nat, z: nat, i: nat)
    ensures i < Pow2(z) ==> 0.0 <= SliceStart(extent, z, i) && SliceStart(extent, z, i) + SliceLength(extent, z) <= extent as real
  {
    if i < Pow2(z) {
      StartsOrdered(extent, z, 0, i);
      SlicesAbut(extent, z, i);
      StartsOrdered(extent, z, i + 1, Pow2(z));
      SliceStartScaled(extent, z, Pow2(z));
      SlicesTotal(extent, z);
    }
  }

  /** Half-open membership of coordinate `p` in slice `i`. */
  predicate InSlice(extent: nat, z: nat, i: nat, p: real)
  {
    SliceStart(extent, z, i) <= p < SliceStart(extent, z, i) + SliceLength(extent, z)
  }

  /** Half-open membership of a point in a rectangle. */
  predicate InRect(r: Rect, px: real, py: real)
  {
    r.x <= px < r.x + r.w && r.y <= py < r.y + r.h
  }

  lemma MulDiv(a: real, b: real, n: real)
    requires n > 0.0
    ensures a * b / n == a * (b / n)
  {
    var q := b / n;
    assert q * n == b;
    assert a * q * n == a * b;
  }

  lemma MulLeft(a: real, b: real, c: real)
    requires a <= b && c > 0.0
    ensures a * c <= b * c
  {
  }

  lemma MulLeftNonNeg(a: real, b: real, c: real)
    requires a <= b && c >= 0.0
    ensures a * c <= b * c
  {
  }

  lemma MulLeftStrict(a: real, b: real, c: real)
    requires a < b && c > 0.0
    ensures a * c < b * c
  {
  }

  /** Slice i starts at i times the slice length. */
  lemma SliceStartScaled(extent: nat, z: nat, i: nat)
    ensures SliceStart(extent, z, i) == i as real * SliceLength(extent, z)
  {
    MulDiv(i as real, extent as real, Pow2(z) as real);
  }

  /** Consecutive slices abut: slice i ends where slice i + 1 starts. */
  lemma SlicesAbut(extent: nat, z: nat, i: nat)
    ensures SliceStart(extent, z, i) + SliceLength(extent, z) == SliceStart(extent, z, i + 1)
  {
    var len := SliceLength(extent, z);
    SliceStartScaled(extent, z, i);
    SliceStartScaled(extent, z, i + 1);
    assert (i + 1) as real * len == i as real * len + len;
  }

  /** The 2^z slices of an axis add up to its extent. */
  lemma SlicesTotal(extent: nat, z: nat)
    ensures Pow2(z) as real * SliceLength(extent, z) == extent as real
  {
    var n := Pow2(z) as real;
    var len := SliceLength(extent, z);
    assert len * n == extent as real;
  }

  /** Slice 0 starts at the image edge and the last slice ends exactly at the
      far edge: the slices of one axis cover [0, extent) without overhang. */
  lemma SlicesSpan(extent: nat, z: nat)
    ensures SliceStart(extent, z, 0) == 0.0
    ensures SliceStart(extent, z, Pow2(z) - 1) + SliceLength(extent, z) == extent as real
  {
    SlicesAbut(extent, z, Pow2(z) - 1);
    SliceStartScaled(extent, z, Pow2(z));
    SlicesTotal(extent, z);
  }

  lemma FloorBelow(q: real, len: real)
    requires len > 0.0
    ensures ((q / len).Floor as real) * len <= q
  {
    var r := q / len;
    assert r * len == q;
    MulLeft(r.Floor as real, r, len);
  }

  lemma FloorAbove(q: real, len: real)
    requires len > 0.0
    ensures q < ((q / len).Floor as real + 1.0) * len
  {
    var r := q / len;
    assert r * len == q;
    MulLeftStrict(r, r.Floor as real + 1.0, len);
  }

  lemma FloorRange(p: real, len: real, n: real)
    requires len > 0.0 && 0.0 <= p < n * len
    ensures 0 <= (p / len).Floor && ((p / len).Floor as real) < n
  {
    var k := (p / len).Floor;
    assert p / len >= 0.0;
    FloorBelow(p, len);
    if k as real >= n {
      MulLeft(n, k as real, len);
    }
  }

  /** A later slice starts no earlier than an earlier one ends. */
  lemma SlicesOrdered(extent: nat, z: nat, i: nat, j: nat, p: real)
    requires i < j
    ensures !(InSlice(extent, z, i, p) && InSlice(extent, z, j, p))
  {
    var len := SliceLength(extent, z);
    SlicesAbut(extent, z, i);
    StartsOrdered(extent, z, i + 1, j);
  }

  lemma StartsOrdered(extent: nat, z: nat, i: nat, j: nat)
    requires i <= j
    ensures SliceStart(extent, z, i) <= SliceStart(extent, z, j)
  {
    var len := SliceLength(extent, z);
    SliceStartScaled(extent, z, i);
    SliceStartScaled(extent, z, j);
    MulLeftNonNeg(i as real, j as real, len);
  }

  /** The slot k = floor(p / len) brackets p: k * len <= p < k * len + len. */
  lemma FloorSlot(p: real, len: real)
    requires len > 0.0
    ensures var k := (p / len).Floor;
      (k as real) * len <= p < (k as real) * len + len
  {
    var k := (p / len).Floor;
    FloorBelow(p, len);
    FloorAbove(p, len);
    assert (k as real + 1.0) * len == (k as real) * len + len;
  }

  /** The slice index of a coordinate inside the image is in range. */
  lemma SliceIndexInRange(extent: nat, z: nat, p: real)
    requires extent >= 1 && 0.0 <= p < extent as real
    ensures 0 <= (p / SliceLength(extent, z)).Floor < Pow2(z)
  {
    SlicesTotal(extent, z);
    FloorRange(p, SliceLength(extent, z), Pow2(z) as real);
  }

  /** The slice holding coordinate p is the floor of p / length. */
  lemma SliceOfPoint(extent: nat, z: nat, p: real)
    requires extent >= 1 && 0.0 <= p < extent as real
    ensures var k := (p / SliceLength(extent, z)).Floor;
      0 <= k < Pow2(z) && InSlice(extent, z, k, p)
  {
    SliceIndexInRange(extent, z, p);
    var len := SliceLength(extent, z);
    var k: nat := (p / len).Floor;
    FloorSlot(p, len);
    SliceStartScaled(extent, z, k);
  }

  /** The slices of one axis partition [0, extent): every coordinate in it
      lies in exactly one slice. */
  lemma SlicesPartition(extent: nat, z: nat, p: real)
    requires extent >= 1 && 0.0 <= p < extent as real
    ensures exists i: nat :: i < Pow2(z) && InSlice(extent, z, i, p)
    ensures forall i: nat, j: nat :: InSlice(extent, z, i, p) && InSlice(extent, z, j, p) ==> i == j
  {
    SliceOfPoint(extent, z, p);
    var k: nat := (p / SliceLength(extent, z)).Floor;
    assert k < Pow2(z) && InSlice(extent, z, k, p);
    forall i: nat, j: nat | InSlice(extent, z, i, p) && InSlice(extent, z, j, p)
      ensures i == j
    {
      if i < j {
        SlicesOrdered(extent, z, i, j, p);
      } else if j < i {
        SlicesOrdered(extent, z, j, i, p);
      }
    }
  }

  /** The source rectangles of one zoom level partition the image: every
      point of [0, w) x [0, h) lies in exactly one tile's crop. */
  lemma CropsPartitionImage(w: nat, h: nat, z: nat, px: real, py: real)
    requires w >= 1 && h >= 1
    requires 0.0 <= px < w as real && 0.0 <= py < h as real
    ensures exists x: nat, y: nat :: x < Pow2(z) && y < Pow2(z) && InRect(SourceRect(w, h, z, x, y), px, py)
    ensures forall x: nat, y: nat, x': nat, y': nat ::
              InRect(SourceRect(w, h, z, x, y), px, py) && InRect(SourceRect(w, h, z, x', y'), px, py)
              ==> x == x' && y == y'
  {
    SlicesPartition(w, z, px);
    SlicesPartition(h, z, py);
    var x: nat :| x < Pow2(z) && InSlice(w, z, x, px);
    var y: nat :| y < Pow2(z) && InSlice(h, z, y, py);
    assert InRect(SourceRect(w, h, z, x, y), px, py);
    forall x: nat, y: nat, x': nat, y': nat |
      InRect(SourceRect(w, h, z, x, y), px, py) && InRect(SourceRect(w, h, z, x', y'), px, py)
      ensures x == x' && y == y'
    {
      assert InSlice(w, z, x, px) && InSlice(w, z, x', px);
      assert InSlice(h, z, y, py) && InSlice(h, z, y', py);
    }
  }

  /** A 512 x 256 image: the level-1 tile (0, 0) is cut from (0, 0, 256, 128). */
  lemma CropExample()
    ensures SourceRect(512, 256, 1, 0, 0) == Rect(0.0, 0.0, 256.0, 128.0)
    ensures SourceRect(512, 256, 1, 1, 1) == Rect(256.0, 128.0, 256.0, 128.0)
  {
    assert Pow2(1) == 2;
  }
}
