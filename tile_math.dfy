/** Integer and rational arithmetic behind the tile pyramid: powers of two and
    four, the maximum zoom level derived from the image size, the tile estimate
    shown before generation, and the progress percentage reported per tile. */
module TileMath {

  /** Side of every output tile, in pixels. */
  const TileSize: nat := 256

  function Pow2(n: nat): (r: nat)
    ensures r >= 1
  {
    if n == 0 then 1 else 2 * Pow2(n - 1)
  }

  function Pow4(n: nat): (r: nat)
    ensures r >= 1
  {
    if n == 0 then 1 else 4 * Pow4(n - 1)
  }

  /** A level with 2^z tiles per side holds (2^z)^2 = 4^z tiles. */
  lemma {:induction false} Pow2Square(n: nat)
    ensures Pow2(n) * Pow2(n) == Pow4(n)
  {
    if n > 0 {
      Pow2Square(n - 1);
      calc {
        Pow2(n) * Pow2(n);
        (2 * Pow2(n - 1)) * (2 * Pow2(n - 1));
        4 * (Pow2(n - 1) * Pow2(n - 1));
      }
    }
  }

  lemma {:induction false} Pow4Mod3(n: nat)
    ensures Pow4(n) % 3 == 1
  {
    if n > 0 {
      Pow4Mod3(n - 1);
      TimesFourMod3(Pow4(n - 1));
    }
  }

  lemma TimesFourMod3(p: int)
    requires p % 3 == 1
    ensures (4 * p) % 3 == 1
  {
    var q := p / 3;
    assert 4 * p == 3 * (4 * q + 1) + 1;
  }

  lemma {:induction false} Pow4Monotone(a: nat, b: nat)
    requires a <= b
    ensures Pow4(a) <= Pow4(b)
  {
    if a < b {
      Pow4Monotone(a, b - 1);
    }
  }

  /** An integer, or minus infinity: the value of `Math.ceil(Math.log2(0))`
      and of `Math.max()` over no arguments. */
  datatype Bound = NegInfinity | Finite(z: int)

  /** One more than a bound (minus infinity stays minus infinity). */
  function Next(b: Bound): Bound
  {
    match b
    case NegInfinity => NegInfinity
    case Finite(z) => Finite(z + 1)
  }

  /** A pyramid whose top zoom is `z` reaches the native resolution of an
      image whose longer side is `m` pixels: TileSize * 2^z >= m, where 2^z is
      a fraction when `z` is negative. */
  predicate Fits(m: nat, z: int)
  {
    if z >= 0 then m <= TileSize * Pow2(z) else m * Pow2(-z) <= TileSize
  }

  lemma FitsStep(m: nat, z: int)
    requires Fits(m, z)
    ensures Fits(m, z + 1)
  {
    if z < -1 {
      assert Pow2(-z) == 2 * Pow2(-z - 1);
      assert m * Pow2(-z) == 2 * (m * Pow2(-z - 1));
    } else if z >= 0 {
      assert Pow2(z + 1) == 2 * Pow2(z);
    }
  }

  lemma {:induction false} FitsMonotone(m: nat, z: int, z': int)
    requires z <= z' && Fits(m, z)
    ensures Fits(m, z')
    decreases z' - z
  {
    if z < z' {
      FitsStep(m, z);
      FitsMonotone(m, z + 1, z');
    }
  }

  /** At a non-negative zoom every side up to TileSize fits. */
  lemma FitsAtNonNegative(m: nat, z: int)
    ensures z >= 0 && m <= TileSize ==> Fits(m, z)
  {
  }

  /** At a negative zoom only sides up to half of TileSize fit. */
  lemma FitsAtNegative(m: nat, z: int)
    ensures z < 0 && Fits(m, z) ==> 2 * m <= TileSize
  {
    if z < 0 {
      var p := Pow2(-z);
      assert p == 2 * Pow2(-z - 1);
      assert m * p >= 2 * m;
    }
  }

  /** Zoom 0 needs no doubling: below it, each level halves the pixels per tile. */
  lemma DoublingStep(m: nat, r': int)
    requires m >= 1 && 2 * m <= TileSize
    requires Fits(2 * m, r') && !Fits(2 * m, r' - 1)
    ensures Fits(m, r' - 1) && !Fits(m, r' - 2)
  {
    FitsAtNonNegative(2 * m, r' - 1);
    var k := -r';
    var p := Pow2(k);
    assert Pow2(k + 1) == 2 * p;
    assert Pow2(k + 2) == 2 * Pow2(k + 1);
    assert (2 * m) * p <= TileSize by {
      if k == 0 { assert p == 1; }
    }
    assert m * Pow2(k + 1) == (2 * m) * p;
    assert m * Pow2(k + 2) == (2 * m) * Pow2(k + 1);
  }

  /** Above TileSize, one more level is needed for twice the side (rounded). */
  lemma HalvingStep(m: nat, r': int)
    requires m > TileSize
    requires Fits((m + 1) / 2, r') && !Fits((m + 1) / 2, r' - 1)
    ensures Fits(m, r' + 1) && !Fits(m, r')
  {
    var c := (m + 1) / 2;
    FitsAtNegative(c, r');
    var p := Pow2(r');
    assert Pow2(r' + 1) == 2 * p;
    assert m <= 2 * c;
    assert 2 * c <= 2 * (TileSize * p);
    assert TileSize * Pow2(r' + 1) == 2 * (TileSize * p);
    if r' >= 1 {
      var q := Pow2(r' - 1);
      assert p == 2 * q;
      assert c >= TileSize * q + 1;
      assert m >= 2 * c - 1;
      assert TileSize * p == 2 * (TileSize * q);
    } else {
      assert c * 2 > TileSize;
    }
  }

  /** The least zoom `z` with Fits(m, z), for a non-empty image. Above
      TileSize the longer side is halved (rounding up) per level; at or below
      it, doubled per level towards zoom 0. */
  function LeastZoom(m: nat): (r: int)
    requires m >= 1
    ensures Fits(m, r) && !Fits(m, r - 1)
    decreases if m <= TileSize then TileSize - m else m
  {
    if m <= TileSize then
      if 2 * m > TileSize then 0
      else
        var r' := LeastZoom(2 * m);
        DoublingStep(m, r');
        r' - 1
    else
      var r' := LeastZoom((m + 1) / 2);
      HalvingStep(m, r');
      r' + 1
  }

  /** `Math.ceil(Math.log2(m / TileSize))` for the longer image side `m`
      (tools/leaflet_tile_generator.tsx:39-40). */
  function MaxZoom(m: nat): (r: Bound)
    ensures r == NegInfinity <==> m == 0
  {
    if m == 0 then NegInfinity else Finite(LeastZoom(m))
  }

  /** The maximum zoom is exactly the least zoom at which the pyramid reaches
      native resolution; an empty image fits at every zoom, hence -Infinity. */
  lemma MaxZoomIsLeast(m: nat)
    ensures m == 0 ==> forall z :: Fits(m, z)
    ensures m >= 1 ==> MaxZoom(m).Finite? && forall z :: Fits(m, z) <==> MaxZoom(m).z <= z
  {
    if m >= 1 {
      var r := MaxZoom(m).z;
      forall z
        ensures Fits(m, z) <==> r <= z
      {
        if r <= z {
          FitsMonotone(m, r, z);
        } else if Fits(m, z) {
          FitsMonotone(m, z, r - 1);
        }
      }
    }
  }

  /** Sides above TileSize: one level per doubling, rounding up. */
  lemma MaxZoomExamplesLarge()
    ensures MaxZoom(4096) == Finite(4)
    ensures MaxZoom(1024) == Finite(2)
    ensures MaxZoom(512) == Finite(1)
    ensures MaxZoom(257) == Finite(1)
  {
  }

  /** Sides at or below TileSize: zoom 0 down to half of TileSize, negative
      zooms below it. */
  lemma MaxZoomExamplesSmall()
    ensures MaxZoom(256) == Finite(0)
    ensures MaxZoom(200) == Finite(0)
    ensures MaxZoom(129) == Finite(0)
    ensures MaxZoom(128) == Finite(-1)
    ensures MaxZoom(64) == Finite(-2)
  {
  }

  /** Number of zoom levels the loop `for (zoom = 0; zoom <= maxZoom; zoom++)`
      runs through (tools/leaflet_tile_generator.tsx:43). */
  function Levels(maxZoom: Bound): (n: nat)
    ensures n == 0 <==> maxZoom.NegInfinity? || maxZoom.z < 0
    ensures n > 0 ==> maxZoom == Finite(n - 1)
  {
    match maxZoom
    case NegInfinity => 0
    case Finite(z) => if z < 0 then 0 else z + 1
  }

  /** Size of a full pyramid of `n` levels: 1 + 4 + ... + 4^(n-1). */
  function TotalCount(n: nat): nat
  {
    (Pow4(n) - 1) / 3
  }

  /** The geometric sum is exact: 3 * (1 + 4 + ... + 4^(n-1)) + 1 == 4^n. */
  lemma TotalCountExact(n: nat)
    ensures 3 * TotalCount(n) + 1 == Pow4(n)
  {
    Pow4Mod3(n);
    var p := Pow4(n);
    assert p == 3 * (p / 3) + 1;
    assert (p - 1) / 3 == p / 3;
  }

  /** `Math.pow(4, e)` for an integer or infinite exponent. */
  function Pow4Real(e: Bound): (r: real)
    ensures e.NegInfinity? <==> r == 0.0
    ensures e.Finite? ==> r > 0.0
    ensures e.Finite? && e.z >= 0 ==> r >= 1.0
    ensures e.Finite? && e.z < 0 ==> r <= 0.25
  {
    match e
    case NegInfinity => 0.0
    case Finite(z) => if z >= 0 then Pow4(z) as real else 1.0 / Pow4(-z) as real
  }

  /** ECMAScript ToInt32 (the `| 0` of line 156): truncate towards zero,
      then wrap into the signed 32-bit range. */
  function ToInt32(r: real): (i: int)
    ensures -0x8000_0000 <= i < 0x8000_0000
  {
    var t := if r >= 0.0 then r.Floor else -((-r).Floor);
    var u := t % 0x1_0000_0000;
    if u >= 0x8000_0000 then u - 0x1_0000_0000 else u
  }

  /** Displayed "Estimated tiles" for an image whose longer side is `m`
      (tools/leaflet_tile_generator.tsx:156). */
  function EstimatedTiles(m: nat): (r: int)
    ensures -0x8000_0000 <= r < 0x8000_0000
    ensures m == 0 ==> r == 0
  {
    ToInt32(Pow4Real(Next(MaxZoom(m))) / 3.0)
  }

  lemma Pow4Sixteen()
    ensures Pow4(16) == 0x1_0000_0000
  {
    assert Pow4(4) == 256;
    assert Pow4(8) == 256 * 256 by {
      assert Pow4(5) == 4 * 256;
      assert Pow4(6) == 16 * 256;
      assert Pow4(7) == 64 * 256;
    }
    assert Pow4(12) == 256 * 256 * 256 by {
      assert Pow4(9) == 4 * 256 * 256;
      assert Pow4(10) == 16 * 256 * 256;
      assert Pow4(11) == 64 * 256 * 256;
    }
    assert Pow4(13) == 4 * 256 * 256 * 256;
    assert Pow4(14) == 16 * 256 * 256 * 256;
    assert Pow4(15) == 64 * 256 * 256 * 256;
  }

  /** A third of 3q + 1 rounds down to q. */
  lemma FloorThird(q: int)
    ensures ((3 * q + 1) as real / 3.0).Floor == q
  {
    assert (3 * q + 1) as real / 3.0 == q as real + 1.0 / 3.0;
  }

  /** ToInt32 is plain truncation on [0, 2^31). */
  lemma ToInt32Small(x: real)
    requires 0.0 <= x < 0x8000_0000 as real
    ensures ToInt32(x) == x.Floor
  {
  }

  /** 4^e / 3 stays below 2^31 for e <= 16. */
  lemma ThirdInRange(e: nat)
    requires e <= 16
    ensures 0.0 <= Pow4(e) as real / 3.0 < 0x8000_0000 as real
  {
    Pow4Monotone(e, 16);
    Pow4Sixteen();
    var p := Pow4(e) as real;
    assert p <= 0x1_0000_0000 as real;
  }

  /** 4^e / 3 truncated, for 1 <= e <= 16, is the size of an e-level pyramid. */
  lemma TruncatedThird(e: nat)
    requires 1 <= e <= 16
    ensures ToInt32(Pow4(e) as real / 3.0) == TotalCount(e)
  {
    var q := TotalCount(e);
    TotalCountExact(e);
    assert Pow4(e) as real == (3 * q + 1) as real;
    FloorThird(q);
    ThirdInRange(e);
    ToInt32Small(Pow4(e) as real / 3.0);
  }

  /** 4^e / 3 truncated, for e <= 0, is 0. */
  lemma TruncatedFraction(k: nat)
    ensures ToInt32(1.0 / Pow4(k) as real / 3.0) == 0
  {
    var p := Pow4(k) as real;
    assert 1.0 / p <= 1.0;
    ToInt32Small(1.0 / p / 3.0);
  }

  /** Sides up to 2^23 pixels need at most zoom 15. */
  lemma ZoomAtMost15(m: nat)
    requires 1 <= m <= 0x80_0000
    ensures MaxZoom(m).z <= 15
  {
    assert Pow2(4) == 16;
    assert Pow2(8) == 256 by {
      assert Pow2(5) == 32 && Pow2(6) == 64 && Pow2(7) == 128;
    }
    assert Pow2(12) == 4096 by {
      assert Pow2(9) == 512 && Pow2(10) == 1024 && Pow2(11) == 2048;
    }
    assert Pow2(15) == 0x8000 by {
      assert Pow2(13) == 8192 && Pow2(14) == 16384;
    }
    assert Fits(m, 15);
    MaxZoomIsLeast(m);
  }

  /** Math.pow(4, e) / 3 | 0 is the size of an (e)-level pyramid when e <= 16. */
  lemma EstimateForExponent(e: int)
    requires e <= 16
    ensures ToInt32(Pow4Real(Finite(e)) / 3.0) == TotalCount(if e < 0 then 0 else e)
  {
    if e >= 1 {
      EstimatePositive(e);
    } else if e == 0 {
      EstimateZero();
    } else {
      EstimateNegative(-e);
    }
  }

  lemma EstimatePositive(e: nat)
    requires 1 <= e <= 16
    ensures ToInt32(Pow4Real(Finite(e)) / 3.0) == TotalCount(e)
  {
    assert Pow4Real(Finite(e)) == Pow4(e) as real;
    TruncatedThird(e);
  }

  lemma EstimateZero()
    ensures ToInt32(Pow4Real(Finite(0)) / 3.0) == TotalCount(0)
  {
    ToInt32Small(1.0 / 3.0);
  }

  lemma EstimateNegative(k: nat)
    requires k >= 1
    ensures ToInt32(Pow4Real(Finite(-(k as int))) / 3.0) == TotalCount(0)
  {
    TruncatedFraction(k);
  }

  /** Up to sides of 2^23 pixels (maximum zoom 15), the displayed estimate is
      exactly the number of tiles the generator produces; beyond, `| 0` wraps. */
  lemma EstimateMatchesTotal(m: nat)
    requires m <= 0x80_0000
    ensures EstimatedTiles(m) == TotalCount(Levels(MaxZoom(m)))
  {
    if m == 0 {
      ToInt32Small(0.0);
    } else {
      ZoomAtMost15(m);
      var z := MaxZoom(m).z;
      EstimateForExponent(z + 1);
      assert Levels(Finite(z)) == if z + 1 < 0 then 0 else z + 1;
    }
  }

  /** `Math.round`: the nearest integer, halves rounded upwards. */
  function Round(r: real): (i: int)
    ensures i as real - 0.5 <= r < i as real + 0.5
  {
    (r + 0.5).Floor
  }

  /** Percentage after the `k`-th tile when the top zoom is `m` >= 0:
      round(k / (4^(m+1) / 3) * 100) (tools/leaflet_tile_generator.tsx:77-79). */
  function ProgressAfter(k: nat, m: nat): (r: int)
    ensures r >= 0
    ensures k == 0 ==> r == 0
  {
    var ratio := k as real / (Pow4(m + 1) as real / 3.0);
    assert ratio >= 0.0;
    Round(ratio * 100.0)
  }

  lemma DivBelow(x: real, p: real, c: real)
    requires p > 0.0 && x < c * p
    ensures x / p < c
  {
    assert x / p * p == x;
  }

  /** The progress ratio written as a single fraction. */
  lemma ProgressRatio(k: nat, m: nat)
    ensures k as real / (Pow4(m + 1) as real / 3.0) * 100.0 == (300 * k) as real / Pow4(m + 1) as real
    ensures ProgressAfter(k, m) == Round((300 * k) as real / Pow4(m + 1) as real)
  {
    var p := Pow4(m + 1) as real;
    assert k as real / (p / 3.0) == 3.0 * k as real / p;
  }

  lemma ProgressMonotone(k1: nat, k2: nat, m: nat)
    requires k1 <= k2
    ensures ProgressAfter(k1, m) <= ProgressAfter(k2, m)
  {
    ProgressRatio(k1, m);
    ProgressRatio(k2, m);
    DivMonotone((300 * k1) as real, (300 * k2) as real, Pow4(m + 1) as real);
  }

  lemma DivMonotone(a: real, b: real, p: real)
    requires p > 0.0 && a <= b
    ensures a / p <= b / p
  {
    var x, y := a / p, b / p;
    assert (y - x) * p == b - a;
  }

  /** While at most the real number of tiles has been produced, the
      percentage stays within [0, 100]: the denominator 4^(m+1)/3 exceeds
      the real count (4^(m+1)-1)/3. */
  lemma ProgressBounds(k: nat, m: nat)
    requires k <= TotalCount(m + 1)
    ensures 0 <= ProgressAfter(k, m) <= 100
  {
    ProgressRatio(k, m);
    var p := Pow4(m + 1);
    assert 3 * k < p;
    assert 300 * k < 100 * p;
    DivBelow((300 * k) as real, p as real, 100.0);
  }

  lemma Deficit(p: real)
    requires p >= 1.0
    ensures (100.0 * p - 100.0) / p == 100.0 - 100.0 / p
  {
  }

  /** After the last tile the percentage is round(100 - 100 / 4^(m+1)). */
  lemma FinalRatio(m: nat)
    ensures ProgressAfter(TotalCount(m + 1), m) == Round(100.0 - 100.0 / Pow4(m + 1) as real)
  {
    var n := m + 1;
    var k := TotalCount(n);
    ProgressRatio(k, m);
    var p := Pow4(n) as real;
    assert (300 * k) as real == 100.0 * p - 100.0 by {
      TotalCountExact(n);
    }
    Deficit(p);
  }

  /** The last percentage of a run reaches 100 only from four levels on. */
  lemma FinalProgress(m: nat)
    ensures ProgressAfter(TotalCount(m + 1), m) == 100 <==> m >= 3
  {
    FinalRatio(m);
    var p := Pow4(m + 1) as real;
    if m >= 3 {
      Pow4Monotone(4, m + 1);
      assert Pow4(4) == 256;
      assert 100.0 / p <= 0.5;
    } else {
      assert Pow4(1) == 4 && Pow4(2) == 16 && Pow4(3) == 64;
      assert p <= 64.0;
      assert 100.0 / p > 0.5;
    }
  }

  /** A single-tile pyramid ends at 75%, two levels at 94%, three at 98%. */
  lemma FinalProgressExamples()
    ensures ProgressAfter(TotalCount(1), 0) == 75
    ensures ProgressAfter(TotalCount(2), 1) == 94
    ensures ProgressAfter(TotalCount(3), 2) == 98
  {
    FinalRatio(0);
    FinalRatio(1);
    FinalRatio(2);
    assert Pow4(1) == 4 && Pow4(2) == 16 && Pow4(3) == 64;
  }

  /** The percentages written after tiles 1..k. */
  function ProgressSeries(k: nat, m: nat): (s: seq<int>)
    ensures |s| == k
  {
    seq(k, i requires 0 <= i < k => ProgressAfter(i + 1, m))
  }

  lemma ProgressSeriesGrows(k: nat, m: nat)
    ensures ProgressSeries(k + 1, m) == ProgressSeries(k, m) + [ProgressAfter(k + 1, m)]
  {
  }

  /** Over a run the reported progress never decreases and never leaves [0, 100]. */
  lemma ProgressSeriesSound(k: nat, m: nat)
    requires k <= TotalCount(m + 1)
    ensures forall i, j :: 0 <= i <= j < k ==> ProgressSeries(k, m)[i] <= ProgressSeries(k, m)[j]
    ensures forall i :: 0 <= i < k ==> 0 <= ProgressSeries(k, m)[i] <= 100
  {
    var s := ProgressSeries(k, m);
    forall i, j | 0 <= i <= j < k
      ensures s[i] <= s[j]
    {
      ProgressMonotone(i + 1, j + 1, m);
    }
    forall i | 0 <= i < k
      ensures 0 <= s[i] <= 100
    {
      ProgressBounds(i + 1, m);
    }
  }

  /** The whole sequence a generation run of n >= 1 levels writes to
      `progress` (0 first, then one value per tile): it never decreases, it
      stays within [0, 100], and it ends at 100 exactly when there are at
      least four levels. */
  lemma RunProgress(n: nat)
    requires n >= 1
    ensures var log := [0] + ProgressSeries(TotalCount(n), n - 1);
      && (forall i, j :: 0 <= i <= j < |log| ==> log[i] <= log[j])
      && (forall i :: 0 <= i < |log| ==> 0 <= log[i] <= 100)
      && (log[|log| - 1] == 100 <==> n >= 4)
  {
    var k := TotalCount(n);
    var s := ProgressSeries(k, n - 1);
    var log := [0] + s;
    ProgressSeriesSound(k, n - 1);
    forall i, j | 0 <= i <= j < |log|
      ensures log[i] <= log[j]
    {
      if i > 0 {
        assert log[i] == s[i - 1] && log[j] == s[j - 1];
      } else {
        assert j == 0 || log[j] == s[j - 1];
      }
    }
    forall i | 0 <= i < |log|
      ensures 0 <= log[i] <= 100
    {
      assert i == 0 || log[i] == s[i - 1];
    }
    TotalCountExact(n);
    assert k >= 1 by {
      assert Pow4(n) == 4 * Pow4(n - 1);
    }
    assert log[|log| - 1] == ProgressAfter(k, n - 1);
    FinalProgress(n - 1);
  }
}
