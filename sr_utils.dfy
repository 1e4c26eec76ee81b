/** The application configuration object that holds the reflectance scale. */
module AppConfig {
  /** `Config`: one shared object whose `REFLECTANCE_SCALE` starts at 400.0. */
  class Config {
    var reflectanceScale: real

    constructor ()
      ensures reflectanceScale == 400.0
    {
      reflectanceScale := 400.0;
    }

    /** `Config.set_reflectance_scale` (logging left out). */
    method SetReflectanceScale(value: real)
      modifies this
      ensures reflectanceScale == value
    {
      reflectanceScale := value;
    }
  }
}

/** Helpers of the super-resolution pipelines: the comparison grid layout,
    the stacking of four bands into one image, and the scaling of pixel
    values to and from the model's input range. */
module SrUtils {
  import opened Wrappers
  import opened AppConfig

  // ---------------------------------------------------------------------------
  // stack_bgrn

  /** A single-band raster, row by row. */
  type Band = seq<seq<int>>

  predicate HasShape(b: Band, h: nat, w: nat)
  {
    |b| == h && forall i :: 0 <= i < h ==> |b[i]| == w
  }

  /** An `h x w x 4` array whose channels are, in order, bands 04, 03, 02 and
      08 (red, green, blue, near infrared); the shape is taken from band 02. */
  function StackBgrn(b02: Band, b03: Band, b04: Band, b08: Band): (out: seq<seq<seq<int>>>)
    requires b02 != [] ==> HasShape(b03, |b02|, |b02[0]|) && HasShape(b04, |b02|, |b02[0]|) && HasShape(b08, |b02|, |b02[0]|)
    requires b02 != [] ==> HasShape(b02, |b02|, |b02[0]|)
    requires b02 == [] ==> b03 == [] && b04 == [] && b08 == []
  {
    seq(|b02|, i requires 0 <= i < |b02| =>
      seq(|b02[i]|, j requires 0 <= j < |b02[i]| => [b04[i][j], b03[i][j], b02[i][j], b08[i][j]]))
  }

  /** Channel `k` of a stacked image. */
  function Channel(img: seq<seq<seq<int>>>, k: nat): Band
    requires forall i, j :: 0 <= i < |img| && 0 <= j < |img[i]| ==> k < |img[i][j]|
  {
    seq(|img|, i requires 0 <= i < |img| => seq(|img[i]|, j requires 0 <= j < |img[i]| => img[i][j][k]))
  }

  /** Taking the stacked image apart gives back bands 04, 03, 02 and 08 as
      channels 0 to 3. */
  lemma {:induction false} StackChannels(b02: Band, b03: Band, b04: Band, b08: Band)
    requires b02 != [] ==> HasShape(b03, |b02|, |b02[0]|) && HasShape(b04, |b02|, |b02[0]|) && HasShape(b08, |b02|, |b02[0]|)
    requires b02 != [] ==> HasShape(b02, |b02|, |b02[0]|)
    requires b02 == [] ==> b03 == [] && b04 == [] && b08 == []
    ensures var img := StackBgrn(b02, b03, b04, b08);
      (forall i, j :: 0 <= i < |img| && 0 <= j < |img[i]| ==> |img[i][j]| == 4) &&
      Channel(img, 0) == b04 && Channel(img, 1) == b03 && Channel(img, 2) == b02 && Channel(img, 3) == b08
  {
    var img := StackBgrn(b02, b03, b04, b08);
    ChannelIs(img, 0, b04);
    ChannelIs(img, 1, b03);
    ChannelIs(img, 2, b02);
    ChannelIs(img, 3, b08);
  }

  /** An image whose channel `k` holds `b` cell by cell has `b` as channel `k`. */
  lemma {:induction false} ChannelIs(img: seq<seq<seq<int>>>, k: nat, b: Band)
    requires |img| == |b|
    requires forall i :: 0 <= i < |img| ==> |img[i]| == |b[i]|
    requires forall i, j :: 0 <= i < |img| && 0 <= j < |img[i]| ==> k < |img[i][j]| && img[i][j][k] == b[i][j]
    ensures Channel(img, k) == b
  {
    forall i | 0 <= i < |b| ensures Channel(img, k)[i] == b[i] { }
  }

  // ---------------------------------------------------------------------------
  // to_torch_4ch and from_torch_to_u16, one value at a time

  /** The fixed scale of the first pipeline. */
  const FixedScale: real := 400.0

  const U16Max: int := 65535

  /** A pixel value divided by the scale. */
  function ToTorch(v: int, scale: real): real
    requires scale > 0.0
  {
    v as real / scale
  }

  /** Back to 16 bits: multiplied by the scale, clipped to 0..65535 and
      truncated. */
  function FromTorch(x: real, scale: real): (v: int)
    ensures 0 <= v <= U16Max
  {
    ToU16(x * scale)
  }

  /** `np.clip(y, 0, 65535).astype(np.uint16)`: clipped, then truncated. */
  function ToU16(y: real): (v: int)
    ensures 0 <= v <= U16Max
    ensures 0.0 <= y <= U16Max as real ==> v as real <= y < v as real + 1.0
  {
    if y < 0.0 then 0 else if y > U16Max as real then U16Max else y.Floor
  }

  /** Every 16-bit value survives the trip through the model's range, and
      anything outside is clipped to the nearest end. */
  lemma {:induction false} TorchRoundTrip(v: int, scale: real)
    requires scale > 0.0
    ensures 0 <= v <= U16Max ==> FromTorch(ToTorch(v, scale), scale) == v
    ensures v < 0 ==> FromTorch(ToTorch(v, scale), scale) == 0
    ensures v > U16Max ==> FromTorch(ToTorch(v, scale), scale) == U16Max
  {
    assert ToTorch(v, scale) * scale == v as real;
  }

  /** The unit roundoff of float32 arithmetic rounded to nearest, 2^-24:
      a single float32 operation is off from the exact result by at most
      this fraction of it. */
  const F32Eps: real := 1.0 / 16777216.0

  /** The program divides and multiplies in float32; the pixel value and
      both scales are exact there. Let `x` be the float32 quotient and `y`
      the float32 product, each off from the exact result by at most the
      unit roundoff times it. Then the truncating cast gives the pixel or
      the one below it, and 0 stays 0. */
  lemma {:induction false} Float32TripBound(v: int, scale: real, x: real, y: real)
    requires 0 <= v <= U16Max && (scale == ScaleFor(true) || scale == ScaleFor(false))
    requires -F32Eps * ToTorch(v, scale) <= x - ToTorch(v, scale) <= F32Eps * ToTorch(v, scale)
    requires -F32Eps * (x * scale) <= y - x * scale <= F32Eps * (x * scale)
    ensures v - 1 <= ToU16(y) <= v && (v == 0 ==> ToU16(y) == 0)
  {
    var w := v as real;
    if scale == 400.0 {
      assert ToTorch(v, scale) * 400.0 == w;
    } else {
      assert ToTorch(v, scale) * 60.0 == w;
    }
    var t := x * scale;
    assert w - F32Eps * w <= t <= w + F32Eps * w;
    assert y <= t + F32Eps * t <= w + 3.0 * F32Eps * w;
    assert w - 2.0 * F32Eps * w <= t - F32Eps * t <= y;
  }

  /** The bound is reached: 53 at the fixed scale, with the quotient
      rounded down by the unit roundoff and the product exact, comes back
      as 52. */
  lemma Float32TripLosesOne()
    ensures var x := ToTorch(53, FixedScale) * (1.0 - F32Eps);
      -F32Eps * ToTorch(53, FixedScale) <= x - ToTorch(53, FixedScale) &&
      ToU16(x * FixedScale) == 52
  {
    var x := ToTorch(53, FixedScale) * (1.0 - F32Eps);
    assert x * FixedScale == 53.0 - 53.0 * F32Eps;
  }

  /** `set_reflectance_scale`: 400.0 for the Andalusia tiles, 60.0 otherwise. */
  method SetReflectanceScale(config: Config, isAndalusiaTiles: bool)
    modifies config
    ensures config.reflectanceScale == ScaleFor(isAndalusiaTiles)
  {
    if isAndalusiaTiles {
      config.SetReflectanceScale(400.0);
    } else {
      config.SetReflectanceScale(60.0);
    }
  }

  function ScaleFor(isAndalusiaTiles: bool): (s: real)
    ensures s > 0.0
  {
    if isAndalusiaTiles then 400.0 else 60.0
  }

  /** `to_torch_4ch` and `from_torch_to_u16` of the second pipeline, which
      read the scale the configuration holds when they run. */
  function ToTorchConfigured(config: Config, v: int): real
    reads config
    requires config.reflectanceScale > 0.0
  {
    ToTorch(v, config.reflectanceScale)
  }

  function FromTorchConfigured(config: Config, x: real): int
    reads config
  {
    FromTorch(x, config.reflectanceScale)
  }

  /** The last setting decides both directions: the value a pixel is scaled
      to is `v / 400` or `v / 60`, and scaling back gives the pixel again. */
  method ScaleAfterSetting(config: Config, isAndalusiaTiles: bool, v: int) returns (x: real, back: int)
    requires 0 <= v <= U16Max
    modifies config
    ensures x == v as real / ScaleFor(isAndalusiaTiles)
    ensures back == v
  {
    SetReflectanceScale(config, isAndalusiaTiles);
    x := ToTorchConfigured(config, v);
    back := FromTorchConfigured(config, x);
    TorchRoundTrip(v, config.reflectanceScale);
  }

  // ---------------------------------------------------------------------------
  // make_grid

  /** An RGB colour of an 8-bit image. */
  datatype Rgb = Rgb(r: int, g: int, b: int)

  const White: Rgb := Rgb(255, 255, 255)

  /** An `height x width x 3` image. */
  datatype Image = Image(height: nat, width: nat, pixels: seq<seq<Rgb>>)
  {
    predicate Valid()
    {
      |pixels| == height && forall i :: 0 <= i < height ==> |pixels[i]| == width
    }
  }

  function MaxHeight(images: seq<Image>): (h: nat)
    ensures forall k :: 0 <= k < |images| ==> images[k].height <= h
    ensures images != [] ==> exists k :: 0 <= k < |images| && images[k].height == h
  {
    if images == [] then 0
    else
      var rest := MaxHeight(images[..|images| - 1]);
      assert forall k :: 0 <= k < |images| - 1 ==> images[..|images| - 1][k] == images[k];
      if images[|images| - 1].height > rest then images[|images| - 1].height else rest
  }

  function MaxWidth(images: seq<Image>): (w: nat)
    ensures forall k :: 0 <= k < |images| ==> images[k].width <= w
    ensures images != [] ==> exists k :: 0 <= k < |images| && images[k].width == w
  {
    if images == [] then 0
    else
      var rest := MaxWidth(images[..|images| - 1]);
      assert forall k :: 0 <= k < |images| - 1 ==> images[..|images| - 1][k] == images[k];
      if images[|images| - 1].width > rest then images[|images| - 1].width else rest
  }

  /** `cv2.copyMakeBorder` to `h x w`, white added at the bottom and right. */
  function PadTo(im: Image, h: nat, w: nat): (r: seq<seq<Rgb>>)
    requires im.Valid()
    ensures |r| == h && forall i :: 0 <= i < h ==> |r[i]| == w
  {
    seq(h, i requires 0 <= i < h =>
      seq(w, j requires 0 <= j < w => if i < im.height && j < im.width then im.pixels[i][j] else White))
  }

  /** `math.ceil(n / ncols)`. */
  function Rows(n: nat, ncols: nat): nat
    requires ncols >= 1
  {
    (n + ncols - 1) / ncols
  }

  /** The top-left corner of tile `idx`: row `idx div ncols`, column
      `idx mod ncols`. */
  function TileTop(idx: nat, ncols: nat, h: nat, pad: nat): nat
    requires ncols >= 1
  {
    pad + (idx / ncols) * (h + pad)
  }

  function TileLeft(idx: nat, ncols: nat, w: nat, pad: nat): nat
    requires ncols >= 1
  {
    pad + (idx % ncols) * (w + pad)
  }

  /** Which tile, and which pixel of it, covers grid position (a, b), read
      off the position itself. */
  function TileOf(n: nat, h: nat, w: nat, ncols: nat, pad: nat, a: nat, b: nat): Option<(nat, nat, nat)>
    requires ncols >= 1
  {
    if a < pad || b < pad || h + pad == 0 || w + pad == 0 then None
    else
      var r, i := (a - pad) / (h + pad), (a - pad) % (h + pad);
      var c, j := (b - pad) / (w + pad), (b - pad) % (w + pad);
      if i < h && j < w && c < ncols && RowMajor(r, c, ncols) < n then Some((RowMajor(r, c, ncols), i, j)) else None
  }

  /** The index of the tile at row `r`, column `c`. */
  function RowMajor(r: nat, c: nat, ncols: nat): nat
  {
    r * ncols + c
  }

  /** What the finished grid shows at (a, b): the covering tile's padded
      pixel, or white. */
  function GridPixel(images: seq<Image>, ncols: nat, pad: nat, a: nat, b: nat): Rgb
    requires ncols >= 1 && forall k :: 0 <= k < |images| ==> images[k].Valid()
  {
    var h, w := MaxHeight(images), MaxWidth(images);
    match TileOf(|images|, h, w, ncols, pad, a, b)
    case None => White
    case Some((k, i, j)) => PadTo(images[k], h, w)[i][j]
  }

  /** Position (a, b) lies in tile `idx`. */
  predicate InTile(idx: nat, ncols: nat, h: nat, w: nat, pad: nat, a: nat, b: nat)
    requires ncols >= 1
  {
    TileTop(idx, ncols, h, pad) <= a < TileTop(idx, ncols, h, pad) + h &&
    TileLeft(idx, ncols, w, pad) <= b < TileLeft(idx, ncols, w, pad) + w
  }

  /** The grid after the first `count` tiles are painted over a white
      background, each on top of those before. */
  ghost function Painted(norm: seq<seq<seq<Rgb>>>, h: nat, w: nat, ncols: nat, pad: nat, count: nat, a: nat, b: nat): Rgb
    requires ncols >= 1 && count <= |norm|
    requires forall k :: 0 <= k < |norm| ==> |norm[k]| == h && forall i :: 0 <= i < h ==> |norm[k][i]| == w
  {
    if count == 0 then White
    else if InTile(count - 1, ncols, h, w, pad, a, b) then
      norm[count - 1][a - TileTop(count - 1, ncols, h, pad)][b - TileLeft(count - 1, ncols, w, pad)]
    else Painted(norm, h, w, ncols, pad, count - 1, a, b)
  }

  /** The loop of `make_grid` that pastes each tile, in order, onto an
      all-white grid of the right size. */
  method PaintTiles(grid: array2<Rgb>, norm: seq<seq<seq<Rgb>>>, h: nat, w: nat, ncols: nat, pad: nat)
    requires ncols >= 1
    requires forall k :: 0 <= k < |norm| ==> |norm[k]| == h && forall i :: 0 <= i < h ==> |norm[k][i]| == w
    requires grid.Length0 == (h + pad) * Rows(|norm|, ncols) + pad && grid.Length1 == (w + pad) * ncols + pad
    requires forall a, b :: 0 <= a < grid.Length0 && 0 <= b < grid.Length1 ==> grid[a, b] == White
    modifies grid
    ensures forall a, b :: 0 <= a < grid.Length0 && 0 <= b < grid.Length1 ==>
      grid[a, b] == Painted(norm, h, w, ncols, pad, |norm|, a, b)
  {
    for idx := 0 to |norm|
      invariant forall a, b :: 0 <= a < grid.Length0 && 0 <= b < grid.Length1 ==>
        grid[a, b] == Painted(norm, h, w, ncols, pad, idx, a, b)
    {
      var y, x := TileTop(idx, ncols, h, pad), TileLeft(idx, ncols, w, pad);
      TileInside(|norm|, h, w, ncols, pad, idx);
      Paste(grid, y, x, norm[idx], h, w);
    }
  }

  /** `grid[y:y+h, x:x+w] = im`. */
  method Paste(grid: array2<Rgb>, y: nat, x: nat, im: seq<seq<Rgb>>, h: nat, w: nat)
    requires |im| == h && forall i :: 0 <= i < h ==> |im[i]| == w
    requires y + h <= grid.Length0 && x + w <= grid.Length1
    modifies grid
    ensures forall a, b :: 0 <= a < grid.Length0 && 0 <= b < grid.Length1 ==>
      grid[a, b] == if y <= a < y + h && x <= b < x + w then im[a - y][b - x] else old(grid[a, b])
  {
    forall i, j | 0 <= i < h && 0 <= j < w {
      grid[y + i, x + j] := im[i][j];
    }
    forall a, b | 0 <= a < grid.Length0 && 0 <= b < grid.Length1 && y <= a < y + h && x <= b < x + w
      ensures grid[a, b] == im[a - y][b - x]
    {
      assert grid[y + (a - y), x + (b - x)] == im[a - y][b - x];
    }
  }

  /** `make_grid`: `None` where the source raises (an empty image list, or
      no columns). */
  method MakeGrid(images: seq<Image>, ncols: nat, pad: nat) returns (r: Option<array2<Rgb>>)
    requires forall k :: 0 <= k < |images| ==> images[k].Valid()
    ensures r.None? <==> images == [] || ncols == 0
    ensures r.Some? ==> (fresh(r.value) && ncols >= 1 &&
      r.value.Length0 == (MaxHeight(images) + pad) * Rows(|images|, ncols) + pad &&
      r.value.Length1 == (MaxWidth(images) + pad) * ncols + pad)
    ensures r.Some? ==> forall a, b :: 0 <= a < r.value.Length0 && 0 <= b < r.value.Length1 ==>
      r.value[a, b] == GridPixel(images, ncols, pad, a, b)
  {
    if images == [] {
      return None;
    }
    var h := MaxHeight(images);
    var w := MaxWidth(images);
    var norm := seq(|images|, k requires 0 <= k < |images| => PadTo(images[k], h, w));
    var n := |norm|;
    if ncols == 0 {
      return None;
    }
    var rows := Rows(n, ncols);
    GridSizes(h, w, rows, ncols, pad);
    var grid := new Rgb[(h + pad) * rows + pad, (w + pad) * ncols + pad]((_, _) => White);
    PaintTiles(grid, norm, h, w, ncols, pad);
    forall a, b | 0 <= a < grid.Length0 && 0 <= b < grid.Length1
      ensures grid[a, b] == GridPixel(images, ncols, pad, a, b)
    {
      PaintedSpec(norm, h, w, ncols, pad, n, a, b);
    }
    return Some(grid);
  }

  lemma {:induction false} GridSizes(h: nat, w: nat, rows: nat, ncols: nat, pad: nat)
    ensures (h + pad) * rows + pad >= 0 && (w + pad) * ncols + pad >= 0
  {
    MulMonotone(0, rows, h + pad);
    MulMonotone(0, ncols, w + pad);
  }

  /** Painting the tiles one after another leaves at each position the
      pixel of the one tile that covers it, or white. */
  lemma {:induction false} PaintedSpec(norm: seq<seq<seq<Rgb>>>, h: nat, w: nat, ncols: nat, pad: nat, count: nat, a: nat, b: nat)
    requires ncols >= 1 && count <= |norm|
    requires forall k :: 0 <= k < |norm| ==> |norm[k]| == h && forall i :: 0 <= i < h ==> |norm[k][i]| == w
    ensures Painted(norm, h, w, ncols, pad, count, a, b) ==
      match TileOf(|norm|, h, w, ncols, pad, a, b)
      case None => White
      case Some((k, i, j)) => if k < count then norm[k][i][j] else White
  {
    TileOfInverse(|norm|, h, w, ncols, pad, a, b);
    if count > 0 {
      var k := count - 1;
      if InTile(k, ncols, h, w, pad, a, b) {
        TilePosition(|norm|, h, w, ncols, pad, k, a - TileTop(k, ncols, h, pad), b - TileLeft(k, ncols, w, pad));
      } else {
        PaintedSpec(norm, h, w, ncols, pad, count - 1, a, b);
      }
    }
  }

  /** `(q * d + m) / d == q` and `(q * d + m) % d == m` for `m < d`. */
  lemma {:induction false} DivModUnique(q: int, d: nat, m: nat)
    requires m < d
    ensures (q * d + m) / d == q && (q * d + m) % d == m
  {
    var n := q * d + m;
    var q', m' := n / d, n % d;
    var e := q' - q;
    assert e * d == m - m' by {
      assert q' * d + m' == n;
      assert e * d == q' * d - q * d;
    }
    if e >= 1 {
      MulMonotone(1, e, d);
    }
  }

  /** `(q * d + t) / d == q + t / d`. */
  lemma {:induction false} DivAddMultiple(q: int, d: nat, t: nat)
    requires d >= 1
    ensures (q * d + t) / d == q + t / d
  {
    var u, m := t / d, t % d;
    assert q * d + t == (q + u) * d + m by {
      assert t == u * d + m;
      assert (q + u) * d == q * d + u * d;
    }
    DivModUnique(q + u, d, m);
  }

  /** Tile `idx` lies inside the grid. */
  lemma {:induction false} TileInside(n: nat, h: nat, w: nat, ncols: nat, pad: nat, idx: nat)
    requires ncols >= 1 && idx < n
    ensures TileTop(idx, ncols, h, pad) + h + pad <= (h + pad) * Rows(n, ncols) + pad
    ensures TileLeft(idx, ncols, w, pad) + w + pad <= (w + pad) * ncols + pad
  {
    var row, c := idx / ncols, idx % ncols;
    var rows, hp, wp := Rows(n, ncols), h + pad, w + pad;
    assert TileTop(idx, ncols, h, pad) + h + pad <= hp * rows + pad by {
      assert row * ncols + c == idx;
      RowsBound(n, ncols, row);
      assert TileTop(idx, ncols, h, pad) == pad + row * hp;
      assert (row + 1) * hp == row * hp + hp;
      assert hp * rows == rows * hp;
      MulMonotone(row + 1, rows, hp);
    }
    assert TileLeft(idx, ncols, w, pad) + w + pad <= wp * ncols + pad by {
      assert TileLeft(idx, ncols, w, pad) == pad + c * wp;
      assert (c + 1) * wp == c * wp + wp;
      assert wp * ncols == ncols * wp;
      MulMonotone(c + 1, ncols, wp);
    }
  }

  lemma {:induction false} RowsBound(n: nat, ncols: nat, row: nat)
    requires ncols >= 1 && row * ncols < n
    ensures row < Rows(n, ncols)
  {
    var t := n + ncols - 1 - (row + 1) * ncols;
    assert (row + 1) * ncols == row * ncols + ncols;
    DivAddMultiple(row + 1, ncols, t);
  }

  lemma {:induction false} MulMonotone(x: nat, y: nat, z: nat)
    requires x <= y
    ensures x * z <= y * z
  {
  }

  /** Pixel (i, j) of tile `idx` is covered by that tile and no other. */
  lemma {:induction false} TilePosition(n: nat, h: nat, w: nat, ncols: nat, pad: nat, idx: nat, i: nat, j: nat)
    requires ncols >= 1 && idx < n && i < h && j < w
    ensures TileOf(n, h, w, ncols, pad, TileTop(idx, ncols, h, pad) + i, TileLeft(idx, ncols, w, pad) + j) == Some((idx, i, j))
  {
    var row, c := idx / ncols, idx % ncols;
    var a, b := TileTop(idx, ncols, h, pad) + i, TileLeft(idx, ncols, w, pad) + j;
    assert a - pad == row * (h + pad) + i;
    assert b - pad == c * (w + pad) + j;
    DivModUnique(row, h + pad, i);
    DivModUnique(c, w + pad, j);
    assert RowMajor(row, c, ncols) == idx;
  }

  /** A covered position is the tile's corner plus the pixel's offset. */
  lemma {:induction false} TileOfInverse(n: nat, h: nat, w: nat, ncols: nat, pad: nat, a: nat, b: nat)
    requires ncols >= 1
    ensures TileOf(n, h, w, ncols, pad, a, b).Some? ==>
      var (k, i, j) := TileOf(n, h, w, ncols, pad, a, b).value;
      k < n && i < h && j < w &&
      a == TileTop(k, ncols, h, pad) + i && b == TileLeft(k, ncols, w, pad) + j
  {
    if TileOf(n, h, w, ncols, pad, a, b).Some? {
      var r, c := (a - pad) / (h + pad), (b - pad) / (w + pad);
      var k := r * ncols + c;
      DivModUnique(r, ncols, c);
    }
  }

  /** Distinct tiles never share a pixel. */
  lemma {:induction false} TilesDisjoint(n: nat, h: nat, w: nat, ncols: nat, pad: nat, k1: nat, i1: nat, j1: nat, k2: nat, i2: nat, j2: nat)
    requires ncols >= 1 && k1 < n && k2 < n && k1 != k2
    requires i1 < h && j1 < w && i2 < h && j2 < w
    ensures (TileTop(k1, ncols, h, pad) + i1, TileLeft(k1, ncols, w, pad) + j1) !=
            (TileTop(k2, ncols, h, pad) + i2, TileLeft(k2, ncols, w, pad) + j2)
  {
    TilePosition(n, h, w, ncols, pad, k1, i1, j1);
    TilePosition(n, h, w, ncols, pad, k2, i2, j2);
  }
}
