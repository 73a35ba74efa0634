/**
 * The integer side of the generator's geodesy: wrap-safe longitude
 * subtraction, Python's floor and truncating divisions, the block-number
 * addressing of a degree file, and the two places where a position is
 * turned into grid indices or back. The single-precision projection itself
 * (`add_offset`, `get_distance_NE_e7`, `east_blocks`) is taken as given.
 */
module Geo {
  import opened Wrappers
  import opened GridCodec

  /** Degrees to 1e-7-degree fixed point. */
  const E7 := 10_000_000
  const HALF_TURN_E7 := 1_800_000_000
  const FULL_TURN_E7 := 3_600_000_000

  predicate LongitudeE7(lon: int)
  {
    -HALF_TURN_E7 <= lon <= HALF_TURN_E7
  }

  /** `diff_longitude_E7`: lon1 - lon2, brought back across the antimeridian when the signs differ. */
  function DiffLongitudeE7(lon1: int, lon2: int): (d: int)
    ensures lon1 * lon2 >= 0 ==> d == lon1 - lon2
    ensures (lon1 - lon2 - d) % FULL_TURN_E7 == 0
    ensures LongitudeE7(lon1) && LongitudeE7(lon2) ==> LongitudeE7(d)
  {
    if lon1 * lon2 >= 0 then lon1 - lon2
    else
      var dlon := lon1 - lon2;
      if dlon > HALF_TURN_E7 then dlon - FULL_TURN_E7
      else if dlon < -HALF_TURN_E7 then dlon + FULL_TURN_E7
      else dlon
  }

  /** Swapping the arguments negates the difference, also across the antimeridian. */
  lemma DiffLongitudeAntisymmetric(lon1: int, lon2: int)
    ensures DiffLongitudeE7(lon1, lon2) == -DiffLongitudeE7(lon2, lon1)
  {
    assert lon1 * lon2 == lon2 * lon1;
  }

  /** Python's `a // b`: the quotient rounded toward minus infinity. */
  function FloorDiv(a: int, b: int): int
    requires b != 0
  {
    if b > 0 then a / b else (-a) / (-b)
  }

  /** `a // b` is the quotient whose multiple of b lies at or below a for b > 0, at or above it for b < 0. */
  lemma FloorDivBounds(a: int, b: int)
    requires b != 0
    ensures b > 0 ==> b * FloorDiv(a, b) <= a < b * FloorDiv(a, b) + b
    ensures b < 0 ==> b * FloorDiv(a, b) + b < a <= b * FloorDiv(a, b)
  {
    if b < 0 {
      var q := (-a) / (-b);
      assert (-b) * q <= -a < (-b) * q + (-b);
      assert (-b) * q == -(b * q);
    }
  }

  /** Python's `a % b`: the remainder takes the sign of the divisor. */
  function FloorMod(a: int, b: int): int
    requires b != 0
  {
    a - b * FloorDiv(a, b)
  }

  /** `a == b * (a // b) + a % b`, with the remainder between 0 and the divisor. */
  lemma FloorModBounds(a: int, b: int)
    requires b != 0
    ensures a == b * FloorDiv(a, b) + FloorMod(a, b)
    ensures b > 0 ==> 0 <= FloorMod(a, b) < b
    ensures b < 0 ==> b < FloorMod(a, b) <= 0
  {
    FloorDivBounds(a, b);
  }

  /** Python's `int(a / b)`: true division truncated toward zero. */
  function TruncDiv(a: int, b: int): int
    requires b > 0
  {
    if a >= 0 then a / b else -((-a) / b)
  }

  /** `int(a / b)` rounds toward zero: its multiple of b lies between 0 and a, within one b of a. */
  lemma TruncDivBounds(a: int, b: int)
    requires b > 0
    ensures a >= 0 ==> 0 <= b * TruncDiv(a, b) <= a < b * TruncDiv(a, b) + b
    ensures a < 0 ==> b * TruncDiv(a, b) - b < a <= b * TruncDiv(a, b) <= 0
  {
    var p := (if a >= 0 then a else -a) / b;
    DivBounds(if a >= 0 then a else -a, b);
    NegateProduct(b, p);
  }

  lemma DivBounds(x: nat, b: int)
    requires b > 0
    ensures 0 <= b * (x / b) <= x < b * (x / b) + b
  {
    MulMonotone(b, 0, x / b);
  }

  lemma NegateProduct(b: int, p: int)
    ensures b * -p == -(b * p)
  {
  }

  /** `GridBlock.blocknum`: the slot of block (gx, gy) in a file with `stride` blocks per row. */
  function BlockNumber(stride: int, gx: int, gy: int): int
  {
    stride * gx + gy
  }

  /**
   * `blocks // stride, blocks % stride` in `pos_from_file_offset`; None
   * where Python raises ZeroDivisionError.
   */
  function SplitBlockNumber(blocks: int, stride: int): (r: Option<(int, int)>)
    ensures r.None? <==> stride == 0
  {
    if stride == 0 then None else Some((FloorDiv(blocks, stride), FloorMod(blocks, stride)))
  }

  /** The split puts the block back together, with a column inside the stride when the stride is positive. */
  lemma SplitBlockNumberSound(blocks: int, stride: int)
    requires stride != 0
    ensures var r := SplitBlockNumber(blocks, stride).value;
      BlockNumber(stride, r.0, r.1) == blocks && (stride > 0 ==> 0 <= r.1 < stride)
  {
    FloorModBounds(blocks, stride);
  }

  /** The split recovers the grid indices of every block whose column is inside the stride. */
  lemma SplitBlockNumberInverse(stride: int, gx: int, gy: int)
    requires 0 <= gy < stride
    ensures SplitBlockNumber(BlockNumber(stride, gx, gy), stride) == Some((gx, gy))
  {
    var n := BlockNumber(stride, gx, gy);
    FloorDivBounds(n, stride);
    QuotientUnique(n, stride, FloorDiv(n, stride), gx);
  }

  /** b * x <= b * y whenever b >= 0 and x <= y. */
  lemma MulMonotone(b: int, x: int, y: int)
    requires b >= 0 && x <= y
    ensures b * x <= b * y
  {
    assert b * y - b * x == b * (y - x);
  }

  /** Only one quotient q satisfies b * q <= n < b * q + b. */
  lemma QuotientUnique(n: int, b: int, q1: int, q2: int)
    requires b > 0
    requires b * q1 <= n < b * q1 + b
    requires b * q2 <= n < b * q2 + b
    ensures q1 == q2
  {
    if q1 < q2 {
      MulMonotone(b, q1 + 1, q2);
    } else if q2 < q1 {
      MulMonotone(b, q2 + 1, q1);
    }
  }

  /**
   * The single-precision projection for one format version and one grid
   * spacing, taken as given:
   *  - addOffset(lat, lon, north, east): `add_offset`, a position plus an
   *    offset in metres;
   *  - distanceNE(lat1, lon1, lat2, lon2): `get_distance_NE_e7` with both
   *    components passed through `round`, as `GridBlock.__init__` does;
   *  - eastBlocks(lat, lon): `east_blocks`, the blocks per row of the file
   *    whose south-west corner is (lat, lon).
   * The source hands a block's corner around as a float (`lat_e7 * 1.0e-7`,
   * and `lat * 1.0e7` for the samples) and truncates it back with `int`,
   * which can come out one unit low; the model passes the integer corner
   * itself, and these functions stand for the whole float path.
   */
  datatype Projection = Projection(
    addOffset: (int, int, int, int) -> (int, int),
    distanceNE: (int, int, int, int) -> (int, int),
    eastBlocks: (int, int) -> int)

  /** The blocks per row of the degree file (lat_degrees, lon_degrees). */
  function Stride(latDegrees: int, lonDegrees: int, proj: Projection): int
  {
    proj.eastBlocks(latDegrees * E7, lonDegrees * E7)
  }

  /** South-west corner of block (gx, gy) of a degree file. */
  function CornerOf(latDegrees: int, lonDegrees: int, gx: int, gy: int, spacing: int, proj: Projection): (int, int)
  {
    proj.addOffset(latDegrees * E7, lonDegrees * E7,
                   gx * TERRAIN_GRID_BLOCK_SPACING_X * spacing, gy * TERRAIN_GRID_BLOCK_SPACING_Y * spacing)
  }

  /**
   * `pos_from_file_offset`: the corner of the block stored at `fileOffset`,
   * or None when the stride is 0 (ZeroDivisionError).
   */
  function PosFromFileOffset(latDegrees: int, lonDegrees: int, fileOffset: int, spacing: int, proj: Projection)
    : (r: Option<(int, int)>)
    ensures r.None? <==> Stride(latDegrees, lonDegrees, proj) == 0
  {
    var stride := Stride(latDegrees, lonDegrees, proj);
    match SplitBlockNumber(FloorDiv(fileOffset, IO_BLOCK_SIZE), stride)
    case None => None
    case Some((gx, gy)) => Some(CornerOf(latDegrees, lonDegrees, gx, gy, spacing, proj))
  }

  /** Grid indices and corner of the block holding a position: the integer part of `GridBlock.__init__`. */
  datatype Cell = Cell(gridIdxX: int, gridIdxY: int, lat: int, lon: int)

  function GridCell(latDegrees: int, lonDegrees: int, latE7: int, lonE7: int, spacing: int, proj: Projection)
    : (c: Cell)
    requires spacing > 0
    ensures c.lat == CornerOf(latDegrees, lonDegrees, c.gridIdxX, c.gridIdxY, spacing, proj).0
    ensures c.lon == CornerOf(latDegrees, lonDegrees, c.gridIdxX, c.gridIdxY, spacing, proj).1
  {
    var offset := proj.distanceNE(latDegrees * E7, lonDegrees * E7, latE7, lonE7);
    var idxX := TruncDiv(offset.0, spacing);
    var idxY := TruncDiv(offset.1, spacing);
    var gx := FloorDiv(idxX, TERRAIN_GRID_BLOCK_SPACING_X);
    var gy := FloorDiv(idxY, TERRAIN_GRID_BLOCK_SPACING_Y);
    var corner := CornerOf(latDegrees, lonDegrees, gx, gy, spacing, proj);
    Cell(gx, gy, corner.0, corner.1)
  }

  /**
   * A point north-east of the file's corner lands in the block whose span,
   * 24 samples north and 28 east, contains its metric offset.
   */
  lemma GridCellContains(latDegrees: int, lonDegrees: int, latE7: int, lonE7: int, spacing: int, proj: Projection)
    requires spacing > 0
    ensures var offset := proj.distanceNE(latDegrees * E7, lonDegrees * E7, latE7, lonE7);
      var c := GridCell(latDegrees, lonDegrees, latE7, lonE7, spacing, proj);
      && (offset.0 >= 0 ==> c.gridIdxX >= 0 && SpanStart(c.gridIdxX, TERRAIN_GRID_BLOCK_SPACING_X, spacing) <= offset.0
                                          < SpanStart(c.gridIdxX + 1, TERRAIN_GRID_BLOCK_SPACING_X, spacing))
      && (offset.1 >= 0 ==> c.gridIdxY >= 0 && SpanStart(c.gridIdxY, TERRAIN_GRID_BLOCK_SPACING_Y, spacing) <= offset.1
                                          < SpanStart(c.gridIdxY + 1, TERRAIN_GRID_BLOCK_SPACING_Y, spacing))
  {
    var offset := proj.distanceNE(latDegrees * E7, lonDegrees * E7, latE7, lonE7);
    if offset.0 >= 0 {
      SpanContains(offset.0, TERRAIN_GRID_BLOCK_SPACING_X, spacing);
    }
    if offset.1 >= 0 {
      SpanContains(offset.1, TERRAIN_GRID_BLOCK_SPACING_Y, spacing);
    }
  }

  /** Metres from the file's corner to the start of block g along an axis of `per` samples per block. */
  function SpanStart(g: int, per: int, spacing: int): int
  {
    g * per * spacing
  }

  lemma SpanContains(m: int, per: int, spacing: int)
    requires m >= 0 && per > 0 && spacing > 0
    ensures var g := FloorDiv(TruncDiv(m, spacing), per);
      g >= 0 && SpanStart(g, per, spacing) <= m < SpanStart(g + 1, per, spacing)
  {
    var idx := TruncDiv(m, spacing);
    var g := FloorDiv(idx, per);
    TruncDivBounds(m, spacing);
    FloorDivBounds(idx, per);
    assert 0 <= spacing * idx <= m < spacing * idx + spacing;
    assert per * g <= idx < per * g + per;
    if g < 0 {
      MulMonotone(per, g, -1);
    }
    MulMonotone(spacing, per * g, idx);
    MulMonotone(spacing, idx + 1, per * g + per);
    assert spacing * (idx + 1) == spacing * idx + spacing;
    assert SpanStart(g, per, spacing) == spacing * (per * g);
    assert SpanStart(g + 1, per, spacing) == spacing * (per * g + per);
  }
}
