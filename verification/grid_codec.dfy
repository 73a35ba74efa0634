/**
 * The on-disk grid block: a fixed 2048-byte little-endian record holding a
 * 28 x 32 patch of signed 16-bit heights, a self-describing header and a
 * CRC-16/XMODEM over its first 1821 bytes.
 *
 *   offset  size  field
 *        0     8  bitmap        (Q)
 *        8     4  lat, 1e-7 deg (i)
 *       12     4  lon, 1e-7 deg (i)
 *       16     2  crc           (H)
 *       18     2  version       (H)
 *       20     2  spacing, m    (H)
 *       22  1792  height[x][y]  (h), row x = 0..27, column y = 0..31
 *     1814     2  grid_idx_x    (H)
 *     1816     2  grid_idx_y    (H)
 *     1818     2  lon_degrees   (h)
 *     1820     1  lat_degrees   (b)
 *     1821   227  zero trailer, not covered by the CRC
 */
module GridCodec {
  import opened Bytes
  import opened Wrappers
  import Crc16

  const TERRAIN_GRID_MAVLINK_SIZE := 4
  const TERRAIN_GRID_BLOCK_MUL_X := 7
  const TERRAIN_GRID_BLOCK_MUL_Y := 8
  /** Distance between the origins of neighbouring blocks, in samples (one sample of overlap). */
  const TERRAIN_GRID_BLOCK_SPACING_X := (TERRAIN_GRID_BLOCK_MUL_X - 1) * TERRAIN_GRID_MAVLINK_SIZE
  const TERRAIN_GRID_BLOCK_SPACING_Y := (TERRAIN_GRID_BLOCK_MUL_Y - 1) * TERRAIN_GRID_MAVLINK_SIZE
  /** Samples per block: 28 rows (south to north) of 32 (west to east). */
  const TERRAIN_GRID_BLOCK_SIZE_X := TERRAIN_GRID_MAVLINK_SIZE * TERRAIN_GRID_BLOCK_MUL_X
  const TERRAIN_GRID_BLOCK_SIZE_Y := TERRAIN_GRID_MAVLINK_SIZE * TERRAIN_GRID_BLOCK_MUL_Y

  const IO_BLOCK_SIZE := 2048
  const IO_BLOCK_DATA_SIZE := 1821
  const IO_BLOCK_TRAILER_SIZE := IO_BLOCK_SIZE - IO_BLOCK_DATA_SIZE

  /** Offset of the first height sample, and of the first byte after the heights. */
  const HEIGHTS_START := 22
  const HEIGHTS_END := HEIGHTS_START + 2 * TERRAIN_GRID_BLOCK_SIZE_X * TERRAIN_GRID_BLOCK_SIZE_Y

  /** The "fully filled" bitmap: the 56 low bits set, one per 4 x 4 MAVLink grid. */
  const FULL_BITMAP := 0xFF_FFFF_FFFF_FFFF

  /** The fields of a grid block, as `DataFile.pack` reads them. */
  datatype Block = Block(
    bitmap: int, lat: int, lon: int, crc: int, version: int, spacing: int,
    height: seq<seq<int>>,
    gridIdxX: int, gridIdxY: int, lonDegrees: int, latDegrees: int)

  /** The header `struct.unpack("<QiiHHH", buf[:22])` yields. */
  datatype Header = Header(bitmap: int, lat: int, lon: int, crc: int, version: int, spacing: int)

  /** 28 rows of 32 samples each. */
  predicate WellShaped(h: seq<seq<int>>)
  {
    |h| == TERRAIN_GRID_BLOCK_SIZE_X && forall x | 0 <= x < |h| :: |h[x]| == TERRAIN_GRID_BLOCK_SIZE_Y
  }

  predicate RowFits(row: seq<int>)
  {
    forall y | 0 <= y < |row| :: FitsSigned(row[y], 2)
  }

  /** Every field is in the range of its struct code, so `struct.pack` does not raise. */
  predicate Packable(b: Block)
  {
    && FitsUnsigned(b.bitmap, 8) && FitsSigned(b.lat, 4) && FitsSigned(b.lon, 4)
    && FitsUnsigned(b.crc, 2) && FitsUnsigned(b.version, 2) && FitsUnsigned(b.spacing, 2)
    && WellShaped(b.height) && (forall x | 0 <= x < |b.height| :: RowFits(b.height[x]))
    && FitsUnsigned(b.gridIdxX, 2) && FitsUnsigned(b.gridIdxY, 2)
    && FitsSigned(b.lonDegrees, 2) && FitsSigned(b.latDegrees, 1)
  }

  /** One row: `struct.pack("<32h", *row)`. */
  function RowBytes(row: seq<int>): (r: seq<uint8>)
    requires RowFits(row)
    ensures |r| == 2 * |row|
  {
    if |row| == 0 then [] else EncodeSigned(row[0], 2) + RowBytes(row[1..])
  }

  /** The rows one after another, as the `for gx` loop of `pack` appends them. */
  function GridBytes(h: seq<seq<int>>): (r: seq<uint8>)
    requires forall x | 0 <= x < |h| :: |h[x]| == TERRAIN_GRID_BLOCK_SIZE_Y && RowFits(h[x])
    ensures |r| == 2 * TERRAIN_GRID_BLOCK_SIZE_Y * |h|
  {
    if |h| == 0 then [] else RowBytes(h[0]) + GridBytes(h[1..])
  }

  /**
   * `DataFile.pack`: the 2048-byte record, or None where `struct.pack`
   * would raise `struct.error` because a field is out of range.
   */
  function Pack(b: Block): (r: Option<seq<uint8>>)
    ensures r.Some? <==> Packable(b)
    ensures r.Some? ==> |r.value| == IO_BLOCK_SIZE
  {
    if !Packable(b) then None
    else
      Some(EncodeLE(b.bitmap, 8) + EncodeSigned(b.lat, 4) + EncodeSigned(b.lon, 4)
           + EncodeLE(b.crc, 2) + EncodeLE(b.version, 2) + EncodeLE(b.spacing, 2)
           + GridBytes(b.height)
           + EncodeLE(b.gridIdxX, 2) + EncodeLE(b.gridIdxY, 2)
           + EncodeSigned(b.lonDegrees, 2) + EncodeSigned(b.latDegrees, 1)
           + Zeros(IO_BLOCK_TRAILER_SIZE))
  }

  /** `struct.unpack("<QiiHHH", buf[:22])`. */
  function ReadHeader(buf: seq<uint8>): Header
    requires |buf| >= HEIGHTS_START
  {
    Header(DecodeLE(buf[0..8]), DecodeSigned(buf[8..12]), DecodeSigned(buf[12..16]),
           DecodeLE(buf[16..18]), DecodeLE(buf[18..20]), DecodeLE(buf[20..22]))
  }

  /** The two bytes of sample (x, y) start here. */
  function HeightOffset(x: int, y: int): int
  {
    HEIGHTS_START + 2 * TERRAIN_GRID_BLOCK_SIZE_Y * x + 2 * y
  }

  /**
   * Reads every field back from a record: the decoder on the autopilot's
   * side, used here to state that `Pack` loses nothing.
   */
  function Unpack(buf: seq<uint8>): Block
    requires |buf| >= IO_BLOCK_DATA_SIZE
  {
    var h := ReadHeader(buf);
    Block(h.bitmap, h.lat, h.lon, h.crc, h.version, h.spacing,
          seq(TERRAIN_GRID_BLOCK_SIZE_X, x requires 0 <= x < TERRAIN_GRID_BLOCK_SIZE_X =>
            seq(TERRAIN_GRID_BLOCK_SIZE_Y, y requires 0 <= y < TERRAIN_GRID_BLOCK_SIZE_Y =>
              DecodeSigned(buf[HeightOffset(x, y)..HeightOffset(x, y) + 2]))),
          DecodeLE(buf[1814..1816]), DecodeLE(buf[1816..1818]),
          DecodeSigned(buf[1818..1820]), DecodeSigned(buf[1820..1821]))
  }

  /** `buf[:16] + struct.pack("<H", 0) + buf[18:]`: the record with its crc field zeroed. */
  function ZeroCrcField(buf: seq<uint8>): (r: seq<uint8>)
    requires |buf| >= 18
    ensures |r| == |buf|
  {
    buf[..16] + [0, 0] + buf[18..]
  }

  /** The checksum `DataFile.write` stores: CRC-16/XMODEM of the first 1821 bytes packed with crc = 0. */
  function SealedCrc(b: Block): (c: nat)
    requires Packable(b.(crc := 0))
    ensures c < 0x1_0000
  {
    Crc16.OfPrefix(Pack(b.(crc := 0)).value, IO_BLOCK_DATA_SIZE)
  }

  /**
   * The test `DataFile.check_filled` applies to the bytes it reads from a
   * block's slot: a full 2048 bytes, the expected version and spacing, a
   * position within 2 units (1e-7 degree) of the block's own corner, the
   * full bitmap and a CRC that matches.
   */
  predicate SlotFilled(buf: seq<uint8>, lat: int, lon: int, spacing: int, version: int)
  {
    && |buf| == IO_BLOCK_SIZE
    && var h := ReadHeader(buf);
    && h.version == version
    && Abs(h.lat - lat) <= 2 && Abs(h.lon - lon) <= 2
    && h.spacing == spacing
    && h.bitmap == FULL_BITMAP
    && Crc16.OfPrefix(ZeroCrcField(buf), IO_BLOCK_DATA_SIZE) == h.crc
  }

  // ---------------------------------------------------------------------
  // Layout and round trip
  // ---------------------------------------------------------------------

  lemma {:induction false} RowBytesAt(row: seq<int>, y: nat)
    requires RowFits(row) && y < |row|
    ensures RowBytes(row)[2 * y..2 * y + 2] == EncodeSigned(row[y], 2)
  {
    if y > 0 {
      RowBytesAt(row[1..], y - 1);
      assert RowBytes(row)[2..] == RowBytes(row[1..]);
      assert RowBytes(row)[2 * y..2 * y + 2] == RowBytes(row)[2..][2 * (y - 1)..2 * (y - 1) + 2];
    }
  }

  lemma {:induction false} GridBytesAt(h: seq<seq<int>>, x: nat, y: nat)
    requires forall i | 0 <= i < |h| :: |h[i]| == TERRAIN_GRID_BLOCK_SIZE_Y && RowFits(h[i])
    requires x < |h| && y < TERRAIN_GRID_BLOCK_SIZE_Y
    ensures GridBytes(h)[64 * x + 2 * y..64 * x + 2 * y + 2] == EncodeSigned(h[x][y], 2)
  {
    var g := GridBytes(h);
    if x == 0 {
      RowBytesAt(h[0], y);
      assert g[..64] == RowBytes(h[0]);
      assert g[2 * y..2 * y + 2] == g[..64][2 * y..2 * y + 2];
    } else {
      GridBytesAt(h[1..], x - 1, y);
      assert g[64..] == GridBytes(h[1..]);
      assert g[64 * x + 2 * y..64 * x + 2 * y + 2] == g[64..][64 * (x - 1) + 2 * y..64 * (x - 1) + 2 * y + 2];
    }
  }

  /** The record splits into its fields at the offsets in the table above. */
  lemma PackLayout(b: Block)
    requires Packable(b)
    ensures var r := Pack(b).value;
      && r[0..8] == EncodeLE(b.bitmap, 8)
      && r[8..12] == EncodeSigned(b.lat, 4)
      && r[12..16] == EncodeSigned(b.lon, 4)
      && r[16..18] == EncodeLE(b.crc, 2)
      && r[18..20] == EncodeLE(b.version, 2)
      && r[20..22] == EncodeLE(b.spacing, 2)
      && r[HEIGHTS_START..HEIGHTS_END] == GridBytes(b.height)
      && r[1814..1816] == EncodeLE(b.gridIdxX, 2)
      && r[1816..1818] == EncodeLE(b.gridIdxY, 2)
      && r[1818..1820] == EncodeSigned(b.lonDegrees, 2)
      && r[1820..1821] == EncodeSigned(b.latDegrees, 1)
      && r[IO_BLOCK_DATA_SIZE..] == Zeros(IO_BLOCK_TRAILER_SIZE)
  {
    var head := EncodeLE(b.bitmap, 8) + EncodeSigned(b.lat, 4) + EncodeSigned(b.lon, 4)
                + EncodeLE(b.crc, 2) + EncodeLE(b.version, 2) + EncodeLE(b.spacing, 2);
    var grid := GridBytes(b.height);
    var foot := EncodeLE(b.gridIdxX, 2) + EncodeLE(b.gridIdxY, 2)
                + EncodeSigned(b.lonDegrees, 2) + EncodeSigned(b.latDegrees, 1);
    var r := Pack(b).value;
    assert r == head + grid + foot + Zeros(IO_BLOCK_TRAILER_SIZE);
    assert r[..22] == head;
    assert r[22..1814] == grid;
    assert r[1814..1821] == foot;
  }

  /** The header read back from a record is the block's own header fields. */
  lemma PackHeader(b: Block)
    requires Packable(b)
    ensures ReadHeader(Pack(b).value) == Header(b.bitmap, b.lat, b.lon, b.crc, b.version, b.spacing)
  {
    PackLayout(b);
    DecodeEncodeLE(b.bitmap, 8);
    DecodeEncodeSigned(b.lat, 4);
    DecodeEncodeSigned(b.lon, 4);
    DecodeEncodeLE(b.crc, 2);
    DecodeEncodeLE(b.version, 2);
    DecodeEncodeLE(b.spacing, 2);
  }

  /** Each height sample sits at HeightOffset(x, y) as two little-endian bytes. */
  lemma PackHeightAt(b: Block, x: nat, y: nat)
    requires Packable(b) && x < TERRAIN_GRID_BLOCK_SIZE_X && y < TERRAIN_GRID_BLOCK_SIZE_Y
    ensures Pack(b).value[HeightOffset(x, y)..HeightOffset(x, y) + 2] == EncodeSigned(b.height[x][y], 2)
  {
    var r := Pack(b).value;
    PackLayout(b);
    GridBytesAt(b.height, x, y);
    assert r[HeightOffset(x, y)..HeightOffset(x, y) + 2]
        == r[HEIGHTS_START..HEIGHTS_END][64 * x + 2 * y..64 * x + 2 * y + 2];
  }

  /** Round trip: every field of a packable block is read back unchanged. */
  lemma UnpackPack(b: Block)
    requires Packable(b)
    ensures Unpack(Pack(b).value) == b
  {
    var r := Pack(b).value;
    PackLayout(b);
    DecodeEncodeLE(b.bitmap, 8);
    DecodeEncodeSigned(b.lat, 4);
    DecodeEncodeSigned(b.lon, 4);
    DecodeEncodeLE(b.crc, 2);
    DecodeEncodeLE(b.version, 2);
    DecodeEncodeLE(b.spacing, 2);
    DecodeEncodeLE(b.gridIdxX, 2);
    DecodeEncodeLE(b.gridIdxY, 2);
    DecodeEncodeSigned(b.lonDegrees, 2);
    DecodeEncodeSigned(b.latDegrees, 1);
    var u := Unpack(r);
    forall x | 0 <= x < TERRAIN_GRID_BLOCK_SIZE_X
      ensures u.height[x] == b.height[x]
    {
      forall y | 0 <= y < TERRAIN_GRID_BLOCK_SIZE_Y
        ensures u.height[x][y] == b.height[x][y]
      {
        PackHeightAt(b, x, y);
        DecodeEncodeSigned(b.height[x][y], 2);
      }
    }
    assert u.height == b.height;
  }

  /** Packing with crc = 0 gives exactly the record with its crc field zeroed. */
  lemma ZeroCrcFieldOfPack(b: Block)
    requires Packable(b)
    ensures Packable(b.(crc := 0))
    ensures ZeroCrcField(Pack(b).value) == Pack(b.(crc := 0)).value
  {
    var b0 := b.(crc := 0);
    var pre := EncodeLE(b.bitmap, 8) + EncodeSigned(b.lat, 4) + EncodeSigned(b.lon, 4);
    var post := EncodeLE(b.version, 2) + EncodeLE(b.spacing, 2) + GridBytes(b.height)
                + EncodeLE(b.gridIdxX, 2) + EncodeLE(b.gridIdxY, 2)
                + EncodeSigned(b.lonDegrees, 2) + EncodeSigned(b.latDegrees, 1)
                + Zeros(IO_BLOCK_TRAILER_SIZE);
    assert Pack(b).value == pre + EncodeLE(b.crc, 2) + post;
    assert Pack(b0).value == pre + EncodeLE(0, 2) + post;
    assert EncodeLE(0, 2) == [0, 0];
    var r := pre + EncodeLE(b.crc, 2) + post;
    assert r[..16] == pre && r[18..] == post;
  }

  /**
   * What `DataFile.write` stores passes `check_filled`: a block whose crc is
   * the sealed CRC and whose bitmap is full is accepted against its own
   * lat, lon, spacing and version.
   */
  lemma SealedBlockFilled(b: Block)
    requires Packable(b) && b.crc == SealedCrc(b) && b.bitmap == FULL_BITMAP
    ensures SlotFilled(Pack(b).value, b.lat, b.lon, b.spacing, b.version)
  {
    SealedSlotFilledIff(b, b.lat, b.lon, b.spacing, b.version);
  }

  /**
   * A slot holding a sealed, fully filled block passes `check_filled`
   * exactly when the expected version and spacing are the block's own and
   * the expected corner is within 2 units of the block's corner.
   */
  lemma SealedSlotFilledIff(b: Block, lat: int, lon: int, spacing: int, version: int)
    requires Packable(b) && b.crc == SealedCrc(b) && b.bitmap == FULL_BITMAP
    ensures SlotFilled(Pack(b).value, lat, lon, spacing, version)
        <==> b.version == version && b.spacing == spacing && Abs(b.lat - lat) <= 2 && Abs(b.lon - lon) <= 2
  {
    PackHeader(b);
    ZeroCrcFieldOfPack(b);
  }
}
