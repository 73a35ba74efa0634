/**
 * The integrity scanner: for every degree file of a folder, recover the
 * degree from the file name, derive the number of blocks from the file
 * length, check the count against latitude- and spacing-dependent bounds,
 * and check the blocks one by one until the first bad one, counting one
 * error per failed check.
 */
module OfflineCheck {
  import opened Bytes
  import opened Wrappers
  import opened GridCodec
  import opened Naming
  import Geo
  import Crc16

  const TERRAIN_GRID_FORMAT_VERSION := 1

  /** The padding the autopilot leaves off the last block of a file: 2048 - 1821. */
  const TAIL_PADDING := IO_BLOCK_SIZE - IO_BLOCK_DATA_SIZE

  /** Starting values of the extreme corners, 1e-7 degree. */
  const LAT_MIN_START := 90 * Geo.E7
  const LAT_MAX_START := -90 * Geo.E7
  const LON_MIN_START := 180 * Geo.E7
  const LON_MAX_START := -180 * Geo.E7

  // ---------------------------------------------------------------------
  // check_filled
  // ---------------------------------------------------------------------

  /**
   * What `check_filled` does with one slice: returns False, returns the
   * block's corner, or raises `NameError` because the test for an all-zero
   * header names a variable that does not exist.
   */
  datatype Verdict = Rejected | Accepted(lat: int, lon: int) | NameError

  /**
   * `check_filled(block, lat_int, lon_int, grid_spacing, format)`. The
   * `format` argument is never read, so it is not a parameter. The test
   * "within 2 degrees of the file's degree" is stated over 1e-7 degree
   * integers.
   */
  function CheckBlock(block: seq<uint8>, latInt: int, lonInt: int, gridSpacing: int): (v: Verdict)
    ensures |block| != IO_BLOCK_DATA_SIZE ==> v == Rejected
    ensures v.Accepted? ==> |block| == IO_BLOCK_DATA_SIZE && v.lat == ReadHeader(block).lat && v.lon == ReadHeader(block).lon
  {
    if |block| != IO_BLOCK_DATA_SIZE then Rejected
    else
      var h := ReadHeader(block);
      if h.lat == 0 && h.lon == 0 && h.crc == 0 then NameError
      else if h.version != TERRAIN_GRID_FORMAT_VERSION then Rejected
      else if Abs(latInt * Geo.E7 - h.lat) > 2 * Geo.E7 || Abs(lonInt * Geo.E7 - h.lon) > 2 * Geo.E7 then Rejected
      else if h.spacing != gridSpacing then Rejected
      else if h.bitmap != FULL_BITMAP then Rejected
      else if Crc16.OfPrefix(ZeroCrcField(block), IO_BLOCK_DATA_SIZE) != h.crc then Rejected
      else Accepted(h.lat, h.lon)
  }

  /** Both CRCs cover the first 1821 bytes only, so cutting the padding off changes neither. */
  lemma CrcIgnoresPadding(buf: seq<uint8>)
    requires |buf| == IO_BLOCK_SIZE
    ensures ZeroCrcField(buf)[..IO_BLOCK_DATA_SIZE] == ZeroCrcField(buf[..IO_BLOCK_DATA_SIZE])[..IO_BLOCK_DATA_SIZE]
    ensures Crc16.OfPrefix(ZeroCrcField(buf[..IO_BLOCK_DATA_SIZE]), IO_BLOCK_DATA_SIZE)
         == Crc16.OfPrefix(ZeroCrcField(buf), IO_BLOCK_DATA_SIZE)
  {
    var z, w := ZeroCrcField(buf), ZeroCrcField(buf[..IO_BLOCK_DATA_SIZE]);
    assert z[..IO_BLOCK_DATA_SIZE] == w;
    Crc16.XmodemOfSlice(z, IO_BLOCK_DATA_SIZE);
    Crc16.XmodemOfSlice(w, IO_BLOCK_DATA_SIZE);
    assert w[..IO_BLOCK_DATA_SIZE] == w;
  }

  /**
   * The scanner and the generator apply the same test to a 2048-byte slot,
   * except for the position: the scanner accepts a corner within 2 degrees
   * of the file's degree, and raises on a header whose lat, lon and crc
   * are all zero.
   */
  lemma ScannerAgreesWithGenerator(buf: seq<uint8>, latInt: int, lonInt: int, spacing: int)
    requires |buf| == IO_BLOCK_SIZE
    ensures var h := ReadHeader(buf);
      var v := CheckBlock(buf[..IO_BLOCK_DATA_SIZE], latInt, lonInt, spacing);
      && (v == NameError <==> h.lat == 0 && h.lon == 0 && h.crc == 0)
      && (v.Accepted? ==> v == Accepted(h.lat, h.lon))
      && (v.Accepted? <==>
            && !(h.lat == 0 && h.lon == 0 && h.crc == 0)
            && SlotFilled(buf, h.lat, h.lon, spacing, TERRAIN_GRID_FORMAT_VERSION)
            && Abs(latInt * Geo.E7 - h.lat) <= 2 * Geo.E7 && Abs(lonInt * Geo.E7 - h.lon) <= 2 * Geo.E7)
  {
    var s := buf[..IO_BLOCK_DATA_SIZE];
    assert s[0..8] == buf[0..8] && s[8..12] == buf[8..12] && s[12..16] == buf[12..16];
    assert s[16..18] == buf[16..18] && s[18..20] == buf[18..20] && s[20..22] == buf[20..22];
    assert ReadHeader(s) == ReadHeader(buf);
    CrcIgnoresPadding(buf);
  }

  /**
   * What the generator writes passes the scanner: a sealed, fully filled
   * version-1 block of the right spacing, whose corner is within 2 degrees
   * of the file's degree and is not the all-zero header, is accepted with
   * its own corner.
   */
  lemma SealedBlockAccepted(b: Block, latInt: int, lonInt: int)
    requires Packable(b) && b.crc == SealedCrc(b) && b.bitmap == FULL_BITMAP
    requires b.version == TERRAIN_GRID_FORMAT_VERSION
    requires Abs(latInt * Geo.E7 - b.lat) <= 2 * Geo.E7 && Abs(lonInt * Geo.E7 - b.lon) <= 2 * Geo.E7
    requires !(b.lat == 0 && b.lon == 0 && b.crc == 0)
    ensures CheckBlock(Pack(b).value[..IO_BLOCK_DATA_SIZE], latInt, lonInt, b.spacing) == Accepted(b.lat, b.lon)
  {
    ScannerAgreesWithGenerator(Pack(b).value, latInt, lonInt, b.spacing);
    SealedSlotFilledIff(b, b.lat, b.lon, b.spacing, TERRAIN_GRID_FORMAT_VERSION);
    PackHeader(b);
  }

  /**
   * A gap the generator left when it wrote past the end of a file reads as
   * zeros, and a zero slice makes `check_filled` raise instead of return
   * False.
   */
  lemma ZeroSliceRaises(latInt: int, lonInt: int, spacing: int)
    ensures CheckBlock(Zeros(IO_BLOCK_DATA_SIZE), latInt, lonInt, spacing) == NameError
  {
    var z := Zeros(IO_BLOCK_DATA_SIZE);
    assert z[0..8] == Zeros(8) && z[8..12] == Zeros(4) && z[12..16] == Zeros(4) && z[16..18] == Zeros(2);
    ZerosDecode(8);
    ZerosDecode(4);
    ZerosDecode(2);
  }

  lemma {:induction false} ZerosDecode(n: nat)
    ensures DecodeLE(Zeros(n)) == 0
  {
    if n > 0 {
      assert Zeros(n)[1..] == Zeros(n - 1);
      ZerosDecode(n - 1);
    }
  }

  // ---------------------------------------------------------------------
  // File names
  // ---------------------------------------------------------------------

  predicate EndsWith(s: string, suffix: string)
  {
    |suffix| <= |s| && s[|s| - |suffix|..] == suffix
  }

  /** Only names ending in "DAT.gz" or "DAT" are checked. */
  predicate IsTileFile(name: string)
  {
    EndsWith(name, "DAT.gz") || EndsWith(name, "DAT")
  }

  /** `int(field)` for a field of decimal digits; any other field makes `int` raise. */
  function ParseField(s: string): (r: Option<nat>)
    ensures r.Some? <==> |s| > 0 && forall i | 0 <= i < |s| :: IsDigit(s[i])
  {
    if |s| > 0 && forall i | 0 <= i < |s| :: IsDigit(s[i]) then Some(DigitsValue(s)) else None
  }

  /**
   * The degree of a file: the number in characters 1..2, negated after an
   * 'S' in character 0, and the number in characters 4..6, negated after a
   * 'W' in character 3. None where a field is not a number.
   */
  function ParseTileName(name: string): (r: Option<(int, int)>)
    ensures r.Some? <==> ParseField(Slice(name, 1, 3)).Some? && ParseField(Slice(name, 4, 7)).Some?
  {
    var latField := ParseField(Slice(name, 1, 3));
    var lonField := ParseField(Slice(name, 4, 7));
    if latField.None? || lonField.None? then None
    else
      var lat := if Slice(name, 0, 1) == "S" then -(latField.value as int) else latField.value as int;
      var lon := if Slice(name, 3, 4) == "W" then -(lonField.value as int) else lonField.value as int;
      Some((lat, lon))
  }

  /**
   * Parsing undoes the naming: the stem of degree (lat, lon), whatever
   * follows it, gives back the degree with its magnitudes clamped to 99
   * and 999.
   */
  lemma ParseTileStem(lat: int, lon: int, suffix: string)
    ensures ParseTileName(TileStem(lat, lon) + suffix)
         == Some(((if lat < 0 then -1 else 1) * Min(Abs(lat), 99), (if lon < 0 then -1 else 1) * Min(Abs(lon), 999)))
  {
    var stem := TileStem(lat, lon);
    var name := stem + suffix;
    TileStemFields(lat, lon);
    assert Slice(name, 1, 3) == stem[1..3];
    assert Slice(name, 4, 7) == stem[4..7];
    assert Slice(name, 0, 1) == [stem[0]];
    assert Slice(name, 3, 4) == [stem[3]];
    assert forall i | 0 <= i < 2 :: IsDigit(stem[1..3][i]);
    assert forall i | 0 <= i < 3 :: IsDigit(stem[4..7][i]);
  }

  /**
   * Within the ranges the name can express, the scanner recovers exactly
   * the degree the generator named the file after.
   */
  lemma ParseDataFileName(lat: int, lon: int)
    requires -99 <= lat <= 99 && -999 <= lon <= 999
    ensures IsTileFile(TileStem(lat, lon) + ".DAT")
    ensures ParseTileName(TileStem(lat, lon) + ".DAT") == Some((lat, lon))
  {
    ParseTileStem(lat, lon, ".DAT");
    var name := TileStem(lat, lon) + ".DAT";
    assert name[|name| - 3..] == "DAT";
  }

  /** Distinct degrees in range never share a file name. */
  lemma TileStemInjective(lat1: int, lon1: int, lat2: int, lon2: int)
    requires -99 <= lat1 <= 99 && -999 <= lon1 <= 999
    requires -99 <= lat2 <= 99 && -999 <= lon2 <= 999
    requires TileStem(lat1, lon1) == TileStem(lat2, lon2)
    ensures lat1 == lat2 && lon1 == lon2
  {
    ParseTileStem(lat1, lon1, "");
    ParseTileStem(lat2, lon2, "");
    assert TileStem(lat1, lon1) + "" == TileStem(lat2, lon2) + "";
  }

  // ---------------------------------------------------------------------
  // Block count and bounds
  // ---------------------------------------------------------------------

  /**
   * The number of blocks in a file of `len` bytes: a whole number of
   * blocks with the last block's padding left off, or a whole number of
   * padded blocks; None for any other length.
   */
  function BlockCount(len: nat): (r: Option<nat>)
    ensures r.Some? <==> (len + TAIL_PADDING) % IO_BLOCK_SIZE == 0 || len % IO_BLOCK_SIZE == 0
  {
    if (len + TAIL_PADDING) % IO_BLOCK_SIZE == 0 then Some((len + TAIL_PADDING) / IO_BLOCK_SIZE)
    else if len % IO_BLOCK_SIZE == 0 then Some(len / IO_BLOCK_SIZE)
    else None
  }

  /**
   * The two length conventions never both apply, and the count is the one
   * whose convention the length follows.
   */
  lemma BlockCountConventions(len: nat)
    ensures !((len + TAIL_PADDING) % IO_BLOCK_SIZE == 0 && len % IO_BLOCK_SIZE == 0)
    ensures BlockCount(len).Some? ==>
      var n := BlockCount(len).value;
      (n * IO_BLOCK_SIZE - TAIL_PADDING == len) != (n * IO_BLOCK_SIZE == len)
  {
    if len % IO_BLOCK_SIZE == 0 {
      var q := len / IO_BLOCK_SIZE;
      assert len + TAIL_PADDING == q * IO_BLOCK_SIZE + TAIL_PADDING;
      assert (len + TAIL_PADDING) % IO_BLOCK_SIZE == TAIL_PADDING;
    }
  }

  /** Block b of the file: bytes [2048 b, 2048 (b + 1) - 227), clamped to the file. */
  function BlockSlice(tile: seq<uint8>, b: nat): seq<uint8>
  {
    Slice(tile, b * IO_BLOCK_SIZE, (b + 1) * IO_BLOCK_SIZE - TAIL_PADDING)
  }

  /** Under either convention every block the count covers is a complete 1821-byte record. */
  lemma BlockSlicesComplete(tile: seq<uint8>, b: nat)
    requires BlockCount(|tile|).Some? && b < BlockCount(|tile|).value
    ensures |BlockSlice(tile, b)| == IO_BLOCK_DATA_SIZE
  {
    var n := BlockCount(|tile|).value;
    BlockCountConventions(|tile|);
    assert (b + 1) * IO_BLOCK_SIZE <= n * IO_BLOCK_SIZE;
  }

  /** Fewest blocks a file may have: 450, or 200 from latitude 78 on; nine times as many at 30 m spacing. */
  function MinBlocks(latInt: int, spacing: int): (r: nat)
    ensures r >= 200
  {
    (if Abs(latInt) >= 78 then 200 else 450) * (if spacing == 30 then 9 else 1)
  }

  /** Most blocks a file may have: 6000, or 6000 * 6000 at 30 m spacing. */
  function MaxBlocks(spacing: int): nat
  {
    if spacing == 30 then 6000 * 6000 else 6000
  }

  predicate CountInBounds(n: int, latInt: int, spacing: int)
  {
    MinBlocks(latInt, spacing) <= n <= MaxBlocks(spacing)
  }

  /** A file whose length fits neither convention counts no blocks, which is also out of bounds. */
  lemma BadSizeOutOfBounds(len: nat, latInt: int, spacing: int)
    requires BlockCount(len).None?
    ensures !CountInBounds(if BlockCount(len).Some? then BlockCount(len).value else 0, latInt, spacing)
  {
  }

  /** The bounds shrink only near the poles and grow only at 30 m spacing. */
  lemma BoundsMonotone(latInt: int)
    ensures MinBlocks(latInt, 100) <= 450 && MaxBlocks(100) == 6000
    ensures MinBlocks(latInt, 30) == 9 * MinBlocks(latInt, 100)
    ensures Abs(latInt) >= 78 <==> MinBlocks(latInt, 100) == 200
  {
  }

  // ---------------------------------------------------------------------
  // The block scan
  // ---------------------------------------------------------------------

  /** A file whose blocks are being checked: its contents and the degree its name gives. */
  datatype Tile = Tile(bytes: seq<uint8>, latInt: int, lonInt: int)

  function BlockVerdict(t: Tile, b: nat, spacing: int): Verdict
  {
    CheckBlock(BlockSlice(t.bytes, b), t.latInt, t.lonInt, spacing)
  }

  /** The scan of `total` blocks stops after `scanned`: every block before it passed, and it did not. */
  predicate StopsAt(t: Tile, total: nat, spacing: int, scanned: nat)
  {
    && scanned <= total
    && (forall b: nat | b < scanned :: BlockVerdict(t, b, spacing).Accepted?)
    && (scanned < total ==> !BlockVerdict(t, scanned, spacing).Accepted?)
  }

  /** There is one place where a scan stops. */
  lemma StopsAtUnique(t: Tile, total: nat, spacing: int, s1: nat, s2: nat)
    requires StopsAt(t, total, spacing, s1) && StopsAt(t, total, spacing, s2)
    ensures s1 == s2
  {
    assert s1 < s2 ==> BlockVerdict(t, s1, spacing).Accepted?;
    assert s2 < s1 ==> BlockVerdict(t, s2, spacing).Accepted?;
  }

  /** The corners of the first n blocks, all of which passed. */
  function AcceptedLats(t: Tile, n: nat, spacing: int): (r: seq<int>)
    requires forall b: nat | b < n :: BlockVerdict(t, b, spacing).Accepted?
    ensures |r| == n
  {
    if n == 0 then [] else AcceptedLats(t, n - 1, spacing) + [BlockVerdict(t, n - 1, spacing).lat]
  }

  function AcceptedLons(t: Tile, n: nat, spacing: int): (r: seq<int>)
    requires forall b: nat | b < n :: BlockVerdict(t, b, spacing).Accepted?
    ensures |r| == n
  {
    if n == 0 then [] else AcceptedLons(t, n - 1, spacing) + [BlockVerdict(t, n - 1, spacing).lon]
  }

  lemma AcceptedSnoc(t: Tile, n: nat, spacing: int)
    requires forall b: nat | b < n + 1 :: BlockVerdict(t, b, spacing).Accepted?
    ensures AcceptedLats(t, n + 1, spacing) == AcceptedLats(t, n, spacing) + [BlockVerdict(t, n, spacing).lat]
    ensures AcceptedLons(t, n + 1, spacing) == AcceptedLons(t, n, spacing) + [BlockVerdict(t, n, spacing).lon]
  {
  }

  /** The first n blocks passed, and the four extremes are those of their corners. */
  predicate ScanProgress(t: Tile, n: nat, spacing: int, latMin: int, latMax: int, lonMin: int, lonMax: int)
  {
    && (forall b: nat | b < n :: BlockVerdict(t, b, spacing).Accepted?)
    && IsMinOf(latMin, LAT_MIN_START, AcceptedLats(t, n, spacing))
    && IsMaxOf(latMax, LAT_MAX_START, AcceptedLats(t, n, spacing))
    && IsMinOf(lonMin, LON_MIN_START, AcceptedLons(t, n, spacing))
    && IsMaxOf(lonMax, LON_MAX_START, AcceptedLons(t, n, spacing))
  }

  /** Taking one more passing block into the extremes keeps them the extremes. */
  lemma ExtremesStep(t: Tile, n: nat, spacing: int, latMin: int, latMax: int, lonMin: int, lonMax: int)
    requires ScanProgress(t, n, spacing, latMin, latMax, lonMin, lonMax)
    requires BlockVerdict(t, n, spacing).Accepted?
    ensures var v := BlockVerdict(t, n, spacing);
      ScanProgress(t, n + 1, spacing, Min(latMin, v.lat), Max(latMax, v.lat), Min(lonMin, v.lon), Max(lonMax, v.lon))
  {
    var v := BlockVerdict(t, n, spacing);
    AcceptedSnoc(t, n, spacing);
    MinSnoc(latMin, LAT_MIN_START, AcceptedLats(t, n, spacing), v.lat);
    MaxSnoc(latMax, LAT_MAX_START, AcceptedLats(t, n, spacing), v.lat);
    MinSnoc(lonMin, LON_MIN_START, AcceptedLons(t, n, spacing), v.lon);
    MaxSnoc(lonMax, LON_MAX_START, AcceptedLons(t, n, spacing), v.lon);
  }

  /** m is the least of `start` and the values in xs. */
  predicate IsMinOf(m: int, start: int, xs: seq<int>)
  {
    m <= start && (forall i | 0 <= i < |xs| :: m <= xs[i]) && (m == start || m in xs)
  }

  /** m is the greatest of `start` and the values in xs. */
  predicate IsMaxOf(m: int, start: int, xs: seq<int>)
  {
    m >= start && (forall i | 0 <= i < |xs| :: m >= xs[i]) && (m == start || m in xs)
  }

  lemma MinSnoc(m: int, start: int, xs: seq<int>, x: int)
    requires IsMinOf(m, start, xs)
    ensures IsMinOf(Min(m, x), start, xs + [x])
  {
    assert forall i | 0 <= i < |xs| :: (xs + [x])[i] == xs[i];
    assert (xs + [x])[|xs|] == x;
  }

  lemma MaxSnoc(m: int, start: int, xs: seq<int>, x: int)
    requires IsMaxOf(m, start, xs)
    ensures IsMaxOf(Max(m, x), start, xs + [x])
  {
    assert forall i | 0 <= i < |xs| :: (xs + [x])[i] == xs[i];
    assert (xs + [x])[|xs|] == x;
  }

  /** The least of `start` and the values in xs. */
  function LeastOf(start: int, xs: seq<int>): (m: int)
    ensures IsMinOf(m, start, xs)
  {
    if |xs| == 0 then start
    else
      var init := xs[..|xs| - 1];
      assert xs == init + [xs[|xs| - 1]];
      MinSnoc(LeastOf(start, init), start, init, xs[|xs| - 1]);
      Min(LeastOf(start, init), xs[|xs| - 1])
  }

  /** The greatest of `start` and the values in xs. */
  function GreatestOf(start: int, xs: seq<int>): (m: int)
    ensures IsMaxOf(m, start, xs)
  {
    if |xs| == 0 then start
    else
      var init := xs[..|xs| - 1];
      assert xs == init + [xs[|xs| - 1]];
      MaxSnoc(GreatestOf(start, init), start, init, xs[|xs| - 1]);
      Max(GreatestOf(start, init), xs[|xs| - 1])
  }

  /** The extremes are determined by what they are the extremes of. */
  lemma ExtremesUnique(m1: int, m2: int, M1: int, M2: int, start: int, top: int, xs: seq<int>)
    requires IsMinOf(m1, start, xs) && IsMinOf(m2, start, xs)
    requires IsMaxOf(M1, top, xs) && IsMaxOf(M2, top, xs)
    ensures m1 == m2 && M1 == M2
  {
  }

  /**
   * The span test after the scan, in 1e-7 degree: the corners seen must
   * span 0.99 to 1.01 degree of latitude and 1.00 to 1.08 degree of
   * longitude, or up to 1.4 degree of longitude beyond latitude 60.
   */
  predicate RangeOk(latInt: int, latMin: int, latMax: int, lonMin: int, lonMax: int)
  {
    var latRange, lonRange := Abs(latMax - latMin), Abs(lonMax - lonMin);
    var lonHigh := if Abs(latInt) > 60 then 14_000_000 else 10_800_000;
    9_900_000 <= latRange <= 10_100_000 && 10_000_000 <= lonRange <= lonHigh
  }

  /** The span test over the corners of the first n blocks, all of which passed. */
  predicate SpanOk(t: Tile, n: nat, spacing: int)
    requires forall b: nat | b < n :: BlockVerdict(t, b, spacing).Accepted?
  {
    var lats, lons := AcceptedLats(t, n, spacing), AcceptedLons(t, n, spacing);
    RangeOk(t.latInt, LeastOf(LAT_MIN_START, lats), GreatestOf(LAT_MAX_START, lats),
            LeastOf(LON_MIN_START, lons), GreatestOf(LON_MAX_START, lons))
  }

  /** The span test on the scan's running extremes is the span test on the corners. */
  lemma SpanFromExtremes(t: Tile, n: nat, spacing: int, latMin: int, latMax: int, lonMin: int, lonMax: int)
    requires forall b: nat | b < n :: BlockVerdict(t, b, spacing).Accepted?
    requires IsMinOf(latMin, LAT_MIN_START, AcceptedLats(t, n, spacing))
    requires IsMaxOf(latMax, LAT_MAX_START, AcceptedLats(t, n, spacing))
    requires IsMinOf(lonMin, LON_MIN_START, AcceptedLons(t, n, spacing))
    requires IsMaxOf(lonMax, LON_MAX_START, AcceptedLons(t, n, spacing))
    ensures SpanOk(t, n, spacing) == RangeOk(t.latInt, latMin, latMax, lonMin, lonMax)
  {
    var lats, lons := AcceptedLats(t, n, spacing), AcceptedLons(t, n, spacing);
    ExtremesUnique(latMin, LeastOf(LAT_MIN_START, lats), latMax, GreatestOf(LAT_MAX_START, lats),
                   LAT_MIN_START, LAT_MAX_START, lats);
    ExtremesUnique(lonMin, LeastOf(LON_MIN_START, lons), lonMax, GreatestOf(LON_MAX_START, lons),
                   LON_MIN_START, LON_MAX_START, lons);
  }

  /**
   * With no block passed the extremes keep their starting values, 180
   * degrees of latitude apart, so a file whose first block fails also
   * fails the span test.
   */
  lemma FirstBlockBadSpanFails(t: Tile, spacing: int)
    ensures !SpanOk(t, 0, spacing)
  {
    var lats := AcceptedLats(t, 0, spacing);
    assert LeastOf(LAT_MIN_START, lats) == LAT_MIN_START;
    assert GreatestOf(LAT_MAX_START, lats) == LAT_MAX_START;
  }

  /**
   * The `for blocknum in range(total_blocks)` loop: checks blocks in order,
   * stops at the first that fails (`crashed` when it raised), and keeps the
   * extreme corners of the blocks that passed.
   */
  method ScanBlocks(t: Tile, total: nat, spacing: int)
    returns (scanned: nat, crashed: bool, latMin: int, latMax: int, lonMin: int, lonMax: int)
    ensures StopsAt(t, total, spacing, scanned)
    ensures crashed <==> scanned < total && BlockVerdict(t, scanned, spacing) == NameError
    ensures IsMinOf(latMin, LAT_MIN_START, AcceptedLats(t, scanned, spacing))
    ensures IsMaxOf(latMax, LAT_MAX_START, AcceptedLats(t, scanned, spacing))
    ensures IsMinOf(lonMin, LON_MIN_START, AcceptedLons(t, scanned, spacing))
    ensures IsMaxOf(lonMax, LON_MAX_START, AcceptedLons(t, scanned, spacing))
  {
    latMin, latMax, lonMin, lonMax := LAT_MIN_START, LAT_MAX_START, LON_MIN_START, LON_MAX_START;
    scanned, crashed := 0, false;
    while scanned < total
      invariant scanned <= total
      invariant ScanProgress(t, scanned, spacing, latMin, latMax, lonMin, lonMax)
    {
      var ret := BlockVerdict(t, scanned, spacing);
      if !ret.Accepted? {
        crashed := ret == NameError;
        return;
      }
      ExtremesStep(t, scanned, spacing, latMin, latMax, lonMin, lonMax);
      latMin, latMax := Min(latMin, ret.lat), Max(latMax, ret.lat);
      lonMin, lonMax := Min(lonMin, ret.lon), Max(lonMax, ret.lon);
      scanned := scanned + 1;
    }
  }

  /** `total_blocks`: the derived count, or 0 after a bad file size. */
  function TotalBlocks(len: nat): nat
  {
    if BlockCount(len).Some? then BlockCount(len).value else 0
  }

  /**
   * The body of the main loop for one directory entry. `contents` is what
   * reading (and un-gzipping) the file gave, None where that raised;
   * `errors0` is `total_errors` before the file. `crashed` means the
   * `NameError` escaped and the script stopped.
   */
  method CheckFile(name: string, contents: Option<seq<uint8>>, spacing: int, errors0: nat)
    returns (errors: nat, crashed: bool, scanned: nat)
    ensures !IsTileFile(name) ==> errors == errors0 && !crashed
    ensures IsTileFile(name) && (ParseTileName(name).None? || contents.None?) ==> errors == errors0 + 1 && !crashed
    ensures IsTileFile(name) && ParseTileName(name).Some? && contents == Some([]) ==> errors == errors0 && !crashed
    ensures IsTileFile(name) && ParseTileName(name).Some? && contents.Some? && contents.value != [] ==>
      var t := Tile(contents.value, ParseTileName(name).value.0, ParseTileName(name).value.1);
      var total := TotalBlocks(|t.bytes|);
      && (total != 0 ==> StopsAt(t, total, spacing, scanned))
      && (crashed <==> total != 0 && scanned < total && BlockVerdict(t, scanned, spacing) == NameError)
      && (!crashed ==>
            errors == errors0
              + (if BlockCount(|t.bytes|).None? then 1 else 0)
              + (if CountInBounds(total, t.latInt, spacing) then 0 else 1)
              + (if total != 0 && scanned < total then 1 else 0)
              + (if total != 0 && !SpanOk(t, scanned, spacing) then 1 else 0))
  {
    errors, crashed, scanned := errors0, false, 0;
    if !IsTileFile(name) {
      return;
    }
    var parsed := ParseTileName(name);
    if parsed.None? || contents.None? {
      errors := errors + 1;
      return;
    }
    var tile := contents.value;
    if |tile| == 0 {
      return;
    }
    var total := 0;
    var count := BlockCount(|tile|);
    if count.Some? {
      total := count.value;
    } else {
      errors := errors + 1;
    }
    var latInt, lonInt := parsed.value.0, parsed.value.1;
    if total > MaxBlocks(spacing) || total < MinBlocks(latInt, spacing) {
      errors := errors + 1;
    }
    if total != 0 {
      var latMin, latMax, lonMin, lonMax;
      scanned, crashed, latMin, latMax, lonMin, lonMax := ScanBlocks(Tile(tile, latInt, lonInt), total, spacing);
      if crashed {
        return;
      }
      if scanned < total {
        errors := errors + 1;
      }
      SpanFromExtremes(Tile(tile, latInt, lonInt), scanned, spacing, latMin, latMax, lonMin, lonMax);
      if !RangeOk(latInt, latMin, latMax, lonMin, lonMax) {
        errors := errors + 1;
      }
    }
  }

  /**
   * When every counted block passes the scanner, the block scan runs to the
   * end, so the block check adds no error; the span check is separate.
   */
  lemma GoodFileNoErrors(t: Tile, spacing: int, scanned: nat)
    requires BlockCount(|t.bytes|).Some?
    requires CountInBounds(BlockCount(|t.bytes|).value, t.latInt, spacing)
    requires forall b: nat | b < BlockCount(|t.bytes|).value :: BlockVerdict(t, b, spacing).Accepted?
    requires StopsAt(t, BlockCount(|t.bytes|).value, spacing, scanned)
    ensures scanned == TotalBlocks(|t.bytes|)
  {
    StopsAtUnique(t, BlockCount(|t.bytes|).value, spacing, scanned, BlockCount(|t.bytes|).value);
  }
}
