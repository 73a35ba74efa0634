/**
 * The stateful half of the generator: a grid block being filled, the degree
 * file it is written to, and `create_degree`, which walks the slots of one
 * degree file and fills every block that is not already valid.
 *
 * The folder the files live in is a map from path to contents; a file
 * object is the path it was opened on plus an open flag.
 */
module TerrainGen {
  import opened Bytes
  import opened Wrappers
  import opened GridCodec
  import opened Geo
  import opened Naming

  /** A 28 x 32 patch of heights with its position in a degree file. */
  class GridBlock {
    var crc: int
    var height: seq<seq<int>>
    const version: int
    const spacing: int
    const bitmap: int
    const latDegrees: int
    const lonDegrees: int
    const gridIdxX: int
    const gridIdxY: int
    /** South-west corner, 1e-7 degree. */
    const lat: int
    const lon: int
    /** Blocks per row of the degree file, `east_blocks` of its corner. */
    const stride: int

    ghost predicate Valid()
      reads this
    {
      WellShaped(height)
    }

    /**
     * The block holding position (latE7, lonE7) of degree file
     * (latInt, lonInt): all heights 0, the full bitmap, crc 0.
     */
    constructor(latInt: int, lonInt: int, latE7: int, lonE7: int, spacing: int, version: int, proj: Projection)
      requires spacing > 0
      ensures Valid()
      ensures forall x, y | 0 <= x < TERRAIN_GRID_BLOCK_SIZE_X && 0 <= y < TERRAIN_GRID_BLOCK_SIZE_Y :: height[x][y] == 0
      ensures crc == 0 && bitmap == FULL_BITMAP
      ensures this.version == version && this.spacing == spacing
      ensures latDegrees == latInt && lonDegrees == lonInt
      ensures Cell(gridIdxX, gridIdxY, lat, lon) == GridCell(latInt, lonInt, latE7, lonE7, spacing, proj)
      ensures stride == Stride(latInt, lonInt, proj)
    {
      var cell := GridCell(latInt, lonInt, latE7, lonE7, spacing, proj);
      crc := 0;
      this.version := version;
      this.spacing := spacing;
      var rows: seq<seq<int>> := [];
      var x := 0;
      while x < TERRAIN_GRID_BLOCK_SIZE_X
        invariant 0 <= x <= TERRAIN_GRID_BLOCK_SIZE_X && |rows| == x
        invariant forall i | 0 <= i < x :: |rows[i]| == TERRAIN_GRID_BLOCK_SIZE_Y
        invariant forall i, y | 0 <= i < x && 0 <= y < TERRAIN_GRID_BLOCK_SIZE_Y :: rows[i][y] == 0
      {
        rows := rows + [seq(TERRAIN_GRID_BLOCK_SIZE_Y, _ => 0)];
        x := x + 1;
      }
      height := rows;
      bitmap := FULL_BITMAP;
      latDegrees := latInt;
      lonDegrees := lonInt;
      gridIdxX := cell.gridIdxX;
      gridIdxY := cell.gridIdxY;
      lat := cell.lat;
      lon := cell.lon;
      stride := Stride(latInt, lonInt, proj);
    }

    /** `fill`: sets one sample and nothing else. */
    method Fill(gx: int, gy: int, altitude: int)
      requires Valid()
      requires 0 <= gx < TERRAIN_GRID_BLOCK_SIZE_X && 0 <= gy < TERRAIN_GRID_BLOCK_SIZE_Y
      modifies this`height
      ensures Valid()
      ensures height == old(height)[gx := old(height)[gx][gy := altitude]]
    {
      height := height[gx := height[gx][gy := altitude]];
    }

    /** `blocknum`: the slot this block belongs in. */
    function BlockNum(): int
    {
      BlockNumber(stride, gridIdxX, gridIdxY)
    }

    /** The fields `DataFile.pack` reads. */
    function Value(): Block
      reads this
    {
      Block(bitmap, lat, lon, crc, version, spacing, height, gridIdxX, gridIdxY, lonDegrees, latDegrees)
    }
  }

  /** An open degree file: the permanent name if it existed, else the temporary one. */
  class DataFile {
    const name: string
    const tmpname: string
    /** The path the file object was opened on. */
    const handle: string
    /** The folder: path to contents. */
    var disk: map<string, seq<uint8>>
    var isOpen: bool

    ghost predicate Valid()
      reads this
    {
      && name != tmpname
      && (handle == name || handle == tmpname)
      && (isOpen ==> handle in disk)
    }

    /**
     * Opens the degree file (lat, lon) in `folder`: the existing permanent
     * file for update, otherwise a new empty temporary file.
     */
    constructor(lat: int, lon: int, folder: string, existing: map<string, seq<uint8>>)
      ensures Valid() && isOpen
      ensures name == DataFilePath(folder, lat, lon) && tmpname == TempPath(folder, lat, lon)
      ensures name in existing ==> handle == name && disk == existing
      ensures name !in existing ==> handle == tmpname && disk == existing[tmpname := []]
    {
      TempPathDistinct(folder, lat, lon);
      name := DataFilePath(folder, lat, lon);
      tmpname := TempPath(folder, lat, lon);
      if DataFilePath(folder, lat, lon) !in existing {
        handle := TempPath(folder, lat, lon);
        disk := existing[TempPath(folder, lat, lon) := []];
      } else {
        handle := DataFilePath(folder, lat, lon);
        disk := existing;
      }
      isOpen := true;
    }

    /** `seek_offset`: the byte offset of a block's slot. */
    function SlotOffset(block: GridBlock): int
    {
      block.BlockNum() * IO_BLOCK_SIZE
    }

    /**
     * `check_filled`: the block's slot already holds a valid block for this
     * spacing and version. A slot that runs past the end of the file never
     * does.
     */
    function CheckFilled(block: GridBlock, gridSpacing: int, version: int): (filled: bool)
      reads this
      requires Valid() && isOpen && block.BlockNum() >= 0
      ensures filled ==> SlotOffset(block) + IO_BLOCK_SIZE <= |disk[handle]|
    {
      SlotFilled(ReadAt(disk[handle], SlotOffset(block) as nat, IO_BLOCK_SIZE),
                 block.lat, block.lon, gridSpacing, version)
    }

    /**
     * `write`: seals the block with its CRC and stores it in its slot.
     * Where a field is out of range `struct.pack` raises (result false),
     * leaving the crc 0 and the file as it was.
     */
    method Write(block: GridBlock) returns (packed: bool)
      requires Valid() && isOpen && block.Valid() && block.BlockNum() >= 0
      modifies this`disk, block`crc
      ensures Valid() && isOpen
      ensures packed <==> Packable(old(block.Value()).(crc := 0))
      ensures packed ==> block.crc == SealedCrc(old(block.Value()))
      ensures packed ==> disk == old(disk)[handle := WriteAt(old(disk[handle]), SlotOffset(block) as nat, Pack(block.Value()).value)]
      ensures packed && block.bitmap == FULL_BITMAP ==> CheckFilled(block, block.spacing, block.version)
      ensures !packed ==> block.crc == 0 && disk == old(disk)
    {
      block.crc := 0;
      var first := Pack(block.Value());
      if first.None? {
        return false;
      }
      block.crc := Crc16.OfPrefix(first.value, IO_BLOCK_DATA_SIZE);
      var b := block.Value();
      var buf := Pack(b).value;
      disk := disk[handle := WriteAt(disk[handle], SlotOffset(block) as nat, buf)];
      if block.bitmap == FULL_BITMAP {
        WrittenSlotFilled(old(disk[handle]), block.BlockNum(), b);
      }
      return true;
    }

    /** `remove`: closes the file and deletes both the permanent and the temporary file. */
    method Remove()
      requires Valid()
      modifies this
      ensures Valid() && !isOpen
      ensures disk == old(disk) - {name, tmpname}
    {
      isOpen := false;
      disk := disk - {name, tmpname};
    }

    /**
     * `finalise`: closes the file and renames the temporary file over the
     * permanent one; with no temporary file the rename fails (result
     * false) and nothing changes.
     */
    method Finalise() returns (renamed: bool)
      requires Valid() && isOpen
      modifies this
      ensures Valid() && !isOpen
      ensures renamed <==> tmpname in old(disk)
      ensures renamed ==> disk == (old(disk) - {tmpname})[name := old(disk)[tmpname]]
      ensures !renamed ==> disk == old(disk)
    {
      isOpen := false;
      if tmpname in disk {
        disk := (disk - {tmpname})[name := disk[tmpname]];
        return true;
      }
      return false;
    }
  }

  /**
   * Writing a sealed, fully filled block into slot k and reading the slot
   * back passes `check_filled` for that block.
   */
  lemma WrittenSlotFilled(d: seq<uint8>, k: nat, b: Block)
    requires Packable(b) && b.crc == SealedCrc(b) && b.bitmap == FULL_BITMAP
    ensures SlotFilled(ReadAt(WriteAt(d, k * IO_BLOCK_SIZE, Pack(b).value), k * IO_BLOCK_SIZE, IO_BLOCK_SIZE),
                       b.lat, b.lon, b.spacing, b.version)
  {
    ReadAfterWrite(d, k * IO_BLOCK_SIZE, Pack(b).value);
    SealedBlockFilled(b);
  }

  // ---------------------------------------------------------------------
  // create_degree
  // ---------------------------------------------------------------------

  /** What `downloader.getTile` hands back: 0 (not available), an ocean tile, or a land tile. */
  datatype Fetch = Missing | Ocean | Land

  /**
   * The elevation source: whether it is offline, the tile covering each
   * integer degree, and the altitude `getAltitudeFromLatLon` reports at a
   * position (1e-7 degree).
   */
  datatype Downloader = Downloader(offline: bool, getTile: (int, int) -> Fetch, altitude: (int, int) -> int)

  /** One call's parameters: the degree, the output folder, the spacing, the version and its projection. */
  datatype Job = Job(lat: int, lon: int, folder: string, spacing: int, version: int, proj: Projection)

  datatype Error = ZeroDivision | StructError | FileNotFound

  /** True, False (the degree was skipped), or the exception that escaped. */
  datatype Outcome = Created | Skipped | Raised(error: Error)

  /** The corner `pos_from_file_offset` gives for slot k. */
  function SlotPos(job: Job, k: nat): Option<(int, int)>
  {
    PosFromFileOffset(job.lat, job.lon, k * IO_BLOCK_SIZE, job.spacing, job.proj)
  }

  /** Slot k lies south of the next degree, so the loop does not stop there. */
  predicate InDegree(job: Job, k: nat)
  {
    SlotPos(job, k).Some? && SlotPos(job, k).value.0 < (job.lat + 1) * E7
  }

  /** The grid block built from slot k's corner. */
  function SlotCell(job: Job, k: nat): Cell
    requires job.spacing > 0 && SlotPos(job, k).Some?
  {
    var p := SlotPos(job, k).value;
    GridCell(job.lat, job.lon, p.0, p.1, job.spacing, job.proj)
  }

  /** Slot k's block maps back to slot k; other slots are skipped. */
  predicate Canonical(job: Job, k: nat)
    requires job.spacing > 0
  {
    SlotPos(job, k).Some? &&
    var c := SlotCell(job, k);
    BlockNumber(Stride(job.lat, job.lon, job.proj), c.gridIdxX, c.gridIdxY) == k
  }

  /** `check_filled` of slot k's block against `content`. */
  predicate SlotValid(job: Job, content: seq<uint8>, k: nat)
    requires job.spacing > 0 && SlotPos(job, k).Some?
  {
    var c := SlotCell(job, k);
    SlotFilled(ReadAt(content, k * IO_BLOCK_SIZE, IO_BLOCK_SIZE), c.lat, c.lon, job.spacing, job.version)
  }

  /** Slot k is one the generator fills, given the file's contents before the run. */
  predicate NeedsWrite(job: Job, init: seq<uint8>, k: nat)
    requires job.spacing > 0
  {
    Canonical(job, k) && !SlotValid(job, init, k)
  }

  /** The loop visited slots 0 .. stop - 1 and stopped at the first one north of the degree. */
  predicate Complete(job: Job, stop: nat)
  {
    (forall j: nat | j < stop :: InDegree(job, j)) && SlotPos(job, stop).Some? && !InDegree(job, stop)
  }

  /**
   * `final` is `init` after the loop has processed slots 0 .. stop - 1:
   * exactly the canonical slots that were not already valid were written,
   * each now holds a valid block, every other byte of `init` is unchanged,
   * and the file grew only through written slots, with zeros in any gap.
   */
  ghost predicate Assembled(job: Job, init: seq<uint8>, final: seq<uint8>, stop: nat, written: set<nat>)
    requires job.spacing > 0
  {
    WrittenValid(job, init, final, stop, written) && NoneMissed(job, init, stop, written)
    && OnlySlotsChanged(init, final, written)
  }

  /** Every written slot lies before `stop`, needed writing, and now holds a valid block. */
  ghost predicate WrittenValid(job: Job, init: seq<uint8>, final: seq<uint8>, stop: nat, written: set<nat>)
    requires job.spacing > 0
  {
    forall k: nat {:trigger WroteSlot(written, k)} | WroteSlot(written, k) ::
      k < stop && NeedsWrite(job, init, k) && SlotValid(job, final, k)
  }

  /** Every slot before `stop` that needed writing was written. */
  ghost predicate NoneMissed(job: Job, init: seq<uint8>, stop: nat, written: set<nat>)
    requires job.spacing > 0
  {
    forall k: nat {:trigger WroteSlot(written, k)} | k < stop && NeedsWrite(job, init, k) :: WroteSlot(written, k)
  }

  /**
   * Slot k is among those written. The facts `Assembled` states about a
   * slot are looked up through this predicate only, so that the long
   * proofs about the loop do not unfold the slot check for every slot.
   */
  predicate WroteSlot(written: set<nat>, k: nat)
  {
    k in written
  }

  /**
   * Bytes outside the slots in `written` keep their value, or are zero
   * where the file grew; the file grew only up to the end of a slot in
   * `written`.
   */
  ghost predicate OnlySlotsChanged(init: seq<uint8>, final: seq<uint8>, written: set<nat>)
  {
    && |init| <= |final|
    && (forall i | 0 <= i < |init| && i / IO_BLOCK_SIZE !in written :: final[i] == init[i])
    && (forall i | |init| <= i < |final| && i / IO_BLOCK_SIZE !in written :: final[i] == 0)
    && (|init| < |final| ==> |final| % IO_BLOCK_SIZE == 0 && |final| / IO_BLOCK_SIZE - 1 in written)
  }

  /**
   * What the run wrote into a slot: the sealed block, and what its heights
   * were stored from: the degrees cached and the tile held before the
   * block's first sample, and the tile held as each sample was stored.
   */
  datatype FilledBlock = FilledBlock(block: Block, cached: set<(int, int)>, tileBefore: Option<Fetch>, last: map<(int, int), Fetch>)

  /**
   * `f` is the block `create_degree` builds for slot k: the grid indices
   * and corner of slot k's cell, the job's degree, spacing and version, the
   * full bitmap, the CRC `write` seals it with, and heights stored from the
   * elevation source.
   */
  ghost predicate SourcedBlock(downloader: Downloader, job: Job, k: nat, f: FilledBlock)
    requires job.spacing > 0
  {
    && SlotPos(job, k).Some?
    && var c, b := SlotCell(job, k), f.block;
    && b.bitmap == FULL_BITMAP && b.lat == c.lat && b.lon == c.lon && b.gridIdxX == c.gridIdxX && b.gridIdxY == c.gridIdxY
    && b.version == job.version && b.spacing == job.spacing && b.latDegrees == job.lat && b.lonDegrees == job.lon
    && Packable(b.(crc := 0)) && b.crc == SealedCrc(b)
    && HeightsFromSource(downloader, job, SlotPos(job, k).value, f.cached, f.tileBefore, b.height, f.last)
  }

  /** Every written slot holds exactly the packing of the block recorded for it, a block built from the source. */
  ghost predicate WrittenFromSource(downloader: Downloader, job: Job, content: seq<uint8>, written: set<nat>,
                                    record: map<nat, FilledBlock>)
    requires job.spacing > 0
  {
    forall k: nat {:trigger WroteSlot(written, k)} | WroteSlot(written, k) ::
      && k in record && Pack(record[k].block) == Some(ReadAt(content, k * IO_BLOCK_SIZE, IO_BLOCK_SIZE))
      && SourcedBlock(downloader, job, k, record[k])
  }

  /**
   * The degrees in the cache when the loop reaches slot k: those of every
   * sample of the written slots before k. Only a slot that is written has
   * its samples fetched, and the cache lives for the whole degree.
   */
  ghost function CacheBefore(job: Job, written: set<nat>, k: nat): set<(int, int)>
  {
    if k == 0 then {}
    else CacheBefore(job, written, k - 1) + (if k - 1 in written then SlotTiles(job, k - 1) else {})
  }

  /** The degrees the samples of slot k lie in. */
  ghost function SlotTiles(job: Job, k: nat): set<(int, int)>
  {
    if SlotPos(job, k).Some? then BlockTiles(job, SlotPos(job, k).value) else {}
  }

  /** `tile` when the loop reaches slot k: what the last written slot before k left; unset before the first. */
  ghost function TileBeforeSlot(written: set<nat>, record: map<nat, FilledBlock>, k: nat): Option<Fetch>
  {
    if k == 0 then None
    else if k - 1 in written && k - 1 in record then TileAfter(record[k - 1].last)
    else TileBeforeSlot(written, record, k - 1)
  }

  /**
   * Every written slot's block was filled starting from the cache and the
   * `tile` that the slots before it left, so that the heights of the whole
   * file follow from the source and the slots that needed writing.
   */
  ghost predicate RecordChained(job: Job, written: set<nat>, record: map<nat, FilledBlock>)
  {
    forall k: nat {:trigger ChainedSlot(written, k)} | ChainedSlot(written, k) ::
      && k in record && record[k].cached == CacheBefore(job, written, k)
      && record[k].tileBefore == TileBeforeSlot(written, record, k)
  }

  /**
   * Slot k is among those written, as `RecordChained` looks it up: a
   * marker of its own keeps the loop proofs from unfolding the history of
   * every slot that `WroteSlot` mentions.
   */
  predicate ChainedSlot(written: set<nat>, k: nat)
  {
    k in written
  }

  /**
   * The cache and `tile` as the loop reaches slot k, and the record of the
   * slots written so far, agree with the history of the run.
   */
  ghost predicate CacheHistory(job: Job, tiles: map<(int, int), Fetch>, tile: Option<Fetch>, written: set<nat>,
                               record: map<nat, FilledBlock>, k: nat)
  {
    && tiles.Keys == CacheBefore(job, written, k) && tile == TileBeforeSlot(written, record, k)
    && RecordChained(job, written, record)
  }

  /** The cache at slot n depends only on which slots before n were written. */
  lemma {:induction false} CacheBeforeAgree(job: Job, w: set<nat>, w': set<nat>, n: nat)
    requires forall j: nat | j < n :: j in w <==> j in w'
    ensures CacheBefore(job, w, n) == CacheBefore(job, w', n)
  {
    if n > 0 {
      CacheBeforeAgree(job, w, w', n - 1);
    }
  }

  /** `tile` at slot n depends only on the slots written before n and their records. */
  lemma {:induction false} TileBeforeSlotAgree(w: set<nat>, r: map<nat, FilledBlock>, w': set<nat>, r': map<nat, FilledBlock>, n: nat)
    requires forall j: nat | j < n :: j in w <==> j in w'
    requires forall j: nat | j < n && j in w :: (j in r <==> j in r') && (j in r ==> r[j] == r'[j])
    ensures TileBeforeSlot(w, r, n) == TileBeforeSlot(w', r', n)
  {
    if n > 0 {
      TileBeforeSlotAgree(w, r, w', r', n - 1);
    }
  }

  /**
   * Recording slot k, written after every earlier written slot and filled
   * from the cache and `tile` they left, keeps the record chained; the
   * cache then gains the block's degrees and `tile` is what its last
   * sample left.
   */
  lemma ChainStep(job: Job, written: set<nat>, record: map<nat, FilledBlock>, k: nat, f: FilledBlock)
    requires RecordChained(job, written, record)
    requires forall j | j in written :: j < k
    requires f.cached == CacheBefore(job, written, k) && f.tileBefore == TileBeforeSlot(written, record, k)
    requires SlotPos(job, k).Some?
    ensures RecordChained(job, written + {k}, record[k := f])
    ensures CacheBefore(job, written + {k}, k + 1) == CacheBefore(job, written, k) + BlockTiles(job, SlotPos(job, k).value)
    ensures TileBeforeSlot(written + {k}, record[k := f], k + 1) == TileAfter(f.last)
  {
    var w', r' := written + {k}, record[k := f];
    forall j: nat | ChainedSlot(w', j)
      ensures j in r' && r'[j].cached == CacheBefore(job, w', j) && r'[j].tileBefore == TileBeforeSlot(w', r', j)
    {
      if j == k {
        CacheBeforeAgree(job, written, w', k);
        TileBeforeSlotAgree(written, record, w', r', k);
      } else {
        assert ChainedSlot(written, j);
        CacheBeforeAgree(job, written, w', j);
        TileBeforeSlotAgree(written, record, w', r', j);
      }
    }
    CacheBeforeAgree(job, written, w', k);
  }

  /**
   * The first slot the run writes starts from an empty cache and an unset
   * `tile`, so its first sample fetches its own tile.
   */
  lemma FirstWrittenStartsEmpty(job: Job, written: set<nat>, record: map<nat, FilledBlock>, k: nat)
    requires RecordChained(job, written, record)
    requires k in written && forall j | j in written :: j >= k
    ensures k in record && record[k].cached == {} && record[k].tileBefore == None
  {
    assert ChainedSlot(written, k);
    NothingWrittenBefore(job, written, record, k);
  }

  /** Before any slot is written the cache is empty and `tile` unset. */
  lemma {:induction false} NothingWrittenBefore(job: Job, written: set<nat>, record: map<nat, FilledBlock>, n: nat)
    requires forall j | j in written :: j >= n
    ensures CacheBefore(job, written, n) == {} && TileBeforeSlot(written, record, n) == None
  {
    if n > 0 {
      NothingWrittenBefore(job, written, record, n - 1);
    }
  }

  /** Slot k, when it is skipped, leaves the cache, `tile` and the record as they were. */
  lemma HistorySkip(job: Job, init: seq<uint8>, c: seq<uint8>, tiles: map<(int, int), Fetch>, tile: Option<Fetch>,
                    written: set<nat>, record: map<nat, FilledBlock>, k: nat)
    requires job.spacing > 0
    requires WrittenValid(job, init, c, k, written)
    requires CacheHistory(job, tiles, tile, written, record, k)
    ensures CacheHistory(job, tiles, tile, written, record, k + 1)
  {
    WrittenBelow(job, init, c, k, written);
  }

  /** Some sample of slot k lies in a degree whose tile is missing or all ocean. */
  ghost predicate MeetsNonLand(downloader: Downloader, job: Job, k: nat)
  {
    && SlotPos(job, k).Some?
    && exists x, y {:trigger Sample(x, y)} | Sample(x, y) :: TileOf(downloader, SamplePos(job, SlotPos(job, k).value, x, y)) != Land
  }

  /** The file the generator opens: the permanent one if present, else a new empty temporary one. */
  function Opened(job: Job, disk0: map<string, seq<uint8>>): map<string, seq<uint8>>
  {
    var name := DataFilePath(job.folder, job.lat, job.lon);
    if name in disk0 then disk0 else disk0[TempPath(job.folder, job.lat, job.lon) := []]
  }

  function HandleOf(job: Job, disk0: map<string, seq<uint8>>): string
  {
    var name := DataFilePath(job.folder, job.lat, job.lon);
    if name in disk0 then name else TempPath(job.folder, job.lat, job.lon)
  }

  /** The contents the loop starts from. */
  function Initial(job: Job, disk0: map<string, seq<uint8>>): seq<uint8>
  {
    var name := DataFilePath(job.folder, job.lat, job.lon);
    if name in disk0 then disk0[name] else []
  }

  /**
   * `create_degree`. `north` is any slot at or past the northern edge of the
   * degree (or any slot at all when the stride is 0); it only bounds the
   * loop. An online downloader is taken to deliver every tile eventually.
   */
  method CreateDegree(downloader: Downloader, job: Job, disk0: map<string, seq<uint8>>, ghost north: nat)
    returns (outcome: Outcome, disk: map<string, seq<uint8>>, ghost content: seq<uint8>, ghost stop: nat, ghost written: set<nat>,
             ghost record: map<nat, FilledBlock>)
    requires job.spacing > 0
    requires !InDegree(job, north)
    requires !downloader.offline ==> forall la, lo :: downloader.getTile(la, lo) != Missing
    ensures Assembled(job, Initial(job, disk0), content, stop, written)
    ensures WrittenFromSource(downloader, job, content, written, record)
    ensures RecordChained(job, written, record)
    ensures outcome == Skipped ==> NeedsWrite(job, Initial(job, disk0), stop) && MeetsNonLand(downloader, job, stop)
    ensures var name, tmp := DataFilePath(job.folder, job.lat, job.lon), TempPath(job.folder, job.lat, job.lon);
      && (outcome == Skipped ==> downloader.offline && disk == disk0 - {name, tmp})
      && (outcome == Raised(ZeroDivision) <==> Stride(job.lat, job.lon, job.proj) == 0)
      && (outcome == Created && name !in disk0 ==> disk == (disk0 - {tmp})[name := content] && Complete(job, stop))
      && (outcome == Created && name in disk0 ==> tmp in disk0 && disk == (disk0 - {tmp})[name := disk0[tmp]])
      && (outcome == Raised(FileNotFound) ==>
            name in disk0 && tmp !in disk0 && disk == disk0[name := content] && Complete(job, stop))
      && (outcome == Raised(StructError) || outcome == Raised(ZeroDivision) ==>
            disk == Opened(job, disk0)[HandleOf(job, disk0) := content])
  {
    var dfile := new DataFile(job.lat, job.lon, job.folder, disk0);
    ghost var disk1 := dfile.disk;
    var end;
    end, stop, written, record := FillSlots(dfile, downloader, job, north);
    content := dfile.disk[dfile.handle];
    match end {
      case OffTile =>
        RemoveBoth(disk0, disk1, dfile.handle, content, dfile.name, dfile.tmpname);
        dfile.Remove();
        outcome := Skipped;
      case Failed(e) =>
        outcome := Raised(e);
      case PastNorth =>
        var renamed := dfile.Finalise();
        outcome := if renamed then Created else Raised(FileNotFound);
    }
    disk := dfile.disk;
  }

  /** How the slot loop of `create_degree` ended: at the northern edge, on a tile it may not use, or by an exception. */
  datatype LoopEnd = PastNorth | OffTile | Failed(error: Error)

  /**
   * The `while True` loop of `create_degree`: visits slots 0, 1, ... until
   * one lies north of the degree, filling and writing each canonical slot
   * that does not already hold a valid block.
   */
  method FillSlots(dfile: DataFile, downloader: Downloader, job: Job, ghost north: nat)
    returns (end: LoopEnd, ghost stop: nat, ghost written: set<nat>, ghost record: map<nat, FilledBlock>)
    requires job.spacing > 0
    requires !InDegree(job, north)
    requires !downloader.offline ==> forall la, lo :: downloader.getTile(la, lo) != Missing
    requires dfile.Valid() && dfile.isOpen
    modifies dfile`disk
    ensures dfile.Valid() && dfile.isOpen
    ensures dfile.disk == old(dfile.disk)[dfile.handle := dfile.disk[dfile.handle]]
    ensures Assembled(job, old(dfile.disk[dfile.handle]), dfile.disk[dfile.handle], stop, written)
    ensures WrittenFromSource(downloader, job, dfile.disk[dfile.handle], written, record)
    ensures RecordChained(job, written, record)
    ensures end == PastNorth ==> Complete(job, stop)
    ensures end == OffTile ==>
      downloader.offline && NeedsWrite(job, old(dfile.disk[dfile.handle]), stop) && MeetsNonLand(downloader, job, stop)
    ensures end == Failed(ZeroDivision) <==> Stride(job.lat, job.lon, job.proj) == 0
    ensures end != Failed(FileNotFound)
  {
    ghost var disk1 := dfile.disk;
    ghost var init := dfile.disk[dfile.handle];
    var tiles: map<(int, int), Fetch> := map[];
    var tile: Option<Fetch> := None;
    var blocknum: nat := 0;
    written, record := {}, map[];
    EmptyAssembled(job, init);
    while true
      invariant dfile.Valid() && dfile.isOpen
      invariant dfile.disk == disk1[dfile.handle := dfile.disk[dfile.handle]]
      invariant Assembled(job, init, dfile.disk[dfile.handle], blocknum, written)
      invariant WrittenFromSource(downloader, job, dfile.disk[dfile.handle], written, record)
      invariant forall j: nat | j < blocknum :: InDegree(job, j)
      invariant blocknum <= north
      invariant CacheFaithful(downloader, tiles, tile)
      invariant CacheHistory(job, tiles, tile, written, record, blocknum)
      decreases north - blocknum
    {
      var pos := PosFromFileOffset(job.lat, job.lon, blocknum * IO_BLOCK_SIZE, job.spacing, job.proj);
      if pos.None? {
        return Failed(ZeroDivision), blocknum, written, record;
      }
      var latE7, lonE7 := pos.value.0, pos.value.1;
      if latE7 >= (job.lat + 1) * E7 {
        break;
      }
      ghost var visited := blocknum;
      assert InDegree(job, visited);
      assert forall j: nat | j < visited + 1 :: InDegree(job, j);
      ghost var snapshot := dfile.disk;
      var next;
      ghost var written', record';
      next, tiles, tile, written', record' := VisitSlot(dfile, downloader, job, blocknum, pos.value, tiles, tile, init, written, record);
      if next == OffTileAt {
        return OffTile, blocknum, written, record;
      } else if next == WriteFailed {
        return Failed(StructError), blocknum, written, record;
      }
      UpdateTwice(disk1, dfile.handle, snapshot[dfile.handle], dfile.disk[dfile.handle]);
      written, record := written', record';
      blocknum := blocknum + 1;
    }
    return PastNorth, blocknum, written, record;
  }

  /** How one pass of the loop body ended. */
  datatype SlotEnd = Next | OffTileAt | WriteFailed

  /**
   * One pass of the loop body for slot k, whose corner `corner` lies in
   * the degree: build the block, skip it when it belongs to another slot
   * or is already valid, else fill and write it.
   */
  method VisitSlot(dfile: DataFile, downloader: Downloader, job: Job, k: nat, corner: (int, int),
                   tiles0: map<(int, int), Fetch>, tile0: Option<Fetch>, ghost init: seq<uint8>, ghost written: set<nat>,
                   ghost record: map<nat, FilledBlock>)
    returns (next: SlotEnd, tiles: map<(int, int), Fetch>, tile: Option<Fetch>, ghost written': set<nat>,
             ghost record': map<nat, FilledBlock>)
    requires job.spacing > 0
    requires SlotPos(job, k) == Some(corner)
    requires !downloader.offline ==> forall la, lo :: downloader.getTile(la, lo) != Missing
    requires dfile.Valid() && dfile.isOpen
    requires Assembled(job, init, dfile.disk[dfile.handle], k, written)
    requires WrittenFromSource(downloader, job, dfile.disk[dfile.handle], written, record)
    requires CacheFaithful(downloader, tiles0, tile0)
    requires CacheHistory(job, tiles0, tile0, written, record, k)
    modifies dfile`disk
    ensures dfile.Valid() && dfile.isOpen
    ensures dfile.disk == old(dfile.disk)[dfile.handle := dfile.disk[dfile.handle]]
    ensures CacheFaithful(downloader, tiles, tile)
    ensures next == Next ==> Assembled(job, init, dfile.disk[dfile.handle], k + 1, written')
    ensures next == Next ==> WrittenFromSource(downloader, job, dfile.disk[dfile.handle], written', record')
    ensures next != Next ==> dfile.disk == old(dfile.disk)
    ensures next == OffTileAt ==> downloader.offline && NeedsWrite(job, init, k) && MeetsNonLand(downloader, job, k)
    ensures next == Next ==> CacheHistory(job, tiles, tile, written', record', k + 1)
  {
    tiles, tile, written', record' := tiles0, tile0, written, record;
    var grid: GridBlock := new GridBlock(job.lat, job.lon, corner.0, corner.1, job.spacing, job.version, job.proj);
    assert Cell(grid.gridIdxX, grid.gridIdxY, grid.lat, grid.lon) == SlotCell(job, k);
    if grid.BlockNum() != k {
      HistorySkip(job, init, dfile.disk[dfile.handle], tiles, tile, written, record, k);
      SkipSlot(job, init, dfile.disk[dfile.handle], k, written);
      return Next, tiles, tile, written, record;
    }
    UnwrittenSlotUnchanged(job, init, dfile.disk[dfile.handle], k, written);
    if dfile.CheckFilled(grid, job.spacing, job.version) {
      HistorySkip(job, init, dfile.disk[dfile.handle], tiles, tile, written, record, k);
      SkipSlot(job, init, dfile.disk[dfile.handle], k, written);
      return Next, tiles, tile, written, record;
    }
    next, tiles, tile, written', record' := FillAndWrite(dfile, grid, downloader, job, k, corner, tiles0, tile0, init, written, record);
  }

  /**
   * The rest of the loop body for slot k, which needs writing: fill the
   * block's samples from the source and write it, unless a tile aborts the
   * degree or the block cannot be packed.
   */
  method FillAndWrite(dfile: DataFile, grid: GridBlock, downloader: Downloader, job: Job, k: nat, corner: (int, int),
                      tiles0: map<(int, int), Fetch>, tile0: Option<Fetch>, ghost init: seq<uint8>, ghost written: set<nat>,
                      ghost record: map<nat, FilledBlock>)
    returns (next: SlotEnd, tiles: map<(int, int), Fetch>, tile: Option<Fetch>, ghost written': set<nat>,
             ghost record': map<nat, FilledBlock>)
    requires job.spacing > 0
    requires SlotPos(job, k) == Some(corner)
    requires !downloader.offline ==> forall la, lo :: downloader.getTile(la, lo) != Missing
    requires dfile.Valid() && dfile.isOpen && grid.Valid()
    requires grid.BlockNum() == k && Cell(grid.gridIdxX, grid.gridIdxY, grid.lat, grid.lon) == SlotCell(job, k)
    requires grid.spacing == job.spacing && grid.version == job.version && grid.bitmap == FULL_BITMAP
    requires grid.latDegrees == job.lat && grid.lonDegrees == job.lon
    requires Assembled(job, init, dfile.disk[dfile.handle], k, written)
    requires WrittenFromSource(downloader, job, dfile.disk[dfile.handle], written, record)
    requires NeedsWrite(job, init, k)
    requires CacheFaithful(downloader, tiles0, tile0)
    requires CacheHistory(job, tiles0, tile0, written, record, k)
    modifies dfile`disk, grid`height, grid`crc
    ensures dfile.Valid() && dfile.isOpen
    ensures dfile.disk == old(dfile.disk)[dfile.handle := dfile.disk[dfile.handle]]
    ensures CacheFaithful(downloader, tiles, tile)
    ensures next == Next ==> Assembled(job, init, dfile.disk[dfile.handle], k + 1, written')
    ensures next == Next ==> WrittenFromSource(downloader, job, dfile.disk[dfile.handle], written', record')
    ensures next != Next ==> dfile.disk == old(dfile.disk)
    ensures next == OffTileAt ==> downloader.offline && MeetsNonLand(downloader, job, k)
    ensures next == Next ==>
      && written' == written + {k} && k in record' && record' == record[k := record'[k]]
      && record'[k].cached == tiles0.Keys && record'[k].tileBefore == tile0
      && tiles.Keys == tiles0.Keys + BlockTiles(job, corner) && tile == TileAfter(record'[k].last)
    ensures next == Next ==> CacheHistory(job, tiles, tile, written', record', k + 1)
  {
    written', record' := written, record;
    var skip;
    ghost var last;
    skip, tiles, tile, last := FillBlock(grid, downloader, job, corner, tiles0, tile0);
    if skip {
      return OffTileAt, tiles, tile, written, record;
    }
    ghost var filled := FilledBlock(grid.Value(), tiles0.Keys, tile0, last);
    var packed := WriteSlot(dfile, grid, downloader, job, init, k, written, record, filled);
    if !packed {
      return WriteFailed, tiles, tile, written, record;
    }
    written' := written + {k};
    record' := record[k := filled.(block := grid.Value())];
    WrittenBelow(job, init, old(dfile.disk[dfile.handle]), k, written);
    ChainStep(job, written, record, k, record'[k]);
    next := Next;
  }

  /**
   * `dfile.write(grid)` for the block of slot k, which needed writing: on
   * success the assembled prefix grows by slot k.
   */
  method WriteSlot(dfile: DataFile, grid: GridBlock, ghost downloader: Downloader, ghost job: Job, ghost init: seq<uint8>,
                   ghost k: nat, ghost written: set<nat>, ghost record: map<nat, FilledBlock>, ghost filled: FilledBlock)
    returns (packed: bool)
    requires job.spacing > 0
    requires dfile.Valid() && dfile.isOpen && grid.Valid()
    requires grid.BlockNum() == k && SlotPos(job, k).Some?
    requires Cell(grid.gridIdxX, grid.gridIdxY, grid.lat, grid.lon) == SlotCell(job, k)
    requires grid.spacing == job.spacing && grid.version == job.version && grid.bitmap == FULL_BITMAP
    requires grid.latDegrees == job.lat && grid.lonDegrees == job.lon
    requires Assembled(job, init, dfile.disk[dfile.handle], k, written)
    requires WrittenFromSource(downloader, job, dfile.disk[dfile.handle], written, record)
    requires NeedsWrite(job, init, k)
    requires HeightsFromSource(downloader, job, SlotPos(job, k).value, filled.cached, filled.tileBefore, grid.height, filled.last)
    modifies dfile`disk, grid`crc
    ensures dfile.Valid() && dfile.isOpen
    ensures dfile.disk == old(dfile.disk)[dfile.handle := dfile.disk[dfile.handle]]
    ensures packed ==> Assembled(job, init, dfile.disk[dfile.handle], k + 1, written + {k})
    ensures packed ==> WrittenFromSource(downloader, job, dfile.disk[dfile.handle], written + {k},
                                         record[k := filled.(block := grid.Value())])
    ensures !packed ==> dfile.disk == old(dfile.disk)
  {
    ghost var before := dfile.disk[dfile.handle];
    ghost var unsealed := grid.Value();
    packed := dfile.Write(grid);
    if packed {
      var f := filled.(block := grid.Value());
      assert f.block == unsealed.(crc := grid.crc);
      assert SourcedBlock(downloader, job, k, f);
      SealedSlotWritten(job, init, before, k, written, grid.Value());
      WrittenBelow(job, init, before, k, written);
      RecordWrite(downloader, job, before, k, written, record, f);
    }
  }

  /** A second update of the same entry overrides the first. */
  lemma UpdateTwice(m: map<string, seq<uint8>>, h: string, c1: seq<uint8>, c2: seq<uint8>)
    ensures m[h := c1][h := c2] == m[h := c2]
  {
  }

  /** Removing both names forgets whatever the open file held. */
  lemma RemoveBoth(disk0: map<string, seq<uint8>>, disk1: map<string, seq<uint8>>, h: string, c: seq<uint8>,
                   name: string, tmp: string)
    requires disk1 == disk0 || disk1 == disk0[tmp := []]
    requires h == name || h == tmp
    ensures disk1[h := c] - {name, tmp} == disk0 - {name, tmp}
  {
  }

  /** The sample (gx, gy) of the block whose corner is `corner`: `add_offset` by gx, gy grid spacings. */
  function SamplePos(job: Job, corner: (int, int), gx: int, gy: int): (int, int)
  {
    job.proj.addOffset(corner.0, corner.1, gx * job.spacing, gy * job.spacing)
  }

  /** The integer degree (tile) a position lies in. */
  function TileIndex(p: (int, int)): (int, int)
  {
    (FloorDiv(p.0, E7), FloorDiv(p.1, E7))
  }

  /** What `getTile` returns for the degree a position lies in. */
  function TileOf(downloader: Downloader, p: (int, int)): Fetch
  {
    downloader.getTile(TileIndex(p).0, TileIndex(p).1)
  }

  /**
   * The height stored for the sample at p when `tile`, the tile fetched
   * last, is `last`: 0 after an ocean tile, else the source's altitude at p.
   */
  function StoredHeight(downloader: Downloader, p: (int, int), last: Fetch): int
  {
    if last == Ocean then 0 else downloader.altitude(p.0, p.1)
  }

  /**
   * (x, y) is a sample of the 28 x 32 grid. The facts stated for every
   * sample are looked up through this predicate only, so that the proofs
   * about the loops do not unfold them for every sample.
   */
  predicate Sample(x: int, y: int)
  {
    0 <= x < TERRAIN_GRID_BLOCK_SIZE_X && 0 <= y < TERRAIN_GRID_BLOCK_SIZE_Y
  }

  /** The degrees the samples of the block whose corner is `corner` lie in. */
  ghost function BlockTiles(job: Job, corner: (int, int)): set<(int, int)>
  {
    set x, y | 0 <= x < TERRAIN_GRID_BLOCK_SIZE_X && 0 <= y < TERRAIN_GRID_BLOCK_SIZE_Y :: TileIndex(SamplePos(job, corner, x, y))
  }

  /** What `tile` holds after a block's last sample, given `tile` as each sample was stored. */
  function TileAfter(last: map<(int, int), Fetch>): Option<Fetch>
  {
    var end := (TERRAIN_GRID_BLOCK_SIZE_X - 1, TERRAIN_GRID_BLOCK_SIZE_Y - 1);
    if end in last then Some(last[end]) else None
  }

  /** Sample (i, j) is stored before sample (x, y): the loops run row by row. */
  predicate Earlier(i: int, j: int, x: int, y: int)
  {
    i < x || (i == x && j < y)
  }

  /**
   * Sample (x, y) is the first to need its degree's tile: the degree is
   * neither among `cached`, the tiles cached before the block, nor that of
   * an earlier sample of the block.
   */
  ghost predicate FirstOfItsTile(job: Job, corner: (int, int), cached: set<(int, int)>, x: int, y: int)
  {
    && TileIndex(SamplePos(job, corner, x, y)) !in cached
    && forall i, j {:trigger Sample(i, j)} | Sample(i, j) && Earlier(i, j, x, y) ::
         TileIndex(SamplePos(job, corner, i, j)) != TileIndex(SamplePos(job, corner, x, y))
  }

  /** What `tile` holds when sample (x, y) comes up: what the previous sample left, or `tile0` at the first. */
  function TileBefore(last: map<(int, int), Fetch>, tile0: Option<Fetch>, x: int, y: int): Option<Fetch>
  {
    var prev := if y > 0 then (x, y - 1) else (x - 1, TERRAIN_GRID_BLOCK_SIZE_Y - 1);
    if x == 0 && y == 0 then tile0
    else if prev in last then Some(last[prev])
    else None
  }

  /**
   * Sample (x, y) is stored from the source: `last[(x, y)]` is what `tile`
   * held when it was stored (the tile fetched for the sample when it is
   * the first of its degree, else whatever the previous sample left), never
   * a missing tile, and the height is 0 after an ocean tile and the
   * source's altitude otherwise. Offline only land tiles are ever used.
   */
  ghost predicate SampleFromSource(downloader: Downloader, job: Job, corner: (int, int), cached: set<(int, int)>,
                                   tile0: Option<Fetch>, height: seq<seq<int>>, last: map<(int, int), Fetch>, x: int, y: int)
    requires WellShaped(height) && Sample(x, y)
  {
    && (x, y) in last
    && (if FirstOfItsTile(job, corner, cached, x, y) then last[(x, y)] == TileOf(downloader, SamplePos(job, corner, x, y))
        else Some(last[(x, y)]) == TileBefore(last, tile0, x, y))
    && last[(x, y)] != Missing
    && height[x][y] == StoredHeight(downloader, SamplePos(job, corner, x, y), last[(x, y)])
    && (downloader.offline ==> last[(x, y)] == Land && TileOf(downloader, SamplePos(job, corner, x, y)) == Land)
  }

  /**
   * The heights the sample loops store into a block whose corner is
   * `corner`, given the degrees cached before the block and `tile` as it
   * stood then: every sample is stored from the source.
   */
  ghost predicate HeightsFromSource(downloader: Downloader, job: Job, corner: (int, int), cached: set<(int, int)>,
                                    tile0: Option<Fetch>, height: seq<seq<int>>, last: map<(int, int), Fetch>)
  {
    && WellShaped(height)
    && forall x, y {:trigger Sample(x, y)} | Sample(x, y) ::
         SampleFromSource(downloader, job, corner, cached, tile0, height, last, x, y)
  }

  /**
   * The tiles cache holds what `getTile` returned; `tile` is unset only
   * before the first fetch and is never a missing tile; offline only land
   * tiles survive.
   */
  predicate CacheFaithful(downloader: Downloader, tiles: map<(int, int), Fetch>, tile: Option<Fetch>)
  {
    && (forall t | t in tiles :: tiles[t] == downloader.getTile(t.0, t.1))
    && (tile.None? ==> tiles == map[]) && tile != Some(Missing)
    && (downloader.offline ==> (forall t | t in tiles :: tiles[t] == Land) && (tile.Some? ==> tile == Some(Land)))
  }

  /** Every degree cached since the block began was fetched by a sample before (gx, gy). */
  ghost predicate FetchedEarlier(job: Job, corner: (int, int), tiles0: map<(int, int), Fetch>, tiles: map<(int, int), Fetch>,
                                 fetchedAt: map<(int, int), (int, int)>, gx: int, gy: int)
  {
    && tiles0.Keys <= tiles.Keys
    && forall t | t in tiles && t !in tiles0 ::
         && t in fetchedAt && Sample(fetchedAt[t].0, fetchedAt[t].1) && Earlier(fetchedAt[t].0, fetchedAt[t].1, gx, gy)
         && TileIndex(SamplePos(job, corner, fetchedAt[t].0, fetchedAt[t].1)) == t
  }

  /** Every sample before (gx, gy) is stored from the source and its degree is cached. */
  ghost predicate StoredBefore(downloader: Downloader, job: Job, corner: (int, int), cached: set<(int, int)>, tile0: Option<Fetch>,
                               tiles: map<(int, int), Fetch>, height: seq<seq<int>>, last: map<(int, int), Fetch>, gx: int, gy: int)
    requires WellShaped(height)
  {
    forall x, y {:trigger Sample(x, y)} | Sample(x, y) && Earlier(x, y, gx, gy) ::
      TileIndex(SamplePos(job, corner, x, y)) in tiles && SampleFromSource(downloader, job, corner, cached, tile0, height, last, x, y)
  }

  /** The state of the sample loops before sample (gx, gy). */
  ghost predicate FillProgress(downloader: Downloader, job: Job, corner: (int, int),
                               tiles0: map<(int, int), Fetch>, tile0: Option<Fetch>,
                               tiles: map<(int, int), Fetch>, tile: Option<Fetch>, height: seq<seq<int>>,
                               last: map<(int, int), Fetch>, fetchedAt: map<(int, int), (int, int)>, gx: int, gy: int)
  {
    && WellShaped(height) && CacheFaithful(downloader, tiles, tile)
    && tile == TileBefore(last, tile0, gx, gy)
    && FetchedEarlier(job, corner, tiles0, tiles, fetchedAt, gx, gy)
    && StoredBefore(downloader, job, corner, tiles0.Keys, tile0, tiles, height, last, gx, gy)
  }

  /** How one sample changes the cache and `tile`: fetched when its degree is not cached yet. */
  ghost predicate FetchStep(downloader: Downloader, job: Job, corner: (int, int),
                            tiles: map<(int, int), Fetch>, tile: Option<Fetch>, fetchedAt: map<(int, int), (int, int)>,
                            tiles': map<(int, int), Fetch>, tile': Option<Fetch>, fetchedAt': map<(int, int), (int, int)>,
                            gx: int, gy: int)
  {
    var t := TileIndex(SamplePos(job, corner, gx, gy));
    if t in tiles then tiles' == tiles && tile' == tile && fetchedAt' == fetchedAt
    else
      var fetched := downloader.getTile(t.0, t.1);
      && (downloader.offline ==> fetched == Land)
      && tiles' == tiles[t := fetched] && tile' == Some(fetched) && fetchedAt' == fetchedAt[t := (gx, gy)]
  }

  /** A sample's tile has to be fetched exactly when it is the first of its degree. */
  lemma FirstOfItsTileIff(job: Job, corner: (int, int), tiles0: map<(int, int), Fetch>, tiles: map<(int, int), Fetch>,
                          fetchedAt: map<(int, int), (int, int)>, gx: int, gy: int)
    requires FetchedEarlier(job, corner, tiles0, tiles, fetchedAt, gx, gy)
    requires forall x, y {:trigger Sample(x, y)} | Sample(x, y) && Earlier(x, y, gx, gy) :: TileIndex(SamplePos(job, corner, x, y)) in tiles
    ensures TileIndex(SamplePos(job, corner, gx, gy)) !in tiles <==> FirstOfItsTile(job, corner, tiles0.Keys, gx, gy)
  {
    var t := TileIndex(SamplePos(job, corner, gx, gy));
    if t in tiles && t !in tiles0 {
      var s := fetchedAt[t];
      assert Sample(s.0, s.1) && Earlier(s.0, s.1, gx, gy);
    }
  }

  /** The fetch for sample (gx, gy) keeps the cache faithful and records where each new degree was fetched. */
  lemma FetchKeepsCache(downloader: Downloader, job: Job, corner: (int, int),
                        tiles0: map<(int, int), Fetch>, tile0: Option<Fetch>,
                        tiles: map<(int, int), Fetch>, tile: Option<Fetch>, fetchedAt: map<(int, int), (int, int)>,
                        tiles': map<(int, int), Fetch>, tile': Option<Fetch>, fetchedAt': map<(int, int), (int, int)>,
                        gx: int, gy: int)
    requires Sample(gx, gy)
    requires !downloader.offline ==> forall la, lo :: downloader.getTile(la, lo) != Missing
    requires CacheFaithful(downloader, tiles, tile)
    requires FetchedEarlier(job, corner, tiles0, tiles, fetchedAt, gx, gy)
    requires FetchStep(downloader, job, corner, tiles, tile, fetchedAt, tiles', tile', fetchedAt', gx, gy)
    ensures CacheFaithful(downloader, tiles', tile') && tile'.Some?
    ensures TileIndex(SamplePos(job, corner, gx, gy)) in tiles'
    ensures FetchedEarlier(job, corner, tiles0, tiles', fetchedAt', gx, gy + 1)
  {
    forall t | t in tiles' && t !in tiles0
      ensures t in fetchedAt' && Sample(fetchedAt'[t].0, fetchedAt'[t].1) && Earlier(fetchedAt'[t].0, fetchedAt'[t].1, gx, gy + 1)
      ensures TileIndex(SamplePos(job, corner, fetchedAt'[t].0, fetchedAt'[t].1)) == t
    {
      if t in tiles {
        assert t in fetchedAt;
      }
    }
  }

  /** Storing sample (gx, gy) leaves the samples stored before it as they were. */
  lemma EarlierSamplesKept(downloader: Downloader, job: Job, corner: (int, int), cached: set<(int, int)>, tile0: Option<Fetch>,
                           tiles: map<(int, int), Fetch>, tiles': map<(int, int), Fetch>, height: seq<seq<int>>,
                           last: map<(int, int), Fetch>, gx: int, gy: int, h: int, f: Fetch)
    requires Sample(gx, gy) && WellShaped(height) && tiles.Keys <= tiles'.Keys
    requires StoredBefore(downloader, job, corner, cached, tile0, tiles, height, last, gx, gy)
    ensures WellShaped(height[gx := height[gx][gy := h]])
    ensures StoredBefore(downloader, job, corner, cached, tile0, tiles', height[gx := height[gx][gy := h]], last[(gx, gy) := f], gx, gy)
  {
    var height', last' := height[gx := height[gx][gy := h]], last[(gx, gy) := f];
    forall x, y | Sample(x, y) && Earlier(x, y, gx, gy)
      ensures TileIndex(SamplePos(job, corner, x, y)) in tiles'
      ensures SampleFromSource(downloader, job, corner, cached, tile0, height', last', x, y)
    {
      assert Sample(x, y);
      assert height'[x][y] == height[x][y];
      assert TileBefore(last', tile0, x, y) == TileBefore(last, tile0, x, y);
    }
  }

  /** Sample (gx, gy), just stored, is stored from the source. */
  lemma NewSampleFromSource(downloader: Downloader, job: Job, corner: (int, int),
                            tiles0: map<(int, int), Fetch>, tile0: Option<Fetch>,
                            tiles: map<(int, int), Fetch>, tile: Option<Fetch>, height: seq<seq<int>>,
                            last: map<(int, int), Fetch>, fetchedAt: map<(int, int), (int, int)>,
                            tiles': map<(int, int), Fetch>, tile': Option<Fetch>, fetchedAt': map<(int, int), (int, int)>,
                            gx: int, gy: int)
    requires Sample(gx, gy) && WellShaped(height)
    requires tile == TileBefore(last, tile0, gx, gy)
    requires TileIndex(SamplePos(job, corner, gx, gy)) !in tiles <==> FirstOfItsTile(job, corner, tiles0.Keys, gx, gy)
    requires FetchStep(downloader, job, corner, tiles, tile, fetchedAt, tiles', tile', fetchedAt', gx, gy)
    requires CacheFaithful(downloader, tiles', tile') && tile'.Some? && TileIndex(SamplePos(job, corner, gx, gy)) in tiles'
    ensures var h := StoredHeight(downloader, SamplePos(job, corner, gx, gy), tile'.value);
      SampleFromSource(downloader, job, corner, tiles0.Keys, tile0, height[gx := height[gx][gy := h]],
                       last[(gx, gy) := tile'.value], gx, gy)
  {
    var last' := last[(gx, gy) := tile'.value];
    assert TileBefore(last', tile0, gx, gy) == TileBefore(last, tile0, gx, gy);
  }

  /** One more sample stored from the source extends the stored prefix by one. */
  lemma StoredBeforeNext(downloader: Downloader, job: Job, corner: (int, int), cached: set<(int, int)>, tile0: Option<Fetch>,
                         tiles: map<(int, int), Fetch>, height: seq<seq<int>>, last: map<(int, int), Fetch>, gx: int, gy: int)
    requires Sample(gx, gy) && WellShaped(height)
    requires StoredBefore(downloader, job, corner, cached, tile0, tiles, height, last, gx, gy)
    requires TileIndex(SamplePos(job, corner, gx, gy)) in tiles
    requires SampleFromSource(downloader, job, corner, cached, tile0, height, last, gx, gy)
    ensures StoredBefore(downloader, job, corner, cached, tile0, tiles, height, last, gx, gy + 1)
  {
    forall x, y | Sample(x, y) && Earlier(x, y, gx, gy + 1)
      ensures TileIndex(SamplePos(job, corner, x, y)) in tiles
      ensures SampleFromSource(downloader, job, corner, cached, tile0, height, last, x, y)
    {
      if !Earlier(x, y, gx, gy) {
        assert x == gx && y == gy;
      }
    }
  }

  /** Storing sample (gx, gy) advances the sample loops by one sample. */
  lemma SampleStored(downloader: Downloader, job: Job, corner: (int, int),
                     tiles0: map<(int, int), Fetch>, tile0: Option<Fetch>,
                     tiles: map<(int, int), Fetch>, tile: Option<Fetch>, height: seq<seq<int>>,
                     last: map<(int, int), Fetch>, fetchedAt: map<(int, int), (int, int)>,
                     tiles': map<(int, int), Fetch>, tile': Option<Fetch>, height': seq<seq<int>>,
                     fetchedAt': map<(int, int), (int, int)>, gx: int, gy: int)
    requires Sample(gx, gy)
    requires !downloader.offline ==> forall la, lo :: downloader.getTile(la, lo) != Missing
    requires FillProgress(downloader, job, corner, tiles0, tile0, tiles, tile, height, last, fetchedAt, gx, gy)
    requires FetchStep(downloader, job, corner, tiles, tile, fetchedAt, tiles', tile', fetchedAt', gx, gy)
    requires tile'.Some?
    requires height' == height[gx := height[gx][gy := StoredHeight(downloader, SamplePos(job, corner, gx, gy), tile'.value)]]
    ensures FillProgress(downloader, job, corner, tiles0, tile0, tiles', tile', height', last[(gx, gy) := tile'.value], fetchedAt', gx, gy + 1)
  {
    var last' := last[(gx, gy) := tile'.value];
    FirstOfItsTileIff(job, corner, tiles0, tiles, fetchedAt, gx, gy);
    FetchKeepsCache(downloader, job, corner, tiles0, tile0, tiles, tile, fetchedAt, tiles', tile', fetchedAt', gx, gy);
    EarlierSamplesKept(downloader, job, corner, tiles0.Keys, tile0, tiles, tiles', height, last, gx, gy,
                       StoredHeight(downloader, SamplePos(job, corner, gx, gy), tile'.value), tile'.value);
    NewSampleFromSource(downloader, job, corner, tiles0, tile0, tiles, tile, height, last, fetchedAt, tiles', tile', fetchedAt', gx, gy);
    StoredBeforeNext(downloader, job, corner, tiles0.Keys, tile0, tiles', height', last', gx, gy);
  }

  /** The end of one row of samples is the start of the next. */
  lemma RowStored(downloader: Downloader, job: Job, corner: (int, int),
                  tiles0: map<(int, int), Fetch>, tile0: Option<Fetch>,
                  tiles: map<(int, int), Fetch>, tile: Option<Fetch>, height: seq<seq<int>>,
                  last: map<(int, int), Fetch>, fetchedAt: map<(int, int), (int, int)>, gx: nat)
    requires FillProgress(downloader, job, corner, tiles0, tile0, tiles, tile, height, last, fetchedAt, gx, TERRAIN_GRID_BLOCK_SIZE_Y)
    ensures FillProgress(downloader, job, corner, tiles0, tile0, tiles, tile, height, last, fetchedAt, gx + 1, 0)
  {
    forall x, y | Sample(x, y) && Earlier(x, y, gx + 1, 0)
      ensures TileIndex(SamplePos(job, corner, x, y)) in tiles
      ensures SampleFromSource(downloader, job, corner, tiles0.Keys, tile0, height, last, x, y)
    {
      assert Earlier(x, y, gx, TERRAIN_GRID_BLOCK_SIZE_Y);
    }
    forall t | t in tiles && t !in tiles0 ensures Earlier(fetchedAt[t].0, fetchedAt[t].1, gx + 1, 0) {
    }
  }

  /** After the last row every sample is stored from the source. */
  lemma BlockStored(downloader: Downloader, job: Job, corner: (int, int),
                    tiles0: map<(int, int), Fetch>, tile0: Option<Fetch>,
                    tiles: map<(int, int), Fetch>, tile: Option<Fetch>, height: seq<seq<int>>,
                    last: map<(int, int), Fetch>, fetchedAt: map<(int, int), (int, int)>)
    requires FillProgress(downloader, job, corner, tiles0, tile0, tiles, tile, height, last, fetchedAt, TERRAIN_GRID_BLOCK_SIZE_X, 0)
    ensures forall x, y {:trigger Sample(x, y)} | Sample(x, y) :: TileIndex(SamplePos(job, corner, x, y)) in tiles
    ensures HeightsFromSource(downloader, job, corner, tiles0.Keys, tile0, height, last)
    ensures tiles.Keys == tiles0.Keys + BlockTiles(job, corner) && tile == TileAfter(last)
  {
    forall t | t in tiles && t !in tiles0 ensures t in BlockTiles(job, corner) {
      var s := fetchedAt[t];
      assert Sample(s.0, s.1);
    }
    forall x, y | Sample(x, y)
      ensures TileIndex(SamplePos(job, corner, x, y)) in tiles
      ensures SampleFromSource(downloader, job, corner, tiles0.Keys, tile0, height, last, x, y)
    {
      assert Earlier(x, y, TERRAIN_GRID_BLOCK_SIZE_X, 0);
    }
  }

  /**
   * The `for gx` / `for gy` loops of `create_degree`: fetch the tile of each
   * sample once per degree and store its height. Offline, a tile that is
   * missing or all ocean makes the degree be skipped (result true). `last`
   * records `tile` as each sample was stored.
   */
  method FillBlock(grid: GridBlock, downloader: Downloader, job: Job, corner: (int, int),
                   tiles0: map<(int, int), Fetch>, tile0: Option<Fetch>)
    returns (skip: bool, tiles: map<(int, int), Fetch>, tile: Option<Fetch>, ghost last: map<(int, int), Fetch>)
    requires grid.Valid() && CacheFaithful(downloader, tiles0, tile0)
    requires !downloader.offline ==> forall la, lo :: downloader.getTile(la, lo) != Missing
    modifies grid`height
    ensures grid.Valid() && CacheFaithful(downloader, tiles, tile)
    ensures tiles0.Keys <= tiles.Keys
    ensures skip ==> downloader.offline && exists x, y {:trigger Sample(x, y)} | Sample(x, y) ::
      TileIndex(SamplePos(job, corner, x, y)) !in tiles0 && TileOf(downloader, SamplePos(job, corner, x, y)) != Land
    ensures !skip ==> forall x, y {:trigger Sample(x, y)} | Sample(x, y) :: TileIndex(SamplePos(job, corner, x, y)) in tiles
    ensures !skip ==> HeightsFromSource(downloader, job, corner, tiles0.Keys, tile0, grid.height, last)
    ensures !skip ==> tiles.Keys == tiles0.Keys + BlockTiles(job, corner) && tile == TileAfter(last)
  {
    tiles, tile, last := tiles0, tile0, map[];
    ghost var fetchedAt: map<(int, int), (int, int)> := map[];
    var gx := 0;
    while gx < TERRAIN_GRID_BLOCK_SIZE_X
      invariant 0 <= gx <= TERRAIN_GRID_BLOCK_SIZE_X && grid.Valid()
      invariant FillProgress(downloader, job, corner, tiles0, tile0, tiles, tile, grid.height, last, fetchedAt, gx, 0)
    {
      var gy := 0;
      while gy < TERRAIN_GRID_BLOCK_SIZE_Y
        invariant 0 <= gy <= TERRAIN_GRID_BLOCK_SIZE_Y && grid.Valid()
        invariant FillProgress(downloader, job, corner, tiles0, tile0, tiles, tile, grid.height, last, fetchedAt, gx, gy)
      {
        skip, tiles, tile, last, fetchedAt := StoreSample(grid, downloader, job, corner, gx, gy, tiles, tile, tiles0, tile0, last, fetchedAt);
        if skip {
          return;
        }
        gy := gy + 1;
      }
      RowStored(downloader, job, corner, tiles0, tile0, tiles, tile, grid.height, last, fetchedAt, gx);
      gx := gx + 1;
    }
    BlockStored(downloader, job, corner, tiles0, tile0, tiles, tile, grid.height, last, fetchedAt);
    return false, tiles, tile, last;
  }

  /**
   * The body of the `for gy` loop for sample (gx, gy): fetch its tile unless
   * its degree is cached (offline, a tile that is missing or all ocean
   * aborts), then store its height.
   */
  method StoreSample(grid: GridBlock, downloader: Downloader, job: Job, corner: (int, int), gx: int, gy: int,
                     tiles0: map<(int, int), Fetch>, tile0: Option<Fetch>,
                     ghost cache0: map<(int, int), Fetch>, ghost blockTile0: Option<Fetch>,
                     ghost last0: map<(int, int), Fetch>, ghost fetchedAt0: map<(int, int), (int, int)>)
    returns (skip: bool, tiles: map<(int, int), Fetch>, tile: Option<Fetch>,
             ghost last: map<(int, int), Fetch>, ghost fetchedAt: map<(int, int), (int, int)>)
    requires Sample(gx, gy) && grid.Valid()
    requires !downloader.offline ==> forall la, lo :: downloader.getTile(la, lo) != Missing
    requires FillProgress(downloader, job, corner, cache0, blockTile0, tiles0, tile0, grid.height, last0, fetchedAt0, gx, gy)
    modifies grid`height
    ensures grid.Valid()
    ensures skip ==> tiles == tiles0 && tile == tile0
    ensures skip ==> downloader.offline && exists x, y {:trigger Sample(x, y)} | Sample(x, y) ::
      TileIndex(SamplePos(job, corner, x, y)) !in cache0 && TileOf(downloader, SamplePos(job, corner, x, y)) != Land
    ensures !skip ==> FillProgress(downloader, job, corner, cache0, blockTile0, tiles, tile, grid.height, last, fetchedAt, gx, gy + 1)
  {
    tiles, tile, last, fetchedAt := tiles0, tile0, last0, fetchedAt0;
    var sample := SamplePos(job, corner, gx, gy);
    var tileIdx := TileIndex(sample);
    if tileIdx !in tiles {
      var fetched := downloader.getTile(tileIdx.0, tileIdx.1);
      if downloader.offline && fetched != Land {
        assert Sample(gx, gy);
        return true, tiles, tile, last, fetchedAt;
      }
      tiles := tiles[tileIdx := fetched];
      tile := Some(fetched);
      fetchedAt := fetchedAt[tileIdx := (gx, gy)];
    } else {
      assert tiles != map[];
    }
    if tile == Some(Ocean) {
      grid.Fill(gx, gy, 0);
    } else {
      grid.Fill(gx, gy, downloader.altitude(sample.0, sample.1));
    }
    last := last[(gx, gy) := tile.value];
    SampleStored(downloader, job, corner, cache0, blockTile0, tiles0, tile0, old(grid.height), last0, fetchedAt0,
                 tiles, tile, grid.height, fetchedAt, gx, gy);
    skip := false;
  }

  // ---------------------------------------------------------------------
  // The contents create_degree leaves behind
  // ---------------------------------------------------------------------

  /** Before the first slot nothing has been written. */
  lemma EmptyAssembled(job: Job, init: seq<uint8>)
    requires job.spacing > 0
    ensures Assembled(job, init, init, 0, {})
  {
  }

  /**
   * Writing the sealed, fully filled block of slot k into the slot that
   * needed it extends the assembled prefix by that slot.
   */
  lemma SealedSlotWritten(job: Job, init: seq<uint8>, c: seq<uint8>, k: nat, written: set<nat>, b: Block)
    requires job.spacing > 0 && SlotPos(job, k).Some?
    requires Packable(b) && b.crc == SealedCrc(b) && b.bitmap == FULL_BITMAP
    requires b.lat == SlotCell(job, k).lat && b.lon == SlotCell(job, k).lon
    requires b.spacing == job.spacing && b.version == job.version
    requires Assembled(job, init, c, k, written)
    requires NeedsWrite(job, init, k)
    ensures Assembled(job, init, WriteAt(c, k * IO_BLOCK_SIZE, Pack(b).value), k + 1, written + {k})
  {
    WrittenSlotFilled(c, k, b);
    AssembledStep(job, init, c, k, written, Pack(b).value);
  }

  /**
   * Writing the block recorded for slot k, after every written slot, keeps
   * each earlier slot's bytes and puts the block's packing in slot k.
   */
  lemma RecordWrite(downloader: Downloader, job: Job, c: seq<uint8>, k: nat, written: set<nat>,
                    record: map<nat, FilledBlock>, f: FilledBlock)
    requires job.spacing > 0
    requires WrittenFromSource(downloader, job, c, written, record)
    requires forall j | j in written :: j < k
    requires SourcedBlock(downloader, job, k, f)
    ensures Packable(f.block)
    ensures WrittenFromSource(downloader, job, WriteAt(c, k * IO_BLOCK_SIZE, Pack(f.block).value), written + {k}, record[k := f])
  {
    assert FitsUnsigned(f.block.crc, 2);
    var buf := Pack(f.block).value;
    var c' := WriteAt(c, k * IO_BLOCK_SIZE, buf);
    forall j: nat | WroteSlot(written + {k}, j)
      ensures j in record[k := f] && Pack(record[k := f][j].block) == Some(ReadAt(c', j * IO_BLOCK_SIZE, IO_BLOCK_SIZE))
      ensures SourcedBlock(downloader, job, j, record[k := f][j])
    {
      if j == k {
        ReadAfterWrite(c, k * IO_BLOCK_SIZE, buf);
      } else {
        assert WroteSlot(written, j);
        assert |ReadAt(c, j * IO_BLOCK_SIZE, IO_BLOCK_SIZE)| == IO_BLOCK_SIZE;
        ReadAfterDisjointWrite(c, k * IO_BLOCK_SIZE, buf, j * IO_BLOCK_SIZE, IO_BLOCK_SIZE);
      }
    }
  }

  /**
   * Reading a written slot back gives the heights stored from the source:
   * sample (x, y) holds 0 after an ocean tile and the altitude at its
   * position otherwise, and offline it always holds the altitude.
   */
  lemma WrittenHeightsReadBack(downloader: Downloader, job: Job, content: seq<uint8>, written: set<nat>,
                               record: map<nat, FilledBlock>, k: nat, x: int, y: int)
    requires job.spacing > 0
    requires WrittenFromSource(downloader, job, content, written, record)
    requires k in written && Sample(x, y)
    ensures SlotPos(job, k).Some? && k in record && (x, y) in record[k].last
    ensures var p := SamplePos(job, SlotPos(job, k).value, x, y);
      && |ReadAt(content, k * IO_BLOCK_SIZE, IO_BLOCK_SIZE)| == IO_BLOCK_SIZE
      && Unpack(ReadAt(content, k * IO_BLOCK_SIZE, IO_BLOCK_SIZE)).height[x][y] == StoredHeight(downloader, p, record[k].last[(x, y)])
      && (downloader.offline ==> Unpack(ReadAt(content, k * IO_BLOCK_SIZE, IO_BLOCK_SIZE)).height[x][y] == downloader.altitude(p.0, p.1))
  {
    assert WroteSlot(written, k);
    var f := record[k];
    UnpackPack(f.block);
    assert SampleFromSource(downloader, job, SlotPos(job, k).value, f.cached, f.tileBefore, f.block.height, f.last, x, y);
  }

  /**
   * Offline, every slot the run needed to write before `stop` was built
   * from land tiles only: no sample of it lies in a missing or ocean tile.
   */
  lemma OfflineSlotsFromLand(downloader: Downloader, job: Job, init: seq<uint8>, content: seq<uint8>, stop: nat,
                             written: set<nat>, record: map<nat, FilledBlock>, k: nat, x: int, y: int)
    requires job.spacing > 0 && downloader.offline
    requires Assembled(job, init, content, stop, written)
    requires WrittenFromSource(downloader, job, content, written, record)
    requires k < stop && NeedsWrite(job, init, k) && Sample(x, y)
    ensures SlotPos(job, k).Some? && TileOf(downloader, SamplePos(job, SlotPos(job, k).value, x, y)) == Land
  {
    assert WroteSlot(written, k);
    var f := record[k];
    assert SampleFromSource(downloader, job, SlotPos(job, k).value, f.cached, f.tileBefore, f.block.height, f.last, x, y);
  }

  /** A slot that needs no write extends the assembled prefix as it is. */
  lemma SkipSlot(job: Job, init: seq<uint8>, c: seq<uint8>, k: nat, written: set<nat>)
    requires job.spacing > 0
    requires Assembled(job, init, c, k, written)
    requires !NeedsWrite(job, init, k)
    ensures Assembled(job, init, c, k + 1, written)
  {
  }

  /** The written slots all lie before `stop`. */
  lemma WrittenBelow(job: Job, init: seq<uint8>, c: seq<uint8>, stop: nat, written: set<nat>)
    requires job.spacing > 0
    requires WrittenValid(job, init, c, stop, written)
    ensures forall j | j in written :: j < stop
  {
    forall j | j in written ensures j < stop {
      assert WroteSlot(written, j);
    }
  }

  /**
   * A slot no earlier iteration wrote reads as it did before the run, so
   * `check_filled` answers about the original contents.
   */
  lemma UnwrittenSlotUnchanged(job: Job, init: seq<uint8>, c: seq<uint8>, k: nat, written: set<nat>)
    requires job.spacing > 0 && SlotPos(job, k).Some?
    requires Assembled(job, init, c, k, written)
    ensures SlotValid(job, c, k) == SlotValid(job, init, k)
  {
    WrittenBelow(job, init, c, k, written);
    SlotBytesUnchanged(init, c, k, written);
  }

  /**
   * A slot outside `written` holds the same complete 2048 bytes as before,
   * or is incomplete both before and after.
   */
  lemma SlotBytesUnchanged(init: seq<uint8>, c: seq<uint8>, k: nat, written: set<nat>)
    requires OnlySlotsChanged(init, c, written)
    requires forall j | j in written :: j < k
    ensures var off := k * IO_BLOCK_SIZE;
      || ReadAt(c, off, IO_BLOCK_SIZE) == ReadAt(init, off, IO_BLOCK_SIZE)
      || (|ReadAt(c, off, IO_BLOCK_SIZE)| < IO_BLOCK_SIZE && |ReadAt(init, off, IO_BLOCK_SIZE)| < IO_BLOCK_SIZE)
  {
    var off := k * IO_BLOCK_SIZE;
    if off + IO_BLOCK_SIZE <= |init| {
      var a, b := c[off..off + IO_BLOCK_SIZE], init[off..off + IO_BLOCK_SIZE];
      forall i | 0 <= i < IO_BLOCK_SIZE ensures a[i] == b[i] {
        assert (off + i) / IO_BLOCK_SIZE == k;
      }
      assert a == b;
    } else {
      if |init| < |c| {
        var last := |c| / IO_BLOCK_SIZE - 1;
        assert last in written;
        assert |c| <= off;
      }
      assert |ReadAt(c, off, IO_BLOCK_SIZE)| < IO_BLOCK_SIZE;
    }
  }

  /**
   * Writing a valid block into the slot that needed it extends the
   * assembled prefix by that slot.
   */
  lemma AssembledStep(job: Job, init: seq<uint8>, c: seq<uint8>, k: nat, written: set<nat>, buf: seq<uint8>)
    requires job.spacing > 0 && |buf| == IO_BLOCK_SIZE
    requires Assembled(job, init, c, k, written)
    requires NeedsWrite(job, init, k)
    requires SlotValid(job, WriteAt(c, k * IO_BLOCK_SIZE, buf), k)
    ensures Assembled(job, init, WriteAt(c, k * IO_BLOCK_SIZE, buf), k + 1, written + {k})
  {
    var c' := WriteAt(c, k * IO_BLOCK_SIZE, buf);
    WrittenBelow(job, init, c, k, written);
    WriteKeepsWrittenSlots(job, init, c, k, written, buf);
    WriteKeepsOtherBytes(init, c, k, written, buf);
    WrittenGrow(job, init, c', k, written);
    NeededGrow(job, init, k, written);
  }

  /** Adding slot k, which needed writing and is now valid, keeps the written slots valid. */
  lemma WrittenGrow(job: Job, init: seq<uint8>, c: seq<uint8>, k: nat, written: set<nat>)
    requires job.spacing > 0
    requires WrittenValid(job, init, c, k, written)
    requires NeedsWrite(job, init, k) && SlotValid(job, c, k)
    ensures WrittenValid(job, init, c, k + 1, written + {k})
  {
    forall j: nat | WroteSlot(written + {k}, j) ensures j < k + 1 && NeedsWrite(job, init, j) && SlotValid(job, c, j) {
      if j != k {
        assert WroteSlot(written, j);
      }
    }
  }

  /** Every slot up to k that needed writing is now among the written ones. */
  lemma NeededGrow(job: Job, init: seq<uint8>, k: nat, written: set<nat>)
    requires job.spacing > 0
    requires NoneMissed(job, init, k, written)
    ensures NoneMissed(job, init, k + 1, written + {k})
  {
    forall j: nat | j < k + 1 && NeedsWrite(job, init, j) ensures WroteSlot(written + {k}, j) {
      if j < k {
        assert WroteSlot(written, j);
      }
    }
  }

  /** A write to slot k, after every written slot, leaves those slots valid. */
  lemma WriteKeepsWrittenSlots(job: Job, init: seq<uint8>, c: seq<uint8>, k: nat, written: set<nat>, buf: seq<uint8>)
    requires job.spacing > 0 && |buf| == IO_BLOCK_SIZE
    requires WrittenValid(job, init, c, k, written)
    ensures WrittenValid(job, init, WriteAt(c, k * IO_BLOCK_SIZE, buf), k, written)
  {
    var c' := WriteAt(c, k * IO_BLOCK_SIZE, buf);
    forall j: nat | WroteSlot(written, j) ensures j < k && NeedsWrite(job, init, j) && SlotValid(job, c', j) {
      var offj := j * IO_BLOCK_SIZE;
      assert |ReadAt(c, offj, IO_BLOCK_SIZE)| == IO_BLOCK_SIZE;
      ReadAfterDisjointWrite(c, k * IO_BLOCK_SIZE, buf, offj, IO_BLOCK_SIZE);
    }
  }

  /**
   * A write to slot k keeps the byte-level part of the assembled relation:
   * bytes outside written slots keep their original value or stay zero.
   */
  lemma WriteKeepsOtherBytes(init: seq<uint8>, c: seq<uint8>, k: nat, written: set<nat>, buf: seq<uint8>)
    requires |buf| == IO_BLOCK_SIZE
    requires forall j | j in written :: j < k
    requires OnlySlotsChanged(init, c, written)
    ensures OnlySlotsChanged(init, WriteAt(c, k * IO_BLOCK_SIZE, buf), written + {k})
  {
    var off := k * IO_BLOCK_SIZE;
    var c' := WriteAt(c, off, buf);
    if |init| < |c| {
      assert |c| <= off;
    }
    forall i | 0 <= i < |init| && i / IO_BLOCK_SIZE !in written + {k} ensures c'[i] == init[i] {
      assert !(off <= i < off + IO_BLOCK_SIZE);
    }
    forall i | |init| <= i < |c'| && i / IO_BLOCK_SIZE !in written + {k} ensures c'[i] == 0 {
      assert !(off <= i < off + IO_BLOCK_SIZE);
    }
  }

  /**
   * Idempotence: when every canonical slot was already valid nothing is
   * written and the file comes out byte for byte as it went in.
   */
  lemma NothingToWriteUnchanged(job: Job, init: seq<uint8>, final: seq<uint8>, stop: nat, written: set<nat>)
    requires job.spacing > 0
    requires Assembled(job, init, final, stop, written)
    requires forall k: nat | k < stop && Canonical(job, k) :: SlotValid(job, init, k)
    ensures written == {} && final == init
  {
    forall j: nat ensures j !in written {
      assert !WroteSlot(written, j);
    }
    assert written == {};
    assert |final| == |init|;
    forall i | 0 <= i < |init| ensures final[i] == init[i] {
    }
  }

  /**
   * A run on a new file leaves a valid block in every canonical slot south
   * of the degree's northern edge.
   */
  lemma FreshFileComplete(job: Job, final: seq<uint8>, stop: nat, written: set<nat>)
    requires job.spacing > 0
    requires Assembled(job, [], final, stop, written)
    ensures forall k: nat | k < stop && Canonical(job, k) :: SlotValid(job, final, k)
  {
    forall k: nat | k < stop && Canonical(job, k) ensures SlotValid(job, final, k) {
      assert |ReadAt([], k * IO_BLOCK_SIZE, IO_BLOCK_SIZE)| == 0;
      assert NeedsWrite(job, [], k);
      assert WroteSlot(written, k);
    }
  }
}
