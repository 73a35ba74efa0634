# ArduPilot terrain database: block format, generator, scanner and tile lists

ArduPilot keeps terrain heights on the autopilot's SD card as one file per
integer degree of latitude and longitude, named like `S35E149.DAT`. A file is
a sequence of 2048-byte grid blocks. Each block holds a header (a 56-bit
"filled" bitmap, the south-west corner in 1e-7 degree, a CRC-16/XMODEM, the
format version and the grid spacing), a 28 x 32 patch of signed 16-bit
heights, the block's grid indices and degree, and 227 bytes of zero padding.
The block for grid indices (x, y) sits in slot `stride * x + y`, where
`stride` is the number of blocks per row at the file's latitude.

The repository has four parts, and this project models the integer and
byte-level core of each:

- the **generator** (`terrain_gen.py`) fills every slot of a degree file
  that does not already hold a valid block, sealing each block with its CRC;
- the **offline scanner** (`offline_check.py`) checks a folder of degree
  files block by block and counts errors;
- the **web front end** (`app.py`) validates a request and lists the
  compressed degree files covering a square around a point;
- the **bulk generator** (`offline_gen.py`) names the files it produces.

Modules:

| file | module | what it holds |
|---|---|---|
| bytes.dfy | Bytes | little-endian and two's-complement encodings (Python `struct`), clamped slicing, file contents after `seek` + `write` / `read` |
| crc16.dfy | Crc16 | CRC-16/XMODEM, bit by bit |
| grid_codec.dfy | GridCodec | the 2048-byte record: `pack`, its layout, its round trip, and the slot check `check_filled` applies |
| geo.dfy | Geo | `diff_longitude_E7`, Python's `//`, `%` and `int(a / b)`, block-number addressing, the integer part of `pos_from_file_offset` and `GridBlock.__init__` over an abstract projection |
| naming.dfy | Naming | the `N60E167` file-name stem and the `DataFile` / `datafile` paths |
| terrain_gen.dfy | TerrainGen | the `GridBlock` and `DataFile` classes and `create_degree` |
| offline_check.dfy | OfflineCheck | the scanner's `check_filled`, name parsing, block count, bounds, block scan and error count |
| app.dfy | App | `clamp`, `getDatFile`, the input checks and the tile-list loop of `generate` |
| wrappers.dfy | Wrappers | `Option` |

The main results:

- A block written by `DataFile.write` passes the generator's `check_filled`
  (`TerrainGen.DataFile.Write`, `GridCodec.SealedBlockFilled`). It also passes
  the scanner's check when its corner is within 2 degrees of the file's degree
  (`OfflineCheck.SealedBlockAccepted`).
- `create_degree` writes exactly the canonical slots that were not already
  valid. Every other byte of the file stays as it was, and a rerun over a
  complete file changes nothing (`TerrainGen.CreateDegree`,
  `TerrainGen.NothingToWriteUnchanged`). Each written slot reads back as
  the heights taken from the elevation source: offline the altitude at every
  sample, online the altitude unless the tile fetched last was an ocean tile
  (`TerrainGen.WrittenHeightsReadBack`). Each block starts from the tile
  cache and the `tile` that the blocks written before it left, and the first
  from an empty cache (`TerrainGen.CreateDegree`,
  `TerrainGen.FirstWrittenStartsEmpty`).
- The scanner parses back the degree the generator put in the file name
  (`OfflineCheck.ParseDataFileName`). Its error count is derived check by
  check (`OfflineCheck.CheckFile`).
- The web front end's tile list has no duplicates. It names the scanned
  degrees within 84 degrees of the equator, each once, in the order the
  row-by-row scan first meets them, and `outsideLat` reports the others
  (`App.CollectTiles`, `App.Generate`).

Three behaviours of the code that the model reproduces:

- the tile cache of `create_degree`, and its `tile` variable, live for the
  whole degree and carry over from one block to the next (terrain_gen.py:277);
- a sample is stored as 0 when the tile fetched last is an ocean tile,
  whichever tile the sample itself lies in (terrain_gen.py:317);
- offline, an ocean tile aborts the degree just as a missing tile does
  (terrain_gen.py:304).

The geodesy (`add_offset`, `get_distance_NE_e7`, `east_blocks`) is
single-precision floating point. It enters the model as the `Geo.Projection`
datatype of given functions. The elevation source enters as
`TerrainGen.Downloader`.

## Model

| member | source | states |
|---|---|---|
| Bytes.DecodeEncodeLE | terrain_gen.py:237 | unpacking the little-endian bytes `struct.pack` writes for an unsigned field (Q, H) gives the value back |
| Bytes.DecodeEncodeSigned | terrain_gen.py:237-240 | the same for two's-complement fields (i, h, b) |
| Bytes.Slice | offline_check.py:137 | Python slicing clamps both ends to the length: within range it is the plain subsequence, and its length is max(0, min(b,n) - min(a,n)) |
| Bytes.WriteAt | terrain_gen.py:251 | `seek` then `write`: the written range holds the buffer, every other old byte is unchanged, a gap past the end reads as zeros, and the length is max(old length, end of write) |
| Bytes.ReadAt | terrain_gen.py:255-256 | `seek` then `read(n)` gives at most n bytes, and exactly the n bytes at the offset when the file is long enough |
| Bytes.ReadAfterWrite | terrain_gen.py:251-256 | reading back the range just written returns exactly the bytes written |
| Bytes.ReadAfterDisjointWrite | terrain_gen.py:228-232 | a write leaves every complete range it does not overlap unchanged |
| Crc16.CheckValue | terrain_gen.py:249 | the CRC is CRC-16/XMODEM: the CRC of the nine bytes of ASCII "123456789" is 0x31C3, the catalogue check value |
| Crc16.XmodemOfSlice | offline_check.py:46 | `crc16xmodem(buf[:n])` equals the checksum of the first n bytes of `buf` computed in place |
| Crc16.RegisterToSlice | terrain_gen.py:267 | the in-place register after n bytes equals the register over the slice `s[:n]` |
| Crc16.RegisterSnoc | terrain_gen.py:249 | feeding one more byte is one more step of the shift register |
| GridCodec.Pack | terrain_gen.py:234-242 | `pack` gives a record exactly when every field is in the range of its struct code (else `struct.error`), and the record is 2048 bytes |
| GridCodec.PackLayout | terrain_gen.py:234-242 | the record splits at the documented offsets: bitmap, lat, lon, crc, version, spacing, the height rows, grid indices, degrees, and 227 zero bytes |
| GridCodec.PackHeader | terrain_gen.py:259 | `struct.unpack("<QiiHHH")` of a packed record gives back the block's header fields |
| GridCodec.PackHeightAt | terrain_gen.py:238-239 | sample (x, y) is stored as two little-endian bytes at 22 + 64 x + 2 y |
| GridCodec.UnpackPack | terrain_gen.py:234-242 | round trip: every field of a packable block is read back unchanged from its record |
| GridCodec.ZeroCrcFieldOfPack | terrain_gen.py:247-266 | zeroing bytes 16..18 of a packed record gives the record packed with crc = 0, so the check recomputes the CRC the write computed |
| GridCodec.SealedBlockFilled | terrain_gen.py:244-270 | a sealed block with the full bitmap passes `check_filled` against its own corner, spacing and version |
| GridCodec.SealedSlotFilledIff | terrain_gen.py:253-270 | a sealed, fully filled record passes `check_filled` exactly when version and spacing match and the expected corner is within 2 units of the stored one |
| GridCodec.SealedCrc | terrain_gen.py:247-249 | the CRC `write` stores fits the 16-bit field |
| Geo.DiffLongitudeE7 | terrain_gen.py:54-64 | equal to lon1 - lon2 when the signs agree, always congruent to lon1 - lon2 modulo a full turn, and within half a turn for inputs within half a turn |
| Geo.DiffLongitudeAntisymmetric | terrain_gen.py:54-64 | swapping the arguments negates the difference |
| Geo.FloorDivBounds | terrain_gen.py:101-103 | Python's `//` rounds toward minus infinity for either sign of divisor |
| Geo.FloorModBounds | terrain_gen.py:103 | Python's `%` satisfies a == b (a // b) + a % b, with the remainder carrying the divisor's sign |
| Geo.TruncDivBounds | terrain_gen.py:166-167 | `int(a / b)` rounds toward zero |
| Geo.SplitBlockNumber | terrain_gen.py:100-103 | the split raises ZeroDivisionError exactly when the stride is 0 |
| Geo.SplitBlockNumberSound | terrain_gen.py:101-103 | `stride * (blocks // stride) + blocks % stride == blocks`, with the column inside a positive stride |
| Geo.SplitBlockNumberInverse | terrain_gen.py:187-190 | splitting `blocknum` of (x, y) recovers (x, y) for any column inside the stride |
| Geo.PosFromFileOffset | terrain_gen.py:94-120 | `pos_from_file_offset` fails exactly when `east_blocks` is 0 |
| Geo.GridCell | terrain_gen.py:156-181 | the block's corner is the projection of its own grid indices |
| Geo.GridCellContains | terrain_gen.py:160-173 | a point north-east of the degree's corner lands in the block whose span (24 samples north, 28 east) contains its metric offset |
| Naming.Pad2Value | offline_gen.py:52 | `%02u` of a number below 100 is two digits that read back as the number |
| Naming.Pad3Value | offline_gen.py:52-53 | `%03u` of a number below 1000 is three digits that read back as the number |
| Naming.TileStemFields | offline_gen.py:44-53 | the stem has 7 characters, 'S' iff lat < 0 and 'W' iff lon < 0, and digit fields holding min(abs(lat), 99) and min(abs(lon), 999) |
| Naming.DataFilePathShape | offline_gen.py:43-55 | the path is folder + "/" + the stem + ".DAT", the same for `datafile` and `DataFile.name` |
| Naming.TempPathDistinct | terrain_gen.py:202-205 | the temporary name never equals the permanent name |
| Naming.StemExamples | offline_gen.py:52-53 | concrete stems: N60E167, S35E149, S36E149 |
| TerrainGen.GridBlock.constructor | terrain_gen.py:123-181 | a new block has all 28 x 32 heights 0, crc 0, the full bitmap, the given version, spacing and degree, and the grid indices and corner of the cell containing the position |
| TerrainGen.GridBlock.Fill | terrain_gen.py:183-185 | `fill` sets exactly one sample |
| TerrainGen.DataFile.constructor | terrain_gen.py:193-213 | opens the existing permanent file, or creates an empty temporary one |
| TerrainGen.DataFile.CheckFilled | terrain_gen.py:253-270 | `check_filled` never accepts a slot that runs past the end of the file |
| TerrainGen.DataFile.Write | terrain_gen.py:244-251 | `write` packs (or raises and changes nothing), stores the sealed CRC in the block, replaces exactly the block's slot, and the slot then passes `check_filled` |
| TerrainGen.DataFile.Remove | terrain_gen.py:221-226 | `remove` closes the file and deletes both the permanent and the temporary file |
| TerrainGen.DataFile.Finalise | terrain_gen.py:215-219 | `finalise` renames the temporary file over the permanent one, and fails (FileNotFoundError) with no change when there is no temporary file |
| TerrainGen.WrittenSlotFilled | terrain_gen.py:244-270 | writing a sealed full block into slot k and reading slot k back passes `check_filled` |
| TerrainGen.CreateDegree | terrain_gen.py:272-326 | in every outcome the open file holds a valid block in exactly the canonical slots that were not valid before, and every other byte is unchanged. Each written slot holds the packing of a sealed block with that slot's header and heights stored from the source (0 after an ocean tile, else the altitude; offline only land tiles, so always the altitude). Every written block started from the cache and `tile` that the blocks written before it left. On success a new file is renamed into place after the slot loop reached the northern edge. The degree is skipped only offline, when a sample of a slot that needed writing lies in a missing or ocean tile, and then both files are deleted. ZeroDivisionError is raised exactly when the stride is 0. An existing file is patched in place, and its rename then fails, or moves a stale temporary file over it |
| TerrainGen.FillSlots | terrain_gen.py:283-323 | the slot loop stops at the first slot north of the degree, having written exactly the canonical slots that were not already valid, each with a block built from the source, starting from the cache and `tile` the slots written before it left; it stops early only offline, at a slot that needed writing and meets a missing or ocean tile |
| TerrainGen.VisitSlot | terrain_gen.py:284-323 | one pass: a non-canonical or already valid slot is skipped; otherwise the block is filled from the source and written, and slot k then holds its packing, or the degree is abandoned offline because the slot meets a missing or ocean tile; the cache and `tile` stay what the slots written so far left |
| TerrainGen.FillAndWrite | terrain_gen.py:295-323 | for a slot that needs writing: fill from the source and write, so that the slot holds the packing of the sealed block recorded for it, filled from the cache and `tile` as the slot found them, after which the cache holds the block's degrees too and `tile` is what its last sample left; offline, a missing or ocean tile among its samples abandons it with the file unchanged |
| TerrainGen.WriteSlot | terrain_gen.py:323 | a successful write extends the assembled slots by slot k, and slot k holds the packing of the sealed block with the stored heights |
| TerrainGen.FillBlock | terrain_gen.py:295-322 | a sample's tile is fetched exactly when it is the first sample of a degree not yet cached, and the cache only grows; `tile` then holds that tile, else what the previous sample left; each height is 0 when `tile` is an ocean tile and the source's altitude otherwise; offline only land tiles are used, and a missing or ocean tile among the samples aborts; otherwise the cache gains exactly the block's degrees |
| TerrainGen.StoreSample | terrain_gen.py:297-322 | one sample: its tile is fetched when its degree is not cached (offline a missing or ocean tile aborts with the cache unchanged), and its height is then stored from the source |
| TerrainGen.SampleStored | terrain_gen.py:297-322 | storing one sample advances the sample loops' state by one sample |
| TerrainGen.FirstOfItsTileIff | terrain_gen.py:300-301 | a sample's degree is missing from the cache exactly when no degree cached before the block and no earlier sample of the block shares it |
| TerrainGen.FetchKeepsCache | terrain_gen.py:301-316 | the fetch keeps the cache equal to what `getTile` returned, never stores a missing tile in `tile`, and caches the sample's degree |
| TerrainGen.EarlierSamplesKept | terrain_gen.py:183-185 | storing one sample leaves every earlier sample's height and record unchanged |
| TerrainGen.NewSampleFromSource | terrain_gen.py:317-322 | the sample just stored holds 0 after an ocean tile and the altitude otherwise |
| TerrainGen.StoredBeforeNext | terrain_gen.py:296 | the stored samples grow by one per `gy` step |
| TerrainGen.RowStored | terrain_gen.py:295-296 | the end of one row of samples is the start of the next |
| TerrainGen.BlockStored | terrain_gen.py:295-322 | after the last row every sample's degree is cached and every height is stored from the source; the cache gained exactly the block's degrees, and `tile` is what the last sample left |
| TerrainGen.RecordWrite | terrain_gen.py:244-251 | writing the sealed block of slot k leaves the blocks recorded for earlier slots in place and puts its own packing in slot k |
| TerrainGen.WrittenHeightsReadBack | terrain_gen.py:234-251 | unpacking a written slot gives, at each sample, 0 after an ocean tile and the altitude otherwise, and offline always the altitude |
| TerrainGen.OfflineSlotsFromLand | terrain_gen.py:301-307 | offline, every sample of every slot the run needed to write lies in a land tile |
| TerrainGen.SealedSlotWritten | terrain_gen.py:244-251 | writing the sealed, fully filled block of slot k into the slot that needed it extends the assembled slots by k |
| TerrainGen.SlotBytesUnchanged | terrain_gen.py:228-232 | a slot no write touched holds the same 2048 bytes as before, or is incomplete both before and after |
| TerrainGen.UnwrittenSlotUnchanged | terrain_gen.py:293 | a slot the run has not written reads as before the run |
| TerrainGen.AssembledStep | terrain_gen.py:293-323 | writing the slot that needed it keeps all earlier writes valid and all other bytes unchanged |
| TerrainGen.WriteKeepsWrittenSlots | terrain_gen.py:244-251 | a write to slot k leaves every earlier-written slot valid |
| TerrainGen.WriteKeepsOtherBytes | terrain_gen.py:244-251 | a write to slot k changes no byte outside slot k, and any gap it opens is zero |
| TerrainGen.NothingToWriteUnchanged | terrain_gen.py:291-294 | when every canonical slot is already valid, nothing is written and the file comes out as it went in |
| TerrainGen.FreshFileComplete | terrain_gen.py:279-323 | a run on a new file leaves a valid block in every canonical slot before the northern edge |
| TerrainGen.SkipSlot | terrain_gen.py:291-294 | a slot that needs no write is skipped without changing the file |
| TerrainGen.EmptyAssembled | terrain_gen.py:281 | before the first slot nothing has been written |
| TerrainGen.CacheBeforeAgree | terrain_gen.py:277-316 | the cache as the loop reaches slot n depends only on which slots before n were written |
| TerrainGen.TileBeforeSlotAgree | terrain_gen.py:301-316 | `tile` as the loop reaches slot n depends only on the slots written before n and their blocks |
| TerrainGen.ChainStep | terrain_gen.py:293-323 | writing slot k from the cache and `tile` the earlier slots left keeps every written block tied to that history; the cache then gains slot k's degrees and `tile` is what its last sample left |
| TerrainGen.FirstWrittenStartsEmpty | terrain_gen.py:277-302 | the first slot the run writes starts from an empty cache and no `tile`, so its first sample fetches its own tile |
| TerrainGen.NothingWrittenBefore | terrain_gen.py:277 | until a slot is written the cache is empty and `tile` unset |
| TerrainGen.HistorySkip | terrain_gen.py:291-294 | a skipped slot leaves the cache, `tile` and the blocks recorded so far as they were |
| OfflineCheck.CheckBlock | offline_check.py:21-52 | any slice that is not 1821 bytes is rejected; an accepted block returns its own header corner |
| OfflineCheck.CrcIgnoresPadding | offline_check.py:44-46 | cutting off the padding changes neither CRC, since both cover the first 1821 bytes |
| OfflineCheck.ScannerAgreesWithGenerator | offline_check.py:21-52 | the scanner raises NameError iff lat, lon and crc are all 0; otherwise it accepts a slot iff the generator's test passes against the slot's own corner for version 1 and the corner is within 2 degrees of the file's degree |
| OfflineCheck.SealedBlockAccepted | offline_check.py:21-52 | what the generator writes passes the scanner, returning the block's corner |
| OfflineCheck.ZeroSliceRaises | offline_check.py:26-30 | an all-zero slice, such as a gap the generator left, makes `check_filled` raise NameError |
| OfflineCheck.ZerosDecode | offline_check.py:26 | zero bytes unpack to 0 |
| OfflineCheck.ParseField | offline_check.py:83-86 | `int(field)` succeeds exactly on a non-empty string of digits |
| OfflineCheck.ParseTileName | offline_check.py:83-88 | the name parses exactly when both number fields are digits |
| OfflineCheck.ParseTileStem | offline_check.py:83-88 | parsing the stem of (lat, lon), whatever follows it, gives the signed clamped degree |
| OfflineCheck.ParseDataFileName | offline_check.py:77-88 | for -99 <= lat <= 99 and -999 <= lon <= 999, a generated file is checked and its name parses to exactly (lat, lon) |
| OfflineCheck.TileStemInjective | offline_check.py:83-88 | distinct degrees in range never share a file name |
| OfflineCheck.BlockCount | offline_check.py:108-115 | a count exists exactly when the length is a multiple of 2048, or is 227 short of one |
| OfflineCheck.BlockCountConventions | offline_check.py:104-115 | the two length conventions never both apply, and the count is the one whose convention the length follows |
| OfflineCheck.BlockSlicesComplete | offline_check.py:134-137 | under either convention every counted block is a complete 1821-byte slice |
| OfflineCheck.MinBlocks | offline_check.py:117-122 | the lower bound is never below 200 |
| OfflineCheck.BoundsMonotone | offline_check.py:117-123 | the lower bound is 200 iff abs(lat) >= 78, and spacing 30 multiplies it by 9 |
| OfflineCheck.BadSizeOutOfBounds | offline_check.py:108-127 | a bad file size leaves the count at 0, which is also out of bounds |
| OfflineCheck.StopsAtUnique | offline_check.py:134-143 | a scan has one stopping point |
| OfflineCheck.AcceptedSnoc | offline_check.py:145-149 | one more passing block appends its corner |
| OfflineCheck.ExtremesStep | offline_check.py:145-149 | when one more block passes, updating min/max with its corner keeps them the extremes of the passing corners |
| OfflineCheck.MinSnoc | offline_check.py:146 | `min` with one more value is the minimum of the longer list |
| OfflineCheck.MaxSnoc | offline_check.py:147 | `max` with one more value is the maximum of the longer list |
| OfflineCheck.LeastOf | offline_check.py:130-146 | the least of the starting value and the corners seen |
| OfflineCheck.GreatestOf | offline_check.py:131-147 | the greatest of the starting value and the corners seen |
| OfflineCheck.ExtremesUnique | offline_check.py:130-149 | the extremes are determined by the values seen |
| OfflineCheck.SpanFromExtremes | offline_check.py:145-163 | the span test on the running min/max is the span test on the extremes of the passing corners |
| OfflineCheck.FirstBlockBadSpanFails | offline_check.py:130-163 | with no block passed the extremes stay 180 degrees apart, so the span check fails as well |
| OfflineCheck.ScanBlocks | offline_check.py:130-149 | the scan stops at the first block that does not pass (raising on NameError), and min/max are the extremes of the passing blocks' corners and the starting values |
| OfflineCheck.CheckFile | offline_check.py:74-166 | per file: a parse or read failure adds 1; an empty file adds 0; otherwise one error each for a bad size, out-of-bounds count, a failed block, and a bad span, unless NameError escapes |
| OfflineCheck.GoodFileNoErrors | offline_check.py:125-143 | when every counted block passes, the scan covers all of them |
| App.Clamp | app.py:48-49 | the result is within [smallest, largest], equals n inside it, sits at the bound n crossed, and is `smallest` when the bounds cross |
| App.GetDatFileFields | app.py:51-61 | 14 characters ending ".DAT.gz", 'S' iff lat < 0, 'W' iff lon < 0, and the scanner parses it back to the clamped degree |
| App.GetDatFileExamples | app.py:51-61 | (60, 167) gives "N60E167.DAT.gz" and (-36, 149) gives "S36E149.DAT.gz", the names the web tests expect in the download |
| App.Validate | app.py:120-134 | a request passes iff all fields convert, -90 < lat < 90, -180 < lon < 180 and the version is 1 or 3; the radius is then `clamp(radius, 1, 400)`: in [1, 400] and unchanged when already inside |
| App.VisitedStep | app.py:148-156 | visiting (dx, dy) adds its tag to `done` |
| App.VisitedRow | app.py:148-149 | the end of one row is the start of the next |
| App.VisitedAll | app.py:148-149 | after the loops `done` holds the tag of every point in [-radius, radius)^2 |
| App.VisitedNone | app.py:144 | `done` starts empty |
| App.VisitTag | app.py:154-159 | a tag already in `done` changes nothing; a new tag is added to `done` and, when abs(lat) <= 84, appended with its path to the end of the list, else it sets `outsideLat` |
| App.KeptTags | app.py:148-159 | the tags listed for a scan have no repeats and are exactly the scanned tags within 84 degrees |
| App.KeptTagsSnoc | app.py:154-159 | one more scanned tag is appended exactly when it is new and within 84 degrees: first occurrences in scan order |
| App.ScanStep | app.py:149 | visiting (dx, dy) appends its tag to the tags met so far |
| App.ScanRowEnd | app.py:148-149 | the tags met by the end of row dx are those met before row dx + 1 |
| App.ScanEnds | app.py:148-149 | the scan starts having met nothing and ends having met every tag in row-major order |
| App.ScanRowMembers | app.py:149 | row dx from lo to hi meets exactly the tags of its points |
| App.ScanRowsMembers | app.py:148-149 | the whole rows before row dx meet exactly the tags of their points |
| App.ScanStateStep | app.py:150-159 | visiting one point keeps `done`, the list and `outsideLat` equal to what the scan so far determines |
| App.ScanStateRow | app.py:148-149 | the state at the end of row dx is the state at the start of row dx + 1 |
| App.ScanRowTiles | app.py:149-159 | the `dy` loop visits the 2 radius points of row dx and leaves the state the scan up to the end of that row determines |
| App.CollectTiles | app.py:144-159 | (2 radius)^2 points visited; the tags listed are the first occurrences within 84 degrees of the row-major scan, in scan order, with no repeats and exactly the scanned tags within 84 degrees; each path is its tag's; `outsideLat` iff some tag lies beyond |
| App.DedupFrom | app.py:164 | no repeats, and exactly the elements of the list not already in `seen`; the order is stated by `App.DedupFromSnoc` |
| App.Dedup | app.py:164 | `list(dict.fromkeys(xs))` has no repeats and the same elements as xs; the order is stated by `App.DedupSnoc` |
| App.DedupFromSnoc | app.py:164 | with `seen` taken, one more element is appended exactly when it is neither in the list so far nor in `seen` |
| App.DedupSnoc | app.py:164 | `list(dict.fromkeys(xs + [x]))` is the list for xs followed by x when x is new: first occurrences in input order |
| App.DedupFromNoDup | app.py:164 | on a list without repeats the pass changes nothing |
| App.ListedNamesDistinct | app.py:154-164 | distinct in-range tags give distinct paths, so the de-duplication after the loop removes nothing |
| App.Generate | app.py:117-164 | bad input is rejected; otherwise the list has no repeats and names exactly the scanned degrees within 84 degrees, and `outsideLat` is set iff some scanned degree lies beyond; the list is `list(dict.fromkeys(...))` of the paths of the first occurrences in row-major scan order |

## Left out

- The single-precision geodesy is not modelled: `to_float32`, `longitude_scale`, `add_offset`, `get_distance_NE_e7` and `east_blocks` (terrain_gen.py:42-92). It is a parameter (`Geo.Projection`; `offsetTag` in `App.Generate`), because its results depend on IEEE float rounding and `cos`. The float round trip of a block's corner (`int(lat * 1.0e7)` of `lat_e7 * 1.0e-7`, terrain_gen.py:147-148, 288-289, 297), which can lose one unit, is part of that parameter: the model passes the integer corner directly.
- Float comparisons are stated exactly over 1e-7 degree integers: the northern-edge test (terrain_gen.py:286), `math.floor(lat_e7*1e-7)`, and the scanner's 2-degree test (offline_check.py:34). Float rounding at the exact boundary is not modelled.
- OfflineCheck.RangeOk: the tile-span bands (offline_check.py:150-163) are compared in 1e-7 degree integers (9 900 000 to 10 100 000 for latitude, and so on). The rounding of `lat_min * 1.0e-7` before subtraction is not modelled.
- TerrainGen.CreateDegree: termination rests on a ghost slot number `north` at or beyond the northern edge. In the source, termination depends on the float latitude eventually reaching the next degree.
- TerrainGen.CreateDegree: an online downloader is required to deliver every tile. The `time.sleep` polling loop for tiles still downloading (terrain_gen.py:308-312) is collapsed, since it ends only if the download does.
- File-system effects are modelled on a map from path to contents: `open`, `os.mkdir`, `rename`, `remove`, `close`. Errors from the operating system itself are not modelled, other than the missing temporary file at rename.
- gzip decompression, `os.listdir`, the per-file loop of the scanner's main program, and command-line parsing are not modelled. `OfflineCheck.CheckFile` models one iteration, with the file's contents as a parameter (None when reading raised).
- All `print` output and verbose logging are not modelled.
- The web layer is not modelled: Flask routes, templates, the rate limiter, the UUID, `compressFiles` (zip and download), and the 24-hour cleanup.
- offline_gen.py's worker pool, `get_size`, and compression are not modelled; only `datafile` is.
- The version is an integer in the model. offline_gen.py, the only caller of `create_degree` in the repository, passes its `--format` string ("4.1" or "pre-4.1") as the version (offline_gen.py:26, 91, 133). `GridBlock` stores it unchanged (terrain_gen.py:134), and `struct.pack` at terrain_gen.py:237 would then raise `struct.error` at the first write. The model covers integer versions only, for which `GridCodec.Pack` states when packing succeeds.
- OfflineCheck.ParseField accepts digits only. Python's `int` also accepts surrounding whitespace, a sign and underscores; those names are out of scope.
- App.GetDatFile and Naming.TileStem take the integer degree. `int(lat)` of a float argument (truncation toward zero) happens at the callers, which pass integers in every modelled path.
- App.Generate: `outsideLat` is a boolean; the source's `None` is modelled as false.
- App.Generate: the version is validated but not used for the list, which always uses the version-1 tile folder (app.py:159). `add_offset` receives the string "4.1" as its version (app.py:150), so the non-version-1 formula applies; this is inside the abstract `offsetTag`.
- The test at app_test.py:135 expects `S36E149` for latitude -35.36, which does not follow from `round` at app.py:151. The model states only that the tag (-36, 149) is named `S36E149`, not which tag that request scans.
- The `format` argument of the scanner's `check_filled` is never read (offline_check.py:21), so `OfflineCheck.CheckBlock` has no such parameter. The version is always compared with 1.
