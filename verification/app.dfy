/**
 * The web front end's request handling: validating a request, and listing
 * the compressed degree files that cover a square of (2 radius)^2 points
 * 1 km apart around the requested position.
 */
module App {
  import opened Bytes
  import opened Wrappers
  import opened Naming
  import OfflineCheck

  /** `clamp`: n pulled into [smallest, largest]; `smallest` wins when the bounds cross. */
  function Clamp(n: int, smallest: int, largest: int): (r: int)
    ensures smallest <= largest ==> smallest <= r <= largest
    ensures smallest <= n <= largest ==> r == n
    ensures n < smallest ==> r == smallest
    ensures smallest <= largest && largest < n ==> r == largest
    ensures largest < smallest ==> r == smallest
  {
    Max(smallest, Min(n, largest))
  }

  /** `getDatFile`: the name of the compressed degree file, e.g. "N60E167.DAT.gz". */
  function GetDatFile(lat: int, lon: int): string
  {
    TileStem(lat, lon) + ".DAT.gz"
  }

  /**
   * The name carries the hemispheres and the clamped magnitudes, ends in
   * ".DAT.gz", and the scanner reads the degree back from it.
   */
  lemma GetDatFileFields(lat: int, lon: int)
    ensures var s := GetDatFile(lat, lon);
      && |s| == 14 && s[7..] == ".DAT.gz"
      && (s[0] == 'S' <==> lat < 0) && (s[0] == 'N' <==> lat >= 0)
      && (s[3] == 'W' <==> lon < 0) && (s[3] == 'E' <==> lon >= 0)
      && OfflineCheck.IsTileFile(s)
      && OfflineCheck.ParseTileName(s)
         == Some(((if lat < 0 then -1 else 1) * Min(Abs(lat), 99), (if lon < 0 then -1 else 1) * Min(Abs(lon), 999)))
  {
    var s := GetDatFile(lat, lon);
    TileStemFields(lat, lon);
    OfflineCheck.ParseTileStem(lat, lon, ".DAT.gz");
    assert s[|s| - 6..] == "DAT.gz";
  }

  /** Two names the test suite's downloads contain. */
  lemma GetDatFileExamples()
    ensures GetDatFile(60, 167) == "N60E167.DAT.gz"
    ensures GetDatFile(-36, 149) == "S36E149.DAT.gz"
  {
    StemExamples();
  }

  // ---------------------------------------------------------------------
  // Input checks
  // ---------------------------------------------------------------------

  /**
   * The form fields after `float` / `int` conversion; None where the
   * conversion raised.
   */
  datatype Request = Request(lat: Option<real>, lon: Option<real>, radius: Option<int>, version: Option<int>)

  /** A request that passed the checks, with the radius clamped. */
  datatype Params = Params(lat: real, lon: real, radius: int, version: int)

  /**
   * The `try` block of `generate`: every field converts, the position lies
   * strictly inside (-90, 90) x (-180, 180), the version is 1 or 3, and the
   * radius is clamped to [1, 400]. None means "Error with input".
   */
  function Validate(req: Request): (r: Option<Params>)
    ensures r.Some? <==>
      && req.lat.Some? && req.lon.Some? && req.radius.Some? && req.version.Some?
      && -90.0 < req.lat.value < 90.0 && -180.0 < req.lon.value < 180.0
      && (req.version.value == 1 || req.version.value == 3)
    ensures r.Some? ==>
      && r.value.lat == req.lat.value && r.value.lon == req.lon.value && r.value.version == req.version.value
      && 1 <= r.value.radius <= 400
      && (1 <= req.radius.value <= 400 ==> r.value.radius == req.radius.value)
      && r.value.radius == Clamp(req.radius.value, 1, 400)
  {
    if req.lat.None? || req.lon.None? || req.radius.None? || req.version.None? then None
    else if !(req.lat.value < 90.0 && req.lon.value < 180.0 && req.lat.value > -90.0 && req.lon.value > -180.0) then None
    else if req.version.value !in {1, 3} then None
    else Some(Params(req.lat.value, req.lon.value, Clamp(req.radius.value, 1, 400), req.version.value))
  }

  // ---------------------------------------------------------------------
  // The tile list
  // ---------------------------------------------------------------------

  /** `os.path.join(tile_path1, getDatFile(lat_int, lon_int))`. */
  function TilePath(tilePath: string, tag: (int, int)): string
  {
    tilePath + "/" + GetDatFile(tag.0, tag.1)
  }

  /** Every degree tag the scan meets: `tagOf(dx, dy)` for dx, dy in [-radius, radius). */
  ghost function AllTags(tagOf: (int, int) -> (int, int), radius: int): set<(int, int)>
  {
    set dx, dy | -radius <= dx < radius && -radius <= dy < radius :: tagOf(dx, dy)
  }

  /** The tags of the points the scan has visited before (dx, dy), row by row. */
  ghost function VisitedTags(tagOf: (int, int) -> (int, int), radius: int, dx: int, dy: int): set<(int, int)>
  {
    set t | t in ScanBefore(tagOf, radius, dx, dy)
  }

  /** The tags of row dx of the scan for dy in [lo, hi), in the order the scan meets them. */
  ghost function ScanRow(tagOf: (int, int) -> (int, int), dx: int, lo: int, hi: int): seq<(int, int)>
    decreases hi - lo
  {
    if hi <= lo then [] else ScanRow(tagOf, dx, lo, hi - 1) + [tagOf(dx, hi - 1)]
  }

  /** The tags of the whole rows before row dx, in scan order. */
  ghost function ScanRows(tagOf: (int, int) -> (int, int), radius: int, dx: int): seq<(int, int)>
    decreases dx + radius
  {
    if dx <= -radius then [] else ScanRows(tagOf, radius, dx - 1) + ScanRow(tagOf, dx - 1, -radius, radius)
  }

  /** The tags the scan meets before point (dx, dy), in the order it meets them. */
  ghost function ScanBefore(tagOf: (int, int) -> (int, int), radius: int, dx: int, dy: int): seq<(int, int)>
  {
    ScanRows(tagOf, radius, dx) + ScanRow(tagOf, dx, -radius, dy)
  }

  /** Every tag the scan meets, in the order it meets them: row dx = -radius first, dy rising within a row. */
  ghost function ScanOrder(tagOf: (int, int) -> (int, int), radius: int): seq<(int, int)>
  {
    ScanRows(tagOf, radius, radius)
  }

  /**
   * The tags the loop lists for the tags `scan` met in this order: each
   * tag at its first occurrence, when it lies within 84 degrees of the
   * equator.
   */
  ghost function KeptTags(scan: seq<(int, int)>): (r: seq<(int, int)>)
    ensures NoDup(r)
    ensures forall t :: t in r <==> t in scan && Abs(t.0) <= 84
  {
    if |scan| == 0 then []
    else
      var prev, t := scan[..|scan| - 1], scan[|scan| - 1];
      assert scan == prev + [t];
      KeptTags(prev) + (if t !in prev && Abs(t.0) <= 84 then [t] else [])
  }

  /** Meeting one more tag lists it at the end exactly when it is new and within 84 degrees. */
  lemma KeptTagsSnoc(scan: seq<(int, int)>, t: (int, int))
    ensures KeptTags(scan + [t]) == KeptTags(scan) + (if t !in scan && Abs(t.0) <= 84 then [t] else [])
  {
    assert (scan + [t])[..|scan|] == scan;
  }

  /** Visiting (dx, dy) appends its tag to the tags met so far. */
  lemma ScanStep(tagOf: (int, int) -> (int, int), radius: int, dx: int, dy: int)
    requires -radius <= dy
    ensures ScanBefore(tagOf, radius, dx, dy + 1) == ScanBefore(tagOf, radius, dx, dy) + [tagOf(dx, dy)]
  {
    var rows, row := ScanRows(tagOf, radius, dx), ScanRow(tagOf, dx, -radius, dy);
    assert rows + (row + [tagOf(dx, dy)]) == (rows + row) + [tagOf(dx, dy)];
  }

  /** The tags met by the end of row dx are those met before row dx + 1. */
  lemma ScanRowEnd(tagOf: (int, int) -> (int, int), radius: int, dx: int)
    requires -radius <= dx
    ensures ScanBefore(tagOf, radius, dx, radius) == ScanBefore(tagOf, radius, dx + 1, -radius)
  {
    assert ScanBefore(tagOf, radius, dx + 1, -radius) == ScanRows(tagOf, radius, dx + 1) + [];
  }

  /** The scan starts having met nothing and ends having met every tag in scan order. */
  lemma ScanEnds(tagOf: (int, int) -> (int, int), radius: int)
    requires radius >= 0
    ensures ScanBefore(tagOf, radius, -radius, -radius) == []
    ensures ScanBefore(tagOf, radius, radius, -radius) == ScanOrder(tagOf, radius)
  {
    assert ScanRow(tagOf, radius, -radius, -radius) == [];
  }

  /** `os.path.join(tile_path1, getDatFile(...))` of each tag, in order. */
  function TilePaths(tilePath: string, tags: seq<(int, int)>): (r: seq<string>)
    ensures |r| == |tags| && forall i | 0 <= i < |tags| :: r[i] == TilePath(tilePath, tags[i])
  {
    seq(|tags|, i requires 0 <= i < |tags| => TilePath(tilePath, tags[i]))
  }

  predicate NoDup<T(==)>(xs: seq<T>)
  {
    forall i, j | 0 <= i < j < |xs| :: xs[i] != xs[j]
  }

  lemma VisitedNone(tagOf: (int, int) -> (int, int), radius: int)
    requires radius >= 0
    ensures VisitedTags(tagOf, radius, -radius, -radius) == {}
  {
    ScanEnds(tagOf, radius);
  }

  /** Visiting (dx, dy) adds its tag. */
  lemma VisitedStep(tagOf: (int, int) -> (int, int), radius: int, dx: int, dy: int)
    requires -radius <= dy
    ensures VisitedTags(tagOf, radius, dx, dy + 1) == VisitedTags(tagOf, radius, dx, dy) + {tagOf(dx, dy)}
  {
    ScanStep(tagOf, radius, dx, dy);
  }

  /** The end of one row is the start of the next. */
  lemma VisitedRow(tagOf: (int, int) -> (int, int), radius: int, dx: int)
    requires -radius <= dx
    ensures VisitedTags(tagOf, radius, dx, radius) == VisitedTags(tagOf, radius, dx + 1, -radius)
  {
    ScanRowEnd(tagOf, radius, dx);
  }

  /** Row dx from lo to hi meets exactly the tags of its points. */
  lemma {:induction false} ScanRowMembers(tagOf: (int, int) -> (int, int), dx: int, lo: int, hi: int, t: (int, int))
    ensures t in ScanRow(tagOf, dx, lo, hi) <==> exists y | lo <= y < hi :: t == tagOf(dx, y)
    decreases hi - lo
  {
    if lo < hi {
      ScanRowMembers(tagOf, dx, lo, hi - 1, t);
      if t == tagOf(dx, hi - 1) {
        assert lo <= hi - 1 < hi;
      }
    }
  }

  /** The whole rows before row dx meet exactly the tags of their points. */
  lemma {:induction false} ScanRowsMembers(tagOf: (int, int) -> (int, int), radius: int, dx: int, t: (int, int))
    ensures t in ScanRows(tagOf, radius, dx) <==>
            exists x, y | -radius <= x < dx && -radius <= y < radius :: t == tagOf(x, y)
    decreases dx + radius
  {
    if -radius < dx {
      ScanRowsMembers(tagOf, radius, dx - 1, t);
      ScanRowMembers(tagOf, dx - 1, -radius, radius, t);
      if t in ScanRow(tagOf, dx - 1, -radius, radius) {
        var y :| -radius <= y < radius && t == tagOf(dx - 1, y);
        assert -radius <= dx - 1 < dx;
      }
      if t in ScanRows(tagOf, radius, dx) {
        var x, y :| -radius <= x < dx && -radius <= y < radius && t == tagOf(x, y);
        if x < dx - 1 {
          assert t in ScanRows(tagOf, radius, dx - 1);
        } else {
          assert t in ScanRow(tagOf, dx - 1, -radius, radius);
        }
      }
    }
  }

  lemma VisitedAll(tagOf: (int, int) -> (int, int), radius: int)
    ensures VisitedTags(tagOf, radius, radius, -radius) == AllTags(tagOf, radius)
  {
    var a, b := VisitedTags(tagOf, radius, radius, -radius), AllTags(tagOf, radius);
    assert ScanBefore(tagOf, radius, radius, -radius) == ScanRows(tagOf, radius, radius);
    forall t | t in a ensures t in b {
      ScanRowsMembers(tagOf, radius, radius, t);
    }
    forall t | t in b ensures t in a {
      ScanRowsMembers(tagOf, radius, radius, t);
    }
  }

  /**
   * The state of the scan against the tags in `done`: `tags` lists each
   * tag of `done` within 84 degrees of the equator once, `filelist` holds
   * their files in the same order, and `outsideLat` says whether `done`
   * holds any other tag.
   */
  ghost predicate Listed(tilePath: string, done: set<(int, int)>, filelist: seq<string>, outsideLat: bool, tags: seq<(int, int)>)
  {
    && NoDup(tags)
    && (forall t :: t in tags <==> t in done && Abs(t.0) <= 84)
    && |filelist| == |tags| && (forall i | 0 <= i < |tags| :: filelist[i] == TilePath(tilePath, tags[i]))
    && (outsideLat <==> exists t | t in done :: Abs(t.0) > 84)
  }

  /** One point of the scan: a tag not yet in `done` is recorded and listed, or flags `outsideLat`. */
  method VisitTag(tilePath: string, tag: (int, int), done: set<(int, int)>, filelist: seq<string>, outsideLat: bool,
                  ghost tags: seq<(int, int)>)
    returns (done': set<(int, int)>, filelist': seq<string>, outsideLat': bool, ghost tags': seq<(int, int)>)
    requires Listed(tilePath, done, filelist, outsideLat, tags)
    ensures done' == done + {tag}
    ensures Listed(tilePath, done', filelist', outsideLat', tags')
    ensures tags' == tags + (if tag !in done && Abs(tag.0) <= 84 then [tag] else [])
    ensures filelist' == filelist + (if tag !in done && Abs(tag.0) <= 84 then [TilePath(tilePath, tag)] else [])
    ensures outsideLat' == (outsideLat || (tag !in done && Abs(tag.0) > 84))
  {
    done', filelist', outsideLat', tags' := done, filelist, outsideLat, tags;
    if tag in done {
      assert done + {tag} == done;
      return;
    }
    done' := done + {tag};
    if Abs(tag.0) <= 84 {
      filelist' := filelist + [TilePath(tilePath, tag)];
      tags' := tags + [tag];
      assert forall t :: t in tags' <==> t in tags || t == tag;
    } else {
      outsideLat' := true;
    }
  }

  /**
   * The scan before point (dx, dy): `done` holds the tags met so far,
   * and `tags` / `filelist` list the first occurrences within 84 degrees
   * of the equator, in the order the scan met them.
   */
  ghost predicate ScanState(tilePath: string, tagOf: (int, int) -> (int, int), radius: int, dx: int, dy: int,
                            done: set<(int, int)>, filelist: seq<string>, outsideLat: bool,
                            tags: seq<(int, int)>)
  {
    && done == VisitedTags(tagOf, radius, dx, dy)
    && Listed(tilePath, done, filelist, outsideLat, tags)
    && tags == KeptTags(ScanBefore(tagOf, radius, dx, dy))
  }

  /** Visiting point (dx, dy) moves the scan on by one point. */
  lemma ScanStateStep(tilePath: string, tagOf: (int, int) -> (int, int), radius: int, dx: int, dy: int, next: int,
                      done: set<(int, int)>, filelist: seq<string>, outsideLat: bool,
                      tags: seq<(int, int)>,
                      done': set<(int, int)>, filelist': seq<string>, outsideLat': bool, tags': seq<(int, int)>)
    requires -radius <= dx < radius && -radius <= dy < radius && next == dy + 1
    requires ScanState(tilePath, tagOf, radius, dx, dy, done, filelist, outsideLat, tags)
    requires done' == done + {tagOf(dx, dy)} && Listed(tilePath, done', filelist', outsideLat', tags')
    requires tags' == tags + (if tagOf(dx, dy) !in done && Abs(tagOf(dx, dy).0) <= 84 then [tagOf(dx, dy)] else [])
    ensures ScanState(tilePath, tagOf, radius, dx, next, done', filelist', outsideLat', tags')
  {
    VisitedStep(tagOf, radius, dx, dy);
    ScanStep(tagOf, radius, dx, dy);
    KeptTagsSnoc(ScanBefore(tagOf, radius, dx, dy), tagOf(dx, dy));
    assert ScanState(tilePath, tagOf, radius, dx, dy + 1, done', filelist', outsideLat', tags');
  }

  /** The end of row dx is the start of row dx + 1. */
  lemma ScanStateRow(tilePath: string, tagOf: (int, int) -> (int, int), radius: int, dx: int, next: int,
                     done: set<(int, int)>, filelist: seq<string>, outsideLat: bool, tags: seq<(int, int)>)
    requires -radius <= dx && next == dx + 1
    requires ScanState(tilePath, tagOf, radius, dx, radius, done, filelist, outsideLat, tags)
    ensures ScanState(tilePath, tagOf, radius, next, -radius, done, filelist, outsideLat, tags)
  {
    VisitedRow(tagOf, radius, dx);
    ScanRowEnd(tagOf, radius, dx);
  }

  /** One more row of 2 radius points. */
  lemma RowsCounted(radius: int, dx: int, next: int)
    requires next == dx + 1
    ensures (dx + radius) * (2 * radius) + 2 * radius == (next + radius) * (2 * radius)
  {
  }

  /** The `for dy` loop of `generate` for row dx: visits its 2 radius points in order. */
  method ScanRowTiles(tilePath: string, radius: int, tagOf: (int, int) -> (int, int), dx: int,
                      done0: set<(int, int)>, filelist0: seq<string>, outsideLat0: bool,
                      ghost tags0: seq<(int, int)>)
    returns (done: set<(int, int)>, filelist: seq<string>, outsideLat: bool,
             ghost tags: seq<(int, int)>, ghost visits: nat)
    requires -radius <= dx < radius
    requires ScanState(tilePath, tagOf, radius, dx, -radius, done0, filelist0, outsideLat0, tags0)
    ensures ScanState(tilePath, tagOf, radius, dx, radius, done, filelist, outsideLat, tags)
    ensures visits == 2 * radius
  {
    done, filelist, outsideLat, tags, visits := done0, filelist0, outsideLat0, tags0, 0;
    var dy := -radius;
    while dy < radius
      invariant -radius <= dy <= radius
      invariant visits == dy + radius
      invariant ScanState(tilePath, tagOf, radius, dx, dy, done, filelist, outsideLat, tags)
    {
      var done', filelist', outsideLat', tags' := VisitTag(tilePath, tagOf(dx, dy), done, filelist, outsideLat, tags);
      var next := dy + 1;
      ScanStateStep(tilePath, tagOf, radius, dx, dy, next, done, filelist, outsideLat, tags, done', filelist', outsideLat', tags');
      done, filelist, outsideLat, tags := done', filelist', outsideLat', tags';
      visits := visits + 1;
      dy := next;
    }
    assert dy == radius;
  }

  /**
   * The nested `dx` / `dy` loops of `generate`: each point's tag is looked
   * up in `done`; a new tag within 84 degrees of the equator adds its file
   * to the list, any other new tag sets `outsideLat`. `tagOf` is the
   * rounded degree of `add_offset` by (dx, dy) km; `tags` are the degrees
   * listed, in the order the scan first meets them, and `visits` the
   * points scanned.
   */
  method CollectTiles(tilePath: string, radius: int, tagOf: (int, int) -> (int, int))
    returns (filelist: seq<string>, outsideLat: bool, ghost tags: seq<(int, int)>, ghost visits: nat)
    requires radius >= 0
    ensures visits == (2 * radius) * (2 * radius)
    ensures NoDup(tags)
    ensures forall t :: t in tags <==> t in AllTags(tagOf, radius) && Abs(t.0) <= 84
    ensures |filelist| == |tags| && forall i | 0 <= i < |tags| :: filelist[i] == TilePath(tilePath, tags[i])
    ensures outsideLat <==> exists t | t in AllTags(tagOf, radius) :: Abs(t.0) > 84
    ensures tags == KeptTags(ScanOrder(tagOf, radius))
  {
    filelist, outsideLat, tags, visits := [], false, [], 0;
    var done: set<(int, int)> := {};
    VisitedNone(tagOf, radius);
    ScanEnds(tagOf, radius);
    var dx := -radius;
    while dx < radius
      invariant -radius <= dx <= radius
      invariant visits == (dx + radius) * (2 * radius)
      invariant ScanState(tilePath, tagOf, radius, dx, -radius, done, filelist, outsideLat, tags)
    {
      ghost var rowVisits;
      done, filelist, outsideLat, tags, rowVisits := ScanRowTiles(tilePath, radius, tagOf, dx, done, filelist, outsideLat, tags);
      var next := dx + 1;
      ScanStateRow(tilePath, tagOf, radius, dx, next, done, filelist, outsideLat, tags);
      RowsCounted(radius, dx, next);
      visits := visits + rowVisits;
      dx := next;
    }
    assert dx == radius;
    VisitedAll(tagOf, radius);
  }

  /** `list(dict.fromkeys(xs))` with `seen` already taken: first occurrences, in order. */
  function DedupFrom(xs: seq<string>, seen: set<string>): (r: seq<string>)
    ensures NoDup(r)
    ensures forall x :: x in r <==> x in xs && x !in seen
  {
    if |xs| == 0 then []
    else if xs[0] in seen then DedupFrom(xs[1..], seen)
    else
      var rest := DedupFrom(xs[1..], seen + {xs[0]});
      assert forall i | 0 <= i < |rest| :: rest[i] != xs[0];
      [xs[0]] + rest
  }

  /** `list(dict.fromkeys(xs))`: every element once, nothing added or lost. */
  function Dedup(xs: seq<string>): (r: seq<string>)
    ensures NoDup(r)
    ensures forall x :: x in r <==> x in xs
  {
    DedupFrom(xs, {})
  }

  /**
   * First occurrences in input order: one more element is appended exactly
   * when it has not been seen yet.
   */
  lemma {:induction false} DedupFromSnoc(xs: seq<string>, x: string, seen: set<string>)
    ensures DedupFrom(xs + [x], seen) == DedupFrom(xs, seen) + (if x in xs || x in seen then [] else [x])
  {
    if |xs| > 0 {
      assert (xs + [x])[0] == xs[0];
      assert (xs + [x])[1..] == xs[1..] + [x];
      assert x in xs <==> x == xs[0] || x in xs[1..];
      if xs[0] in seen {
        DedupFromSnoc(xs[1..], x, seen);
      } else {
        DedupFromSnoc(xs[1..], x, seen + {xs[0]});
      }
    } else {
      assert DedupFrom([x], seen) == if x in seen then [] else [x] + DedupFrom([], seen + {x});
    }
  }

  /**
   * `list(dict.fromkeys(xs + [x]))` is `list(dict.fromkeys(xs))`, followed
   * by x if x is new: the list keeps the order in which elements first occur.
   */
  lemma DedupSnoc(xs: seq<string>, x: string)
    ensures Dedup(xs + [x]) == Dedup(xs) + (if x in xs then [] else [x])
  {
    DedupFromSnoc(xs, x, {});
  }

  /** On a list without repeats, removing duplicates changes nothing. */
  lemma {:induction false} DedupFromNoDup(xs: seq<string>, seen: set<string>)
    requires NoDup(xs) && forall i | 0 <= i < |xs| :: xs[i] !in seen
    ensures DedupFrom(xs, seen) == xs
  {
    if |xs| > 0 {
      assert forall i | 0 <= i < |xs[1..]| :: xs[1..][i] == xs[i + 1];
      DedupFromNoDup(xs[1..], seen + {xs[0]});
    }
  }

  /**
   * Degrees within the ranges a name can express get distinct file names,
   * so the `dict.fromkeys` pass after the loop removes nothing.
   */
  lemma ListedNamesDistinct(tilePath: string, tags: seq<(int, int)>, filelist: seq<string>)
    requires NoDup(tags)
    requires forall i | 0 <= i < |tags| :: Abs(tags[i].0) <= 99 && Abs(tags[i].1) <= 999
    requires |filelist| == |tags| && forall i | 0 <= i < |tags| :: filelist[i] == TilePath(tilePath, tags[i])
    ensures NoDup(filelist) && Dedup(filelist) == filelist
  {
    forall i, j | 0 <= i < j < |filelist| ensures filelist[i] != filelist[j] {
      if filelist[i] == filelist[j] {
        var a, b := tags[i], tags[j];
        var p := tilePath + "/";
        assert TilePath(tilePath, a)[|p|..|p| + 7] == TileStem(a.0, a.1);
        assert TilePath(tilePath, b)[|p|..|p| + 7] == TileStem(b.0, b.1);
        OfflineCheck.TileStemInjective(a.0, a.1, b.0, b.1);
      }
    }
    DedupFromNoDup(filelist, {});
  }

  /** The function `tagOf` of the scan around position (lat, lon). */
  function TagsAround(offsetTag: (real, real, int, int) -> (int, int), p: Params): (int, int) -> (int, int)
  {
    (dx, dy) => offsetTag(p.lat, p.lon, dx, dy)
  }

  /**
   * `generate` for a POST request up to the call of `compressFiles`:
   * rejects bad input; otherwise lists, once each, the file of every degree
   * within 84 degrees of the equator that the scan meets, and reports
   * whether it met any other. `offsetTag(lat, lon, dx, dy)` stands for the
   * rounded degree of `add_offset` by (dx, dy) km.
   */
  method Generate(req: Request, tilePath: string, offsetTag: (real, real, int, int) -> (int, int))
    returns (accepted: bool, filelist: seq<string>, outsideLat: bool)
    ensures accepted <==> Validate(req).Some?
    ensures !accepted ==> filelist == [] && !outsideLat
    ensures accepted ==>
      var all := AllTags(TagsAround(offsetTag, Validate(req).value), Validate(req).value.radius);
      && NoDup(filelist)
      && (forall t | t in all && Abs(t.0) <= 84 :: TilePath(tilePath, t) in filelist)
      && (forall f | f in filelist :: exists t | t in all :: Abs(t.0) <= 84 && f == TilePath(tilePath, t))
      && (outsideLat <==> exists t | t in all :: Abs(t.0) > 84)
    ensures accepted ==>
      var p := Validate(req).value;
      filelist == Dedup(TilePaths(tilePath, KeptTags(ScanOrder(TagsAround(offsetTag, p), p.radius))))
  {
    var p := Validate(req);
    if p.None? {
      return false, [], false;
    }
    var listed;
    ghost var tags, visits;
    listed, outsideLat, tags, visits := CollectTiles(tilePath, p.value.radius, TagsAround(offsetTag, p.value));
    assert listed == TilePaths(tilePath, tags);
    filelist := Dedup(listed);
    accepted := true;
    forall t | t in AllTags(TagsAround(offsetTag, p.value), p.value.radius) && Abs(t.0) <= 84
      ensures TilePath(tilePath, t) in filelist
    {
      var i :| 0 <= i < |tags| && tags[i] == t;
      assert listed[i] == TilePath(tilePath, t);
    }
    forall f | f in filelist
      ensures exists t | t in AllTags(TagsAround(offsetTag, p.value), p.value.radius) :: Abs(t.0) <= 84 && f == TilePath(tilePath, t)
    {
      var i :| 0 <= i < |listed| && listed[i] == f;
      assert tags[i] in tags;
    }
  }
}
