/**
 * Names of the degree files: a hemisphere letter and a zero-padded
 * magnitude for latitude (2 digits, clamped to 99) and longitude
 * (3 digits, clamped to 999), e.g. "S35E149". The generator's `DataFile`,
 * the bulk generator's `datafile` and the web front end's `getDatFile`
 * all format the same stem; the suffix and folder differ.
 */
module Naming {
  import opened Bytes

  function Digit(d: int): (c: char)
    requires 0 <= d < 10
    ensures '0' <= c <= '9'
  {
    ('0' as int + d) as char
  }

  predicate IsDigit(c: char)
  {
    '0' <= c <= '9'
  }

  /** The value of a string of decimal digits, most significant first. */
  function DigitsValue(s: string): nat
    requires forall i | 0 <= i < |s| :: IsDigit(s[i])
  {
    if |s| == 0 then 0
    else
      assert IsDigit(s[|s| - 1]);
      10 * DigitsValue(s[..|s| - 1]) + (s[|s| - 1] as int - '0' as int)
  }

  /** `"%02u" % n` for n below 100: exactly two digits. */
  function Pad2(n: nat): (s: string)
    requires n < 100
    ensures |s| == 2 && IsDigit(s[0]) && IsDigit(s[1])
  {
    [Digit(n / 10), Digit(n % 10)]
  }

  /** `"%03u" % n` for n below 1000: exactly three digits. */
  function Pad3(n: nat): (s: string)
    requires n < 1000
    ensures |s| == 3 && IsDigit(s[0]) && IsDigit(s[1]) && IsDigit(s[2])
  {
    [Digit(n / 100), Digit(n / 10 % 10), Digit(n % 10)]
  }

  lemma Pad2Value(n: nat)
    requires n < 100
    ensures DigitsValue(Pad2(n)) == n
  {
    var s := Pad2(n);
    assert s[..1][..0] == [];
    assert DigitsValue(s[..1]) == n / 10;
  }

  lemma Pad3Value(n: nat)
    requires n < 1000
    ensures DigitsValue(Pad3(n)) == n
  {
    var s := Pad3(n);
    assert s[..1][..0] == [];
    assert s[..2][..1] == s[..1];
    assert DigitsValue(s[..1]) == n / 100;
    assert DigitsValue(s[..2]) == n / 10;
  }

  /** Latitude letter: 'S' for negative, 'N' otherwise. */
  function LatLetter(lat: int): char
  {
    if lat < 0 then 'S' else 'N'
  }

  /** Longitude letter: 'W' for negative, 'E' otherwise. */
  function LonLetter(lon: int): char
  {
    if lon < 0 then 'W' else 'E'
  }

  /**
   * `"%c%02u%c%03u" % (NS, min(abs(int(lat)), 99), EW, min(abs(int(lon)), 999))`.
   */
  function TileStem(lat: int, lon: int): string
  {
    [LatLetter(lat)] + Pad2(Min(Abs(lat), 99)) + [LonLetter(lon)] + Pad3(Min(Abs(lon), 999))
  }

  /**
   * The stem is 7 characters: the hemisphere letters at 0 and 3 follow the
   * signs, and the digit fields hold the clamped magnitudes.
   */
  lemma TileStemFields(lat: int, lon: int)
    ensures var s := TileStem(lat, lon);
      && |s| == 7
      && (s[0] == 'S' <==> lat < 0) && (s[0] == 'N' <==> lat >= 0)
      && (s[3] == 'W' <==> lon < 0) && (s[3] == 'E' <==> lon >= 0)
      && (forall i | i in {1, 2, 4, 5, 6} :: IsDigit(s[i]))
      && DigitsValue(s[1..3]) == Min(Abs(lat), 99)
      && DigitsValue(s[4..7]) == Min(Abs(lon), 999)
  {
    var latField := Pad2(Min(Abs(lat), 99));
    var lonField := Pad3(Min(Abs(lon), 999));
    Pad2Value(Min(Abs(lat), 99));
    Pad3Value(Min(Abs(lon), 999));
    var s := TileStem(lat, lon);
    assert s[1..3] == latField && s[4..7] == lonField;
  }

  /** `DataFile.name` and `datafile(lat, lon, folder)`: the degree file inside `folder`. */
  function DataFilePath(folder: string, lat: int, lon: int): string
  {
    folder + "/" + TileStem(lat, lon) + ".DAT"
  }

  /**
   * The path is the folder, a slash, the 7-character stem and ".DAT": the
   * same for the generator's file objects and the bulk generator.
   */
  lemma DataFilePathShape(folder: string, lat: int, lon: int)
    ensures var p := DataFilePath(folder, lat, lon);
      && |p| == |folder| + 12
      && p[..|folder| + 1] == folder + "/"
      && p[|folder| + 1..|folder| + 8] == TileStem(lat, lon)
      && p[|folder| + 8..] == ".DAT"
  {
    TileStemFields(lat, lon);
    var p := DataFilePath(folder, lat, lon);
    assert p == (folder + "/") + TileStem(lat, lon) + ".DAT";
  }

  /** `DataFile.tmpname`: where an unfinished degree file is written. */
  function TempPath(folder: string, lat: int, lon: int): string
  {
    DataFilePath(folder, lat, lon) + ".tmp"
  }

  /** The temporary file never shares its path with the finished one. */
  lemma TempPathDistinct(folder: string, lat: int, lon: int)
    ensures TempPath(folder, lat, lon) != DataFilePath(folder, lat, lon)
  {
    assert |TempPath(folder, lat, lon)| == |DataFilePath(folder, lat, lon)| + 4;
  }

  /** Concrete names the test suite and the documentation use. */
  lemma StemExamples()
    ensures TileStem(60, 167) == "N60E167"
    ensures TileStem(-35, 149) == "S35E149"
    ensures TileStem(-36, 149) == "S36E149"
  {
  }
}
