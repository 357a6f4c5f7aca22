/**
  The Open Location Code of src/gps/GeoCoord.cpp: longitude normalisation, scaling to integers, and
  the digit loops. Degrees are exact reals here; the firmware rounds them to doubles.
*/
module LocationCode {
  import opened Modular

  const ALPHABET := "23456789CFGHJMPQRVWX"
  const CODE_LEN := 11
  const SEPARATOR := '+'
  const PAIRS := 5

  /** The scaled grid: 2.5e7 steps a degree of latitude, 8.192e6 a degree of longitude. */
  const LAT_STEPS: int := 25000000
  const LNG_STEPS: int := 8192000
  const LAT_END: int := 180 * LAT_STEPS
  const LNG_END: int := 360 * LNG_STEPS

  /** Scaled steps in one cell of a ten-digit code, which is 1/8000 of a degree both ways. */
  const LAT_CELL := 3125
  const LNG_CELL := 1024

  // ---------------------------------------------------------------- digits

  function Symbol(digit: nat): char
    requires digit < 20
  {
    ALPHABET[digit]
  }

  lemma SymbolsDistinct(d: nat, e: nat)
    requires d < 20 && e < 20 && Symbol(d) == Symbol(e)
    ensures d == e
  {
  }

  ghost predicate IsSymbol(c: char) {
    exists d :: 0 <= d < 20 && Symbol(d) == c
  }

  ghost function DigitOf(c: char): (d: nat)
    requires IsSymbol(c)
    ensures d < 20 && Symbol(d) == c
  {
    var d: nat :| d < 20 && Symbol(d) == c;
    d
  }

  lemma DigitOfSymbol(d: nat)
    requires d < 20
    ensures IsSymbol(Symbol(d)) && DigitOf(Symbol(d)) == d
  {
    SymbolsDistinct(d, DigitOf(Symbol(d)));
  }

  /** v divided k times by d, each time rounding down, as the loops do it. */
  function Dropped(v: nat, d: nat, k: nat): nat
    requires d > 0
  {
    if k == 0 then v else Dropped(v, d, k - 1) / d
  }

  // ---------------------------------------------------------------- the meaning of a code

  /** Where the k-th least significant digits of latitude and longitude stand. */
  function LatPlace(k: nat): nat
    requires k < PAIRS
  {
    if k == 0 then 9 else 8 - 2 * k
  }

  function LngPlace(k: nat): nat
    requires k < PAIRS
  {
    if k == 0 then 10 else 9 - 2 * k
  }

  ghost predicate WellFormedCode(code: string) {
    && |code| == CODE_LEN && code[8] == SEPARATOR
    && forall i :: 0 <= i < CODE_LEN && i != 8 ==> IsSymbol(code[i])
  }

  /** The value of five base-20 digits, most significant first. */
  function Horner(d4: nat, d3: nat, d2: nat, d1: nat, d0: nat): nat {
    (((d4 * 20 + d3) * 20 + d2) * 20 + d1) * 20 + d0
  }

  /** The cell a code names, in cells from the south pole. */
  ghost function LatCell(code: string): nat
    requires WellFormedCode(code)
  {
    Horner(DigitOf(code[0]), DigitOf(code[2]), DigitOf(code[4]), DigitOf(code[6]), DigitOf(code[9]))
  }

  /** The cell a code names, in cells from the date line. */
  ghost function LngCell(code: string): nat
    requires WellFormedCode(code)
  {
    Horner(DigitOf(code[1]), DigitOf(code[3]), DigitOf(code[5]), DigitOf(code[7]), DigitOf(code[10]))
  }

  /** Five base-20 digits and their value determine each other. */
  lemma HornerUnique(a4: nat, a3: nat, a2: nat, a1: nat, a0: nat, b4: nat, b3: nat, b2: nat, b1: nat, b0: nat)
    requires a3 < 20 && a2 < 20 && a1 < 20 && a0 < 20 && b3 < 20 && b2 < 20 && b1 < 20 && b0 < 20
    requires Horner(a4, a3, a2, a1, a0) == Horner(b4, b3, b2, b1, b0)
    ensures a4 == b4 && a3 == b3 && a2 == b2 && a1 == b1 && a0 == b0
  {
  }

  lemma HornerOfDropped(v: nat)
    requires v < 3200000
    ensures Horner(Dropped(v, 20, 4) % 20, Dropped(v, 20, 3) % 20, Dropped(v, 20, 2) % 20, Dropped(v, 20, 1) % 20,
                   Dropped(v, 20, 0) % 20) == v
  {
    DroppedFive(v, 20);
    assert v / 20 / 20 / 20 / 20 < 20;
  }

  lemma DroppedFive(v: nat, d: nat)
    requires d > 0
    ensures Dropped(v, d, 0) == v && Dropped(v, d, 1) == v / d && Dropped(v, d, 2) == v / d / d
    ensures Dropped(v, d, 3) == v / d / d / d && Dropped(v, d, 4) == v / d / d / d / d
    ensures Dropped(v, d, 5) == v / d / d / d / d / d
  {
    assert Dropped(v, d, 1) == Dropped(v, d, 0) / d;
    assert Dropped(v, d, 2) == Dropped(v, d, 1) / d;
    assert Dropped(v, d, 3) == Dropped(v, d, 2) / d;
    assert Dropped(v, d, 4) == Dropped(v, d, 3) / d;
    assert Dropped(v, d, 5) == Dropped(v, d, 4) / d;
  }

  /** A well-formed code is determined by the cell it names. */
  lemma CellDeterminesCode(c: string, c': string)
    requires WellFormedCode(c) && WellFormedCode(c')
    requires LatCell(c) == LatCell(c') && LngCell(c) == LngCell(c')
    ensures c == c'
  {
    hide Symbol, Horner;
    HornerUnique(DigitOf(c[0]), DigitOf(c[2]), DigitOf(c[4]), DigitOf(c[6]), DigitOf(c[9]),
                 DigitOf(c'[0]), DigitOf(c'[2]), DigitOf(c'[4]), DigitOf(c'[6]), DigitOf(c'[9]));
    HornerUnique(DigitOf(c[1]), DigitOf(c[3]), DigitOf(c[5]), DigitOf(c[7]), DigitOf(c[10]),
                 DigitOf(c'[1]), DigitOf(c'[3]), DigitOf(c'[5]), DigitOf(c'[7]), DigitOf(c'[10]));
    forall i | 0 <= i < CODE_LEN && i != 8 ensures c[i] == c'[i] {
      assert DigitOf(c[i]) == DigitOf(c'[i]);
    }
  }

  // ---------------------------------------------------------------- the digit loops

  /** The first `done` pairs, least significant first, stand at their places. */
  ghost predicate PairsWritten(t: seq<char>, lat: nat, lng: nat, done: nat)
    requires |t| > 10 && done <= PAIRS
  {
    forall k: nat :: k < done ==>
      t[LatPlace(k)] == Symbol(Dropped(lat, 20, k) % 20) && t[LngPlace(k)] == Symbol(Dropped(lng, 20, k) % 20)
  }

  /** Every place but the separator's holds a digit. */
  lemma PairIsDigits(t: seq<char>, lat: nat, lng: nat, k: nat)
    requires |t| > 10 && PairsWritten(t, lat, lng, PAIRS) && k < PAIRS
    ensures IsSymbol(t[LatPlace(k)]) && DigitOf(t[LatPlace(k)]) == Dropped(lat, 20, k) % 20
    ensures IsSymbol(t[LngPlace(k)]) && DigitOf(t[LngPlace(k)]) == Dropped(lng, 20, k) % 20
  {
    DigitOfSymbol(Dropped(lat, 20, k) % 20);
    DigitOfSymbol(Dropped(lng, 20, k) % 20);
  }

  lemma PairsNameTheCell(t: seq<char>, lat: nat, lng: nat)
    requires |t| > 10 && lat < 3200000 && lng < 3200000
    requires PairsWritten(t, lat, lng, PAIRS) && t[8] == SEPARATOR
    ensures WellFormedCode(t[..CODE_LEN]) && LatCell(t[..CODE_LEN]) == lat && LngCell(t[..CODE_LEN]) == lng
  {
    hide Symbol, Dropped, Horner, PairsWritten;
    PairIsDigits(t, lat, lng, 0);
    PairIsDigits(t, lat, lng, 1);
    PairIsDigits(t, lat, lng, 2);
    PairIsDigits(t, lat, lng, 3);
    PairIsDigits(t, lat, lng, 4);
    HornerOfDropped(lat);
    HornerOfDropped(lng);
  }

  function GridSymbol(latScaled: nat, lngScaled: nat, k: nat): char {
    Symbol(Dropped(latScaled, 5, k) % 5 * 4 + Dropped(lngScaled, 4, k) % 4)
  }

  /** The grid part: five digits of five by four steps, from place 11 down. */
  method WriteGrid(latScaled: nat, lngScaled: nat, tempCode: array<char>) returns (lat: nat, lng: nat)
    requires tempCode.Length == 14
    modifies tempCode
    ensures lat == latScaled / LAT_CELL && lng == lngScaled / LNG_CELL
    ensures forall k: nat :: k < 5 ==> tempCode[11 - k] == GridSymbol(latScaled, lngScaled, k)
  {
    hide Symbol;
    var pos := CODE_LEN;
    lat, lng := latScaled, lngScaled;
    var i := 0;
    while i < 5
      invariant 0 <= i <= 5 && pos == CODE_LEN - i
      invariant lat == Dropped(latScaled, 5, i) && lng == Dropped(lngScaled, 4, i)
      invariant forall k: nat :: k < i ==> tempCode[11 - k] == GridSymbol(latScaled, lngScaled, k)
    {
      var ndx := lat % 5 * 4 + lng % 4;
      tempCode[pos] := Symbol(ndx);
      pos := pos - 1;
      lat, lng := lat / 5, lng / 4;
      i := i + 1;
    }
    DroppedFive(latScaled, 5);
    DroppedFive(lngScaled, 4);
  }

  /** The pairs: five base-20 digits of each coordinate from place 10 down, around the separator. */
  method WritePairs(latCell: nat, lngCell: nat, tempCode: array<char>)
    requires tempCode.Length == 14
    modifies tempCode
    ensures PairsWritten(tempCode[..], latCell, lngCell, PAIRS) && tempCode[8] == SEPARATOR
  {
    hide Symbol;
    var lat, lng, pos := latCell, lngCell, 10;
    var i := 0;
    while i < PAIRS
      invariant 0 <= i <= PAIRS && pos == if i == 0 then 10 else 9 - 2 * i
      invariant lat == Dropped(latCell, 20, i) && lng == Dropped(lngCell, 20, i)
      invariant PairsWritten(tempCode[..], latCell, lngCell, i)
      invariant i > 0 ==> tempCode[8] == SEPARATOR
    {
      tempCode[pos] := Symbol(lng % 20);
      pos := pos - 1;
      tempCode[pos] := Symbol(lat % 20);
      pos := pos - 1;
      lat, lng := lat / 20, lng / 20;
      if i == 0 {
        tempCode[pos] := SEPARATOR;
        pos := pos - 1;
      }
      i := i + 1;
    }
  }

  /** Both parts. The pairs overwrite all grid digits but the one past the end of the code. */
  method WriteDigits(latScaled: nat, lngScaled: nat, tempCode: array<char>)
    requires latScaled < LAT_END && lngScaled < LNG_END && tempCode.Length == 14
    modifies tempCode
    ensures WellFormedCode(tempCode[..CODE_LEN])
    ensures LatCell(tempCode[..CODE_LEN]) == latScaled / LAT_CELL
    ensures LngCell(tempCode[..CODE_LEN]) == lngScaled / LNG_CELL
  {
    hide PairsWritten, WellFormedCode, LatCell, LngCell, Symbol, Dropped;
    var lat, lng := WriteGrid(latScaled, lngScaled, tempCode);
    WritePairs(lat, lng, tempCode);
    PairsNameTheCell(tempCode[..], lat, lng);
    assert tempCode[..CODE_LEN] == tempCode[..][..CODE_LEN];
  }

  // ---------------------------------------------------------------- degrees

  /** The longitude in [-180, 180) that is a whole number of turns away. */
  function NormalLongitude(lon: real): real {
    lon - 360.0 * ((lon + 180.0) / 360.0).Floor as real
  }

  /** Two longitudes in range that differ by whole turns are the same. */
  lemma NormalLongitudeIsUnique(a: real, b: real, turns: int)
    requires -180.0 <= a < 180.0 && -180.0 <= b < 180.0 && a == b + 360.0 * turns as real
    ensures a == b
  {
    assert -1.0 < turns as real < 1.0;
  }

  lemma NormalLongitudeIs(lon: real, longitude: real, turns: int)
    requires -180.0 <= longitude < 180.0 && longitude == lon + 360.0 * turns as real
    ensures longitude == NormalLongitude(lon)
  {
    var back := ((lon + 180.0) / 360.0).Floor;
    assert -180.0 <= NormalLongitude(lon) < 180.0;
    NormalLongitudeIsUnique(longitude, NormalLongitude(lon), turns + back);
  }

  method NormalizeLongitude(lon: real) returns (longitude: real)
    ensures -180.0 <= longitude < 180.0 && longitude == NormalLongitude(lon)
  {
    longitude := lon;
    ghost var turns := 0;
    while longitude < -180.0
      invariant longitude == lon + 360.0 * turns as real
      invariant turns > 0 ==> longitude < 180.0
      decreases -180.0 - longitude
    {
      longitude := longitude + 360.0;
      turns := turns + 1;
    }
    while longitude >= 180.0
      invariant -180.0 <= longitude && longitude == lon + 360.0 * turns as real
      decreases longitude
    {
      longitude := longitude - 360.0;
      turns := turns - 1;
    }
    NormalLongitudeIs(lon, longitude, turns);
  }

  /** The latitude that is encoded: clamped, and at the pole half a step of the finest digit below it. */
  function EncodedLatitude(lat: real): real {
    if lat >= 90.0 then 90.0 - 1.0 / 80000.0 else if lat < -90.0 then -90.0 else lat
  }

  lemma RealTimes(a: int, b: int)
    ensures (a * b) as real == a as real * b as real
  {
  }

  lemma RealScale(x: real, y: real, n: real)
    requires n > 0.0
    ensures x <= y ==> x * n <= y * n
    ensures x < y ==> x * n < y * n
  {
  }

  lemma FloorBetween(z: real, a: int, b: int)
    requires a as real <= z < b as real
    ensures a <= z.Floor < b
  {
  }

  lemma ScaledBetween(x: real, f: int, g: int, n: nat)
    requires n > 0 && f as real <= x < g as real
    ensures f * n <= (x * n as real).Floor < g * n
  {
    RealScale(f as real, x, n as real);
    RealScale(x, g as real, n as real);
    RealTimes(f, n);
    RealTimes(g, n);
    FloorBetween(x * n as real, f * n, g * n);
  }

  /** Scaling down after rounding is rounding once. */
  lemma FloorOfFloor(x: real, n: nat)
    requires n > 0 && x >= 0.0
    ensures (x * n as real).Floor / n == x.Floor
  {
    var f, y := x.Floor, (x * n as real).Floor;
    ScaledBetween(x, f, f + 1, n);
    Distribute(f, n);
    ModOfSum(f, y - f * n, n);
  }

  lemma Distribute(f: int, n: int)
    ensures (f + 1) * n == f * n + n
  {
  }

  /** The latitude that is encoded, and both coordinates in scaled steps. */
  method Scale(lat: real, longitude: real) returns (latScaled: nat, lngScaled: nat)
    requires -180.0 <= longitude < 180.0
    ensures latScaled < LAT_END && latScaled / LAT_CELL == ((EncodedLatitude(lat) + 90.0) * 8000.0).Floor
    ensures lngScaled < LNG_END && lngScaled / LNG_CELL == ((longitude + 180.0) * 8000.0).Floor
  {
    var latitudeDegrees := if lat < -90.0 then -90.0 else lat;
    latitudeDegrees := if latitudeDegrees < 90.0 then latitudeDegrees else 90.0;
    var latitude;
    if latitudeDegrees < 90.0 {
      latitude := latitudeDegrees;
    } else {
      var precision := 1.0 / 8000.0 / 5.0;
      latitude := latitudeDegrees - precision / 2.0;
    }
    latScaled := (2250000000.0 + latitude * 25000000.0).Floor;
    lngScaled := (1474560000.0 + longitude * 8192000.0).Floor;
    FloorOfFloor((latitude + 90.0) * 8000.0, LAT_CELL);
    FloorOfFloor((longitude + 180.0) * 8000.0, LNG_CELL);
  }

  method Emit(tempCode: array<char>) returns (code: array<char>)
    requires tempCode.Length == 14
    ensures fresh(code) && code.Length == CODE_LEN + 1 && code[..CODE_LEN] == tempCode[..CODE_LEN] && code[CODE_LEN] == '\0'
  {
    code := new char[CODE_LEN + 1];
    var i := 0;
    while i < CODE_LEN
      invariant 0 <= i <= CODE_LEN
      invariant code[..i] == tempCode[..i]
    {
      code[i] := tempCode[i];
      i := i + 1;
    }
    code[CODE_LEN] := '\0';
    assert code[..CODE_LEN] == tempCode[..CODE_LEN];
  }

  /** The 1/8000-degree cell of a position, latitude clamped and longitude taken modulo a turn. */
  ghost function CellOf(lat: real, lon: real): (int, int) {
    (((EncodedLatitude(lat) + 90.0) * 8000.0).Floor, ((NormalLongitude(lon) + 180.0) * 8000.0).Floor)
  }

  /** The cell in plain degrees: 8000 to a degree, counted from the south pole and the date line; the north
      pole and beyond belong to the last row, beyond the south pole to the first, and whole turns make no
      difference. */
  lemma CellMeaning(lat: real, lon: real, turns: int)
    ensures -90.0 <= lat < 90.0 ==> CellOf(lat, lon).0 == ((lat + 90.0) * 8000.0).Floor
    ensures lat >= 90.0 ==> CellOf(lat, lon).0 == 1439999
    ensures lat <= -90.0 ==> CellOf(lat, lon).0 == 0
    ensures -180.0 <= lon < 180.0 ==> CellOf(lat, lon + 360.0 * turns as real).1 == ((lon + 180.0) * 8000.0).Floor
  {
    if -180.0 <= lon < 180.0 {
      NormalLongitudeIs(lon + 360.0 * turns as real, lon, -turns);
    }
  }

  ghost predicate IsCodeOf(code: string, lat: real, lon: real) {
    WellFormedCode(code) && (LatCell(code), LngCell(code)) == CellOf(lat, lon)
  }

  /** The code of a position names the cell that holds it; the buffer is terminated after it. */
  method LatLongToOLC(lat: real, lon: real) returns (code: array<char>)
    ensures fresh(code) && code.Length == CODE_LEN + 1 && code[CODE_LEN] == '\0'
    ensures IsCodeOf(code[..CODE_LEN], lat, lon)
  {
    hide NormalLongitude, EncodedLatitude, WellFormedCode, LatCell, LngCell;
    var longitude := NormalizeLongitude(lon);
    var latScaled, lngScaled := Scale(lat, longitude);
    var tempCode := new char[14];
    WriteDigits(latScaled, lngScaled, tempCode);
    code := Emit(tempCode);
  }

  /** Two positions have the same code exactly when they lie in the same cell. */
  lemma SameCodeIffSameCell(c: string, lat: real, lon: real, c': string, lat': real, lon': real)
    requires IsCodeOf(c, lat, lon) && IsCodeOf(c', lat', lon')
    ensures c == c' <==> CellOf(lat, lon) == CellOf(lat', lon')
  {
    hide WellFormedCode, LatCell, LngCell, CellOf;
    if CellOf(lat, lon) == CellOf(lat', lon') { CellDeterminesCode(c, c'); }
  }

  lemma DigitsOf(c: string, d: seq<nat>)
    requires |c| == 11 && c[8] == '+' && |d| == 11 && forall i :: 0 <= i < 11 && i != 8 ==> d[i] < 20 && c[i] == Symbol(d[i])
    ensures WellFormedCode(c)
    ensures LatCell(c) == Horner(d[0], d[2], d[4], d[6], d[9]) && LngCell(c) == Horner(d[1], d[3], d[5], d[7], d[10])
  {
    hide Symbol, Horner;
    forall i | 0 <= i < 11 && i != 8 ensures IsSymbol(c[i]) && DigitOf(c[i]) == d[i] { DigitOfSymbol(d[i]); }
  }

  /** A published code. */
  lemma PublishedCode1()
    ensures IsCodeOf("7FG49QCJ+2V", 20.3700625, 2.7821875)
  {
    hide IsCodeOf;
    PublishedCode("7FG49QCJ+2V", [5, 9, 10, 2, 7, 15, 8, 12, 0, 0, 17], 20.3700625, 2.7821875);
  }

  /** A published code. */
  lemma PublishedCode2()
    ensures IsCodeOf("4VCPPQGP+Q9", -41.2730625, 174.7859375)
  {
    hide IsCodeOf;
    PublishedCode("4VCPPQGP+Q9", [2, 17, 8, 14, 14, 15, 10, 14, 0, 15, 7], -41.2730625, 174.7859375);
  }

  /** A published code. */
  lemma PublishedCode3()
    ensures IsCodeOf("8FVC2222+22", 47.0000625, 8.0000625)
  {
    hide IsCodeOf;
    PublishedCode("8FVC2222+22", [6, 9, 17, 8, 0, 0, 0, 0, 0, 0, 0], 47.0000625, 8.0000625);
  }

  lemma PublishedCode(c: string, d: seq<nat>, lat: real, lon: real)
    requires |c| == 11 && c[8] == '+' && |d| == 11 && forall i :: 0 <= i < 11 && i != 8 ==> d[i] < 20 && c[i] == Symbol(d[i])
    requires -90.0 <= lat < 90.0 && -180.0 <= lon < 180.0
    requires Horner(d[0], d[2], d[4], d[6], d[9]) == ((lat + 90.0) * 8000.0).Floor
    requires Horner(d[1], d[3], d[5], d[7], d[10]) == ((lon + 180.0) * 8000.0).Floor
    ensures IsCodeOf(c, lat, lon)
  {
    hide Symbol, Horner, CellOf, WellFormedCode, LatCell, LngCell;
    DigitsOf(c, d);
    CellMeaning(lat, lon, 0);
    assert lon + 360.0 * (0 as real) == lon;
  }
}
