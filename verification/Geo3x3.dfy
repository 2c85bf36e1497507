/**
  Geo3x3 codes over exact reals: a hemisphere letter and a digit 1 to 9 for each of the
  nested 3 by 3 subdivisions of a square of 180 degrees.
 */
module Geo3x3 {
  import opened Basics

  // ---------- Numbers as text ----------

  /** Decimal notation. */
  function Decimal(n: nat): string {
    if n < 10 then [DigitChar(n)] else Decimal(n / 10) + [DigitChar(n % 10)]
  }

  function DigitChar(n: nat): (c: char)
    requires n < 10
    ensures DigitValue(c) == n
    ensures n > 0 ==> IsDigit(c)
  {
    '0' + n as char
  }

  function IntString(i: int): string {
    if i < 0 then ['-'] + Decimal(-i) else Decimal(i)
  }

  /** String#to_i of one character. */
  function DigitValue(c: char): nat {
    if '0' <= c <= '9' then (c - '0') as nat else 0
  }

  /** The digits of a code. */
  predicate IsDigit(c: char) {
    '1' <= c <= '9'
  }

  predicate AllDigits(s: string) {
    forall i | 0 <= i < |s| :: IsDigit(s[i])
  }

  // ---------- Encoding ----------

  /** Where encoding stands: how far the point is from the corner of the current cell, and its size. */
  datatype Offset = Offset(lat: real, lng: real, unit: real)

  /** The number that one round of the loop of encode appends. */
  function Digit(p: Offset): int
    requires p.unit > 0.0
  {
    var u := p.unit / 3.0;
    Trunc(p.lng / u) + Trunc(p.lat / u) * 3 + 1
  }

  /** What that round leaves. */
  function Next(p: Offset): (q: Offset)
    requires p.unit > 0.0
    ensures q.unit > 0.0
  {
    var u := p.unit / 3.0;
    Offset(p.lat - Trunc(p.lat / u) as real * u, p.lng - Trunc(p.lng / u) as real * u, u)
  }

  /** The text that n rounds append. */
  function EncDigits(p: Offset, n: nat): string
    requires p.unit > 0.0
    decreases n
  {
    if n == 0 then "" else IntString(Digit(p)) + EncDigits(Next(p), n - 1)
  }

  /** Where encoding starts. */
  function Start(lat: real, lng: real): (p: Offset)
    ensures p.unit == 180.0
  {
    Offset(lat + 90.0, if lng >= 0.0 then lng else lng + 180.0, 180.0)
  }

  function Letter(lng: real): char {
    if lng >= 0.0 then 'E' else 'W'
  }

  /** Geo3x3.encode; None is the ArgumentError. */
  function Encoded(lat: real, lng: real, level: int): Option<string> {
    if level < 1 then None else Some([Letter(lng)] + EncDigits(Start(lat, lng), level - 1))
  }

  lemma EncRound(code: string, p: Offset, n: nat)
    requires p.unit > 0.0 && n > 0
    ensures code + EncDigits(p, n) == code + IntString(Digit(p)) + EncDigits(Next(p), n - 1)
  {
    hide IntString, Digit, Next;
    var d, r := IntString(Digit(p)), EncDigits(Next(p), n - 1);
    assert code + (d + r) == code + d + r;
  }

  lemma EncEnd(code: string, p: Offset)
    requires p.unit > 0.0
    ensures code + EncDigits(p, 0) == code
  {
    assert code + "" == code;
  }

  /** The body of the loop of encode. */
  method EncodeRound(code: string, lat: real, lng: real, unit: real)
    returns (code': string, lat': real, lng': real, unit': real)
    requires unit > 0.0
    ensures code' == code + IntString(Digit(Offset(lat, lng, unit)))
    ensures Offset(lat', lng', unit') == Next(Offset(lat, lng, unit))
  {
    hide IntString, Trunc;
    unit' := unit / 3.0;
    var x := Trunc(lng / unit');
    var y := Trunc(lat / unit');
    code' := code + IntString(x + y * 3 + 1);
    lng' := lng - x as real * unit';
    lat' := lat - y as real * unit';
  }

  method Encode(lat0: real, lng0: real, level: int) returns (result: Option<string>)
    ensures result == Encoded(lat0, lng0, level)
  {
    if level < 1 {
      return None;
    }
    hide EncDigits, Digit, Next, IntString;
    var lat, lng := lat0, lng0;
    var code;
    if lng >= 0.0 {
      code := "E";
    } else {
      code := "W";
      lng := lng + 180.0;
    }
    lat := lat + 90.0;
    var unit := 180.0;
    ghost var target := code + EncDigits(Offset(lat, lng, unit), level - 1);
    for i := 0 to level - 1
      invariant unit > 0.0
      invariant code + EncDigits(Offset(lat, lng, unit), level - 1 - i) == target
    {
      EncRound(code, Offset(lat, lng, unit), level - 1 - i);
      code, lat, lng, unit := EncodeRound(code, lat, lng, unit);
    }
    EncEnd(code, Offset(lat, lng, unit));
    result := Some(code);
  }

  // ---------- Decoding ----------

  /** Where decoding stands: the south-west corner of the cell, its level and its size. */
  datatype Cell = Cell(lat: real, lng: real, level: nat, unit: real)

  /** The loop of decode: one digit, one step into the 3 by 3 grid; any other character ends the code. */
  function DecDigits(s: string, c: Cell): Cell {
    if s == "" || DigitValue(s[0]) == 0 then c else DecDigits(s[1..], Inner(c, DigitValue(s[0])))
  }

  /** Subcell n of a cell, numbered from 1 row by row from the south-west. */
  function Inner(c: Cell, n: nat): Cell
    requires n > 0
  {
    var u := c.unit / 3.0;
    Cell(c.lat + ((n - 1) / 3) as real * u, c.lng + ((n - 1) % 3) as real * u, c.level + 1, u)
  }

  datatype Code = Integer(i: int) | Text(s: string) | Other

  /** The string that decode works on. */
  function CodeText(code: Code): Option<string> {
    match code
    case Integer(i) => Some(if i < 0 then "W" + IntString(-i) else "E" + IntString(i))
    case Text(s) => if s == "" then None else Some(s)
    case Other => None
  }

  const WORLD := Cell(0.0, 0.0, 1, 180.0)

  /** The cell of a code, in the shifted coordinates of its hemisphere. */
  function CellOf(s: string): Cell
    requires s != ""
  {
    DecDigits(if s[0] in "-W+E" then s[1..] else s, WORLD)
  }

  /** The centre of a cell, its level and its size. */
  function Centre(c: Cell, west: bool): Cell {
    Cell(c.lat + c.unit / 2.0 - 90.0, c.lng + c.unit / 2.0 - (if west then 180.0 else 0.0), c.level, c.unit)
  }

  /** Geo3x3.decode; None is the ArgumentError. */
  function Decoded(code: Code): Option<Cell> {
    match CodeText(code)
    case None => None
    case Some(s) => if s == "" then None else Some(Centre(CellOf(s), s[0] in "-W"))
  }

  lemma DecRound(s: string, i: nat, c: Cell)
    requires i < |s|
    ensures DecDigits(s[i..], c) == if DigitValue(s[i]) == 0 then c else DecDigits(s[i + 1..], Inner(c, DigitValue(s[i])))
  {
    assert s[i..][1..] == s[i + 1..];
  }

  lemma DecEnd(s: string, c: Cell)
    ensures DecDigits(s[|s|..], c) == c
  {
  }

  /** The body of the loop of decode. */
  method DecodeRound(digit: nat, lat: real, lng: real, level: nat, unit: real)
    returns (lat': real, lng': real, level': nat, unit': real)
    requires digit > 0
    ensures Cell(lat', lng', level', unit') == Inner(Cell(lat, lng, level, unit), digit)
  {
    unit' := unit / 3.0;
    var n := digit - 1;
    lng' := lng + (n % 3) as real * unit';
    lat' := lat + (n / 3) as real * unit';
    level' := level + 1;
  }

  /** The loop of decode. */
  method DecodeLoop(s: string) returns (lat: real, lng: real, level: nat, unit: real)
    ensures Cell(lat, lng, level, unit) == DecDigits(s, WORLD)
  {
    hide DecDigits, Inner, DigitValue;
    unit, lat, lng, level := 180.0, 0.0, 0.0, 1;
    var i := 0;
    assert s[0..] == s;
    while i < |s|
      invariant i <= |s|
      invariant DecDigits(s[i..], Cell(lat, lng, level, unit)) == DecDigits(s, WORLD)
    {
      var n := DigitValue(s[i]);
      DecRound(s, i, Cell(lat, lng, level, unit));
      if n == 0 {
        return;
      }
      lat, lng, level, unit := DecodeRound(n, lat, lng, level, unit);
      i := i + 1;
    }
    DecEnd(s, Cell(lat, lng, level, unit));
  }

  method Decode(code: Code) returns (result: Option<Cell>)
    ensures result == Decoded(code)
  {
    hide DecDigits;
    var text := CodeText(code);
    if text.None? || text.value == "" {
      return None;
    }
    var s := text.value;
    var c := s[0];
    var flg := c == '-' || c == 'W';
    if flg || c == '+' || c == 'E' {
      s := s[1..];
    }
    var lat, lng, level, unit := DecodeLoop(s);
    lat := lat + unit / 2.0;
    lng := lng + unit / 2.0;
    lat := lat - 90.0;
    if flg {
      lng := lng - 180.0;
    }
    result := Some(Cell(lat, lng, level, unit));
  }

  // ---------- One subdivision ----------

  lemma Scale(a: real, b: real, u: real)
    requires u > 0.0
    ensures a <= b <==> a * u <= b * u
  {
  }

  lemma Distribute(x: real, u: real)
    ensures (x + 1.0) * u == x * u + u
  {
  }

  /** x is the unit of size u that contains a, exactly when truncation of a / u gives x. */
  lemma UnitOf(a: real, u: real, x: int)
    requires u > 0.0 && 0.0 <= a
    ensures x >= 0 && x as real * u <= a < x as real * u + u <==> Trunc(a / u) == x
  {
    Below(x as real, a, u);
    Below(x as real + 1.0, a, u);
    Distribute(x as real, u);
    FloorIs(a / u, x);
    Below(0.0, a, u);
  }

  lemma Below(x: real, a: real, u: real)
    requires u > 0.0
    ensures x * u <= a <==> x <= a / u
  {
    var q := a / u;
    assert q * u == a;
    Scale(x, q, u);
  }

  lemma FloorIs(q: real, x: int)
    ensures q.Floor == x <==> x as real <= q < x as real + 1.0
  {
  }

  // ---------- Points and cells ----------

  /** A point, in shifted coordinates, lies in a cell: its south and west borders belong to it. */
  predicate InCell(lat: real, lng: real, c: Cell) {
    c.lat <= lat < c.lat + c.unit && c.lng <= lng < c.lng + c.unit
  }

  /** Where encoding stands once it has reached cell c. */
  function From(lat: real, lng: real, c: Cell): Offset {
    Offset(lat - c.lat, lng - c.lng, c.unit)
  }

  predicate Inside(a: Cell, c: Cell) {
    c.lat <= a.lat && a.lat + a.unit <= c.lat + c.unit &&
    c.lng <= a.lng && a.lng + a.unit <= c.lng + c.unit
  }

  lemma Thirds(a: real, u: real)
    requires u > 0.0 && 0.0 <= a < 3.0 * u
    ensures 0 <= Trunc(a / u) <= 2
  {
    hide Trunc;
    var x := if a < u then 0 else if a < 2.0 * u then 1 else 2;
    assert x as real * u <= a < x as real * u + u;
    UnitOf(a, u, x);
  }

  /** A round of encoding a point of a cell appends one digit and moves into that subcell. */
  lemma RoundIsStep(lat: real, lng: real, c: Cell)
    requires c.unit > 0.0 && InCell(lat, lng, c)
    ensures var n := Digit(From(lat, lng, c));
            1 <= n <= 9 && Next(From(lat, lng, c)) == From(lat, lng, Inner(c, n))
  {
    hide Trunc;
    var u := c.unit / 3.0;
    Thirds(lng - c.lng, u);
    Thirds(lat - c.lat, u);
    Subcell(Trunc((lng - c.lng) / u), Trunc((lat - c.lat) / u));
  }

  /** Column x and row y are those of the subcell with this number. */
  lemma Subcell(x: int, y: int)
    requires 0 <= x <= 2 && 0 <= y <= 2
    ensures (x + y * 3) % 3 == x && (x + y * 3) / 3 == y
  {
  }

  /** The subcells partition a cell: a point is in subcell n exactly when n is its digit. */
  lemma SubcellIs(lat: real, lng: real, c: Cell, n: nat)
    requires c.unit > 0.0 && InCell(lat, lng, c) && 1 <= n <= 9
    ensures InCell(lat, lng, Inner(c, n)) <==> n == Digit(From(lat, lng, c))
  {
    hide Trunc;
    var u := c.unit / 3.0;
    Thirds(lng - c.lng, u);
    Thirds(lat - c.lat, u);
    UnitOf(lng - c.lng, u, (n - 1) % 3);
    UnitOf(lat - c.lat, u, (n - 1) / 3);
  }

  lemma InnerInside(c: Cell, n: nat)
    requires c.unit > 0.0 && 1 <= n <= 9
    ensures Inside(Inner(c, n), c) && Inner(c, n).unit > 0.0
  {
    var x, y := (n - 1) % 3, (n - 1) / 3;
    assert x in {0, 1, 2} && y in {0, 1, 2};
  }

  lemma OneDigit(n: nat)
    requires 1 <= n <= 9
    ensures IntString(n) == [DigitChar(n)] && IsDigit(DigitChar(n)) && DigitValue(DigitChar(n)) == n
  {
  }

  lemma DigitOf(c: char)
    requires IsDigit(c)
    ensures 1 <= DigitValue(c) <= 9 && DigitChar(DigitValue(c)) == c
  {
  }

  // ---------- Codes of cells ----------

  /** Whatever the text, decoding stays inside the cell it started from. */
  lemma {:induction false} DecInside(s: string, c: Cell)
    requires c.unit > 0.0
    ensures Inside(DecDigits(s, c), c) && DecDigits(s, c).unit > 0.0
  {
    hide Inner;
    if s != "" && DigitValue(s[0]) != 0 {
      InnerInside(c, DigitValue(s[0]));
      DecInside(s[1..], Inner(c, DigitValue(s[0])));
    }
  }

  /** Encoding a point of a cell gives digits only, and they lead to a cell that contains the point. */
  lemma {:induction false} EncodeFindsCell(lat: real, lng: real, c: Cell, n: nat)
    requires c.unit > 0.0 && InCell(lat, lng, c)
    ensures var s := EncDigits(From(lat, lng, c), n);
            |s| == n && AllDigits(s) && InCell(lat, lng, DecDigits(s, c))
    decreases n
  {
    hide Inner, Digit, Next, InCell, IntString, DigitChar, DigitValue;
    if n > 0 {
      var k := Digit(From(lat, lng, c));
      RoundIsStep(lat, lng, c);
      SubcellIs(lat, lng, c, k);
      InnerInside(c, k);
      OneDigit(k);
      var t := EncDigits(From(lat, lng, Inner(c, k)), n - 1);
      EncodeFindsCell(lat, lng, Inner(c, k), n - 1);
      assert EncDigits(From(lat, lng, c), n) == [DigitChar(k)] + t;
      assert ([DigitChar(k)] + t)[1..] == t;
    }
  }

  /** A point of a cell lies in the cell that digits s lead to, exactly when s is what encoding gives. */
  lemma {:induction false} CodesAreCells(lat: real, lng: real, c: Cell, s: string)
    requires c.unit > 0.0 && InCell(lat, lng, c) && AllDigits(s)
    ensures InCell(lat, lng, DecDigits(s, c)) <==> EncDigits(From(lat, lng, c), |s|) == s
    decreases |s|
  {
    hide Inner, Digit, Next, IntString, DigitChar, DigitValue;
    if s != "" {
      var n, k := DigitValue(s[0]), Digit(From(lat, lng, c));
      DigitOf(s[0]);
      RoundIsStep(lat, lng, c);
      SubcellIs(lat, lng, c, n);
      InnerInside(c, n);
      OneDigit(k);
      var t := EncDigits(From(lat, lng, Inner(c, k)), |s| - 1);
      assert EncDigits(From(lat, lng, c), |s|) == [DigitChar(k)] + t;
      if n == k {
        CodesAreCells(lat, lng, Inner(c, n), s[1..]);
        assert s == [s[0]] + s[1..];
        assert ([s[0]] + t)[1..] == t;
      } else {
        DecInside(s[1..], Inner(c, n));
        assert ([DigitChar(k)] + t)[0] == DigitChar(k);
      }
    }
  }

  /** Every digit goes one level down and divides the size by three. */
  lemma {:induction false} DecDepth(s: string, c: Cell)
    requires AllDigits(s)
    ensures DecDigits(s, c).level == c.level + |s|
    ensures DecDigits(s, c).unit * Pow3(|s|) == c.unit
  {
    hide DigitValue;
    if s != "" {
      DigitOf(s[0]);
      var d := Inner(c, DigitValue(s[0]));
      DecDepth(s[1..], d);
      var e := DecDigits(s[1..], d);
      assert e.unit * (3.0 * Pow3(|s| - 1)) == 3.0 * (e.unit * Pow3(|s| - 1));
    }
  }

  function Pow3(n: nat): (p: real)
    ensures p > 0.0
  {
    if n == 0 then 1.0 else 3.0 * Pow3(n - 1)
  }

  lemma {:induction false} DecAppend(s: string, t: string, c: Cell)
    requires AllDigits(s)
    ensures DecDigits(s + t, c) == DecDigits(t, DecDigits(s, c))
  {
    hide Inner, DigitValue;
    if s == "" {
      assert s + t == t;
    } else {
      DigitOf(s[0]);
      assert (s + t)[1..] == s[1..] + t;
      DecAppend(s[1..], t, Inner(c, DigitValue(s[0])));
    }
  }

  lemma {:induction false} EncPrefix(p: Offset, m: nat, n: nat)
    requires p.unit > 0.0 && m <= n
    ensures EncDigits(p, m) <= EncDigits(p, n)
    decreases m
  {
    hide IntString, Digit, Next;
    if m > 0 {
      EncPrefix(Next(p), m - 1, n - 1);
      var d := IntString(Digit(p));
      var s, t := EncDigits(Next(p), m - 1), EncDigits(Next(p), n - 1);
      assert d + s <= d + t by {
        assert t[..|s|] == s;
        assert (d + t)[..|d + s|] == d + s;
      }
    }
  }

  // ---------- The properties of the code ----------

  /** The points that have a code. */
  predicate InRange(lat: real, lng: real) {
    -90.0 <= lat < 90.0 && -180.0 <= lng < 180.0
  }

  /** A point lies in the square around the centre that decode returns. */
  predicate Covers(d: Cell, lat: real, lng: real) {
    d.lat - d.unit / 2.0 <= lat < d.lat + d.unit / 2.0 && d.lng - d.unit / 2.0 <= lng < d.lng + d.unit / 2.0
  }

  /** A code as encode writes it. */
  predicate IsCode(code: string) {
    code != "" && code[0] in "EW" && AllDigits(code[1..])
  }

  lemma DecodedText(code: string)
    requires code != "" && code[0] in "EW"
    ensures Decoded(Text(code)) == Some(Centre(DecDigits(code[1..], WORLD), code[0] == 'W'))
  {
  }

  lemma CoversShifted(c: Cell, lat: real, lng: real, west: bool)
    ensures Covers(Centre(c, west), lat, lng) <==>
            InCell(lat + 90.0, if west then lng + 180.0 else lng, c)
  {
  }

  lemma WorldRange(lat: real, lng: real)
    ensures InRange(lat, lng) <==> InCell(Start(lat, lng).lat, Start(lat, lng).lng, WORLD)
    ensures Start(lat, lng) == From(Start(lat, lng).lat, Start(lat, lng).lng, WORLD)
  {
  }

  /**
    The square of the code of a point contains the point exactly when the point is in range; the code
    then has one letter and level - 1 digits, and gives back the level and the size of the square.
   */
  lemma CodeCoversPoint(lat: real, lng: real, level: nat)
    requires level >= 1
    ensures var code := Encoded(lat, lng, level).value;
            && code != "" && code[0] == Letter(lng) && Decoded(Text(code)).Some?
            && (InRange(lat, lng) <==> Covers(Decoded(Text(code)).value, lat, lng))
    ensures InRange(lat, lng) ==>
              var code := Encoded(lat, lng, level).value;
              var d := Decoded(Text(code)).value;
              && IsCode(code) && |code| == level == d.level
              && d.unit * Pow3(level - 1) == 180.0
  {
    hide EncDigits, DecDigits, Pow3, Covers, InCell, Centre, Decoded, InRange;
    var p, t := Start(lat, lng), EncDigits(Start(lat, lng), level - 1);
    var code := [Letter(lng)] + t;
    assert code[1..] == t;
    DecodedText(code);
    WorldRange(lat, lng);
    CoversShifted(DecDigits(t, WORLD), lat, lng, lng < 0.0);
    if InRange(lat, lng) {
      EncodeFindsCell(p.lat, p.lng, WORLD, level - 1);
      DecDepth(t, WORLD);
      CentreKeeps(DecDigits(t, WORLD), lng < 0.0);
    } else {
      DecInside(t, WORLD);
      InsideCell(DecDigits(t, WORLD), WORLD, p.lat, p.lng);
    }
  }

  lemma CentreKeeps(c: Cell, west: bool)
    ensures Centre(c, west).level == c.level && Centre(c, west).unit == c.unit
  {
  }

  lemma InsideCell(a: Cell, c: Cell, lat: real, lng: real)
    requires Inside(a, c)
    ensures InCell(lat, lng, a) ==> InCell(lat, lng, c)
  {
  }

  /** Among the points in range, those in the square of a code are exactly those that encode to it. */
  lemma SquareIsCode(code: string, lat: real, lng: real)
    requires IsCode(code) && InRange(lat, lng)
    ensures Decoded(Text(code)).Some?
    ensures Covers(Decoded(Text(code)).value, lat, lng) <==> Encoded(lat, lng, |code|) == Some(code)
  {
    hide EncDigits, DecDigits, Covers, Centre, Decoded;
    var p, t, west := Start(lat, lng), code[1..], code[0] == 'W';
    var q := if west then lng + 180.0 else lng;
    DecodedText(code);
    CoversShifted(DecDigits(t, WORLD), lat, lng, west);
    DecInside(t, WORLD);
    InsideCell(DecDigits(t, WORLD), WORLD, lat + 90.0, q);
    assert code == [code[0]] + t;
    if code[0] == Letter(lng) {
      WorldRange(lat, lng);
      CodesAreCells(p.lat, p.lng, WORLD, t);
      if EncDigits(p, |t|) != t {
        assert ([code[0]] + EncDigits(p, |t|))[1..] == EncDigits(p, |t|);
      }
    } else {
      assert Encoded(lat, lng, |code|).value[0] == Letter(lng);
    }
  }

  /** Canonicity: the centre of the square of a code encodes, at its level, to that code. */
  lemma CentreEncodesToCode(code: string)
    requires IsCode(code)
    ensures Decoded(Text(code)).Some?
    ensures var d := Decoded(Text(code)).value;
            d.level == |code| && InRange(d.lat, d.lng) && Encoded(d.lat, d.lng, d.level) == Some(code)
  {
    hide EncDigits, DecDigits, Encoded, Decoded;
    var t, west := code[1..], code[0] == 'W';
    var c := DecDigits(t, WORLD);
    DecodedText(code);
    DecInside(t, WORLD);
    DecDepth(t, WORLD);
    var d := Centre(c, west);
    assert InRange(d.lat, d.lng);
    assert Covers(d, d.lat, d.lng);
    SquareIsCode(code, d.lat, d.lng);
  }

  /** Nesting: the code of any point at a level is the start of its code at every finer level. */
  lemma CoarserIsPrefix(lat: real, lng: real, m: nat, n: nat)
    requires 1 <= m <= n
    ensures Encoded(lat, lng, m).value <= Encoded(lat, lng, n).value
  {
    hide EncDigits;
    EncPrefix(Start(lat, lng), m - 1, n - 1);
    var s, t := EncDigits(Start(lat, lng), m - 1), EncDigits(Start(lat, lng), n - 1);
    var a := [Letter(lng)];
    assert (a + t)[..|a + s|] == a + t[..|s|];
  }

  /** Nesting: whatever follows a code, the square of the longer text lies in the square of the code. */
  lemma FinerIsInside(code: string, more: string, lat: real, lng: real)
    requires IsCode(code)
    ensures Decoded(Text(code)).Some? && Decoded(Text(code + more)).Some?
    ensures Covers(Decoded(Text(code + more)).value, lat, lng) ==> Covers(Decoded(Text(code)).value, lat, lng)
  {
    hide DecDigits, Covers, Centre, Decoded;
    var t, west := code[1..], code[0] == 'W';
    assert (code + more)[1..] == t + more;
    var c := DecDigits(t, WORLD);
    DecodedText(code);
    DecodedText(code + more);
    DecInside(t, WORLD);
    DecAppend(t, more, WORLD);
    DecInside(more, c);
    CoversShifted(c, lat, lng, west);
    CoversShifted(DecDigits(more, c), lat, lng, west);
    InsideCell(DecDigits(more, c), c, lat + 90.0, if west then lng + 180.0 else lng);
  }

  // ---------- Integer codes ----------

  /** The number that digits spell. */
  function Spelled(s: string): nat {
    if s == "" then 0 else Spelled(s[..|s| - 1]) * 10 + DigitValue(s[|s| - 1])
  }

  lemma {:induction false} SpelledIsPositive(s: string)
    requires AllDigits(s)
    ensures Spelled(s) == 0 <==> s == ""
  {
    hide DigitValue;
    if s != "" {
      SpelledIsPositive(s[..|s| - 1]);
      DigitOf(s[|s| - 1]);
    }
  }

  lemma {:induction false} DecimalSpells(s: string)
    requires AllDigits(s) && s != ""
    ensures Decimal(Spelled(s)) == s
  {
    hide DigitValue, DigitChar;
    var t, n := s[..|s| - 1], DigitValue(s[|s| - 1]);
    DigitOf(s[|s| - 1]);
    SpelledIsPositive(t);
    assert s == t + [s[|s| - 1]];
    if t != "" {
      DecimalSpells(t);
      assert Spelled(s) / 10 == Spelled(t) && Spelled(s) % 10 == n;
    }
  }

  /** A code written as a number, negative for the western hemisphere, decodes like its text. */
  lemma IntegerIsText(t: string, i: int)
    requires AllDigits(t) && i == Spelled(t)
    ensures Decoded(Integer(i)) == Decoded(Text("E" + t))
    ensures t != "" ==> Decoded(Integer(-i)) == Decoded(Text("W" + t))
  {
    hide CellOf, Centre, Decimal, Spelled;
    SpelledIsPositive(t);
    if t == "" {
      ZeroEndsCode();
      assert "E" + t == "E";
    } else {
      DecimalSpells(t);
      assert CodeText(Integer(i)) == Some("E" + t);
      assert CodeText(Integer(-i)) == Some("W" + t);
    }
  }

  lemma ZeroEndsCode()
    ensures CellOf("E" + Decimal(0)) == CellOf("E")
  {
    assert ("E" + Decimal(0))[1..] == "0";
  }

  /** Decimal notation reads back as the number. */
  lemma {:induction false} DecimalReads(n: nat)
    ensures Spelled(Decimal(n)) == n
    ensures Decimal(n) != "" && forall i | 0 <= i < |Decimal(n)| :: '0' <= Decimal(n)[i] <= '9'
    ensures n > 0 ==> Decimal(n)[0] != '0'
  {
    hide DigitChar, DigitValue;
    DigitChars(n % 10);
    if n >= 10 {
      DecimalReads(n / 10);
      var d, c := Decimal(n / 10), DigitChar(n % 10);
      assert Decimal(n) == d + [c] && (d + [c])[..|d|] == d;
    } else {
      assert Decimal(n)[..0] == "" && Spelled("") == 0;
    }
  }

  lemma DigitChars(n: nat)
    requires n < 10
    ensures '0' <= DigitChar(n) <= '9' && DigitValue(DigitChar(n)) == n && (DigitChar(n) == '0' <==> n == 0)
  {
  }

  /** Any integer decodes like its decimal notation behind the letter of its sign. */
  lemma IntegerIsDecimal(i: int)
    ensures i >= 0 ==> Decoded(Integer(i)) == Decoded(Text("E" + Decimal(i)))
    ensures i < 0 ==> Decoded(Integer(i)) == Decoded(Text("W" + Decimal(-i)))
  {
    hide CellOf, Centre, Decimal;
  }

  // ---------- Other texts that decode accepts ----------

  /** A text may have a sign, or nothing at all, for its hemisphere. */
  lemma SignIsLetter(t: string)
    ensures Decoded(Text("+" + t)) == Decoded(Text("E" + t))
    ensures Decoded(Text("-" + t)) == Decoded(Text("W" + t))
    ensures t != "" && t[0] !in "-W+E" ==> Decoded(Text(t)) == Decoded(Text("E" + t))
  {
    hide DecDigits, Centre;
    assert ("+" + t)[1..] == ("E" + t)[1..] == ("-" + t)[1..] == ("W" + t)[1..] == t;
  }

  lemma DigitsAreEastern(t: string)
    requires AllDigits(t) && t != ""
    ensures Decoded(Text(t)) == Decoded(Text("E" + t))
  {
    hide Decoded;
    SignIsLetter(t);
  }

  /** Decoding stops in front of the first character that is no digit from 1 to 9. */
  lemma RestIsIgnored(code: string, more: string)
    requires IsCode(code) && (more != "" ==> !IsDigit(more[0]))
    ensures Decoded(Text(code + more)) == Decoded(Text(code))
  {
    hide DecDigits, Centre, Decoded;
    var t := code[1..];
    assert (code + more)[1..] == t + more;
    DecodedText(code);
    DecodedText(code + more);
    DecAppend(t, more, WORLD);
    NoDigit(more, DecDigits(t, WORLD));
  }

  lemma NoDigit(s: string, c: Cell)
    requires s != "" ==> !IsDigit(s[0])
    ensures DecDigits(s, c) == c
  {
  }

  /** The argument errors: no level below 1, no empty text, nothing but integers and texts. */
  lemma Refused(lat: real, lng: real, level: int, code: Code)
    ensures Encoded(lat, lng, level) == None <==> level < 1
    ensures Decoded(code) == None <==> code == Text("") || code == Other
  {
  }
}
