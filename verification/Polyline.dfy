/** Encoded polylines at six decimal places: the decoder of the loop route script against the
    format's encoder. Coordinates are whole millionths of a degree. */
module Polyline {
  datatype Point = Point(lat: int, lon: int)

  /** Where the coordinates begin. */
  const ORIGIN := Point(0, 0)

  // ----- One character.

  function Chunk(c: char): int {
    c as int - 63
  }

  /** The five bits that the character carries. */
  function Bits(c: char): nat {
    Chunk(c) % 32
  }

  predicate Continues(c: char) {
    Chunk(c) >= 0x20
  }

  // ----- One number.

  /** Signed numbers as natural ones, with the sign in the lowest bit. */
  function ZigZag(n: int): nat {
    if n < 0 then -2 * n - 1 else 2 * n
  }

  function UnZigZag(v: nat): int {
    if v % 2 == 1 then -(v / 2) - 1 else v / 2
  }

  function EncodedNatural(v: nat): (s: string)
    ensures s != ""
  {
    if v >= 0x20 then [(0x20 + v % 32 + 63) as char] + EncodedNatural(v / 32) else [(v + 63) as char]
  }

  function EncodedNumber(n: int): string {
    EncodedNatural(ZigZag(n))
  }

  /** A number and how many characters it takes. */
  datatype Reading = CutOff | Reading(value: nat, length: nat)

  /** The natural number at the beginning of s, unless s ends first. */
  function ReadNatural(s: string): (r: Reading)
    ensures r.Reading? ==> 0 < r.length <= |s|
  {
    if s == "" then CutOff
    else if !Continues(s[0]) then Reading(Bits(s[0]), 1)
    else match ReadNatural(s[1..])
      case CutOff => CutOff
      case Reading(v, n) => Reading(Bits(s[0]) + 32 * v, 1 + n)
  }

  lemma {:induction false} ReadEncoded(v: nat, rest: string)
    ensures ReadNatural(EncodedNatural(v) + rest) == Reading(v, |EncodedNatural(v)|)
  {
    var s := EncodedNatural(v) + rest;
    if v >= 0x20 {
      var c := (0x20 + v % 32 + 63) as char;
      assert s[0] == c && Chunk(c) == 0x20 + v % 32 && Bits(c) == v % 32;
      assert s[1..] == EncodedNatural(v / 32) + rest;
      ReadEncoded(v / 32, rest);
    } else {
      assert Chunk(s[0]) == v;
    }
  }

  /** The format's own example, 38.5 and -120.2 degrees, with five decimal places. */
  lemma KnownLatitude()
    ensures EncodedNumber(3850000) == "_p~iF"
  {
    assert EncodedNatural(7) == "F" && EncodedNatural(234) == "iF" && EncodedNatural(7519) == "~iF";
    assert EncodedNatural(240625) == "p~iF" && EncodedNatural(7700000) == "_p~iF";
  }

  lemma KnownLongitude()
    ensures EncodedNumber(-12020000) == "~ps|U"
  {
    assert EncodedNatural(22) == "U" && EncodedNatural(733) == "|U" && EncodedNatural(23476) == "s|U";
    assert EncodedNatural(751249) == "ps|U" && EncodedNatural(24039999) == "~ps|U";
  }

  // ----- Sequences of points.

  /** Each point is the difference from the one before it. */
  function Encoded(points: seq<Point>, from: Point): string {
    if points == [] then ""
    else EncodedNumber(points[0].lat - from.lat) + EncodedNumber(points[0].lon - from.lon) + Encoded(points[1..], points[0])
  }

  datatype Decoding = IndexError | Points(points: seq<Point>)

  function Decoded(s: string, from: Point): Decoding
    decreases |s|
  {
    if s == "" then Points([])
    else match ReadStep(s)
      case NoStep => IndexError
      case Step(_, _, n) =>
        var here := Moved(from, ReadStep(s));
        Before(here, Decoded(s[n..], here))
  }

  function Before(p: Point, rest: Decoding): Decoding {
    if rest.IndexError? then IndexError else Points([p] + rest.points)
  }

  /** Two differences and how many characters they take. */
  datatype Step = NoStep | Step(dlat: int, dlon: int, length: nat)

  function ReadStep(s: string): (r: Step)
    ensures r.Step? ==> 0 < r.length <= |s|
  {
    match ReadNatural(s)
    case CutOff => NoStep
    case Reading(lat, n) =>
      match ReadNatural(s[n..])
      case CutOff => NoStep
      case Reading(lon, m) => Step(UnZigZag(lat), UnZigZag(lon), n + m)
  }

  function Moved(from: Point, step: Step): Point
    requires step.Step?
  {
    Point(from.lat + step.dlat, from.lon + step.dlon)
  }

  /** The law of the format: decoding what was encoded gives the points back. */
  lemma {:induction false} RoundTrip(points: seq<Point>, from: Point)
    ensures Decoded(Encoded(points, from), from) == Points(points)
  {
    if points != [] {
      var (a, b) := (points[0].lat - from.lat, points[0].lon - from.lon);
      var rest := Encoded(points[1..], points[0]);
      ReadTwo(a, b, rest);
      RoundTrip(points[1..], points[0]);
      assert points == [points[0]] + points[1..];
    }
  }

  lemma ReadTwo(a: int, b: int, rest: string)
    ensures var s := EncodedNumber(a) + EncodedNumber(b) + rest;
            s != "" && exists n: nat :: ReadStep(s) == Step(a, b, n) && s[n..] == rest
  {
    var s := EncodedNumber(a) + EncodedNumber(b) + rest;
    var n := |EncodedNumber(a)| + |EncodedNumber(b)|;
    assert s == EncodedNumber(a) + (EncodedNumber(b) + rest);
    ReadEncoded(ZigZag(a), EncodedNumber(b) + rest);
    assert s[|EncodedNumber(a)|..] == EncodedNumber(b) + rest;
    ReadEncoded(ZigZag(b), rest);
    assert s[n..] == rest;
    assert ReadStep(s) == Step(a, b, n);
  }

  // ----- Which strings can be decoded.

  /** How many numbers end in s. */
  function Ends(s: string): nat {
    if s == "" then 0 else (if Continues(s[0]) then 0 else 1) + Ends(s[1..])
  }

  /** The last number is complete. */
  predicate Complete(s: string) {
    s == "" || !Continues(s[|s| - 1])
  }

  lemma {:induction false} ReadNaturalEnds(s: string)
    ensures ReadNatural(s).CutOff? <==> Ends(s) == 0
    ensures ReadNatural(s).Reading? ==>
              var n := ReadNatural(s).length;
              Ends(s[n..]) == Ends(s) - 1 && (Complete(s[n..]) <==> Complete(s))
  {
    if s != "" && Continues(s[0]) {
      ReadNaturalEnds(s[1..]);
      if ReadNatural(s).Reading? {
        var n := ReadNatural(s).length;
        assert s[1..][n - 1..] == s[n..];
      }
    }
  }

  lemma ReadStepEnds(s: string)
    requires s != ""
    ensures ReadStep(s).NoStep? <==> Ends(s) < 2
    ensures ReadStep(s).Step? ==>
              var rest := s[ReadStep(s).length..];
              Ends(rest) == Ends(s) - 2 && (Complete(rest) <==> Complete(s))
    ensures Ends(s) == 0 ==> !Complete(s)
  {
    ReadNaturalEnds(s);
    if ReadNatural(s).Reading? {
      var n := ReadNatural(s).length;
      ReadNaturalEnds(s[n..]);
      if ReadNatural(s[n..]).Reading? {
        var m := ReadNatural(s[n..]).length;
        assert s[n..][m..] == s[n + m..];
      }
    } else {
      NothingEnds(s);
    }
  }

  /** The decoder runs past the end exactly if the last number is cut off or a longitude is missing;
      otherwise it gives a point for every two numbers. */
  lemma {:induction false} DecodableIff(s: string, from: Point)
    ensures Decoded(s, from).Points? <==> Ends(s) % 2 == 0 && Complete(s)
    ensures Decoded(s, from).Points? ==> 2 * |Decoded(s, from).points| == Ends(s)
    decreases |s|
  {
    if s != "" {
      ReadStepEnds(s);
      var step := ReadStep(s);
      if step.Step? {
        var rest := s[step.length..];
        DecodableIff(rest, Moved(from, step));
        TwoLess(Ends(s), Ends(rest));
      }
    }
  }

  lemma TwoLess(n: int, m: int)
    requires m == n - 2
    ensures n % 2 == 0 <==> m % 2 == 0
  {
  }

  lemma {:induction false} NothingEnds(s: string)
    requires s != "" && Ends(s) == 0
    ensures !Complete(s)
  {
    if |s| > 1 {
      NothingEnds(s[1..]);
    }
  }

  // ----- The decoder.

  /** What has been read up to position i, as part of the number that begins at index. */
  ghost predicate PartRead(s: string, index: nat, i: nat, result: nat, scale: nat) {
    && index <= i <= |s| && result < scale
    && match ReadNatural(s[i..])
       case CutOff => ReadNatural(s[index..]) == CutOff
       case Reading(v, n) => ReadNatural(s[index..]) == Reading(result + scale * v, i - index + n)
  }

  lemma ReadOneMore(s: string, index: nat, i: nat, result: nat, scale: nat)
    requires PartRead(s, index, i, result, scale) && i < |s| && Continues(s[i])
    ensures PartRead(s, index, i + 1, result + Bits(s[i]) * scale, scale * 32)
  {
    assert s[i..][0] == s[i] && s[i..][1..] == s[i + 1..];
    NoOverlap(Bits(s[i]), result, scale);
    var rest := ReadNatural(s[i + 1..]);
    if rest.Reading? {
      Distribute(scale, Bits(s[i]), rest.value);
    }
  }

  lemma ReadTheLast(s: string, index: nat, i: nat, result: nat, scale: nat)
    requires PartRead(s, index, i, result, scale) && i < |s| && !Continues(s[i])
    ensures ReadNatural(s[index..]) == Reading(result + Bits(s[i]) * scale, i + 1 - index)
  {
    assert s[i..][0] == s[i];
    assert ReadNatural(s[i..]) == Reading(Bits(s[i]), 1);
    assert scale * Bits(s[i]) == Bits(s[i]) * scale;
  }

  lemma NoOverlap(bits: nat, result: nat, scale: nat)
    requires bits < 32 && result < scale
    ensures result + bits * scale < scale * 32
  {
    assert bits * scale <= 31 * scale;
  }

  lemma Distribute(scale: nat, bits: nat, rest: nat)
    ensures scale * (bits + 32 * rest) == bits * scale + scale * 32 * rest
  {
    assert scale * (32 * rest) == scale * 32 * rest;
  }

  /** The inner loop: one number from position index on. The bits read so far lie below the scale,
      so that joining bits is adding. Without a number, the index runs past the end. */
  method ReadNumber(encoded: string, index: nat) returns (ok: bool, number: int, past: nat)
    requires index <= |encoded|
    ensures match ReadNatural(encoded[index..])
      case CutOff => !ok
      case Reading(v, n) => ok && number == UnZigZag(v) && past == index + n
  {
    var i: nat, result: nat, scale: nat := index, 0, 1;
    while true
      invariant PartRead(encoded, index, i, result, scale)
      decreases |encoded| - i
    {
      if i >= |encoded| {
        return false, 0, 0;
      }
      var b := Chunk(encoded[i]);
      if b < 0x20 {
        ReadTheLast(encoded, index, i, result, scale);
      } else {
        ReadOneMore(encoded, index, i, result, scale);
      }
      i := i + 1;
      result := result + b % 32 * scale;
      scale := scale * 32;
      if b < 0x20 {
        break;
      }
    }
    return true, if result % 2 == 1 then -(result / 2) - 1 else result / 2, i;
  }

  /** What has been decoded up to index, as part of the whole. */
  ghost predicate PartDecoded(s: string, index: nat, here: Point, coords: seq<Point>) {
    index <= |s| && Decoded(s, ORIGIN) == After(coords, Decoded(s[index..], here))
  }

  function After(coords: seq<Point>, rest: Decoding): Decoding {
    if rest.IndexError? then IndexError else Points(coords + rest.points)
  }

  lemma AfterBefore(coords: seq<Point>, p: Point, rest: Decoding)
    ensures After(coords, Before(p, rest)) == After(coords + [p], rest)
    ensures After([], rest) == rest && After(coords, Points([])) == Points(coords)
  {
    if rest.Points? {
      assert coords + ([p] + rest.points) == (coords + [p]) + rest.points;
    }
  }

  lemma DecodedMore(s: string, index: nat, here: Point, coords: seq<Point>, step: Step)
    requires PartDecoded(s, index, here, coords) && index < |s| && ReadStep(s[index..]) == step && step.Step?
    ensures PartDecoded(s, index + step.length, Moved(here, step), coords + [Moved(here, step)])
  {
    var (there, tail) := (Moved(here, step), s[index..]);
    assert tail[step.length..] == s[index + step.length..];
    assert Decoded(tail, here) == Before(there, Decoded(tail[step.length..], there));
    AfterBefore(coords, there, Decoded(s[index + step.length..], there));
  }

  /** The two inner loops: one step from position index on. */
  method NextStep(encoded: string, index: nat) returns (r: Step)
    requires index < |encoded|
    ensures r == ReadStep(encoded[index..])
  {
    var ok, dlat, middle := ReadNumber(encoded, index);
    if !ok {
      return NoStep;
    }
    assert encoded[index..][middle - index..] == encoded[middle..];
    var ok', dlon, past := ReadNumber(encoded, middle);
    if !ok' {
      return NoStep;
    }
    r := Step(dlat, dlon, past - index);
  }

  /** decode_polyline6: it gives back what was encoded, and fails only on strings that are cut off. */
  method Decode(encoded: string) returns (r: Decoding)
    ensures forall points :: encoded == Encoded(points, Point(0, 0)) ==> r == Points(points)
    ensures r.Points? <==> Ends(encoded) % 2 == 0 && Complete(encoded)
    ensures r == Decoded(encoded, Point(0, 0))
  {
    DecodableIff(encoded, ORIGIN);
    forall points | encoded == Encoded(points, ORIGIN)
      ensures Decoded(encoded, ORIGIN) == Points(points)
    {
      RoundTrip(points, ORIGIN);
    }
    r := DecodeAll(encoded);
  }

  method DecodeAll(encoded: string) returns (r: Decoding)
    ensures r == Decoded(encoded, ORIGIN)
  {
    var coords: seq<Point> := [];
    var index: nat, here := 0, ORIGIN;
    assert encoded[0..] == encoded;
    AfterBefore([], here, Decoded(encoded, here));
    while index < |encoded|
      invariant PartDecoded(encoded, index, here, coords)
    {
      var step := NextStep(encoded, index);
      if step.NoStep? {
        return IndexError;
      }
      DecodedMore(encoded, index, here, coords, step);
      here := Moved(here, step);
      index := index + step.length;
      coords := coords + [here];
    }
    assert encoded[index..] == "";
    AfterBefore(coords, here, Points([]));
    r := Points(coords);
  }

  // ----- The encoder.

  type Int32 = n: int | -0x8000_0000 <= n < 0x8000_0000

  type UInt32 = n: int | 0 <= n < 0x1_0000_0000

  function ToUnsigned(n: Int32): UInt32 {
    if n < 0 then n + 0x1_0000_0000 else n
  }

  function ToSigned(u: UInt32): Int32 {
    if u >= 0x8000_0000 then u - 0x1_0000_0000 else u
  }

  function ShiftedLeft(u: UInt32): UInt32 {
    u * 2 % 0x1_0000_0000
  }

  function Complement(u: UInt32): UInt32 {
    0xFFFF_FFFF - u
  }

  /** Arithmetic modulo 2^32, with negative numbers as those of the upper half. */
  lemma TwosComplement(n: Int32, u: UInt32)
    ensures (ToUnsigned(n) - n) % 0x1_0000_0000 == 0 && (ToSigned(u) - u) % 0x1_0000_0000 == 0
    ensures ToSigned(ToUnsigned(n)) == n && ToSigned(Complement(u)) == -1 - ToSigned(u)
    ensures (ShiftedLeft(u) - 2 * u) % 0x1_0000_0000 == 0
  {
  }

  /** A cast to a character keeps eight bits. */
  function ToChar(n: int): char {
    (n % 0x100) as char
  }

  /** The numbers that survive the shift. */
  predicate Shiftable(n: int) {
    -0x4000_0000 <= n < 0x4000_0000
  }

  lemma ShiftIsZigZag(n: Int32)
    ensures var m := if n < 0 then ToSigned(Complement(ShiftedLeft(ToUnsigned(n)))) else ToSigned(ShiftedLeft(n));
            if Shiftable(n) then m == ZigZag(n) else m < 0
  {
  }

  /** The text of a number that does not survive the shift has more than one character. */
  lemma WideIsLong(n: int)
    requires !Shiftable(n)
    ensures |EncodedNumber(n)| > 1
  {
    assert ZigZag(n) >= 0x20;
  }

  /** serialize, in 32 bits. It gives the format exactly for the numbers that survive the shift. */
  method Serialize(number: Int32) returns (output: string)
    ensures output == EncodedNumber(number) <==> -0x4000_0000 <= number < 0x4000_0000
  {
    ShiftIsZigZag(number);
    output := Chunks(if number < 0 then ToSigned(Complement(ShiftedLeft(ToUnsigned(number)))) else ToSigned(ShiftedLeft(number)));
    if !Shiftable(number) {
      WideIsLong(number);
    }
  }

  /** The chunks of five bits, the lowest first. */
  method Chunks(number: Int32) returns (output: string)
    ensures if number >= 0 then output == EncodedNatural(number) else |output| == 1
  {
    var n := number;
    output := "";
    while n >= 0x20
      invariant if number >= 0 then n >= 0 && output + EncodedNatural(n) == EncodedNatural(number) else n < 0 && output == ""
    {
      ChunkMore(output, n);
      output := output + [ToChar(0x20 + n % 32 + 63)];
      n := n / 32;
    }
    if number >= 0 {
      LastChunk(n);
    }
    output := output + [ToChar(n + 63)];
  }

  lemma LastChunk(n: nat)
    requires n < 0x20
    ensures EncodedNatural(n) == [ToChar(n + 63)]
  {
  }

  lemma ChunkMore(output: string, n: nat)
    requires n >= 0x20
    ensures output + EncodedNatural(n) == output + [ToChar(0x20 + n % 32 + 63)] + EncodedNatural(n / 32)
  {
  }

  /** A difference of two of these survives the shift. */
  predicate InRange(p: Point) {
    -0x2000_0000 <= p.lat < 0x2000_0000 && -0x2000_0000 <= p.lon < 0x2000_0000
  }

  /** encode, once the coordinates are rounded. */
  method Encode(points: seq<Point>) returns (output: string)
    requires forall i :: 0 <= i < |points| ==> InRange(points[i])
    ensures output == Encoded(points, Point(0, 0))
    ensures Decoded(output, Point(0, 0)) == Points(points)
  {
    output := "";
    var last := ORIGIN;
    for i := 0 to |points|
      invariant InRange(last)
      invariant output + Encoded(points[i..], last) == Encoded(points, ORIGIN)
    {
      EncodedMore(output, points, i, last);
      var lat := Serialize(points[i].lat - last.lat);
      var lon := Serialize(points[i].lon - last.lon);
      output := output + lat + lon;
      last := points[i];
    }
    RoundTrip(points, ORIGIN);
  }

  /** One point, from the origin of the coordinates. */
  lemma KnownText()
    ensures Encoded([Point(3850000, -12020000)], Point(0, 0)) == "_p~iF~ps|U"
  {
    KnownLatitude();
    KnownLongitude();
    assert [Point(3850000, -12020000)][1..] == [];
  }

  lemma EncodedMore(output: string, points: seq<Point>, i: nat, last: Point)
    requires i < |points|
    ensures var p := points[i];
            output + Encoded(points[i..], last)
            == output + EncodedNumber(p.lat - last.lat) + EncodedNumber(p.lon - last.lon) + Encoded(points[i + 1..], p)
  {
    var p := points[i];
    assert points[i..][0] == p && points[i..][1..] == points[i + 1..];
    OutputMore(output, EncodedNumber(p.lat - last.lat), EncodedNumber(p.lon - last.lon), Encoded(points[i + 1..], p));
  }

  lemma OutputMore(output: string, lat: string, lon: string, rest: string)
    ensures output + (lat + lon + rest) == output + lat + lon + rest
  {
  }
}
