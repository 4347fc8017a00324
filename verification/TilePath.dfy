/** The path of a tile's file: printing it and reading the tile back from it. */
module TilePath {
  import opened Option
  import opened Tiles

  const SEPARATOR := '/'

  // ----- Digits.

  predicate IsDigit(c: char) {
    '0' <= c <= '9'
  }

  function DigitChar(d: nat): char
    requires d < 10
  {
    '0' + d as char
  }

  function DigitOf(c: char): nat
    requires IsDigit(c)
  {
    (c - '0') as nat
  }

  /** How many digits n has, which is how the logarithm is used. */
  function DigitCount(n: nat): nat {
    if n < 10 then 1 else 1 + DigitCount(n / 10)
  }

  /** n without its last k digits. */
  function Shift(n: nat, k: nat): nat {
    if k == 0 then n else Shift(n, k - 1) / 10
  }

  lemma {:induction false} ShiftTwice(n: nat, j: nat, k: nat)
    ensures Shift(Shift(n, j), k) == Shift(n, j + k)
  {
    if k > 0 {
      ShiftTwice(n, j, k - 1);
    }
  }

  lemma {:induction false} ShiftOut(n: nat, max: nat, k: nat)
    requires n <= max && DigitCount(max) <= k
    ensures Shift(n, k) == 0
  {
    if max < 10 {
      ShiftTwice(n, 1, k - 1);
      ShiftOfZero(k - 1);
      assert Shift(n, 1) == Shift(n, 0) / 10;
    } else {
      ShiftOut(n / 10, max / 10, k - 1);
      ShiftTwice(n, 1, k - 1);
      assert Shift(n, 1) == Shift(n, 0) / 10;
    }
  }

  lemma {:induction false} ShiftOfZero(k: nat)
    ensures Shift(0, k) == 0
  {
    if k > 0 {
      ShiftOfZero(k - 1);
    }
  }

  // ----- Groups of three digits.

  predicate IsGroup(v: nat) {
    v < 1000
  }

  ghost predicate AreGroups(ds: seq<nat>) {
    forall i :: 0 <= i < |ds| ==> IsGroup(ds[i])
  }

  function Three(v: nat): (s: string) {
    [DigitChar(v / 100 % 10), DigitChar(v / 10 % 10), DigitChar(v % 10)]
  }

  /** The groups, least significant first in ds, each behind a separator. */
  function Joined(ds: seq<nat>): (s: string)
    ensures |s| == 4 * |ds|
  {
    if ds == [] then "" else Joined(ds[1..]) + [SEPARATOR] + Three(ds[0])
  }

  /** The lowest n groups of an id, least significant first. */
  function Split(id: nat, n: nat): (ds: seq<nat>)
    ensures |ds| == n && AreGroups(ds)
  {
    if n == 0 then [] else [id % 1000] + Split(id / 1000, n - 1)
  }

  function Value(ds: seq<nat>): nat {
    if ds == [] then 0 else ds[0] + 1000 * Value(ds[1..])
  }

  lemma {:induction false} ValueOfSplit(id: nat, n: nat)
    requires Shift(id, 3 * n) == 0
    ensures Value(Split(id, n)) == id
  {
    if n > 0 {
      ShiftThree(id, 3 * n - 3);
      ValueOfSplit(id / 1000, n - 1);
      assert Split(id, n)[1..] == Split(id / 1000, n - 1);
    }
  }

  lemma ShiftThree(n: nat, k: nat)
    ensures Shift(n / 1000, k) == Shift(n, k + 3)
  {
    ShiftTwice(n, 3, k);
    assert Shift(n, 1) == Shift(n, 0) / 10;
    assert Shift(n, 2) == Shift(n, 1) / 10;
    assert Shift(n, 3) == Shift(n, 2) / 10;
  }

  lemma {:induction false} SplitOfValue(ds: seq<nat>)
    requires AreGroups(ds)
    ensures Split(Value(ds), |ds|) == ds
  {
    if ds != [] {
      assert IsGroup(ds[0]);
      forall i | 0 <= i < |ds[1..]|
        ensures IsGroup(ds[1..][i])
      {
        assert IsGroup(ds[i + 1]);
      }
      SplitOfValue(ds[1..]);
      LowGroup(ds[0], Value(ds[1..]));
      assert ds == [ds[0]] + ds[1..];
    }
  }

  lemma LowGroup(v: nat, w: nat)
    requires IsGroup(v)
    ensures (v + 1000 * w) % 1000 == v && (v + 1000 * w) / 1000 == w
  {
  }

  lemma {:induction false} JoinedMore(ds: seq<nat>, v: nat)
    ensures Joined(ds + [v]) == [SEPARATOR] + Three(v) + Joined(ds)
  {
    if ds == [] {
      assert ([v])[1..] == [];
      assert ds + [v] == [v];
    } else {
      JoinedMore(ds[1..], v);
      assert (ds + [v])[1..] == ds[1..] + [v];
      var (a, b, c, d) := ([SEPARATOR] + Three(v), Joined(ds[1..]), [SEPARATOR] + Three(ds[0]), [SEPARATOR]);
      assert (a + b) + d + Three(ds[0]) == a + (b + d + Three(ds[0]));
    }
  }

  lemma {:induction false} JoinedInjective(a: seq<nat>, b: seq<nat>)
    requires |a| == |b| && AreGroups(a) && AreGroups(b) && Joined(a) == Joined(b)
    ensures a == b
  {
    if a != [] {
      var (s, t) := (Joined(a), Joined(b));
      assert IsGroup(a[0]) && IsGroup(b[0]);
      assert s[..|s| - 4] == Joined(a[1..]) && t[..|t| - 4] == Joined(b[1..]);
      assert s[|s| - 3..] == Three(a[0]) && t[|t| - 3..] == Three(b[0]);
      ThreeInjective(a[0], b[0]);
      forall i | 0 <= i < |a| - 1
        ensures IsGroup(a[1..][i]) && IsGroup(b[1..][i])
      {
        assert IsGroup(a[i + 1]) && IsGroup(b[i + 1]);
      }
      JoinedInjective(a[1..], b[1..]);
      assert a == [a[0]] + a[1..] && b == [b[0]] + b[1..];
    }
  }

  lemma ThreeInjective(a: nat, b: nat)
    requires IsGroup(a) && IsGroup(b) && Three(a) == Three(b)
    ensures a == b
  {
    assert Three(a)[0] == Three(b)[0] && Three(a)[1] == Three(b)[1] && Three(a)[2] == Three(b)[2];
    DigitsMatch(a / 100 % 10, b / 100 % 10);
    DigitsMatch(a / 10 % 10, b / 10 % 10);
    DigitsMatch(a % 10, b % 10);
    DigitsMakeUp(a);
    DigitsMakeUp(b);
  }

  lemma DigitsMakeUp(v: nat)
    requires IsGroup(v)
    ensures v == 100 * (v / 100 % 10) + 10 * (v / 10 % 10) + v % 10
  {
    assert v / 10 / 10 == v / 100 < 10;
  }

  lemma DigitsMatch(a: nat, b: nat)
    requires a < 10 && b < 10 && DigitChar(a) == DigitChar(b)
    ensures a == b
  {
    assert DigitOf(DigitChar(a)) == a && DigitOf(DigitChar(b)) == b;
  }

  // ----- Where digits go.

  /** The separator or the digit at position p of n groups. */
  function CharAt(id: nat, n: nat, p: nat): char
    requires p < 4 * n
  {
    if p % 4 == 0 then SEPARATOR else DigitChar(Shift(id, DigitIndex(n, p)) % 10)
  }

  /** Which digit, counted from the last one, belongs at position p. */
  function DigitIndex(n: nat, p: nat): nat
    requires p < 4 * n
  {
    3 * (n - 1 - p / 4) + 3 - p % 4
  }

  lemma {:induction false} JoinedAt(id: nat, n: nat, p: nat)
    requires p < 4 * n
    ensures Joined(Split(id, n))[p] == CharAt(id, n, p)
  {
    var rest := Split(id / 1000, n - 1);
    assert Split(id, n)[1..] == rest;
    assert Joined(Split(id, n)) == Joined(rest) + [SEPARATOR] + Three(id % 1000);
    if p < 4 * (n - 1) {
      JoinedAt(id / 1000, n - 1, p);
      CharAtFront(id, n, p);
    } else {
      CharAtEnd(id, n, p - 4 * (n - 1));
    }
  }

  lemma CharAtFront(id: nat, n: nat, p: nat)
    requires p < 4 * (n - 1)
    ensures CharAt(id, n, p) == CharAt(id / 1000, n - 1, p)
  {
    if p % 4 != 0 {
      ShiftThree(id, DigitIndex(n - 1, p));
      assert DigitIndex(n, p) == DigitIndex(n - 1, p) + 3;
    }
  }

  lemma CharAtEnd(id: nat, n: nat, r: nat)
    requires n > 0 && r < 4
    ensures CharAt(id, n, 4 * (n - 1) + r) == ([SEPARATOR] + Three(id % 1000))[r]
  {
    var p := 4 * (n - 1) + r;
    assert p % 4 == r && p / 4 == n - 1;
    LowDigits(id);
    if r != 0 {
      assert DigitIndex(n, p) == 3 - r;
      assert ([SEPARATOR] + Three(id % 1000))[r] == Three(id % 1000)[r - 1];
    }
  }

  lemma LowDigits(id: nat)
    ensures Shift(id, 0) % 10 == id % 1000 % 10
    ensures Shift(id, 1) % 10 == id % 1000 / 10 % 10
    ensures Shift(id, 2) % 10 == id % 1000 / 100 % 10
  {
    var (q, v) := (id / 1000, id % 1000);
    assert Shift(id, 1) == Shift(id, 0) / 10 == 100 * q + v / 10;
    assert Shift(id, 2) == Shift(id, 1) / 10 == 10 * q + v / 100;
  }

  lemma SeparatorsOfJoined(id: nat, n: nat)
    ensures forall p :: 0 <= p < 4 * n && p % 4 == 0 ==> Joined(Split(id, n))[p] == SEPARATOR
  {
    forall p | 0 <= p < 4 * n && p % 4 == 0
      ensures Joined(Split(id, n))[p] == SEPARATOR
    {
      JoinedAt(id, n, p);
    }
  }

  // ----- Printing.

  datatype TileLevel = TileLevel(level: nat, maxId: nat)

  function LevelOf(level: nat): TileLevel
    requires level <= TRANSIT_LEVEL
  {
    TileLevel(level, TileCount(level) - 1)
  }

  /** The groups that the ids of a level need. */
  function Parts(maxId: nat): (n: nat)
    ensures n > 0 && DigitCount(maxId) <= 3 * n < DigitCount(maxId) + 3
  {
    (DigitCount(maxId) + 2) / 3
  }

  /** The path of a tile below the tile directory. */
  function Printed(g: GraphId, maxId: nat, suffix: string): string
    requires g.level < 10
  {
    [DigitChar(g.level)] + Joined(Split(g.tile, Parts(maxId))) + suffix
  }

  datatype Suffix = Suffix(path: string) | InvalidLevel | InvalidTileId

  /** FileSuffix. A level has three bits. */
  method FileSuffix(g: GraphId, suffix: string, tiles: Option<TileLevel>) returns (r: Suffix)
    requires g.level < 8
    ensures r == (
      if tiles.Some? && tiles.value.level != g.level then InvalidLevel
      else if tiles.None? && g.level > TRANSIT_LEVEL then InvalidLevel
      else
        var level := if tiles.Some? then tiles.value else LevelOf(g.level);
        if g.tile > level.maxId then InvalidTileId else Suffix(Printed(g, level.maxId, suffix)))
    ensures tiles.None? ==>
              (r.InvalidTileId? <==> g.level <= 3 && g.tile >= match g.level case 0 => 4050 case 1 => 64800 case _ => 1036800)
  {
    if (tiles.Some? && tiles.value.level != g.level) || (tiles.None? && g.level >= 3 && g.level != TRANSIT_LEVEL) {
      return InvalidLevel;
    }
    var maxId := if tiles.Some? then tiles.value.maxId else LevelOf(g.level).maxId;
    if g.tile > maxId {
      return InvalidTileId;
    }
    var maxLength := DigitCount(maxId);
    var remainder := maxLength % 3;
    if remainder != 0 {
      maxLength := maxLength + 3 - remainder;
    }
    assert maxLength == 3 * Parts(maxId);
    var digits := PlaceDigits(g.tile, maxLength, maxId);
    return Suffix([DigitChar(g.level)] + digits + suffix);
  }

  /** The j last digits are in place, and zeros before them. */
  ghost predicate DigitsPlaced(s: seq<char>, id: nat, n: nat, j: nat) {
    && |s| == 4 * n
    && forall p :: 0 <= p < |s| && p % 4 != 0 ==>
                     s[p] == if DigitIndex(n, p) < j then DigitChar(Shift(id, DigitIndex(n, p)) % 10) else '0'
  }

  lemma OneMoreDigit(s: seq<char>, t: seq<char>, id: nat, n: nat, j: nat)
    requires DigitsPlaced(s, id, n, j) && j < 3 * n && 0 <= Place(n, j) < 4 * n
    requires t == s[Place(n, j) := DigitChar(Shift(id, j) % 10)]
    ensures DigitsPlaced(t, id, n, j + 1)
  {
    PlaceIsRight(n, j);
  }

  lemma AllDigitsPlaced(s: seq<char>, id: nat, n: nat, j: nat)
    requires DigitsPlaced(s, id, n, j) && Shift(id, j) == 0
    ensures forall p :: 0 <= p < |s| && p % 4 != 0 ==> s[p] == Joined(Split(id, n))[p]
  {
    forall p | 0 <= p < |s| && p % 4 != 0
      ensures s[p] == Joined(Split(id, n))[p]
    {
      JoinedAt(id, n, p);
      ZeroPast(id, j, DigitIndex(n, p));
    }
  }

  lemma ZeroPast(id: nat, j: nat, k: nat)
    requires Shift(id, j) == 0
    ensures k >= j ==> DigitChar(Shift(id, k) % 10) == '0'
  {
    if k >= j {
      ShiftTwice(id, j, k - j);
      ShiftOfZero(k - j);
    }
  }

  /** The digits are written into place from the last one, passing over the separators, which are
      put in afterwards. */
  method PlaceDigits(id: nat, maxLength: nat, maxId: nat) returns (s: string)
    requires id <= maxId && maxLength % 3 == 0 && DigitCount(maxId) <= maxLength
    ensures s == Joined(Split(id, maxLength / 3))
  {
    var length := maxLength + maxLength / 3;
    var a := new char[length](_ => '0');
    var ind: int := length - 1;
    var tileId := id;
    ghost var n: nat, j: nat := maxLength / 3, 0;
    while tileId != 0
      invariant j <= maxLength && tileId == Shift(id, j) && ind == Place(n, j)
      invariant DigitsPlaced(a[..], id, n, j)
      decreases tileId
    {
      DigitLeft(id, maxId, j, maxLength);
      NextPlace(n, j);
      PlaceDigit(a, ind, tileId, id, n, j);
      ind := ind - 1;
      if (length - ind) % 4 == 0 {
        ind := ind - 1;
      }
      tileId := tileId / 10;
      j := j + 1;
    }
    AllDigitsPlaced(a[..], id, n, j);
    SeparatorsOfJoined(id, n);
    PutSeparators(a, Joined(Split(id, n)));
    s := a[..];
  }

  lemma DigitLeft(id: nat, maxId: nat, j: nat, k: nat)
    requires id <= maxId && DigitCount(maxId) <= k && j <= k && Shift(id, j) != 0
    ensures j < k
  {
    if j == k {
      ShiftOut(id, maxId, j);
    }
  }

  method PlaceDigit(a: array<char>, ind: int, tileId: nat, ghost id: nat, ghost n: nat, ghost j: nat)
    requires DigitsPlaced(a[..], id, n, j) && j < 3 * n && ind == Place(n, j) && tileId == Shift(id, j)
    modifies a
    ensures DigitsPlaced(a[..], id, n, j + 1)
  {
    PlaceIsRight(n, j);
    ghost var before := a[..];
    a[ind] := DigitChar(tileId % 10);
    assert a[..] == before[ind := DigitChar(tileId % 10)];
    OneMoreDigit(before, a[..], id, n, j);
  }

  /** All of t is in place, but for the separators from sep on. */
  ghost predicate SeparatorsPut(s: string, t: string, sep: nat) {
    |s| == |t| && forall p :: 0 <= p < |t| && (p < sep || p % 4 != 0) ==> s[p] == t[p]
  }

  lemma OneMoreSeparator(s: string, t: string, sep: nat)
    requires SeparatorsPut(s, t, sep) && sep % 4 == 0 && sep < |t| && t[sep] == SEPARATOR
    ensures SeparatorsPut(s[sep := SEPARATOR], t, sep + 4)
  {
  }

  /** t is the text with its separators. */
  method PutSeparators(a: array<char>, ghost t: string)
    requires |t| % 4 == 0 && SeparatorsPut(a[..], t, 0)
    requires forall p :: 0 <= p < |t| && p % 4 == 0 ==> t[p] == SEPARATOR
    modifies a
    ensures a[..] == t
  {
    var sep := 0;
    while sep < a.Length
      invariant sep % 4 == 0 && SeparatorsPut(a[..], t, sep)
    {
      OneMoreSeparator(a[..], t, sep);
      ghost var before := a[..];
      a[sep] := SEPARATOR;
      assert a[..] == before[sep := SEPARATOR];
      sep := sep + 4;
    }
  }

  /** Where digit j goes. One past the first digit there is nothing, and the index runs below zero. */
  function Place(n: nat, j: nat): int {
    4 * n - 1 - (j + j / 3)
  }

  lemma OverSeparator(q: nat, r: nat)
    requires r < 3
    ensures (4 * q + (r + 2)) % 4 == 0 <==> r == 2
  {
  }

  /** The index goes down by one, and once more over a separator. */
  lemma NextPlace(n: nat, j: nat)
    ensures var ind := Place(n, j) - 1;
            Place(n, j + 1) == if (4 * n - ind) % 4 == 0 then ind - 1 else ind
  {
    var (q, r) := (j / 3, j % 3);
    assert 4 * n - (Place(n, j) - 1) == 4 * q + (r + 2);
    OverSeparator(q, r);
    assert (j + 1) / 3 == if r == 2 then q + 1 else q;
  }

  lemma PlaceIsRight(n: nat, j: nat)
    requires j < 3 * n
    ensures 0 <= Place(n, j) < 4 * n && Place(n, j) % 4 != 0 && DigitIndex(n, Place(n, j)) == j
    ensures forall p :: 0 <= p < 4 * n && p % 4 != 0 && p != Place(n, j) ==> DigitIndex(n, p) != j
  {
    var (q, r) := (j / 3, j % 3);
    assert Place(n, j) == 4 * (n - 1 - q) + (3 - r);
  }

  /** Different tiles have different paths. */
  lemma PathsDiffer(g: GraphId, h: GraphId, suffix: string)
    requires InHierarchy(g) && InHierarchy(h)
    ensures Printed(g, LevelOf(g.level).maxId, suffix) == Printed(h, LevelOf(h.level).maxId, suffix)
            <==> TileBase(g) == TileBase(h)
  {
    var (gMax, hMax) := (LevelOf(g.level).maxId, LevelOf(h.level).maxId);
    var (a, b) := (Printed(g, gMax, suffix), Printed(h, hMax, suffix));
    if a == b {
      assert a[0] == b[0];
      DigitsMatch(g.level, h.level);
      var (ds, es) := (Split(g.tile, Parts(gMax)), Split(h.tile, Parts(hMax)));
      assert a[1..1 + |Joined(ds)|] == Joined(ds) && b[1..1 + |Joined(es)|] == Joined(es);
      JoinedInjective(ds, es);
      ShiftOut(g.tile, gMax, 3 * Parts(gMax));
      ShiftOut(h.tile, hMax, 3 * Parts(hMax));
      ValueOfSplit(g.tile, Parts(gMax));
      ValueOfSplit(h.tile, Parts(hMax));
    }
  }

  // ----- Parsing.

  datatype Parsed = Found(g: GraphId) | InvalidPath | BeforeStart

  /** What may stand before and after the path of a tile. */
  predicate Fits(prefix: string, suffix: string) {
    && (prefix == "" || prefix[|prefix| - 1] == SEPARATOR)
    && EndsWell(suffix)
  }

  predicate EndsWell(suffix: string) {
    (suffix == "" || suffix[0] == '.') && SEPARATOR !in suffix
  }

  /** The level and the groups of a tile. */
  function Groups(g: GraphId): seq<nat>
    requires g.level <= TRANSIT_LEVEL
  {
    Split(g.tile, Parts(LevelOf(g.level).maxId))
  }

  /** The printed path of the tile, in any directory. */
  ghost predicate IsPrinted(path: string, g: GraphId, prefix: string, suffix: string) {
    InHierarchy(g) && Fits(prefix, suffix) && path == prefix + Printed(g, LevelOf(g.level).maxId, suffix)
  }

  /** A path from the root made of groups only, the first of them being the level. */
  ghost predicate IsRooted(path: string, g: GraphId, suffix: string) {
    InHierarchy(g) && EndsWell(suffix) && path == Joined(Groups(g) + [g.level]) + suffix
  }

  ghost predicate IsPathOf(path: string, g: GraphId) {
    g.id == 0 && ((exists prefix, suffix :: IsPrinted(path, g, prefix, suffix)) || (exists suffix :: IsRooted(path, g, suffix)))
  }

  /** Only groups of three digits, all the way from the first character. */
  ghost predicate OnlyGroups(path: string) {
    exists ds, suffix :: |ds| >= 2 && AreGroups(ds) && EndsWell(suffix) && [SEPARATOR] + path == Joined(ds) + suffix
  }

  /** atoi, of digits only. */
  function Number(s: string): nat
    requires forall i :: 0 <= i < |s| ==> IsDigit(s[i])
  {
    if s == "" then 0 else 10 * Number(s[..|s| - 1]) + DigitOf(s[|s| - 1])
  }

  lemma NumberOfThree(s: string)
    requires |s| == 3 && forall i :: 0 <= i < |s| ==> IsDigit(s[i])
    ensures IsGroup(Number(s)) && Three(Number(s)) == s
  {
    var (a, b, c) := (DigitOf(s[0]), DigitOf(s[1]), DigitOf(s[2]));
    NumberOfOne(s[..1]);
    assert s[..2][..1] == s[..1];
    assert Number(s[..2]) == 10 * a + b;
    ThreeOf(a, b, c);
    assert DigitChar(a) == s[0] && DigitChar(b) == s[1] && DigitChar(c) == s[2];
  }

  lemma ThreeOf(a: nat, b: nat, c: nat)
    requires a < 10 && b < 10 && c < 10
    ensures Three(10 * (10 * a + b) + c) == [DigitChar(a), DigitChar(b), DigitChar(c)]
  {
    var v := 10 * (10 * a + b) + c;
    assert v / 10 == 10 * a + b && v / 100 == a;
  }

  lemma NumberOfOne(s: string)
    requires |s| == 1 && IsDigit(s[0])
    ensures Number(s) == DigitOf(s[0]) < 10 && DigitChar(Number(s)) == s[0]
  {
    assert s[..0] == "";
    assert Number(s[..0]) == 0;
  }

  // ----- Where the groups of a path stand.

  /** The character that may stand so many before the end of groups. */
  predicate InPlace(c: char, left: int) {
    if left % 4 == 0 then c == SEPARATOR else IsDigit(c)
  }

  lemma {:induction false} JoinedLayout(ds: seq<nat>, p: nat)
    requires p < 4 * |ds|
    ensures InPlace(Joined(ds)[p], 4 * |ds| - p)
  {
    var rest := Joined(ds[1..]);
    if p < |rest| {
      JoinedLayout(ds[1..], p);
      assert Joined(ds)[p] == rest[p];
    } else {
      assert Joined(ds)[p] == ([SEPARATOR] + Three(ds[0]))[p - |rest|];
    }
  }

  /** The last separator, and where the digits after it end: at a dot or with the path. */
  ghost predicate EndOf(path: string, sep: nat, end: nat) {
    && sep < end <= |path| && path[sep] == SEPARATOR
    && (forall p :: sep < p < |path| ==> path[p] != SEPARATOR)
    && (forall p :: sep < p < end ==> IsDigit(path[p]))
    && (end == |path| || path[end] == '.')
  }

  lemma EndIsUnique(path: string, sep: nat, end: nat, sep': nat, end': nat)
    requires EndOf(path, sep, end) && EndOf(path, sep', end')
    ensures sep == sep' && end == end'
  {
  }

  /** Groups from one position to another; position -1 stands for a separator before the start. */
  ghost predicate Layout(path: string, from: int, end: nat) {
    && -1 <= from < end <= |path| && (end - from) % 4 == 0
    && forall p :: 0 <= p && from <= p < end ==> InPlace(path[p], end - p)
  }

  /** Groups that follow a level, or that begin the path. */
  ghost predicate Shape(path: string, from: int, end: nat) {
    Layout(path, from, end) && (from >= 1 ==> IsDigit(path[from - 1]) && (from == 1 || path[from - 2] == SEPARATOR))
  }

  lemma GroupsInside(path: string, before: string, ds: seq<nat>, suffix: string) returns (end: nat)
    requires path == before + Joined(ds) + suffix && |ds| >= 1 && EndsWell(suffix)
    ensures end == |before| + 4 * |ds| && EndOf(path, end - 4, end) && Layout(path, |before|, end)
    ensures path[|before|..end] == Joined(ds)
  {
    end := |before| + |Joined(ds)|;
    Middle(path, before, Joined(ds), suffix);
    LayoutInside(path, |before|, end, ds);
    SuffixAfter(path, before + Joined(ds), suffix);
    EndFromLayout(path, |before|, end - 4, end);
  }

  lemma Middle(s: string, a: string, b: string, c: string)
    requires s == a + b + c
    ensures s == (a + b) + c && s[|a|..|a| + |b|] == b
  {
  }

  lemma LayoutInside(path: string, from: nat, end: nat, ds: seq<nat>)
    requires |ds| >= 1 && from < end <= |path| && path[from..end] == Joined(ds)
    ensures Layout(path, from, end)
  {
    var groups := path[from..end];
    WholeGroups(end - from, |ds|);
    forall p | from <= p < end
      ensures InPlace(path[p], end - p)
    {
      CharInside(path, from, end, ds, p);
    }
  }

  lemma WholeGroups(k: int, n: int)
    requires k == 4 * n
    ensures k % 4 == 0
  {
  }

  lemma CharInside(path: string, from: nat, end: nat, ds: seq<nat>, p: nat)
    requires from <= p < end <= |path| && path[from..end] == Joined(ds)
    ensures InPlace(path[p], end - p)
  {
    var left := 4 * |ds| - (p - from);
    JoinedLayout(ds, p - from);
    assert path[p] == path[from..end][p - from];
    assert left == end - p;
  }

  lemma SuffixAfter(path: string, before: string, suffix: string)
    requires path == before + suffix && EndsWell(suffix)
    ensures |before| == |path| || path[|before|] == '.'
    ensures forall p :: |before| <= p < |path| ==> path[p] != SEPARATOR
  {
    assert forall p :: |before| <= p < |path| ==> path[p] == suffix[p - |before|] && suffix[p - |before|] in suffix;
  }

  lemma EndFromLayout(path: string, from: int, sep: nat, end: nat)
    requires Layout(path, from, end) && sep == end - 4 >= from
    requires end == |path| || path[end] == '.'
    requires forall p :: end <= p < |path| ==> path[p] != SEPARATOR
    ensures EndOf(path, sep, end)
  {
    assert InPlace(path[sep], end - sep);
    assert forall p :: sep < p < end ==> InPlace(path[p], end - p) && 0 < end - p < 4;
  }

  lemma PrintedShape(path: string, g: GraphId, prefix: string, suffix: string) returns (from: nat, end: nat)
    requires IsPrinted(path, g, prefix, suffix)
    ensures end >= 4 && EndOf(path, end - 4, end) && Shape(path, from, end) && from >= 1
    ensures path[from..end] == Joined(Groups(g)) && path[from - 1] == DigitChar(g.level)
  {
    var before := prefix + [DigitChar(g.level)];
    assert path == before + Joined(Groups(g)) + suffix;
    end := GroupsInside(path, before, Groups(g), suffix);
    from := |before|;
  }

  lemma RootedShape(path: string, g: GraphId, suffix: string) returns (end: nat)
    requires IsRooted(path, g, suffix)
    ensures end >= 4 && EndOf(path, end - 4, end) && Shape(path, 0, end)
    ensures path[..end] == Joined(Groups(g) + [g.level])
  {
    var ds := Groups(g) + [g.level];
    assert path == "" + Joined(ds) + suffix;
    end := GroupsInside(path, "", ds, suffix);
    assert path[0..end] == path[..end];
  }

  lemma OnlyGroupsShape(path: string, ds: seq<nat>, suffix: string) returns (end: nat)
    requires |ds| >= 2 && EndsWell(suffix) && [SEPARATOR] + path == Joined(ds) + suffix
    ensures end >= 4 && EndOf(path, end - 4, end) && Shape(path, -1, end)
  {
    var longer := [SEPARATOR] + path;
    assert longer == "" + Joined(ds) + suffix;
    var past := GroupsInside(longer, "", ds, suffix);
    end := past - 1;
    EndShifted(path, end - 4, end);
    LayoutShifted(path, end);
  }

  lemma EndShifted(path: string, sep: nat, end: nat)
    requires EndOf([SEPARATOR] + path, sep + 1, end + 1)
    ensures EndOf(path, sep, end)
  {
    assert forall p :: 0 <= p < |path| ==> path[p] == ([SEPARATOR] + path)[p + 1];
  }

  lemma LayoutShifted(path: string, end: nat)
    requires Layout([SEPARATOR] + path, 0, end + 1) && end > 0
    ensures Layout(path, -1, end)
  {
    forall p | 0 <= p < end
      ensures InPlace(path[p], end - p)
    {
      assert path[p] == ([SEPARATOR] + path)[p + 1];
      assert InPlace(([SEPARATOR] + path)[p + 1], end + 1 - (p + 1));
    }
  }

  // ----- Putting the groups together.

  /** The outcome for a level and the groups below it, least significant first. */
  function Assembled(level: nat, ds: seq<nat>): Parsed {
    if level > TRANSIT_LEVEL || |ds| != Parts(LevelOf(level).maxId) || Value(ds) > LevelOf(level).maxId then InvalidPath
    else Found(GraphId(level, Value(ds), 0))
  }

  lemma AssembledIff(level: nat, ds: seq<nat>, g: GraphId)
    requires AreGroups(ds)
    ensures Assembled(level, ds) == Found(g) <==> InHierarchy(g) && g.id == 0 && g.level == level && ds == Groups(g)
  {
    SplitOfValue(ds);
    if InHierarchy(g) {
      var maxId := LevelOf(g.level).maxId;
      ShiftOut(g.tile, maxId, 3 * Parts(maxId));
      ValueOfSplit(g.tile, Parts(maxId));
    }
  }

  lemma HierarchyParts(level: nat)
    requires level <= TRANSIT_LEVEL
    ensures 2 <= Parts(LevelOf(level).maxId) <= 3
  {
    assert DigitCount(4049) == 4 by {
      assert DigitCount(404) == 3;
    }
    assert DigitCount(64799) == 5 by {
      assert DigitCount(647) == 3;
      assert DigitCount(6479) == 4;
    }
    assert DigitCount(1036799) == 7 by {
      assert DigitCount(103) == 3;
      assert DigitCount(10367) == 5;
    }
  }

  /** The rest of GetTileId, once the groups are known; the level comes last. No sum leaves 32 bits. */
  method Assemble(digits: seq<nat>) returns (r: Parsed)
    requires |digits| > 0 && AreGroups(digits)
    ensures r == Assembled(digits[|digits| - 1], digits[..|digits| - 1])
  {
    if digits[|digits| - 1] >= 3 && digits[|digits| - 1] != TRANSIT_LEVEL {
      return InvalidPath;
    }
    var level := digits[|digits| - 1];
    var ds := digits[..|digits| - 1];
    var maxId := LevelOf(level).maxId;
    HierarchyParts(level);
    if |ds| != Parts(maxId) {
      return InvalidPath;
    }
    var multiplier, id := 1, 0;
    for i := 0 to |ds|
      invariant multiplier == (if i == 0 then 1 else if i == 1 then 1000 else if i == 2 then 1000000 else 1000000000)
      invariant 0 <= id < multiplier
      invariant id + multiplier * Value(ds[i..]) == Value(ds)
    {
      assert IsGroup(digits[i]);
      assert ds[i..][1..] == ds[i + 1..];
      assert Value(ds[i..]) == ds[i] + 1000 * Value(ds[i + 1..]);
      id := id + ds[i] * multiplier;
      multiplier := multiplier * 1000;
    }
    assert ds[|ds|..] == [];
    if id > maxId {
      return InvalidPath;
    }
    return Found(GraphId(level, id, 0));
  }

  // ----- What the forms of a path imply.

  lemma PathHasShape(path: string, sep: nat, end: nat, g: GraphId) returns (from: nat)
    requires EndOf(path, sep, end) && IsPathOf(path, g)
    ensures Shape(path, from, end)
    ensures from >= 1 ==> path[from..end] == Joined(Groups(g)) && path[from - 1] == DigitChar(g.level)
    ensures from == 0 ==> path[..end] == Joined(Groups(g) + [g.level])
  {
    var end': nat;
    if prefix, suffix :| IsPrinted(path, g, prefix, suffix) {
      from, end' := PrintedShape(path, g, prefix, suffix);
    } else {
      var suffix :| IsRooted(path, g, suffix);
      from := 0;
      end' := RootedShape(path, g, suffix);
    }
    EndIsUnique(path, sep, end, end' - 4, end');
  }

  lemma OnlyGroupsHasShape(path: string, sep: nat, end: nat)
    requires EndOf(path, sep, end) && OnlyGroups(path)
    ensures Shape(path, -1, end)
  {
    var ds, suffix :| |ds| >= 2 && AreGroups(ds) && EndsWell(suffix) && [SEPARATOR] + path == Joined(ds) + suffix;
    var end' := OnlyGroupsShape(path, ds, suffix);
    EndIsUnique(path, sep, end, end' - 4, end');
  }

  lemma NoEnd(path: string)
    requires forall sep, end :: !EndOf(path, sep, end)
    ensures !OnlyGroups(path) && forall g :: !IsPathOf(path, g)
  {
    if OnlyGroups(path) {
      var ds, suffix :| |ds| >= 2 && AreGroups(ds) && EndsWell(suffix) && [SEPARATOR] + path == Joined(ds) + suffix;
      var end := OnlyGroupsShape(path, ds, suffix);
    }
    forall g | IsPathOf(path, g)
      ensures false
    {
      if prefix, suffix :| IsPrinted(path, g, prefix, suffix) {
        var from, end := PrintedShape(path, g, prefix, suffix);
      } else {
        var suffix :| IsRooted(path, g, suffix);
        var end := RootedShape(path, g, suffix);
      }
    }
  }

  lemma NoShape(path: string, sep: nat, end: nat)
    requires EndOf(path, sep, end) && forall from :: !Shape(path, from, end)
    ensures !OnlyGroups(path) && forall g :: !IsPathOf(path, g)
  {
    if OnlyGroups(path) {
      OnlyGroupsHasShape(path, sep, end);
    }
    forall g | IsPathOf(path, g)
      ensures false
    {
      var from := PathHasShape(path, sep, end, g);
    }
  }

  /** The groups ds after a level. */
  ghost predicate AfterLevel(path: string, sep: nat, end: nat, from: nat, ds: seq<nat>, level: nat) {
    && EndOf(path, sep, end) && 1 <= from <= end && path[from..end] == Joined(ds) && AreGroups(ds)
    && level < 10 && path[from - 1] == DigitChar(level) && (from == 1 || path[from - 2] == SEPARATOR)
  }

  lemma LevelFound(path: string, sep: nat, end: nat, from: nat, ds: seq<nat>, level: nat)
    requires AfterLevel(path, sep, end, from, ds, level)
    requires forall f :: Shape(path, f, end) ==> f == from
    ensures !OnlyGroups(path)
    ensures forall g :: Assembled(level, ds) == Found(g) <==> IsPathOf(path, g)
  {
    if OnlyGroups(path) {
      OnlyGroupsHasShape(path, sep, end);
    }
    forall g
      ensures Assembled(level, ds) == Found(g) <==> IsPathOf(path, g)
    {
      AssembledIff(level, ds, g);
      if IsPathOf(path, g) {
        LevelDigits(path, sep, end, from, ds, level, g);
      } else if Assembled(level, ds) == Found(g) {
        LevelPath(path, sep, end, from, g);
      }
    }
  }

  lemma LevelDigits(path: string, sep: nat, end: nat, from: nat, ds: seq<nat>, level: nat, g: GraphId)
    requires AfterLevel(path, sep, end, from, ds, level) && IsPathOf(path, g)
    requires forall f :: Shape(path, f, end) ==> f == from
    ensures g.level == level && ds == Groups(g)
  {
    var f := PathHasShape(path, sep, end, g);
    SameGroups(ds, Groups(g));
    DigitsMatch(level, g.level);
  }

  lemma LevelPath(path: string, sep: nat, end: nat, from: nat, g: GraphId)
    requires InHierarchy(g) && g.id == 0 && AfterLevel(path, sep, end, from, Groups(g), g.level)
    ensures IsPathOf(path, g)
  {
    var prefix, suffix, text := path[..from - 1], path[end..], [DigitChar(g.level)] + Joined(Groups(g));
    Whole(path, from - 1, end, text);
    WellEnded(path, sep, end);
    PrintedAs(path, g, prefix, text, suffix);
  }

  lemma PrintedAs(path: string, g: GraphId, prefix: string, text: string, suffix: string)
    requires InHierarchy(g) && Fits(prefix, suffix) && text == [DigitChar(g.level)] + Joined(Groups(g))
    requires path == prefix + (text + suffix)
    ensures IsPrinted(path, g, prefix, suffix)
  {
  }

  lemma SameGroups(a: seq<nat>, b: seq<nat>)
    requires AreGroups(a) && AreGroups(b) && Joined(a) == Joined(b)
    ensures a == b
  {
    assert |Joined(a)| == |Joined(b)|;
    JoinedInjective(a, b);
  }

  lemma Whole(s: string, i: nat, j: nat, middle: string)
    requires i < j <= |s| && [s[i]] + s[i + 1..j] == middle
    ensures s == s[..i] + (middle + s[j..])
  {
  }

  lemma WellEnded(path: string, sep: nat, end: nat)
    requires EndOf(path, sep, end)
    ensures EndsWell(path[end..])
  {
    assert forall c :: c in path[end..] ==> exists p :: end <= p < |path| && path[p] == c;
  }

  lemma LastApart(a: seq<nat>, x: nat, b: seq<nat>, y: nat)
    requires a + [x] == b + [y]
    ensures a == b && x == y
  {
    assert |a + [x]| == |b + [y]|;
    assert (a + [x])[..|a|] == a && (b + [y])[..|b|] == b;
    assert (a + [x])[|a|] == x && (b + [y])[|b|] == y;
  }

  lemma RootFound(path: string, sep: nat, end: nat, ds: seq<nat>, level: nat)
    requires EndOf(path, sep, end) && path[..end] == Joined(ds + [level]) && AreGroups(ds + [level])
    requires forall f :: Shape(path, f, end) ==> f <= 0
    ensures !OnlyGroups(path)
    ensures forall g :: Assembled(level, ds) == Found(g) <==> IsPathOf(path, g)
  {
    RootIsNotOnlyGroups(path, sep, end, |ds| + 1);
    forall g
      ensures Assembled(level, ds) == Found(g) <==> IsPathOf(path, g)
    {
      FewerGroups(ds, level);
      AssembledIff(level, ds, g);
      if IsPathOf(path, g) {
        RootedDigits(path, sep, end, ds, level, g);
      } else if Assembled(level, ds) == Found(g) {
        RootedPath(path, sep, end, g);
      }
    }
  }

  lemma FewerGroups(ds: seq<nat>, v: nat)
    requires AreGroups(ds + [v])
    ensures AreGroups(ds)
  {
    forall i | 0 <= i < |ds|
      ensures IsGroup(ds[i])
    {
      assert IsGroup((ds + [v])[i]);
    }
  }

  lemma RootIsNotOnlyGroups(path: string, sep: nat, end: nat, n: nat)
    requires EndOf(path, sep, end) && end == 4 * n
    ensures !OnlyGroups(path)
  {
    WholeGroups(end, n);
    if OnlyGroups(path) {
      OnlyGroupsHasShape(path, sep, end);
    }
  }

  lemma RootedDigits(path: string, sep: nat, end: nat, ds: seq<nat>, level: nat, g: GraphId)
    requires EndOf(path, sep, end) && path[..end] == Joined(ds + [level]) && AreGroups(ds + [level]) && IsPathOf(path, g)
    requires forall f :: Shape(path, f, end) ==> f <= 0
    ensures g.level == level && ds == Groups(g)
  {
    var f := PathHasShape(path, sep, end, g);
    assert AreGroups(Groups(g) + [g.level]);
    SameGroups(ds + [level], Groups(g) + [g.level]);
    LastApart(ds, level, Groups(g), g.level);
  }

  lemma RootedPath(path: string, sep: nat, end: nat, g: GraphId)
    requires EndOf(path, sep, end) && InHierarchy(g) && g.id == 0 && path[..end] == Joined(Groups(g) + [g.level])
    ensures IsPathOf(path, g)
  {
    WellEnded(path, sep, end);
    assert path == path[..end] + path[end..];
    assert IsRooted(path, g, path[end..]);
  }

  lemma RanOut(path: string, sep: nat, end: nat, ds: seq<nat>, v: nat)
    requires EndOf(path, sep, end) && 3 <= end && path[..3] == Three(v) && path[3..end] == Joined(ds)
    requires AreGroups(ds) && IsGroup(v)
    requires forall f :: Shape(path, f, end) ==> f == -1
    ensures OnlyGroups(path) && forall g :: !IsPathOf(path, g)
  {
    assert |path[3..end]| == 4 * |ds|;
    assert forall i :: 0 <= i < 3 ==> path[i] == Three(v)[i] && IsDigit(Three(v)[i]);
    WellEnded(path, sep, end);
    BeforeAll(path, end, ds, v);
    forall g | IsPathOf(path, g)
      ensures false
    {
      var from := PathHasShape(path, sep, end, g);
    }
  }

  lemma BeforeAll(path: string, end: nat, ds: seq<nat>, v: nat)
    requires 3 <= end <= |path| && path[..3] == Three(v) && path[3..end] == Joined(ds)
    ensures [SEPARATOR] + path == Joined(ds + [v]) + path[end..]
  {
    JoinedMore(ds, v);
    Spread(path, path[..3], path[3..end], path[end..]);
  }

  lemma Spread(s: string, a: string, b: string, c: string)
    requires s == a + b + c
    ensures [SEPARATOR] + s == ([SEPARATOR] + a + b) + c
  {
  }

  // ----- The walk back over the groups.

  /** Everything from last on is the groups ds; what has been passed before it are digits of the
      group in hand, which does not begin yet. */
  ghost predicate Scanned(path: string, end: nat, pos: nat, last: nat, ds: seq<nat>) {
    && pos <= last <= end <= |path| && AreGroups(ds) && path[last..end] == Joined(ds)
    && (forall p :: pos <= p < last ==> IsDigit(path[p]))
    && (pos < last ==> pos > 0 && path[pos - 1] != SEPARATOR)
  }

  lemma GroupsAhead(path: string, from: int, end: nat, last: nat, n: nat)
    requires Layout(path, from, end) && from < last <= end && end - last == 4 * n
    ensures from <= last - 4 && IsDigit(path[last - 1]) && IsDigit(path[last - 2]) && IsDigit(path[last - 3])
    ensures last >= 4 ==> path[last - 4] == SEPARATOR
  {
    Remainders(end - from, end - last, n);
    assert InPlace(path[last - 1], 4 * n + 1) && InPlace(path[last - 2], 4 * n + 2) && InPlace(path[last - 3], 4 * n + 3);
    if last >= 4 {
      assert InPlace(path[last - 4], 4 * n + 4);
    }
  }

  lemma Remainders(k: int, m: int, n: int)
    requires m == 4 * n && k > m && k % 4 == 0
    ensures k >= m + 4
  {
  }

  /** One step back stays within the shape: it finds a digit, and a group begins there exactly when
      it has three digits, or one if it is the level. */
  lemma OneBack(path: string, from: int, end: nat, pos: nat, last: nat, ds: seq<nat>)
    requires Scanned(path, end, pos, last, ds) && pos > 0 && Shape(path, from, end) && from <= last
    ensures IsDigit(path[pos - 1])
    ensures (pos == 1 || path[pos - 2] == SEPARATOR) ==> last - pos + 1 == (if from == last then 1 else 3)
    ensures from < last ==> from <= last - 4
  {
    if from < last {
      assert |path[last..end]| == 4 * |ds|;
      GroupsAhead(path, from, end, last, |ds|);
    }
  }

  /** The last separator and the end of the digits that follow it. */
  method FindEnd(path: string) returns (ok: bool, end: nat, ghost sep: nat)
    ensures ok ==> EndOf(path, sep, end)
    ensures !ok ==> forall s, e :: !EndOf(path, s, e)
  {
    ok, end, sep := false, 0, 0;
    var pos: int := |path| - 1;
    while pos >= 0 && path[pos] != SEPARATOR
      invariant -1 <= pos < |path|
      invariant forall p :: pos < p < |path| ==> path[p] != SEPARATOR
    {
      pos := pos - 1;
    }
    if pos < 0 {
      return;
    }
    sep := pos;
    while pos < |path| && (path[pos] == SEPARATOR || IsDigit(path[pos]))
      invariant sep <= pos <= |path| && (pos == sep ==> sep < |path|)
      invariant forall p :: sep < p < pos ==> IsDigit(path[p])
    {
      pos := pos + 1;
    }
    end := pos;
    ok := pos == |path| || path[pos] == '.';
  }

  ghost predicate Behind(path: string, end: nat, last: nat) {
    forall from :: Shape(path, from, end) ==> from <= last
  }

  /** With what a group of dist characters begins, for all shapes at once. */
  ghost predicate Fitting(path: string, end: nat, last: nat, dist: nat) {
    forall from :: Shape(path, from, end) ==>
                     dist == (if from == last then 1 else 3) && (from < last ==> from <= last - 4)
  }

  lemma AnyBack(path: string, end: nat, pos: nat, last: nat, ds: seq<nat>)
    requires Scanned(path, end, pos, last, ds) && pos > 0 && Behind(path, end, last)
    ensures !IsDigit(path[pos - 1]) ==> forall from :: !Shape(path, from, end)
    ensures (pos == 1 || path[pos - 2] == SEPARATOR) ==> Fitting(path, end, last, last - pos + 1)
  {
    forall from | Shape(path, from, end)
      ensures IsDigit(path[pos - 1]) && (from < last ==> from <= last - 4)
      ensures (pos == 1 || path[pos - 2] == SEPARATOR) ==> last - pos + 1 == (if from == last then 1 else 3)
    {
      OneBack(path, from, end, pos, last, ds);
    }
  }

  lemma InHand(path: string, pos: nat, last: nat)
    requires pos <= last <= |path| && forall p :: pos <= p < last ==> IsDigit(path[p])
    ensures forall i :: 0 <= i < |path[pos..last]| ==> IsDigit(path[pos..last][i])
  {
  }

  /** r is the right answer for the path. */
  ghost predicate Tells(path: string, r: Parsed) {
    (forall g :: r == Found(g) <==> IsPathOf(path, g)) && (r == BeforeStart <==> OnlyGroups(path))
  }

  /** Something that is neither a digit nor a group of one or three is in hand. */
  lemma NoGroup(path: string, sep: nat, end: nat, pos: nat, last: nat, ds: seq<nat>)
    requires EndOf(path, sep, end) && Scanned(path, end, pos, last, ds) && pos > 0 && Behind(path, end, last)
    requires !IsDigit(path[pos - 1]) || ((pos == 1 || path[pos - 2] == SEPARATOR) && last - pos + 1 != 3 && last - pos + 1 != 1)
    ensures Tells(path, InvalidPath)
  {
    AnyBack(path, end, pos, last, ds);
    NoShape(path, sep, end);
  }

  /** The level is in hand. */
  lemma LevelInHand(path: string, sep: nat, end: nat, last: nat, ds: seq<nat>, level: nat)
    requires EndOf(path, sep, end) && Scanned(path, end, last, last, ds) && last > 0 && Behind(path, end, last)
    requires (last == 1 || path[last - 2] == SEPARATOR) && level < 10 && path[last - 1] == DigitChar(level)
    ensures Tells(path, Assembled(level, ds))
  {
    AnyBack(path, end, last, last, ds);
    LevelFound(path, sep, end, last, ds, level);
  }

  /** A group of three is in hand, at the start or behind a separator. */
  lemma GroupInHand(path: string, sep: nat, end: nat, last: nat, ds: seq<nat>, v: nat)
    requires EndOf(path, sep, end) && 3 <= last && Scanned(path, end, last - 2, last, ds) && Behind(path, end, last)
    requires IsGroup(v) && path[last - 3..last] == Three(v) && IsDigit(path[last - 3])
    requires last == 3 || path[last - 4] == SEPARATOR
    ensures last == 3 ==> Tells(path, BeforeStart)
    ensures last > 3 ==> Scanned(path, end, last - 4, last - 4, ds + [v]) && Behind(path, end, last - 4)
  {
    AnyBack(path, end, last - 2, last, ds);
    if last == 3 {
      RanOut(path, sep, end, ds, v);
    } else {
      GroupMore(path, end, last - 3, last, ds, v);
    }
  }

  /** GetTileId: a tile is found exactly for the paths of that tile. A path made of groups only, with
      no separator before the first, sends the walk past its start. */
  method GetTileId(path: string) returns (r: Parsed)
    ensures forall g :: r == Found(g) <==> IsPathOf(path, g)
    ensures r == BeforeStart <==> OnlyGroups(path)
  {
    var ok, end, sep := FindEnd(path);
    if !ok {
      NoEnd(path);
      return InvalidPath;
    }
    r := ReadBack(path, end, sep);
  }

  method ReadBack(path: string, end: nat, ghost sep: nat) returns (r: Parsed)
    requires EndOf(path, sep, end)
    ensures Tells(path, r)
  {
    var digits: seq<nat> := [];
    var pos: nat, last: nat := end, end;
    while pos > 0
      invariant Scanned(path, end, pos, last, digits) && Behind(path, end, last)
      decreases pos
    {
      pos := pos - 1;
      if !IsDigit(path[pos]) {
        NoGroup(path, sep, end, pos + 1, last, digits);
        return InvalidPath;
      }
      if pos == 0 || path[pos - 1] == SEPARATOR {
        var done;
        done, r, digits := TakeGroup(path, end, sep, pos, last, digits);
        if done {
          return;
        }
        pos := pos - 1;
        last := pos;
      } else {
        InGroup(path, end, pos, last, digits);
      }
    }
    // The walk came to a separator at the very start, and takes the first group for the level.
    AllGroups(path, sep, end, digits);
    r := Assemble(digits);
  }

  lemma InGroup(path: string, end: nat, pos: nat, last: nat, ds: seq<nat>)
    requires Scanned(path, end, pos + 1, last, ds) && IsDigit(path[pos]) && pos > 0 && path[pos - 1] != SEPARATOR
    ensures Scanned(path, end, pos, last, ds)
  {
  }

  /** What is done with a group that begins at pos. */
  method TakeGroup(path: string, end: nat, ghost sep: nat, pos: nat, last: nat, digits: seq<nat>)
    returns (done: bool, r: Parsed, digits': seq<nat>)
    requires EndOf(path, sep, end) && Scanned(path, end, pos + 1, last, digits) && Behind(path, end, last)
    requires IsDigit(path[pos]) && (pos == 0 || path[pos - 1] == SEPARATOR)
    ensures done ==> Tells(path, r)
    ensures !done ==> pos > 0 && Scanned(path, end, pos - 1, pos - 1, digits') && Behind(path, end, pos - 1)
  {
    done, r, digits' := true, InvalidPath, digits;
    var dist := last - pos;
    if dist != 3 && dist != 1 {
      NoGroup(path, sep, end, pos + 1, last, digits);
      return;
    }
    var number := NumberAt(path, pos, last);
    if dist == 1 {
      LevelInHand(path, sep, end, last, digits, number);
      r := AssembleWith(digits, number);
      return;
    }
    GroupInHand(path, sep, end, last, digits, number);
    if pos == 0 {
      r := BeforeStart;
      return;
    }
    done, digits' := false, digits + [number];
  }

  method NumberAt(path: string, pos: nat, last: nat) returns (number: nat)
    requires pos <= last <= |path| && (last - pos == 1 || last - pos == 3) && forall p :: pos <= p < last ==> IsDigit(path[p])
    ensures IsGroup(number)
    ensures if last - pos == 1 then number < 10 && path[pos] == DigitChar(number) else path[pos..last] == Three(number)
  {
    InHand(path, pos, last);
    number := Number(path[pos..last]);
    if last - pos == 1 {
      NumberOfOne(path[pos..last]);
    } else {
      NumberOfThree(path[pos..last]);
    }
  }

  method AssembleWith(digits: seq<nat>, level: nat) returns (r: Parsed)
    requires AreGroups(digits) && IsGroup(level)
    ensures r == Assembled(level, digits)
  {
    assert (digits + [level])[..|digits|] == digits;
    r := Assemble(digits + [level]);
  }

  lemma AllGroups(path: string, sep: nat, end: nat, digits: seq<nat>)
    requires EndOf(path, sep, end) && Scanned(path, end, 0, 0, digits) && Behind(path, end, 0)
    ensures digits != [] && !OnlyGroups(path)
    ensures var n := |digits| - 1; forall g :: Assembled(digits[n], digits[..n]) == Found(g) <==> IsPathOf(path, g)
  {
    var n := |digits| - 1;
    assert |path[..end]| == 4 * |digits|;
    assert digits == digits[..n] + [digits[n]] && path[..end] == path[0..end];
    RootFound(path, sep, end, digits[..n], digits[n]);
  }

  lemma GroupMore(path: string, end: nat, pos: nat, last: nat, ds: seq<nat>, v: nat)
    requires 0 < pos <= last <= end <= |path| && path[pos - 1] == SEPARATOR && path[pos..last] == Three(v)
    requires path[last..end] == Joined(ds)
    ensures path[pos - 1..end] == Joined(ds + [v])
  {
    JoinedMore(ds, v);
    assert path[pos - 1..end] == [path[pos - 1]] + path[pos..last] + path[last..end];
  }

  lemma JoinedTwo(v: nat, w: nat)
    ensures Joined([v, w]) == [SEPARATOR] + Three(w) + [SEPARATOR] + Three(v)
  {
    var ds := [v, w];
    assert ds[1..] == [w] && ds[1..][1..] == [];
    assert Joined([w]) == [SEPARATOR] + Three(w);
  }

  /** Without a directory or a level, two groups send the walk past the start. */
  lemma StartIsPassed()
    ensures OnlyGroups("000/001.gph")
  {
    var ds, suffix := [1, 0], ".gph";
    JoinedTwo(1, 0);
    assert Joined(ds) == "/000/001";
    assert AreGroups(ds) && EndsWell(suffix);
    assert [SEPARATOR] + "000/001.gph" == Joined(ds) + suffix;
  }

  lemma JoinedThree(v: nat, w: nat, x: nat)
    ensures Joined([v, w] + [x]) == [SEPARATOR] + Three(x) + [SEPARATOR] + Three(w) + [SEPARATOR] + Three(v)
  {
    JoinedMore([v, w], x);
    JoinedTwo(v, w);
  }

  lemma GroupsOfTile()
    ensures Groups(GraphId(0, 529, 0)) == [529, 0]
  {
    assert DigitCount(4049) == 4;
  }

  lemma TwoGroups(id: nat)
    ensures Joined(Split(id, 2)) == [SEPARATOR] + Three(id / 1000 % 1000) + [SEPARATOR] + Three(id % 1000)
  {
    JoinedTwo(id % 1000, id / 1000 % 1000);
  }

  lemma ThreeGroups(id: nat)
    ensures Joined(Split(id, 3))
            == [SEPARATOR] + Three(id / 1000 / 1000 % 1000) + [SEPARATOR] + Three(id / 1000 % 1000) + [SEPARATOR] + Three(id % 1000)
  {
    TwoGroups(id / 1000);
    assert Split(id, 3)[1..] == Split(id / 1000, 2);
  }

  lemma PrintedTwo(g: GraphId, maxId: nat, suffix: string)
    requires g.level < 10 && Parts(maxId) == 2
    ensures Printed(g, maxId, suffix)
            == [DigitChar(g.level)] + ([SEPARATOR] + Three(g.tile / 1000 % 1000) + [SEPARATOR] + Three(g.tile % 1000)) + suffix
  {
    TwoGroups(g.tile);
  }

  lemma PrintedThree(g: GraphId, maxId: nat, suffix: string)
    requires g.level < 10 && Parts(maxId) == 3
    ensures Printed(g, maxId, suffix)
            == [DigitChar(g.level)] + ([SEPARATOR] + Three(g.tile / 1000 / 1000 % 1000) + [SEPARATOR] + Three(g.tile / 1000 % 1000)
                                       + [SEPARATOR] + Three(g.tile % 1000)) + suffix
  {
    ThreeGroups(g.tile);
  }

  /** Levels 0 and 1 have two groups, levels 2 and 3 have three. */
  lemma GroupsOfLevels()
    ensures Parts(LevelOf(0).maxId) == 2 && Parts(LevelOf(1).maxId) == 2
    ensures Parts(LevelOf(2).maxId) == 3 && Parts(LevelOf(3).maxId) == 3
  {
    assert DigitCount(4049) == 4;
    assert DigitCount(64799) == 5;
    assert DigitCount(1036799) == 7;
  }

  lemma PathOfTwo(g: GraphId, high: string, low: string)
    requires g.level <= 1 && Three(g.tile / 1000 % 1000) == high && Three(g.tile % 1000) == low
    ensures Printed(g, LevelOf(g.level).maxId, ".gph") == [DigitChar(g.level)] + ("/" + high + "/" + low) + ".gph"
  {
    GroupsOfLevels();
    PrintedTwo(g, LevelOf(g.level).maxId, ".gph");
  }

  lemma PathOfThree(g: GraphId, high: string, middle: string, low: string)
    requires 2 <= g.level <= TRANSIT_LEVEL
    requires Three(g.tile / 1000 / 1000 % 1000) == high && Three(g.tile / 1000 % 1000) == middle && Three(g.tile % 1000) == low
    ensures Printed(g, LevelOf(g.level).maxId, ".gph") == [DigitChar(g.level)] + ("/" + high + "/" + middle + "/" + low) + ".gph"
  {
    GroupsOfLevels();
    PrintedThree(g, LevelOf(g.level).maxId, ".gph");
  }

  lemma PaddedDigits()
    ensures Three(0) == "000" && Three(1) == "001" && Three(36) == "036"
    ensures Three(49) == "049" && Three(64) == "064" && Three(799) == "799"
  {
  }

  /** The paths of tiles of each level, the last ones of levels 1 and 2 among them. */
  lemma PathOnLevel0()
    ensures Printed(GraphId(0, 49, 0), LevelOf(0).maxId, ".gph") == "0/000/049.gph"
  {
    PaddedDigits();
    PathOfTwo(GraphId(0, 49, 0), Three(0), Three(49));
  }

  lemma PathOnLevel1()
    ensures Printed(GraphId(1, 64799, 0), LevelOf(1).maxId, ".gph") == "1/064/799.gph"
  {
    PaddedDigits();
    PathOfTwo(GraphId(1, 64799, 0), Three(64), Three(799));
  }

  lemma PathOnLevel2()
    ensures Printed(GraphId(2, 1036799, 0), LevelOf(2).maxId, ".gph") == "2/001/036/799.gph"
  {
    PaddedDigits();
    assert 1036799 / 1000 == 1036;
    PathOfThree(GraphId(2, 1036799, 0), Three(1), Three(36), Three(799));
  }

  lemma PathOnLevel3()
    ensures Printed(GraphId(3, 1000000, 0), LevelOf(3).maxId, ".gph") == "3/001/000/000.gph"
  {
    PaddedDigits();
    assert 1000000 / 1000 == 1000;
    PathOfThree(GraphId(3, 1000000, 0), Three(1), Three(0), Three(0));
  }

  /** Three groups from the root are a tile of the level that the first of them says. */
  lemma RootedTile()
    ensures IsPathOf("/000/000/529.gph", GraphId(0, 529, 0))
  {
    GroupsOfTile();
    JoinedThree(529, 0, 0);
    assert IsRooted("/000/000/529.gph", GraphId(0, 529, 0), ".gph");
  }

  /** A printed path is read back as the tile, whatever directory it is put in. */
  method PrintAndParse(prefix: string, g: GraphId, suffix: string) returns (r: Parsed)
    requires InHierarchy(g) && Fits(prefix, suffix)
    ensures r == Found(TileBase(g))
  {
    var printed := FileSuffix(g, suffix, None);
    assert IsPrinted(prefix + printed.path, TileBase(g), prefix, suffix);
    assert IsPathOf(prefix + printed.path, TileBase(g));
    r := GetTileId(prefix + printed.path);
  }
}
