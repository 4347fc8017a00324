/** The least-recently-used tile cache: a map into a list of entries that runs from the most to
    the least recently used, and a byte count. */
module TileCacheLRU {
  import opened Option
  import opened Tiles

  datatype Entry = Entry(id: GraphId, tile: Tile)

  ghost function Total(es: seq<Entry>): nat {
    if es == [] then 0 else Total(es[..|es| - 1]) + es[|es| - 1].tile.endOffset
  }

  lemma {:induction false} TotalGrows(es: seq<Entry>, k: nat)
    requires k <= |es|
    ensures Total(es[..k]) <= Total(es)
    decreases |es|
  {
    if k == |es| {
      assert es[..k] == es;
    } else {
      TotalGrows(es[..|es| - 1], k);
      assert es[..|es| - 1][..k] == es[..k];
    }
  }

  lemma {:induction false} TotalConcat(a: seq<Entry>, b: seq<Entry>)
    ensures Total(a + b) == Total(a) + Total(b)
    decreases |b|
  {
    if b == [] {
      assert a + b == a;
    } else {
      assert (a + b)[..|a + b| - 1] == a + b[..|b| - 1];
      TotalConcat(a, b[..|b| - 1]);
    }
  }

  lemma TotalOne(e: Entry)
    ensures Total([e]) == e.tile.endOffset
  {
    assert [e][..0] == [];
  }

  /** k is the length of the longest front part of es whose tiles fit into room bytes. */
  ghost predicate LongestFit(es: seq<Entry>, room: int, k: nat) {
    k <= |es| && (k == 0 || Total(es[..k]) <= room) && TooMuch(es, room, k)
  }

  ghost predicate TooMuch(es: seq<Entry>, room: int, k: nat) {
    forall m :: k < m <= |es| ==> Total(es[..m]) > room
  }

  lemma LongestFitUnique(es: seq<Entry>, room: int, k: nat, m: nat)
    requires LongestFit(es, room, k) && LongestFit(es, room, m)
    ensures k == m
  {
  }

  ghost function Others(es: seq<Entry>, id: GraphId): seq<Entry> {
    if es == [] then []
    else (if es[0].id == id then [] else [es[0]]) + Others(es[1..], id)
  }

  ghost predicate OnceEach(es: seq<Entry>) {
    forall i, j :: 0 <= i < j < |es| ==> es[i].id != es[j].id
  }

  lemma {:induction false} OthersAround(a: seq<Entry>, e: Entry, b: seq<Entry>)
    requires OnceEach(a + [e] + b)
    ensures Others(a + [e] + b, e.id) == a + b
    decreases |a|
  {
    var es := a + [e] + b;
    if a == [] {
      assert es[1..] == b;
      assert forall j :: 0 <= j < |b| ==> b[j] == es[j + 1] && b[j].id != es[0].id;
      OthersNone(b, e.id);
    } else {
      assert es[1..] == a[1..] + [e] + b;
      assert forall i, j :: 0 <= i < j < |es[1..]| ==> es[1..][i].id == es[i + 1].id && es[1..][j].id == es[j + 1].id;
      OthersAround(a[1..], e, b);
      assert es[0].id != es[|a|].id;
      assert [a[0]] + (a[1..] + b) == a + b;
    }
  }

  lemma {:induction false} OthersNone(es: seq<Entry>, id: GraphId)
    requires forall e | e in es :: e.id != id
    ensures Others(es, id) == es
  {
    if es != [] {
      assert es[0] in es;
      OthersNone(es[1..], id);
    }
  }

  lemma {:induction false} OthersMembers(es: seq<Entry>, id: GraphId)
    ensures forall e :: e in Others(es, id) <==> e in es && e.id != id
  {
    if es != [] {
      OthersMembers(es[1..], id);
      assert forall e :: e in es <==> e == es[0] || e in es[1..];
    }
  }

  lemma HeadTotals(e: Entry, rest: seq<Entry>)
    ensures forall j :: 0 <= j <= |rest| ==> Total(([e] + rest)[..j + 1]) == e.tile.endOffset + Total(rest[..j])
    ensures Total([e] + rest) == e.tile.endOffset + Total(rest)
  {
    TotalOne(e);
    TotalConcat([e], rest);
    forall j | 0 <= j <= |rest|
      ensures Total(([e] + rest)[..j + 1]) == e.tile.endOffset + Total(rest[..j])
    {
      assert ([e] + rest)[..j + 1] == [e] + rest[..j];
      TotalConcat([e], rest[..j]);
    }
  }

  /** If the head alone fits, trimming leaves it, and behind it what fits beside it. */
  lemma FitBehindHead(e: Entry, rest: seq<Entry>, room: int, k: nat)
    requires LongestFit([e] + rest, room, k) && e.tile.endOffset <= room
    ensures 0 < k && LongestFit(rest, room - e.tile.endOffset, k - 1)
    ensures ([e] + rest)[..k] == [e] + rest[..k - 1]
  {
    HeadTotals(e, rest);
    assert Total(([e] + rest)[..0 + 1]) == e.tile.endOffset + Total(rest[..0]);
    forall m | k - 1 < m <= |rest|
      ensures Total(rest[..m]) > room - e.tile.endOffset
    {
      assert Total(([e] + rest)[..m + 1]) == e.tile.endOffset + Total(rest[..m]);
    }
  }

  // ----- Trimming with any byte count, right or wrong.

  /** The byte count once all but the first k entries are dropped from the back. */
  ghost function Counted(es: seq<Entry>, bytes: Size, k: nat): Size
    requires k <= |es|
    decreases |es| - k
  {
    if k == |es| then bytes else Wrapped(Counted(es, bytes, k + 1) - es[k].tile.endOffset)
  }

  /** The loop condition is false for this byte count. */
  predicate Suffices(bytes: Size, max: Size, required: Size) {
    bytes <= max && max - bytes >= required
  }

  /** Dropping entries from the back stops, or runs out of entries, at k. */
  ghost predicate StopsAt(es: seq<Entry>, bytes: Size, max: Size, required: Size, k: nat) {
    && k <= |es| && (k == 0 || Suffices(Counted(es, bytes, k), max, required))
    && NoneSuffices(es, bytes, max, required, k)
  }

  ghost predicate NoneSuffices(es: seq<Entry>, bytes: Size, max: Size, required: Size, k: nat) {
    forall m :: k < m <= |es| ==> !Suffices(Counted(es, bytes, m), max, required)
  }

  lemma OneMoreDropped(es: seq<Entry>, bytes: Size, max: Size, required: Size, k: nat)
    requires 0 < k <= |es| && NoneSuffices(es, bytes, max, required, k) && !Suffices(Counted(es, bytes, k), max, required)
    ensures NoneSuffices(es, bytes, max, required, k - 1)
    ensures Counted(es, bytes, k - 1) == Wrapped(Counted(es, bytes, k) - es[k - 1].tile.endOffset)
  {
  }

  /** A right byte count stays right, and dropping stops at the longest front part that fits. */
  lemma {:induction false} RightCount(es: seq<Entry>, bytes: Size, k: nat)
    requires k <= |es| && bytes == Total(es)
    ensures Counted(es, bytes, k) == Total(es[..k])
    decreases |es| - k
  {
    if k == |es| {
      Whole(es);
    } else {
      RightCount(es, bytes, k + 1);
      assert es[..k + 1][..k] == es[..k];
    }
  }

  lemma StopsAtLongestFit(es: seq<Entry>, bytes: Size, max: Size, required: Size, k: nat)
    requires StopsAt(es, bytes, max, required, k) && bytes == Total(es)
    ensures LongestFit(es, max - required, k) && Counted(es, bytes, k) == Total(es[..k])
  {
    RightCount(es, bytes, k);
    forall m | k < m <= |es|
      ensures Total(es[..m]) > max - required
    {
      RightCount(es, bytes, m);
    }
  }

  lemma NothingDropped<T>(es: seq<Entry>, nodes: seq<T>)
    ensures es[..|es|] == es && nodes[..|nodes|] == nodes
  {
  }

  /** What has been freed, while the byte count is right. */
  ghost predicate Freed(es: seq<Entry>, bytes: Size, k: nat, freed: Size)
    requires k <= |es|
  {
    bytes == Total(es) ==> freed == Total(es) - Total(es[..k])
  }

  lemma FreedMore(es: seq<Entry>, bytes: Size, k: nat, freed: Size)
    requires 0 < k <= |es| && Freed(es, bytes, k, freed)
    ensures Freed(es, bytes, k - 1, Wrapped(freed + es[k - 1].tile.endOffset))
  {
    assert es[..k][..k - 1] == es[..k - 1];
    TotalGrows(es, k);
  }

  /** A wrong byte count, as long as no sum comes near the limit of sizes: what is left of it after
      dropping, and that one which has wrapped never suffices. */
  lemma {:induction false} WrongCount(es: seq<Entry>, bytes: Size, max: Size, k: nat)
    requires k <= |es| && Total(es) + max < SIZE_LIMIT
    ensures Total(es[k..]) <= Total(es)
    ensures bytes >= Total(es[k..]) ==> Counted(es, bytes, k) == bytes - Total(es[k..])
    ensures bytes < Total(es[k..]) ==> Counted(es, bytes, k) == bytes - Total(es[k..]) + SIZE_LIMIT > max
    decreases |es| - k
  {
    TakenApartTotal(es, k);
    if k < |es| {
      WrongCount(es, bytes, max, k + 1);
      assert es[k..] == [es[k]] + es[k + 1..];
      TotalConcat([es[k]], es[k + 1..]);
      TotalOne(es[k]);
    } else {
      assert es[k..] == [];
    }
  }

  lemma TakenApartTotal(es: seq<Entry>, k: nat)
    requires k <= |es|
    ensures Total(es) == Total(es[..k]) + Total(es[k..])
  {
    assert es == es[..k] + es[k..];
    TotalConcat(es[..k], es[k..]);
  }

  ghost function Find(es: seq<Entry>, id: GraphId): Option<Entry> {
    if es == [] then None else if es[0].id == id then Some(es[0]) else Find(es[1..], id)
  }

  lemma {:induction false} FindAt(es: seq<Entry>, i: nat)
    requires i < |es| && OnceEach(es)
    ensures Find(es, es[i].id) == Some(es[i])
  {
    if i > 0 {
      assert forall a, b :: 0 <= a < b < |es| - 1 ==> es[1..][a].id == es[a + 1].id && es[1..][b].id == es[b + 1].id;
      FindAt(es[1..], i - 1);
    }
  }

  lemma {:induction false} FindNone(es: seq<Entry>, id: GraphId)
    requires forall e | e in es :: e.id != id
    ensures Find(es, id) == None
  {
    if es != [] {
      assert es[0] in es;
      FindNone(es[1..], id);
    }
  }

  /** The entries behind the one that is put: all of them, or under a hard limit those at which
      dropping stops, with the entry to be overwritten in front. */
  ghost predicate KeptByPut(before: seq<Entry>, bytes: Size, id: GraphId, size: Size, max: Size, hard: bool, k: nat) {
    var (found, others) := (Find(before, id), Others(before, id));
    && k <= |others|
    && if !hard || (found.Some? && size <= found.value.tile.endOffset) then k == |others|
       else if found.Some? then StopsAt([found.value] + others, bytes, max, size - found.value.tile.endOffset, k + 1)
       else StopsAt(others, bytes, max, size, k)
  }

  /** The entry to be overwritten is not itself dropped. */
  ghost predicate Survives(before: seq<Entry>, bytes: Size, id: GraphId, size: Size, max: Size, hard: bool) {
    exists k: nat :: KeptByPut(before, bytes, id, size, max, hard, k)
  }

  /** While no sum comes near the limit of sizes, the entry survives exactly if there is no hard
      limit, or the tile does not grow, or some front part leaves a byte count that has not wrapped
      and allows for the growth. */
  lemma SurvivesIff(before: seq<Entry>, bytes: Size, e: Entry, size: Size, max: Size)
    requires Find(before, e.id) == Some(e) && size > e.tile.endOffset && size <= max
    requires Total([e] + Others(before, e.id)) + max < SIZE_LIMIT
    ensures var (es, room) := ([e] + Others(before, e.id), max - (size - e.tile.endOffset));
            Survives(before, bytes, e.id, size, max, true) <==> exists m :: 1 <= m <= |es| && Leaves(es, bytes, room, m)
  {
    var (es, room) := ([e] + Others(before, e.id), max - (size - e.tile.endOffset));
    if Survives(before, bytes, e.id, size, max, true) {
      var m := SurvivorsLeave(before, bytes, e, size, max);
    }
    if m :| 1 <= m <= |es| && Leaves(es, bytes, room, m) {
      LeavingSurvive(before, bytes, e, size, max, m);
    }
  }

  lemma SurvivorsLeave(before: seq<Entry>, bytes: Size, e: Entry, size: Size, max: Size) returns (m: nat)
    requires Find(before, e.id) == Some(e) && size > e.tile.endOffset && size <= max
    requires Total([e] + Others(before, e.id)) + max < SIZE_LIMIT && Survives(before, bytes, e.id, size, max, true)
    ensures var (es, room) := ([e] + Others(before, e.id), max - (size - e.tile.endOffset));
            1 <= m <= |es| && Leaves(es, bytes, room, m)
  {
    var k: nat :| KeptByPut(before, bytes, e.id, size, max, true, k);
    m := k + 1;
    SufficesIff([e] + Others(before, e.id), bytes, max, size - e.tile.endOffset, m);
  }

  lemma LeavingSurvive(before: seq<Entry>, bytes: Size, e: Entry, size: Size, max: Size, m: nat)
    requires Find(before, e.id) == Some(e) && size > e.tile.endOffset && size <= max
    requires Total([e] + Others(before, e.id)) + max < SIZE_LIMIT
    requires var (es, room) := ([e] + Others(before, e.id), max - (size - e.tile.endOffset));
             1 <= m <= |es| && Leaves(es, bytes, room, m)
    ensures Survives(before, bytes, e.id, size, max, true)
  {
    var (es, required) := ([e] + Others(before, e.id), size - e.tile.endOffset);
    SufficesIff(es, bytes, max, required, m);
    var k := LastThatSuffices(es, bytes, max, required, m);
    assert KeptByPut(before, bytes, e.id, size, max, true, k - 1);
  }

  /** The fixed size of the memory-mapped caller: after it has put a tile of 512 bytes, the byte count is
      wrong, and putting the tile again drops it. */
  lemma FixedSize(e: Entry)
    requires e.tile.endOffset == 512
    ensures AfterPut([], [e], 1024, e.id, e.tile, 1024, 1024, true) && Total([e]) == 512
    ensures !Survives([e], 1024, e.id, 1024, 1024, true)
  {
    TotalOne(e);
    assert [e][1..] == [];
    assert Others([], e.id) == [] && Others([e], e.id) == [];
    SurvivesIff([e], 1024, e, 1024, 1024);
    assert [e] + Others([e], e.id) == [e];
    TotalOfNone();
  }

  /** The fixed size again: a tile of 2048 bytes is stored within a hard limit of 1024. */
  lemma FixedSizeTooSmall(e: Entry)
    requires e.tile.endOffset == 2048
    ensures AfterPut([], [e], 1024, e.id, e.tile, 1024, 1024, true) && Total([e]) == 2048
  {
    TotalOne(e);
    assert [e][1..] == [];
    assert Others([], e.id) == [];
  }

  /** Whatever was cached with a right count, a Put under a hard limit leaves the tiles within it. */
  ghost predicate KeepsLimit(id: GraphId, tile: Tile, size: Size, max: Size) {
    forall before, after, bytes ::
      OnceEach(before) && Total(before) <= max && AfterPut(before, after, bytes, id, tile, size, max, true) ==> Total(after) <= max
  }

  /** It does so exactly if the tile is no larger than the size given for it. */
  lemma LimitIffSized(id: GraphId, tile: Tile, size: Size, max: Size)
    requires size <= max
    ensures KeepsLimit(id, tile, size, max) <==> tile.endOffset <= size
  {
    if tile.endOffset <= size {
      forall before, after, bytes | AfterPut(before, after, bytes, id, tile, size, max, true)
        ensures Total(after) <= max
      {
        WithinLimit(before, after, bytes, id, tile, size, max);
      }
    } else {
      OverLimit(id, tile, size, max);
    }
  }

  lemma WithinLimit(before: seq<Entry>, after: seq<Entry>, bytes: Size, id: GraphId, tile: Tile, size: Size, max: Size)
    requires AfterPut(before, after, bytes, id, tile, size, max, true) && tile.endOffset <= size <= max
    ensures Total(after) <= max
  {
    var e, kept := Entry(id, tile), after[1..];
    assert after == [e] + kept;
    TotalConcat([e], kept);
    TotalOne(e);
    if kept == [] {
      TotalOfNone();
    }
  }

  /** Beside a tile that fills the room left by the size, a larger tile exceeds the limit. */
  lemma OverLimit(id: GraphId, tile: Tile, size: Size, max: Size)
    requires size <= max && size < tile.endOffset
    ensures !KeepsLimit(id, tile, size, max)
  {
    var e, other := Entry(id, tile), Entry(id.(id := id.id + 1), Tile(max - size, 0));
    var before, after := [other], [e, other];
    TotalOne(e);
    TotalOne(other);
    assert before[1..] == [] && Others([], id) == [] && before[..1] == before && after[1..] == before;
    assert Others(before, id) == before;
    assert after == [e] + [other];
    TotalConcat([e], [other]);
    assert AfterPut(before, after, max, id, tile, size, max, true);
    assert OnceEach(before) && Total(before) <= max && Total(after) > max;
  }

  /** The first m entries leave a byte count that has not wrapped and is at most room. */
  ghost predicate Leaves(es: seq<Entry>, bytes: Size, room: int, m: nat)
    requires m <= |es|
  {
    0 <= bytes - Total(es[m..]) <= room
  }

  lemma SufficesIff(es: seq<Entry>, bytes: Size, max: Size, required: Size, m: nat)
    requires m <= |es| && Total(es) + max < SIZE_LIMIT
    ensures Suffices(Counted(es, bytes, m), max, required) <==> Leaves(es, bytes, max - required, m)
  {
    WrongCount(es, bytes, max, m);
  }

  lemma {:induction false} LastThatSuffices(es: seq<Entry>, bytes: Size, max: Size, required: Size, m: nat)
    returns (k: nat)
    requires 1 <= m <= |es| && Suffices(Counted(es, bytes, m), max, required)
    ensures m <= k && StopsAt(es, bytes, max, required, k)
    decreases |es| - m
  {
    if n :| m < n <= |es| && Suffices(Counted(es, bytes, n), max, required) {
      k := LastThatSuffices(es, bytes, max, required, n);
    } else {
      k := m;
    }
  }

  /** What a Put of a tile under id with the given size leaves, when the byte count was right
      before: the tile in front and behind it the other entries, as many as still fit under a
      hard limit. The byte count stays right exactly if the size given is that of the tile. */
  ghost predicate AfterPut(before: seq<Entry>, after: seq<Entry>, bytes: Size, id: GraphId, tile: Tile, size: Size,
                           max: Size, hard: bool)
  {
    && PutContents(Others(before, id), after, Entry(id, tile), max - size, hard)
    && (bytes == Total(after) <==> size == tile.endOffset && Total(after) < SIZE_LIMIT)
    && (hard && size == tile.endOffset ==> bytes == Total(after) <= max)
  }

  ghost predicate PutContents(others: seq<Entry>, after: seq<Entry>, e: Entry, room: int, hard: bool) {
    && 0 < |after| <= |others| + 1 && after[0] == e && after[1..] == others[..|after| - 1]
    && (if hard then LongestFit(others, room, |after| - 1) else after[1..] == others)
  }

  lemma PutContentsIs(others: seq<Entry>, k: nat, e: Entry, room: int, hard: bool)
    requires k <= |others| && if hard then LongestFit(others, room, k) else k == |others|
    ensures PutContents(others, [e] + others[..k], e, room, hard)
    ensures Total([e] + others[..k]) == e.tile.endOffset + Total(others[..k])
    ensures hard && room >= 0 ==> Total(others[..k]) <= room
  {
    TotalOne(e);
    TotalConcat([e], others[..k]);
    Whole(others);
    if k == 0 {
      assert others[..k] == [];
    }
  }

  lemma PutIs(before: seq<Entry>, k: nat, after: seq<Entry>, bytes: Size, id: GraphId, tile: Tile, size: Size,
              max: Size, hard: bool)
    requires k <= |Others(before, id)| && size <= max
    requires if hard then LongestFit(Others(before, id), max - size, k) else k == |Others(before, id)|
    requires after == [Entry(id, tile)] + Others(before, id)[..k]
    requires Total(Others(before, id)[..k]) < SIZE_LIMIT && bytes == Wrapped(Total(Others(before, id)[..k]) + size)
    ensures AfterPut(before, after, bytes, id, tile, size, max, hard)
  {
    PutContentsIs(Others(before, id), k, Entry(id, tile), max - size, hard);
  }

  lemma PutMembers(before: seq<Entry>, k: nat, e: Entry)
    requires k <= |Others(before, e.id)|
    ensures forall x | x in [e] + Others(before, e.id)[..k] :: x == e || (x in before && x.id != e.id)
  {
    OthersMembers(before, e.id);
  }

  lemma SameMembers(a: seq<Entry>, b: seq<Entry>)
    requires multiset(a) == multiset(b)
    ensures forall e :: e in a <==> e in b
  {
    assert forall e :: e in a <==> e in multiset(a);
    assert forall e :: e in b <==> e in multiset(b);
  }

  lemma HeadAndTail(e: Entry, es: seq<Entry>)
    ensures ([e] + es)[1..] == es
  {
  }

  lemma Whole(es: seq<Entry>)
    ensures es[..|es|] == es
  {
  }

  lemma TotalOfNone()
    ensures Total([]) == 0
  {
  }

  /** A list node; the map's iterators are references to these. */
  class KeyValue {
    const id: GraphId
    var tile: Tile

    constructor (id: GraphId, tile: Tile)
      ensures this.id == id && this.tile == tile
    {
      this.id, this.tile := id, tile;
    }
  }

  ghost predicate Bijection(cache: map<GraphId, KeyValue>, list: seq<KeyValue>) {
    && (forall i, j :: 0 <= i < j < |list| ==> list[i] != list[j])
    && (forall kv :: kv in list ==> kv.id in cache && cache[kv.id] == kv)
    && (forall id :: id in cache ==> cache[id] in list && cache[id].id == id)
  }

  lemma BijectionIds(cache: map<GraphId, KeyValue>, list: seq<KeyValue>, i: nat, j: nat)
    requires Bijection(cache, list) && i < j < |list|
    ensures list[i].id != list[j].id
  {
    assert list[i] in list && list[j] in list;
  }

  lemma MovedToFront(cache: map<GraphId, KeyValue>, list: seq<KeyValue>, i: nat)
    requires Bijection(cache, list) && i < |list|
    ensures Bijection(cache, [list[i]] + list[..i] + list[i + 1..])
    ensures forall x :: x in [list[i]] + list[..i] + list[i + 1..] <==> x in list
  {
  }

  lemma InsertedFront(cache: map<GraphId, KeyValue>, list: seq<KeyValue>, kv: KeyValue)
    requires Bijection(cache, list) && kv.id !in cache
    ensures Bijection(cache[kv.id := kv], [kv] + list)
  {
    assert kv !in list;
  }

  lemma PoppedBack(cache: map<GraphId, KeyValue>, list: seq<KeyValue>)
    requires Bijection(cache, list) && list != []
    ensures Bijection(cache - {list[|list| - 1].id}, list[..|list| - 1])
  {
    var kv, l := list[|list| - 1], list[..|list| - 1];
    forall x | x in l
      ensures x.id != kv.id
    {
      var i :| 0 <= i < |l| && l[i] == x;
      BijectionIds(cache, list, i, |list| - 1);
    }
  }

  /** The entries hold what the nodes hold. */
  ghost predicate Mirrors(es: seq<Entry>, list: seq<KeyValue>)
    reads list
  {
    |es| == |list| && forall i {:trigger es[i]} {:trigger list[i]} :: 0 <= i < |list| ==> es[i] == Entry(list[i].id, list[i].tile)
  }

  lemma MirrorsMoved(es: seq<Entry>, list: seq<KeyValue>, i: nat)
    requires Mirrors(es, list) && i < |list|
    ensures Mirrors([es[i]] + es[..i] + es[i + 1..], [list[i]] + list[..i] + list[i + 1..])
  {
  }

  lemma MirrorsInserted(es: seq<Entry>, list: seq<KeyValue>, kv: KeyValue)
    requires Mirrors(es, list)
    ensures Mirrors([Entry(kv.id, kv.tile)] + es, [kv] + list)
  {
  }

  /** n entries are left, of those with the entry to be overwritten in front. */
  ghost predicate Trimmed(before: seq<Entry>, bytes: Size, e: Entry, size: Size, max: Size, hard: bool, n: nat) {
    && Find(before, e.id) == Some(e)
    && var es := [e] + Others(before, e.id);
      if hard && size > e.tile.endOffset then StopsAt(es, bytes, max, size - e.tile.endOffset, n) else n == |es|
  }

  lemma HeadKept(before: seq<Entry>, bytes: Size, e: Entry, size: Size, max: Size, hard: bool, n: nat)
    requires Trimmed(before, bytes, e, size, max, hard, n) && size <= max
    ensures n > 0 ==> KeptByPut(before, bytes, e.id, size, max, hard, n - 1)
    ensures Survives(before, bytes, e.id, size, max, hard) <==> n > 0
  {
    var es := [e] + Others(before, e.id);
    if hard && size > e.tile.endOffset && n == 0 {
      forall k: nat
        ensures !KeptByPut(before, bytes, e.id, size, max, hard, k)
      {
        assert k + 1 <= |es| ==> !Suffices(Counted(es, bytes, k + 1), max, size - e.tile.endOffset);
      }
    }
    assert n > 0 ==> KeptByPut(before, bytes, e.id, size, max, hard, n - 1);
  }

  /** With a right byte count the entry survives, and what fits beside it. */
  lemma SoundSurvives(e: Entry, others: seq<Entry>, bytes: Size, size: Size, max: Size, hard: bool, n: nat)
    requires bytes == Total([e] + others) && (hard ==> bytes <= max) && size <= max
    requires if hard && size > e.tile.endOffset then StopsAt([e] + others, bytes, max, size - e.tile.endOffset, n)
             else n == 1 + |others|
    ensures 1 <= n <= 1 + |others| && Total(others[..n - 1]) < SIZE_LIMIT
    ensures if hard then LongestFit(others, max - size, n - 1) else n - 1 == |others|
    ensures Counted([e] + others, bytes, n) == e.tile.endOffset + Total(others[..n - 1])
  {
    var es := [e] + others;
    HeadTotals(e, others);
    Whole(others);
    if hard && size > e.tile.endOffset {
      StopsAtLongestFit(es, bytes, max, size - e.tile.endOffset, n);
      FitBehindHead(e, others, max - (size - e.tile.endOffset), n);
      assert Total(es[..(n - 1) + 1]) == e.tile.endOffset + Total(others[..n - 1]);
    }
    RightCount(es, bytes, n);
    assert Total(es[..(n - 1) + 1]) == e.tile.endOffset + Total(others[..n - 1]);
    TotalGrows(es, n);
  }

  lemma Recounted(counted: Size, oldSize: Size, size: Size, rest: nat)
    requires counted == oldSize + rest
    ensures Wrapped(Wrapped(counted - oldSize) + size) == Wrapped(rest + size)
  {
  }

  /** What overwriting leaves, with any byte count. */
  ghost predicate Overwritten(before: seq<Entry>, bytes: Size, after: seq<Entry>, bytes': Size, id: GraphId, tile: Tile,
                              size: Size, max: Size, hard: bool, k: nat)
  {
    && Find(before, id).Some? && KeptByPut(before, bytes, id, size, max, hard, k)
    && after == [Entry(id, tile)] + Others(before, id)[..k]
    && var e := Find(before, id).value;
      bytes' == Wrapped(Wrapped(Counted([e] + Others(before, id), bytes, k + 1) - e.tile.endOffset) + size)
  }

  /** The cache after moving e to the front and trimming, when something is left. */
  ghost predicate RoomMade(before: seq<Entry>, bytes: Size, e: Entry, now: seq<Entry>, bytes': Size,
                           size: Size, max: Size, hard: bool, n: nat)
  {
    && Trimmed(before, bytes, e, size, max, hard, n) && size <= max && 0 < n <= 1 + |Others(before, e.id)|
    && now == ([e] + Others(before, e.id))[..n]
    && bytes' == Counted([e] + Others(before, e.id), bytes, n)
  }

  lemma RoomBehind(before: seq<Entry>, bytes: Size, e: Entry, now: seq<Entry>, bytes': Size,
                   size: Size, max: Size, hard: bool, n: nat) returns (rest: seq<Entry>)
    requires RoomMade(before, bytes, e, now, bytes', size, max, hard, n)
    ensures now == [e] + rest && rest == Others(before, e.id)[..n - 1]
  {
    FrontOf(e, Others(before, e.id), n);
    rest := Others(before, e.id)[..n - 1];
  }

  lemma OverwrittenIs(before: seq<Entry>, bytes: Size, e: Entry, now: seq<Entry>, bytes': Size, after: seq<Entry>,
                      tile: Tile, size: Size, max: Size, hard: bool, n: nat, rest: seq<Entry>)
    requires RoomMade(before, bytes, e, now, bytes', size, max, hard, n) && rest == Others(before, e.id)[..n - 1]
    requires after == [Entry(e.id, tile)] + rest
    ensures Overwritten(before, bytes, after, Wrapped(Wrapped(bytes' - e.tile.endOffset) + size), e.id, tile, size, max, hard, n - 1)
    ensures |after| == n
  {
    HeadKept(before, bytes, e, size, max, hard, n);
  }

  /** With a right byte count, that is what Put promises. */
  lemma SoundOverwritten(before: seq<Entry>, bytes: Size, after: seq<Entry>, bytes': Size, id: GraphId, tile: Tile,
                         size: Size, max: Size, hard: bool, k: nat)
    requires Overwritten(before, bytes, after, bytes', id, tile, size, max, hard, k) && size <= max
    requires bytes == Total([Find(before, id).value] + Others(before, id)) && (hard ==> bytes <= max)
    ensures AfterPut(before, after, bytes', id, tile, size, max, hard)
  {
    var e, others := Find(before, id).value, Others(before, id);
    SoundSurvives(e, others, bytes, size, max, hard, k + 1);
    Recounted(Counted([e] + others, bytes, k + 1), e.tile.endOffset, size, Total(others[..k]));
    PutIs(before, k, after, bytes', id, tile, size, max, hard);
  }

  lemma SoundIsKept(before: seq<Entry>, bytes: Size, e: Entry, size: Size, max: Size, hard: bool)
    requires Find(before, e.id) == Some(e) && size <= max
    requires bytes == Total([e] + Others(before, e.id)) && (hard ==> bytes <= max)
    ensures Survives(before, bytes, e.id, size, max, hard)
  {
    var es := [e] + Others(before, e.id);
    if hard && size > e.tile.endOffset {
      TotalOne(e);
      RightCount(es, bytes, 1);
      assert es[..1] == [e];
      var k := LastThatSuffices(es, bytes, max, size - e.tile.endOffset, 1);
      assert KeptByPut(before, bytes, e.id, size, max, hard, k - 1);
    } else {
      assert KeptByPut(before, bytes, e.id, size, max, hard, |Others(before, e.id)|);
    }
  }

  lemma FrontOf(e: Entry, others: seq<Entry>, n: nat)
    requires 1 <= n <= 1 + |others|
    ensures ([e] + others)[..n] == [e] + others[..n - 1] && ([e] + others)[..n][1..] == others[..n - 1]
  {
  }

  /** Stored; too large for the cache, an exception; or the entry to be overwritten is gone. */
  datatype Outcome = Stored(tile: Tile) | TooLarge | Gone

  class LruCache {
    var cache: map<GraphId, KeyValue>
    var list: seq<KeyValue>
    /** The entries of the list, most recent first. */
    ghost var contents: seq<Entry>
    var cacheSize: Size
    const maxCacheSize: Size
    /** MemoryLimitControl::HARD. */
    const hard: bool

    constructor (maxSize: Size, hard: bool)
      ensures Valid() && Sound() && contents == [] && maxCacheSize == maxSize && this.hard == hard
      ensures fresh(list)
    {
      cache, list, contents, cacheSize, maxCacheSize, this.hard := map[], [], [], 0, maxSize, hard;
    }

    /** Map and list are in bijection, and contents is what the list holds. */
    ghost predicate Valid()
      reads this, list
    {
      Bijection(cache, list) && Mirrors(contents, list)
    }

    /** The byte count is the sum of the sizes of the stored tiles, and within a hard limit. */
    ghost predicate Sound()
      reads this
    {
      cacheSize == Total(contents) && (hard ==> cacheSize <= maxCacheSize)
    }

    lemma ContentsOnce()
      requires Valid()
      ensures OnceEach(contents)
      ensures forall id :: id in cache <==> exists e :: e in contents && e.id == id
    {
      forall i, j | 0 <= i < j < |list|
        ensures contents[i].id != contents[j].id
      {
        BijectionIds(cache, list, i, j);
      }
      forall id
        ensures id in cache <==> exists e :: e in contents && e.id == id
      {
        if id in cache {
          var i :| 0 <= i < |list| && list[i] == cache[id];
          assert contents[i] in contents;
        }
        if e :| e in contents && e.id == id {
          var i :| 0 <= i < |list| && contents[i] == e;
          assert list[i] in list;
        }
      }
    }

    predicate OverCommitted()
      reads this
    {
      cacheSize > maxCacheSize
    }

    method Clear()
      modifies this
      ensures Valid() && Sound() && contents == []
    {
      cacheSize, cache, list, contents := 0, map[], [], [];
    }

    method Contains(id: GraphId) returns (r: bool)
      requires Valid()
      ensures r <==> exists e :: e in contents && e.id == id
    {
      ContentsOnce();
      r := id in cache;
    }

    /** std::list::splice of one node to the front. */
    method MoveToLruHead(kv: KeyValue)
      requires Valid() && kv in list
      modifies this`list, this`contents
      ensures Valid() && cacheSize == old(cacheSize)
      ensures list != [] && list[0] == kv && (forall x :: x in list <==> x in old(list))
      ensures contents == [Entry(kv.id, kv.tile)] + Others(old(contents), kv.id)
    {
      var i :| 0 <= i < |list| && list[i] == kv;
      ContentsOnce();
      OthersSplit(contents, i);
      MovedToFront(cache, list, i);
      MirrorsMoved(contents, list, i);
      list := [kv] + list[..i] + list[i + 1..];
      contents := [contents[i]] + contents[..i] + contents[i + 1..];
    }

    /** Get as far as its callers rely on it: the tile, and no change in what is held. */
    method Lookup(id: GraphId) returns (r: Option<Tile>)
      requires Valid()
      modifies this`list, this`contents
      ensures Valid() && cache == old(cache) && (forall x :: x in list <==> x in old(list))
      ensures forall e :: e in contents <==> e in old(contents)
      ensures r.Some? <==> id in cache
      ensures r.Some? ==> Entry(id, r.value) in contents
      ensures old(Sound()) ==> Sound()
    {
      r := Get(id);
    }

    /** Get moves the entry it finds to the front, and changes nothing else. */
    method Get(id: GraphId) returns (r: Option<Tile>)
      requires Valid()
      modifies this`list, this`contents
      ensures Valid() && cacheSize == old(cacheSize) && Total(contents) == old(Total(contents))
      ensures r.None? ==> (forall e | e in old(contents) :: e.id != id) && contents == old(contents)
      ensures r.Some? ==> Entry(id, r.value) in old(contents)
      ensures r.Some? ==> contents == [Entry(id, r.value)] + Others(old(contents), id)
      ensures multiset(contents) == multiset(old(contents)) && (forall x :: x in list <==> x in old(list))
      ensures forall e :: e in contents <==> e in old(contents)
      ensures id in cache <==> r.Some?
    {
      ContentsOnce();
      if id !in cache {
        return None;
      }
      var kv := cache[id];
      ghost var i :| 0 <= i < |list| && list[i] == kv;
      assert contents[i] == Entry(id, kv.tile);
      OthersKeep(contents, i);
      MoveToLruHead(kv);
      SameMembers(contents, old(contents));
      return Some(kv.tile);
    }

    /** Evicts from the back until required bytes are free. While the byte count is right, it
        keeps as many of the most recent entries as fit, and the subtractions do not wrap. */
    method TrimToFit(required: Size) returns (freed: Size, ghost k: nat)
      requires Valid()
      modifies this
      ensures Valid() && k <= |old(list)| && list == old(list[..k]) && contents == old(contents[..k])
      ensures StopsAt(old(contents), old(cacheSize), maxCacheSize, required, k)
      ensures cacheSize == Counted(old(contents), old(cacheSize), k)
      ensures old(cacheSize == Total(contents)) ==>
                && cacheSize == Total(contents) && freed == old(cacheSize) - cacheSize
                && LongestFit(old(contents), maxCacheSize - required, k)
    {
      ghost var es, bytes := contents, cacheSize;
      freed, k := DropWhile(required);
      if bytes == Total(es) {
        StopsAtLongestFit(es, bytes, maxCacheSize, required, k);
      }
    }

    method DropWhile(required: Size) returns (freed: Size, ghost k: nat)
      requires Valid()
      modifies this
      ensures Valid() && DroppedTo(old(contents), old(list), old(cacheSize), required, k)
      ensures k == 0 || Suffices(cacheSize, maxCacheSize, required)
      ensures Freed(old(contents), old(cacheSize), k, freed)
    {
      freed, k := 0, |list|;
      ghost var es, nodes, bytes := contents, list, cacheSize;
      NoneDroppedYet(required);
      while (OverCommitted() || maxCacheSize - cacheSize < required) && list != []
        invariant Valid() && DroppedTo(es, nodes, bytes, required, k) && Freed(es, bytes, k, freed)
        decreases k
      {
        freed := DropLast(es, nodes, bytes, required, k, freed);
        k := k - 1;
      }
    }

    method DropLast(ghost es: seq<Entry>, ghost nodes: seq<KeyValue>, ghost bytes: Size, ghost required: Size, ghost k: nat,
                    freed: Size)
      returns (freed': Size)
      requires Valid() && k > 0 && DroppedTo(es, nodes, bytes, required, k) && Freed(es, bytes, k, freed)
      requires !Suffices(cacheSize, maxCacheSize, required)
      modifies this
      ensures Valid() && DroppedTo(es, nodes, bytes, required, k - 1) && Freed(es, bytes, k - 1, freed')
    {
      FreedMore(es, bytes, k, freed);
      OneMoreDropped(es, bytes, maxCacheSize, required, k);
      var size := PopOf(es, nodes, k);
      freed' := Wrapped(freed + size);
    }

    lemma NoneDroppedYet(required: Size)
      requires Valid()
      ensures DroppedTo(contents, list, cacheSize, required, |list|) && Freed(contents, cacheSize, |list|, 0)
    {
      NothingDropped(contents, list);
    }

    /** All but k entries are dropped, and so far the byte count has not sufficed. */
    ghost predicate DroppedTo(es: seq<Entry>, nodes: seq<KeyValue>, bytes: Size, required: Size, k: nat)
      reads this
    {
      && k <= |es| == |nodes| && list == nodes[..k] && contents == es[..k] && cacheSize == Counted(es, bytes, k)
      && NoneSuffices(es, bytes, maxCacheSize, required, k)
    }

    /** Put, with any byte count. When trimming drops the very entry that is to be overwritten, the
        source writes to an entry that is gone; Gone stands for that. */
    method Put(id: GraphId, tile: Tile, size: Size) returns (r: Outcome)
      requires Valid()
      modifies this, list
      ensures Valid() && (forall kv | kv in list :: kv in old(list) || fresh(kv))
      ensures r.TooLarge? <==> size > maxCacheSize
      ensures r.TooLarge? ==> contents == old(contents) && cacheSize == old(cacheSize)
      ensures r.Gone? <==> size <= maxCacheSize && id in old(cache)
                           && !Survives(old(contents), old(cacheSize), id, size, maxCacheSize, hard)
      ensures r.Stored? ==> r.tile == tile && PutDone(old(contents), old(cacheSize), contents, id, tile, size)
      ensures r.Stored? ==> forall e | e in contents :: e == Entry(id, tile) || e in old(contents)
      ensures old(Sound()) ==> !r.Gone?
      ensures r.Stored? && old(Sound()) ==> AfterPut(old(contents), contents, cacheSize, id, tile, size, maxCacheSize, hard)
    {
      if size > maxCacheSize {
        return TooLarge;
      }
      if id !in cache {
        r := PutNew(id, tile, size);
      } else {
        r := PutCached(id, tile, size);
      }
    }

    /** The tile is in front, and behind it the entries that are kept. */
    ghost predicate PutDone(before: seq<Entry>, bytes: Size, after: seq<Entry>, id: GraphId, tile: Tile, size: Size) {
      && after != [] && KeptByPut(before, bytes, id, size, maxCacheSize, hard, |after| - 1)
      && after == [Entry(id, tile)] + Others(before, id)[..|after| - 1]
    }

    lemma DoneIs(before: seq<Entry>, bytes: Size, after: seq<Entry>, id: GraphId, tile: Tile, size: Size, k: nat)
      requires KeptByPut(before, bytes, id, size, maxCacheSize, hard, k)
      requires after == [Entry(id, tile)] + Others(before, id)[..k]
      ensures PutDone(before, bytes, after, id, tile, size)
      ensures forall e | e in after :: e == Entry(id, tile) || e in before
    {
      PutMembers(before, k, Entry(id, tile));
      assert |after| - 1 == k;
    }

    method PutNew(id: GraphId, tile: Tile, size: Size) returns (r: Outcome)
      requires Valid() && id !in cache && size <= maxCacheSize
      modifies this
      ensures Valid() && (forall kv | kv in list :: kv in old(list) || fresh(kv))
      ensures r == Stored(tile) && PutDone(old(contents), old(cacheSize), contents, id, tile, size)
      ensures forall e | e in contents :: e == Entry(id, tile) || e in old(contents)
      ensures old(Sound()) ==> AfterPut(old(contents), contents, cacheSize, id, tile, size, maxCacheSize, hard)
    {
      ContentsOnce();
      FindNone(contents, id);
      ghost var es, bytes := contents, cacheSize;
      ghost var k := Insert(id, tile, size);
      DoneIs(es, bytes, contents, id, tile, size, k);
      return Stored(list[0].tile);
    }

    method PutCached(id: GraphId, tile: Tile, size: Size) returns (r: Outcome)
      requires Valid() && id in cache && size <= maxCacheSize
      modifies this, list
      ensures Valid() && (forall x | x in list :: x in old(list))
      ensures r == if Survives(old(contents), old(cacheSize), id, size, maxCacheSize, hard) then Stored(tile) else Gone
      ensures r.Stored? ==> PutDone(old(contents), old(cacheSize), contents, id, tile, size)
      ensures r.Stored? ==> forall e | e in contents :: e == Entry(id, tile) || e in old(contents)
      ensures old(Sound()) ==>
                r.Stored? && AfterPut(old(contents), contents, cacheSize, id, tile, size, maxCacheSize, hard)
    {
      ghost var es, bytes, sound := contents, cacheSize, Sound();
      FindCached(id);
      var kept, k := Overwrite(cache[id], tile, size);
      if sound {
        SoundIsKept(es, bytes, Find(es, id).value, size, maxCacheSize, hard);
        SoundOverwritten(es, bytes, contents, cacheSize, id, tile, size, maxCacheSize, hard, k);
      }
      if !kept {
        return Gone;
      }
      DoneIs(es, bytes, contents, id, tile, size, k);
      return Stored(list[0].tile);
    }

    lemma FindCached(id: GraphId)
      requires Valid() && id in cache
      ensures Find(contents, id) == Some(Entry(id, cache[id].tile))
      ensures Total([Entry(id, cache[id].tile)] + Others(contents, id)) == Total(contents)
    {
      ContentsOnce();
      var i :| 0 <= i < |list| && list[i] == cache[id];
      assert contents[i] == Entry(id, cache[id].tile);
      FindAt(contents, i);
      OthersKeep(contents, i);
    }

    /** The branch of Put for an id that is not cached. */
    method Insert(id: GraphId, tile: Tile, size: Size) returns (ghost k: nat)
      requires Valid() && id !in cache && size <= maxCacheSize && Find(contents, id) == None
      modifies this
      ensures Valid() && (forall kv | kv in list :: kv in old(list) || fresh(kv))
      ensures list != [] && list[0].tile == tile
      ensures KeptByPut(old(contents), old(cacheSize), id, size, maxCacheSize, hard, k)
      ensures contents == [Entry(id, tile)] + Others(old(contents), id)[..k] && |contents| == k + 1
      ensures old(Sound()) ==> AfterPut(old(contents), contents, cacheSize, id, tile, size, maxCacheSize, hard)
    {
      ghost var es, sound := contents, Sound();
      k := TrimFor(id, size);
      PushFront(id, tile, size);
      if sound {
        PutIs(es, k, contents, cacheSize, id, tile, size, maxCacheSize, hard);
      }
    }

    /** Under a hard limit, frees the bytes for a new tile. */
    method TrimFor(ghost id: GraphId, size: Size) returns (ghost k: nat)
      requires Valid() && id !in cache
      modifies this
      ensures Valid() && (forall x | x in list :: x in old(list)) && id !in cache
      ensures k <= |Others(old(contents), id)| && contents == Others(old(contents), id)[..k]
      ensures if hard then StopsAt(Others(old(contents), id), old(cacheSize), maxCacheSize, size, k)
              else k == |Others(old(contents), id)|
      ensures old(Sound()) ==> cacheSize == Total(contents)
      ensures old(Sound()) && hard ==> LongestFit(Others(old(contents), id), maxCacheSize - size, k)
    {
      ghost var es := contents;
      k := |es|;
      ContentsOnce();
      OthersNone(es, id);
      Whole(es);
      if hard {
        var _, k' := TrimToFit(size);
        k := k';
        ContentsOnce();
      }
    }

    method PushFront(id: GraphId, tile: Tile, size: Size)
      requires Valid() && id !in cache
      modifies this
      ensures Valid() && (forall kv | kv in list :: kv in old(list) || fresh(kv))
      ensures list != [] && list[0].tile == tile && contents == [Entry(id, tile)] + old(contents)
      ensures cacheSize == Wrapped(old(cacheSize) + size)
    {
      var kv := new KeyValue(id, tile);
      InsertedFront(cache, list, kv);
      MirrorsInserted(contents, list, kv);
      list := [kv] + list;
      contents := [Entry(id, tile)] + contents;
      cache := cache[id := kv];
      cacheSize := Wrapped(cacheSize + size);
    }

    /** The branch of Put for a cached id: the entry moves to the front, so that trimming comes to it
        last, and is overwritten if it is still there. */
    method Overwrite(kv: KeyValue, tile: Tile, size: Size) returns (kept: bool, ghost k: nat)
      requires Valid() && kv in list && size <= maxCacheSize
      modifies this, list
      ensures Valid() && (forall x | x in list :: x in old(list))
      ensures kept <==> Survives(old(contents), old(cacheSize), kv.id, size, maxCacheSize, hard)
      ensures kept ==> list != [] && list[0].tile == tile && |contents| == k + 1
                       && Overwritten(old(contents), old(cacheSize), contents, cacheSize, kv.id, tile, size, maxCacheSize, hard, k)
    {
      ghost var es, bytes, e := contents, cacheSize, Entry(kv.id, kv.tile);
      var oldSize := kv.tile.endOffset;
      ghost var n := MakeRoom(kv, size);
      HeadKept(es, bytes, e, size, maxCacheSize, hard, n);
      if list == [] {
        return false, 0;
      }
      ReplaceLeft(es, bytes, e, n, tile, oldSize, size);
      return true, n - 1;
    }

    method ReplaceLeft(ghost before: seq<Entry>, ghost bytes: Size, ghost e: Entry, ghost n: nat, tile: Tile, oldSize: Size, size: Size)
      requires Valid() && oldSize == e.tile.endOffset
      requires RoomMade(before, bytes, e, contents, cacheSize, size, maxCacheSize, hard, n)
      modifies this, list
      ensures Valid() && list == old(list) && list != [] && list[0].tile == tile && |contents| == n
      ensures Overwritten(before, bytes, contents, cacheSize, e.id, tile, size, maxCacheSize, hard, n - 1)
    {
      ghost var now, bytes' := contents, cacheSize;
      ghost var rest := RoomBehind(before, bytes, e, now, bytes', size, maxCacheSize, hard, n);
      ReplaceKept(e, rest, tile, oldSize, size);
      OverwrittenIs(before, bytes, e, now, bytes', contents, tile, size, maxCacheSize, hard, n, rest);
    }

    method ReplaceKept(ghost e: Entry, ghost rest: seq<Entry>, tile: Tile, oldSize: Size, size: Size)
      requires Valid() && contents == [e] + rest
      modifies this, list
      ensures Valid() && list == old(list) && list != [] && list[0].tile == tile
      ensures contents == [Entry(e.id, tile)] + rest && |contents| == 1 + |rest|
      ensures cacheSize == Wrapped(Wrapped(old(cacheSize) - oldSize) + size)
    {
      HeadAndTail(e, rest);
      assert contents[0] == e;
      ReplaceHead(tile, oldSize, size);
    }

    method MakeRoom(kv: KeyValue, size: Size) returns (ghost n: nat)
      requires Valid() && kv in list && size <= maxCacheSize
      modifies this
      ensures Valid() && (forall x | x in list :: x in old(list)) && (list != [] ==> list[0] == kv) && |list| == n
      ensures Trimmed(old(contents), old(cacheSize), Entry(kv.id, kv.tile), size, maxCacheSize, hard, n)
      ensures var es := [Entry(kv.id, kv.tile)] + Others(old(contents), kv.id);
              n <= |es| && contents == es[..n] && cacheSize == Counted(es, old(cacheSize), n)
    {
      var oldSize := kv.tile.endOffset;
      BringToFront(kv);
      n := |list|;
      Whole(contents);
      if hard && size > oldSize {
        var _, n' := TrimToFit(size - oldSize);
        n := n';
      }
    }

    method BringToFront(kv: KeyValue)
      requires Valid() && kv in list
      modifies this`list, this`contents
      ensures Valid() && (forall x :: x in list <==> x in old(list)) && list != [] && list[0] == kv
      ensures contents == [Entry(kv.id, kv.tile)] + Others(old(contents), kv.id)
      ensures Find(old(contents), kv.id) == Some(Entry(kv.id, kv.tile))
    {
      FindCached(kv.id);
      MoveToLruHead(kv);
    }

    method ReplaceHead(tile: Tile, oldSize: Size, size: Size)
      requires Valid() && list != []
      modifies this, list[0]
      ensures Valid() && list == old(list) && list[0].tile == tile
      ensures contents == [Entry(list[0].id, tile)] + old(contents)[1..]
      ensures cacheSize == Wrapped(Wrapped(old(cacheSize) - oldSize) + size)
    {
      list[0].tile := tile;
      contents := [Entry(list[0].id, tile)] + contents[1..];
      cacheSize := Wrapped(cacheSize - oldSize);
      cacheSize := Wrapped(cacheSize + size);
    }

    /** Drops the least recently used entry and its bytes. */
    method PopBack() returns (size: Size)
      requires Valid() && list != []
      modifies this
      ensures Valid() && list == old(list)[..|old(list)| - 1]
      ensures contents == old(contents)[..|old(list)| - 1]
      ensures cacheSize == Wrapped(old(cacheSize) - size) && size == old(contents[|list| - 1].tile.endOffset)
      ensures Total(contents) == old(Total(contents)) - size
    {
      PoppedBack(cache, list);
      var kv := list[|list| - 1];
      size := kv.tile.endOffset;
      cacheSize := Wrapped(cacheSize - size);
      cache := cache - {kv.id};
      list := list[..|list| - 1];
      contents := contents[..|contents| - 1];
    }

    /** The same, seen from the entries and nodes of which k are left. */
    method PopOf(ghost es: seq<Entry>, ghost nodes: seq<KeyValue>, ghost k: nat) returns (size: Size)
      requires Valid() && 0 < k <= |es| == |nodes| && list == nodes[..k] && contents == es[..k]
      modifies this
      ensures Valid() && list == nodes[..k - 1] && contents == es[..k - 1]
      ensures size == es[k - 1].tile.endOffset && cacheSize == Wrapped(old(cacheSize) - size)
    {
      assert es[..k][..k - 1] == es[..k - 1] && nodes[..k][..k - 1] == nodes[..k - 1];
      size := PopBack();
    }

    method Trim()
      requires Valid()
      modifies this
      ensures Valid() && contents <= old(contents) && list <= old(list)
      ensures old(Sound()) ==> Sound() && cacheSize <= maxCacheSize
      ensures old(Sound()) ==> LongestFit(old(contents), maxCacheSize, |contents|)
    {
      var _, _ := TrimToFit(0);
      TotalOfNone();
    }
  }

  lemma TakenApart(es: seq<Entry>, i: nat)
    requires i < |es|
    ensures es == es[..i] + [es[i]] + es[i + 1..]
  {
  }

  lemma Regrouped(e: Entry, a: seq<Entry>, b: seq<Entry>)
    ensures [e] + (a + b) == [e] + a + b
  {
  }

  lemma OthersAre(es: seq<Entry>, i: nat)
    requires i < |es| && OnceEach(es)
    ensures Others(es, es[i].id) == es[..i] + es[i + 1..]
  {
    TakenApart(es, i);
    OthersAround(es[..i], es[i], es[i + 1..]);
  }

  lemma OthersSplit(es: seq<Entry>, i: nat)
    requires i < |es| && OnceEach(es)
    ensures [es[i]] + Others(es, es[i].id) == [es[i]] + es[..i] + es[i + 1..]
  {
    OthersAre(es, i);
    Regrouped(es[i], es[..i], es[i + 1..]);
  }

  lemma OthersKeep(es: seq<Entry>, i: nat)
    requires i < |es| && OnceEach(es)
    ensures multiset([es[i]] + Others(es, es[i].id)) == multiset(es)
    ensures Total([es[i]] + Others(es, es[i].id)) == Total(es)
  {
    var a, e, b := es[..i], es[i], es[i + 1..];
    OthersAre(es, i);
    TakenApart(es, i);
    TotalConcat([e], a + b);
    TotalConcat(a, b);
    TotalConcat(a + [e], b);
    TotalConcat(a, [e]);
  }
}
