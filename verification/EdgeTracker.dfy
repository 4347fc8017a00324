/** One bit for each edge of the tile set: the bitset over 64-bit words, and the tracker that
    numbers the edges of all tiles consecutively. */
module EdgeTracker {
  type Word = bv64

  function Bit(k: nat): Word
    requires k < 64
  {
    1 << k
  }

  lemma ShortShift(k: nat)
    requires k < 64
    ensures Bit(k) == (1 as Word) << (k as bv6) && (k as bv6) as nat == k
  {
  }

  lemma ShiftedDiffer(w: Word, a: bv6, k: bv6)
    ensures (w | ((1 as Word) << a)) & ((1 as Word) << k) != 0 <==> a == k || w & ((1 as Word) << k) != 0
  {
  }

  predicate IsSet(w: Word, k: nat)
    requires k < 64
  {
    w & Bit(k) != 0
  }

  /** The bit a is set, and no other is changed. */
  ghost predicate WordWith(before: Word, after: Word, a: nat) {
    forall k: nat :: k < 64 ==> (IsSet(after, k) <==> IsSet(before, k) || k == a)
  }

  lemma BitDiffers(w: Word, a: nat, k: nat)
    requires a < 64 && k < 64
    ensures (w | Bit(a)) & Bit(k) != 0 <==> a == k || w & Bit(k) != 0
  {
    ShortShift(a);
    ShortShift(k);
    ShiftedDiffer(w, a as bv6, k as bv6);
  }

  lemma BitsDiffer(w: Word, a: nat)
    requires a < 64
    ensures WordWith(w, w | Bit(a), a)
  {
    forall k: nat | k < 64
      ensures IsSet(w | Bit(a), k) <==> IsSet(w, k) || k == a
    {
      BitDiffers(w, a, k);
    }
  }

  lemma SamePlace(a: nat, b: nat)
    ensures a / 64 == b / 64 && a % 64 == b % 64 <==> a == b
  {
  }

  /** What the words say about id. */
  ghost predicate HasBit(words: seq<Word>, id: nat) {
    id < 64 * |words| && IsSet(words[id / 64], id % 64)
  }

  /** The bit of id is set, and no other is changed. */
  ghost predicate WithBit(before: seq<Word>, after: seq<Word>, id: nat) {
    |after| == |before| && forall j: nat :: HasBit(after, j) <==> HasBit(before, j) || j == id
  }

  lemma OneMoreBit(words: seq<Word>, id: nat, word: Word)
    requires id < 64 * |words| && WordWith(words[id / 64], word, id % 64)
    ensures WithBit(words, words[id / 64 := word], id)
  {
    forall j: nat
      ensures HasBit(words[id / 64 := word], j) <==> HasBit(words, j) || j == id
    {
      SamePlace(id, j);
    }
  }

  class Bitset {
    const words: array<Word>

    constructor (size: nat)
      ensures fresh(words) && size <= 64 * words.Length < size + 64
      ensures forall id :: !HasBit(words[..], id)
    {
      words := new Word[(size + 63) / 64](_ => 0);
    }

    /** false stands for the out-of-bounds exception. */
    method Set(id: nat) returns (ok: bool)
      modifies words
      ensures ok <==> id < 64 * words.Length
      ensures if ok then WithBit(old(words[..]), words[..], id) else words[..] == old(words[..])
    {
      if id >= 64 * words.Length {
        return false;
      }
      var place: nat, word := id / 64, words[id / 64] | Bit(id % 64);
      BitsDiffer(words[place], id % 64);
      OneMoreBit(words[..], id, word);
      Store(place, word);
      return true;
    }

    method Store(place: nat, word: Word)
      requires place < words.Length
      modifies words
      ensures words[..] == old(words[..])[place := word]
    {
      words[place] := word;
    }

    method Get(id: nat) returns (ok: bool, bit: bool)
      ensures ok <==> id < 64 * words.Length
      ensures ok ==> (bit <==> HasBit(words[..], id))
    {
      if id >= 64 * words.Length {
        return false, false;
      }
      return true, IsSet(words[id / 64], id % 64);
    }
  }

  /** An edge by its tile and its number in the tile. */
  datatype EdgeId = EdgeId(tile: int, id: nat)

  /** Each tile has a stretch of bits of its own, as long as its edge count. */
  ghost predicate Stretches(offsets: map<int, nat>, counts: map<int, nat>, size: nat) {
    && (forall t :: t in offsets ==> t in counts && offsets[t] + counts[t] <= size)
    && (forall t, u :: t in offsets && u in offsets && t != u ==>
          offsets[t] + counts[t] <= offsets[u] || offsets[u] + counts[u] <= offsets[t])
  }

  ghost predicate IsEdge(offsets: map<int, nat>, counts: map<int, nat>, e: EdgeId) {
    e.tile in offsets && e.tile in counts && e.id < counts[e.tile]
  }

  class Tracker {
    const offsets: map<int, nat>
    ghost const counts: map<int, nat>
    const bits: Bitset

    /** edge_tracker::create over the tiles, with their directed edge counts. */
    constructor (tiles: seq<int>, edgeCounts: map<int, nat>)
      requires forall t | t in tiles :: t in edgeCounts
      ensures Stretches(offsets, counts, 64 * bits.words.Length) && counts == edgeCounts && fresh(bits.words)
      ensures forall t :: t in offsets <==> t in tiles
      ensures forall e :: !HasEdge(e)
    {
      var edgeCount := 0;
      var index: map<int, nat> := map[];
      var i := 0;
      while i < |tiles|
        invariant 0 <= i <= |tiles|
        invariant Stretches(index, edgeCounts, edgeCount)
        invariant forall t :: t in index <==> t in tiles[..i]
      {
        var t := tiles[i];
        if t !in index {
          index := index[t := edgeCount];
        }
        edgeCount := edgeCount + edgeCounts[t];
        i := i + 1;
      }
      offsets := index;
      counts := edgeCounts;
      bits := new Bitset(edgeCount);
    }

    /** The edge is in the set that the tracker stands for. */
    ghost predicate HasEdge(e: EdgeId)
      reads bits.words
    {
      IsEdge(offsets, counts, e) && HasBit(bits.words[..], offsets[e.tile] + e.id)
    }

    /** set; the tile must be one of the tracked ones, as the assertion in it demands. On an edge
        of the tile it adds that edge to the set and no other. */
    method Set(e: EdgeId) returns (ok: bool)
      requires e.tile in offsets && Stretches(offsets, counts, 64 * bits.words.Length)
      modifies bits.words
      ensures IsEdge(offsets, counts, e) ==> ok
      ensures IsEdge(offsets, counts, e) ==> forall f :: HasEdge(f) <==> old(HasEdge(f)) || f == e
    {
      ok := bits.Set(e.id + offsets[e.tile]);
    }

    method Get(e: EdgeId) returns (ok: bool, bit: bool)
      requires e.tile in offsets && Stretches(offsets, counts, 64 * bits.words.Length)
      ensures IsEdge(offsets, counts, e) ==> ok && (bit <==> HasEdge(e))
    {
      ok, bit := bits.Get(e.id + offsets[e.tile]);
    }
  }
}
