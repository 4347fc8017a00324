/** The cache with a dense index over all tiles of the hierarchy, and the plain map cache. */
module TileCacheFlat {
  import opened Option
  import opened Tiles

  /** midgard::invalid<uint32_t>(), which -1 turns into. */
  const INVALID: nat := 0xFFFF_FFFF

  /** index_offsets_: where the indices of each level begin. */
  function IndexOffset(level: nat): nat
    requires level <= 3
  {
    if level == 0 then 0 else IndexOffset(level - 1) + TileCount(level - 1)
  }

  /** The length of cache_indices_. */
  function IndexLength(): nat {
    IndexOffset(3) + TileCount(TRANSIT_LEVEL)
  }

  /** get_offset. */
  function Slot(g: GraphId): nat {
    if g.level < 4 then IndexOffset(g.level) + g.tile else IndexLength()
  }

  /** The levels come one after the other. */
  lemma SlotIs(g: GraphId)
    ensures Slot(g) == match g.level
                       case 0 => g.tile
                       case 1 => 4050 + g.tile
                       case 2 => 68850 + g.tile
                       case 3 => 1105650 + g.tile
                       case _ => IndexLength()
    ensures IndexLength() == 2142450
  {
  }

  /** Tiles of the hierarchy have slots within the index, each its own. */
  lemma SlotsAreDistinct(a: GraphId, b: GraphId)
    requires InHierarchy(a) && InHierarchy(b)
    ensures Slot(a) < IndexLength()
    ensures Slot(a) == Slot(b) <==> a.level == b.level && a.tile == b.tile
  {
  }

  /** The tile of the hierarchy that a slot belongs to. */
  function Owner(slot: nat): (b: GraphId)
    requires slot < IndexLength()
    ensures InHierarchy(b) && b.id == 0 && Slot(b) == slot
  {
    var level := if slot < IndexOffset(1) then 0 else if slot < IndexOffset(2) then 1 else if slot < IndexOffset(3) then 2 else 3;
    GraphId(level, slot - IndexOffset(level), 0)
  }

  lemma OwnSlot(g: GraphId)
    requires InHierarchy(g) && g.id == 0
    ensures Slot(g) < IndexLength() && Owner(Slot(g)) == g
  {
    SlotsAreDistinct(g, g);
    SlotsAreDistinct(g, Owner(Slot(g)));
  }

  /** An id that the hierarchy does not have shares its slot with one that it has exactly if its
      slot lies within the index, as it does for tile ids past the end of a level but the last. */
  lemma StrangeSlots(a: GraphId)
    requires !InHierarchy(a)
    ensures Slot(a) < IndexLength() <==> exists b :: InHierarchy(b) && Slot(b) == Slot(a)
    ensures Slot(GraphId(0, TileCount(0), 0)) == Slot(GraphId(1, 0, 0))
  {
    if Slot(a) < IndexLength() {
      var b := Owner(Slot(a));
      assert InHierarchy(b) && Slot(b) == Slot(a);
    }
  }

  /** A cache seen as a map from the tiles of the hierarchy. */
  type View = map<GraphId, Tile>

  class FlatCache {
    var tiles: seq<Tile>
    var indices: array<nat>
    var cacheSize: nat
    const maxCacheSize: nat
    ghost var view: View

    ghost predicate Valid()
      reads this, indices
    {
      && indices.Length == IndexLength() && |tiles| <= INVALID
      && (forall s :: 0 <= s < indices.Length ==> indices[s] == INVALID || indices[s] < |tiles|)
      && (forall g :: g in view <==> InHierarchy(g) && g.id == 0 && indices[Slot(g)] != INVALID)
      && (forall g :: g in view ==> indices[Slot(g)] < |tiles| && view[g] == tiles[indices[Slot(g)]])
    }

    constructor (maxSize: nat)
      ensures Valid() && view == map[] && maxCacheSize == maxSize && fresh(indices)
    {
      indices := new nat[IndexLength()](_ => INVALID);
      tiles, cacheSize, maxCacheSize, view := [], 0, maxSize, map[];
    }

    /** get_index. */
    function Index(g: GraphId): nat
      reads this, indices
    {
      if Slot(g) < indices.Length then indices[Slot(g)] else INVALID
    }

    method Clear()
      requires Valid()
      modifies this, indices
      ensures Valid() && view == map[] && tiles == [] && indices == old(indices)
    {
      cacheSize, tiles, view := 0, [], map[];
      var s := 0;
      while s < indices.Length
        invariant 0 <= s <= indices.Length
        invariant forall i :: 0 <= i < s ==> indices[i] == INVALID
        invariant tiles == [] && view == map[] && indices == old(indices)
      {
        indices[s] := INVALID;
        s := s + 1;
      }
    }

    /** Get answers for whichever tile of the hierarchy owns the slot. */
    method Get(g: GraphId) returns (r: Option<Tile>)
      requires Valid()
      ensures r == if Slot(g) < IndexLength() && Owner(Slot(g)) in view then Some(view[Owner(Slot(g))]) else None
      ensures InHierarchy(g) && g.id == 0 ==> r == if g in view then Some(view[g]) else None
    {
      if InHierarchy(g) && g.id == 0 {
        OwnSlot(g);
      }
      var index := Index(g);
      if index == INVALID {
        return None;
      }
      return Some(tiles[index]);
    }

    /** Put appends the tile and lets the slot of the id point to it, whatever it pointed to before.
        The source does not check the slot; None stands for writing past the index. */
    method Put(g: GraphId, tile: Tile, size: nat) returns (r: Option<Tile>)
      requires Valid() && |tiles| < INVALID
      modifies this, indices
      ensures Valid() && indices == old(indices) && cacheSize == old(cacheSize) + size
      ensures r == if Slot(g) < IndexLength() then Some(tile) else None
      ensures r.Some? ==> view == old(view)[Owner(Slot(g)) := tile] && tiles == old(tiles) + [tile]
      ensures r.None? ==> view == old(view) && tiles == old(tiles)
      ensures InHierarchy(g) && g.id == 0 ==> r == Some(tile) && view == old(view)[g := tile]
    {
      cacheSize := cacheSize + size;
      if Slot(g) >= indices.Length {
        if InHierarchy(g) {
          SlotsAreDistinct(g, g);
        }
        return None;
      }
      if InHierarchy(g) && g.id == 0 {
        OwnSlot(g);
      }
      ghost var owner := Owner(Slot(g));
      forall h | InHierarchy(h)
        ensures Slot(h) < IndexLength() && (Slot(h) == Slot(g) <==> h.level == owner.level && h.tile == owner.tile)
      {
        SlotsAreDistinct(h, owner);
      }
      indices[Slot(g)] := |tiles|;
      tiles := tiles + [tile];
      view := view[owner := tile];
      return Some(tiles[|tiles| - 1]);
    }

    method Trim()
      requires Valid()
      modifies this, indices
      ensures Valid() && view == map[] && tiles == [] && indices == old(indices)
    {
      Clear();
    }

    predicate OverCommitted()
      reads this
    {
      cacheSize > maxCacheSize
    }
  }

  class SimpleCache {
    var cache: View
    var cacheSize: nat
    const maxCacheSize: nat

    constructor (maxSize: nat)
      ensures cache == map[] && maxCacheSize == maxSize
    {
      cache, cacheSize, maxCacheSize := map[], 0, maxSize;
    }

    method Get(g: GraphId) returns (r: Option<Tile>)
      ensures r == if g in cache then Some(cache[g]) else None
    {
      if g in cache {
        return Some(cache[g]);
      }
      return None;
    }

    /** emplace: a tile that is there already stays. */
    method Put(g: GraphId, tile: Tile, size: nat) returns (r: Tile)
      modifies this
      ensures r == if g in old(cache) then old(cache)[g] else tile
      ensures cache == old(cache)[g := r] && cacheSize == old(cacheSize) + size
    {
      cacheSize := cacheSize + size;
      if g !in cache {
        cache := cache[g := tile];
      }
      return cache[g];
    }

    method Trim()
      modifies this
      ensures cache == map[] && cacheSize == 0
    {
      cacheSize, cache := 0, map[];
    }
  }
}
