/** Reading tiles through a cache: GetGraphTile with each kind of cache, on a fixed tile store. */
module GraphReader {
  import opened Option
  import opened Tiles
  import opened TileCacheFlat
  import opened TileCacheLRU

  datatype AnyCache = Flat(flat: FlatCache) | Simple(simple: SimpleCache) | Lru(lru: LruCache)

  /** TooLarge is the exception of the LRU cache on a tile larger than itself, NoPath the one of the
      path printer on an id past the end of its level. */
  datatype Answer = NoTile | Found(tile: Tile) | TooLarge | NoPath

  const AVERAGE_MM_TILE_SIZE: Size := 1024

  datatype Request = GetTile(id: GraphId) | Trim

  /** Tiles outside the hierarchy have no path and so no file. */
  ghost predicate WithinHierarchy(store: map<GraphId, Tile>) {
    forall g :: g in store ==> InHierarchy(g) && g.id == 0
  }

  /** The tiles that a flat cache holds after a request, from those that it held before. */
  function HeldAfter(store: map<GraphId, Tile>, held: set<GraphId>, q: Request): set<GraphId> {
    match q
    case Trim => {}
    case GetTile(g) => if TileBase(g) in store then held + {TileBase(g)} else held
  }

  function HeldAfterAll(store: map<GraphId, Tile>, held: set<GraphId>, requests: seq<Request>): set<GraphId> {
    if requests == [] then held
    else HeldAfter(store, HeldAfterAll(store, held, requests[..|requests| - 1]), requests[|requests| - 1])
  }

  class Reader {
    const cache: AnyCache
    /** What loading a tile yields, by tile base. */
    const store: map<GraphId, Tile>
    /** The store is a memory-mapped extract, or else a directory of files. */
    const mapped: bool

    constructor (cache: AnyCache, store: map<GraphId, Tile>, mapped: bool)
      ensures this.cache == cache && this.store == store && this.mapped == mapped
    {
      this.cache, this.store, this.mapped := cache, store, mapped;
    }

    /** The size under which the reader caches a tile. */
    function SizeFor(tile: Tile): Size {
      if mapped then AVERAGE_MM_TILE_SIZE else tile.endOffset
    }

    ghost function Repr(): set<object>
      reads match cache case Flat(f) => {f} case Simple(s) => {s} case Lru(l) => {l}
    {
      match cache
      case Flat(f) => {f, f.indices}
      case Simple(s) => {s}
      case Lru(l) => {l} + (set kv: KeyValue | kv in l.list :: kv as object)
    }

    /** The cache is in order, and all it holds is from the store. */
    ghost predicate Valid()
      reads match cache case Flat(f) => {f} case Simple(s) => {s} case Lru(l) => {l}
      reads Repr()
    {
      |store| < INVALID && (cache.Flat? || !mapped ==> WithinHierarchy(store)) &&
      match cache
      case Flat(f) =>
        && f.Valid() && |f.tiles| == |f.view|
        && forall g :: g in f.view ==> g in store && f.view[g] == store[g]
      case Simple(s) => forall g :: g in s.cache ==> g in store && s.cache[g] == store[g]
      case Lru(l) =>
        && l.Valid()
        && forall e | e in l.contents :: e.id in store && e.tile == store[e.id] && SizeFor(e.tile) <= l.maxCacheSize
    }

    /** The level exists, and the tile lies past its end. */
    predicate PastItsLevel(g: GraphId) {
      g.level <= TRANSIT_LEVEL && g.tile >= TileCount(g.level)
    }

    /** The answer without a cache, but for the exception. It depends on the id alone. */
    function Direct(g: GraphId): Answer {
      var base := TileBase(g);
      if base !in store then (if !mapped && PastItsLevel(g) then NoPath else NoTile)
      else if cache.Lru? && SizeFor(store[base]) > cache.lru.maxCacheSize then Answer.TooLarge
      else Found(store[base])
    }

    /** That is the tile of the level and tile id in the store, refused by an LRU cache that is smaller than
        the 1024 bytes at which it enters a tile of an extract, or than another tile's own bytes. */
    lemma DirectIs(g: GraphId)
      ensures var base := GraphId(g.level, g.tile, 0);
              Direct(g)
              == if base in store then
                   var size := if mapped then 1024 else store[base].endOffset;
                   (if cache.Lru? && size > cache.lru.maxCacheSize then Answer.TooLarge else Found(store[base]))
                 else if mapped || g.level > 3 then NoTile
                 else if g.tile >= (match g.level case 0 => 4050 case 1 => 64800 case _ => 1036800) then NoPath
                 else NoTile
    {
    }

    /** The id is none of the hierarchy, and the tile whose slot it hits is held. */
    ghost predicate Aliased(held: set<GraphId>, g: GraphId) {
      cache.Flat? && !InHierarchy(g) && Slot(g) < IndexLength() && Owner(Slot(g)) in held
    }

    /** The answer while a flat cache holds these tiles: the direct one, except for ids outside the
        hierarchy that hit the slot of a tile that is held. */
    ghost function Answered(held: set<GraphId>, g: GraphId): (r: Answer)
      requires cache.Flat? ==> WithinHierarchy(store) && held <= store.Keys
      ensures r == Direct(g) <==> !Aliased(held, g)
    {
      if Aliased(held, g) then Found(store[Owner(Slot(g))]) else Direct(g)
    }

    /** A hard LRU cache whose reader passes the tiles' own sizes has a right byte count, within its
        limit. */
    ghost predicate InBudget()
      reads match cache case Flat(f) => {f} case Simple(s) => {s} case Lru(l) => {l}
    {
      cache.Lru? && !mapped && cache.lru.hard ==> cache.lru.Sound()
    }

    /** What a flat cache holds. */
    ghost function Held(): set<GraphId>
      reads match cache case Flat(f) => {f} case Simple(s) => {s} case Lru(l) => {l}
    {
      if cache.Flat? then cache.flat.view.Keys else {}
    }

    /** Past the end of level 0, the id of the first tile of level 1 is answered while that is held.
        Otherwise an extract answers with nothing, and a directory with an exception. */
    lemma PastTheLevel()
      requires cache.Flat? && WithinHierarchy(store) && GraphId(1, 0, 0) in store
      ensures Direct(GraphId(0, 4050, 0)) == if mapped then NoTile else NoPath
      ensures Answered({}, GraphId(0, 4050, 0)) == Direct(GraphId(0, 4050, 0))
      ensures Answered({GraphId(1, 0, 0)}, GraphId(0, 4050, 0)) == Found(store[GraphId(1, 0, 0)])
    {
      OwnSlot(GraphId(1, 0, 0));
    }

    lemma BaseAnswers(held: set<GraphId>, g: GraphId)
      requires cache.Flat? ==> WithinHierarchy(store) && held <= store.Keys
      ensures Answered(held, g) == Answered(held, TileBase(g))
    {
    }

    /** GetGraphTile of a valid id, which need not be one of the hierarchy. */
    method GetGraphTile(g: GraphId) returns (r: Answer)
      requires Valid()
      modifies Repr()
      ensures Valid() && fresh(Repr() - old(Repr()))
      ensures cache.Flat? ==> old(Held()) <= store.Keys
      ensures r == Answered(old(Held()), g)
      ensures cache.Flat? ==> Held() == HeldAfter(store, old(Held()), GetTile(g))
      ensures old(InBudget()) ==> InBudget()
    {
      BaseAnswers(Held(), g);
      r := GetBase(TileBase(g));
    }

    method GetBase(base: GraphId) returns (r: Answer)
      requires Valid() && base.id == 0
      modifies Repr()
      ensures Valid() && fresh(Repr() - old(Repr()))
      ensures r == Answered(old(Held()), base)
      ensures cache.Flat? ==> Held() == HeldAfter(store, old(Held()), GetTile(base))
      ensures old(InBudget()) ==> InBudget()
    {
      var cached := Cached(base);
      if cached.Some? {
        return Found(cached.value);
      }
      if !mapped {
        if base.level > TRANSIT_LEVEL {
          return NoTile;
        }
        if base.tile >= TileCount(base.level) {
          return NoPath;
        }
      }
      if base !in store {
        return NoTile;
      }
      var tile := store[base];
      r := Cache(base, tile, SizeFor(tile));
    }

    method Cached(base: GraphId) returns (r: Option<Tile>)
      requires Valid() && base.id == 0
      modifies Repr()
      ensures Valid() && Repr() == old(Repr()) && Held() == old(Held())
      ensures r.Some? ==> Answered(Held(), base) == Found(r.value) && (base in store ==> cache.Flat? ==> base in Held())
      ensures r.None? ==> !Holds(base) && !Aliased(Held(), base)
      ensures cache.Lru? && old(cache.lru.Sound()) ==> cache.lru.Sound()
    {
      match cache
      case Flat(f) =>
        if InHierarchy(base) {
          OwnSlot(base);
        }
        r := f.Get(base);
      case Simple(s) => r := s.Get(base);
      case Lru(_) => r := CachedInLru(base);
    }

    method CachedInLru(base: GraphId) returns (r: Option<Tile>)
      requires Valid() && base.id == 0 && cache.Lru?
      modifies Repr()
      ensures Valid() && Repr() == old(Repr())
      ensures r.Some? ==> Direct(base) == Found(r.value)
      ensures r.None? ==> !Holds(base)
      ensures old(cache.lru.Sound()) ==> cache.lru.Sound()
    {
      r := cache.lru.Lookup(base);
    }

    ghost predicate Holds(base: GraphId)
      reads match cache case Flat(f) => {f} case Simple(s) => {s} case Lru(l) => {l}
    {
      match cache
      case Flat(f) => base in f.view
      case Simple(s) => base in s.cache
      case Lru(l) => base in l.cache
    }

    method Cache(base: GraphId, tile: Tile, size: Size) returns (r: Answer)
      requires Valid() && base.id == 0 && !Holds(base)
      requires base in store && tile == store[base] && size == SizeFor(tile)
      modifies Repr()
      ensures Valid() && fresh(Repr() - old(Repr()))
      ensures r == Direct(base) && (cache.Flat? ==> Held() == old(Held()) + {base})
      ensures old(InBudget()) ==> InBudget()
    {
      match cache
      case Flat(f) =>
        SmallerView(f.view, store);
        var t := f.Put(base, tile, size);
        r := Found(t.value);
      case Simple(s) =>
        var t := s.Put(base, tile, size);
        r := Found(t);
      case Lru(l) =>
        var t := l.Put(base, tile, size);
        r := match t case TooLarge => Answer.TooLarge case Stored(x) => Found(x);
    }

    method TrimCache()
      requires Valid()
      modifies Repr()
      ensures Valid() && fresh(Repr() - old(Repr())) && Held() == {}
      ensures cache.Lru? && old(cache.lru.Sound()) ==> cache.lru.Sound()
    {
      match cache
      case Flat(f) => f.Trim();
      case Simple(s) => s.Trim();
      case Lru(l) => l.Trim();
    }

    /** Any run of gets and trims, for any ids: the cache shows in an answer exactly if it is flat and
        the id, none of the hierarchy, hits the slot of a tile held since the last trim. */
    method Run(requests: seq<Request>) returns (answers: seq<Option<Answer>>)
      requires Valid()
      modifies Repr()
      ensures Valid() && fresh(Repr() - old(Repr()))
      ensures AllAnswered(old(Held()), requests, answers)
      ensures cache.Flat? ==> Held() == HeldAfterAll(store, old(Held()), requests)
      ensures old(InBudget()) ==> InBudget()
      decreases |requests|
    {
      if requests == [] {
        return [];
      }
      ghost var held := Held();
      var front, q := requests[..|requests| - 1], requests[|requests| - 1];
      answers := Run(front);
      ghost var now := if cache.Flat? then Held() else HeldAfterAll(store, held, front);
      var answer := Serve(q, now);
      OneMoreAnswer(held, front, answers, q, answer);
      assert requests == front + [q];
      answers := answers + [answer];
    }

    ghost predicate AllAnswered(held: set<GraphId>, requests: seq<Request>, answers: seq<Option<Answer>>) {
      |answers| == |requests| &&
      forall i :: 0 <= i < |requests| ==> HeldBefore(held, requests, i) && AnsweredAt(held, requests, i, answers[i])
    }

    lemma OneMoreAnswer(held: set<GraphId>, front: seq<Request>, answers: seq<Option<Answer>>, q: Request, answer: Option<Answer>)
      requires AllAnswered(held, front, answers)
      requires cache.Flat? ==> WithinHierarchy(store) && HeldAfterAll(store, held, front) <= store.Keys
      requires answer == if q.GetTile? then Some(Answered(HeldAfterAll(store, held, front), q.id)) else None
      ensures AllAnswered(held, front + [q], answers + [answer])
    {
      var requests := front + [q];
      assert requests[..|front|] == front;
      forall i | 0 <= i < |front|
        ensures HeldBefore(held, requests, i) && AnsweredAt(held, requests, i, answers[i])
      {
        assert requests[..i] == front[..i];
        assert HeldBefore(held, front, i) && AnsweredAt(held, front, i, answers[i]);
      }
    }

    /** One request. Only a flat cache shows what it holds. */
    method Serve(q: Request, ghost held: set<GraphId>) returns (answer: Option<Answer>)
      requires Valid() && (cache.Flat? ==> held == Held())
      modifies Repr()
      ensures Valid() && fresh(Repr() - old(Repr()))
      ensures cache.Flat? ==> WithinHierarchy(store) && held <= store.Keys && Held() == HeldAfter(store, held, q)
      ensures answer == if q.GetTile? then Some(Answered(held, q.id)) else None
      ensures old(InBudget()) ==> InBudget()
    {
      if q.GetTile? {
        var a := GetGraphTile(q.id);
        answer := Some(a);
      } else {
        TrimCache();
        answer := None;
      }
    }

    ghost predicate HeldBefore(held: set<GraphId>, requests: seq<Request>, i: nat)
      requires i < |requests|
    {
      cache.Flat? ==> WithinHierarchy(store) && HeldAfterAll(store, held, requests[..i]) <= store.Keys
    }

    ghost predicate AnsweredAt(held: set<GraphId>, requests: seq<Request>, i: nat, answer: Option<Answer>)
      requires i < |requests| && HeldBefore(held, requests, i)
    {
      answer == if requests[i].GetTile? then Some(Answered(HeldAfterAll(store, held, requests[..i]), requests[i].id)) else None
    }
  }

  lemma SmallerView(view: map<GraphId, Tile>, store: map<GraphId, Tile>)
    requires forall g :: g in view ==> g in store
    ensures |view| <= |store|
  {
    assert view.Keys <= store.Keys;
    assert store.Keys == view.Keys + (store.Keys - view.Keys);
  }
}
