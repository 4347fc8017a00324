/** The incident watcher in directory scan mode as a protocol: a thread that scans files into a
    cache in small steps, readers that look tiles up, and an environment that changes the files
    at any moment in between. */
module IncidentWatcher {
  import opened Option

  type TileId = int
  type Time = nat
  type Reader = int

  datatype Content = Unreadable | NoIncidents | Incidents(tile: int)

  datatype File = File(content: Content, mtime: Time)

  /** read_tile: empty and unreadable files give no tile. */
  function ReadTile(c: Content): Option<int> {
    if c.Incidents? then Some(c.tile) else None
  }

  /** How far the watcher has got with one file. */
  datatype Work =
    | Idle
    | Visited(id: TileId)                     // noted as seen, time not yet read
    | Loading(id: TileId)                     // new enough, content not yet read
    | Storing(id: TileId, tile: Option<int>)  // content read, cache not yet updated

  datatype Phase =
    | Starting
    | Disabled
    | Waiting
    | Scanning(visited: set<TileId>, work: Work)
    | Purging(left: set<TileId>)

  /** A reader outside, inside its lookup, or inside with the entry found. */
  datatype Lookup = Outside | Inside(id: TileId) | AtEntry(id: TileId)

  datatype State = State(
    // the environment
    disk: map<TileId, File>,
    clock: Time,
    // the watcher's own variables
    phase: Phase,
    lastScan: Time,
    currentScan: Time,
    seen: set<TileId>,
    // what the threads share
    cache: map<TileId, Option<int>>,
    lockFree: bool,
    initialized: bool,
    mutex: Option<Reader>,
    readers: map<Reader, Lookup>,
    returned: set<(TileId, Option<int>)>,
    // history, for stating properties
    stable: set<TileId>,            // on disk since the current scan began
    changed: bool,                  // the disk has changed since the current scan began
    written: set<(TileId, int)>,    // every tile that was ever on disk under an id
    stored: set<(TileId, int)>      // every tile the watcher has stored for an id
  )

  datatype Action =
    | Tick(to: Time)
    | Write(id: TileId, content: Content, stamp: Time)
    | Delete(id: TileId)
    | Start(tileset: set<TileId>)
    | Disable
    | BeginScan
    | Visit(id: TileId)
    | ReadTime
    | ReadContent
    | InsertEntry
    | StoreTile
    | SkipTile
    | EndFiles
    | Purge(id: TileId)
    | EndScan
    | Enter(reader: Reader, id: TileId)
    | Find(reader: Reader)
    | Return(reader: Reader)

  ghost predicate Init(s: State) {
    && s.phase == Starting && s.lastScan == 0 && s.currentScan == 0 && s.cache == map[] && !s.initialized
    && s.mutex == None && s.returned == {} && s.seen == {} && s.stable == {} && s.stored == {} && !s.changed
    && (forall r :: r in s.readers ==> s.readers[r] == Outside)
    && (forall id :: id in s.disk && s.disk[id].content.Incidents? ==> (id, s.disk[id].content.tile) in s.written)
  }

  ghost predicate Working(s: State) {
    s.phase.Scanning? && !s.phase.work.Idle?
  }

  function Do(s: State, w: Work): State
    requires s.phase.Scanning?
  {
    s.(phase := s.phase.(work := w))
  }

  /** One step of the environment, the watcher or a reader. */
  ghost predicate Next(s: State, a: Action, t: State) {
    match a
    // The environment. A change of a file stamps a time not earlier than the change.
    case Tick(to) => s.clock <= to && t == s.(clock := to)
    case Write(id, c, stamp) =>
      && s.clock <= stamp
      && t == s.(disk := s.disk[id := File(c, stamp)], changed := true,
                 written := if c.Incidents? then s.written + {(id, c.tile)} else s.written)
    case Delete(id) => t == s.(disk := s.disk - {id}, stable := s.stable - {id}, changed := true)
    // The watcher.
    case Start(tileset) =>
      && s.phase.Starting?
      && t == s.(phase := Waiting, lockFree := tileset != {}, cache := map id | id in tileset :: None)
    case Disable => s.phase.Starting? && t == s.(phase := Disabled, initialized := true)
    case BeginScan =>
      && s.phase.Waiting?
      && t == s.(phase := Scanning({}, Idle), currentScan := s.clock, seen := {}, stable := s.disk.Keys, changed := false)
    case Visit(id) =>
      && s.phase.Scanning? && s.phase.work.Idle? && id in s.disk && id !in s.phase.visited
      && t == s.(phase := Scanning(s.phase.visited + {id}, Visited(id)), seen := s.seen + {id})
    case ReadTime =>
      && s.phase.Scanning? && s.phase.work.Visited?
      && var id := s.phase.work.id;
        t == Do(s, if id in s.disk && s.lastScan <= s.disk[id].mtime then Loading(id) else Idle)
    case ReadContent =>
      && s.phase.Scanning? && s.phase.work.Loading?
      && var id := s.phase.work.id;
        t == Do(s, Storing(id, if id in s.disk then ReadTile(s.disk[id].content) else None))
    case InsertEntry =>
      && s.phase.Scanning? && s.phase.work.Storing? && s.phase.work.id !in s.cache && !s.lockFree && s.mutex == None
      && t == s.(cache := s.cache[s.phase.work.id := None])
    case StoreTile =>
      && s.phase.Scanning? && s.phase.work.Storing? && s.phase.work.id in s.cache
      && var (id, tile) := (s.phase.work.id, s.phase.work.tile);
        t == Do(s, Idle).(cache := s.cache[id := tile],
                          stored := if tile.Some? then s.stored + {(id, tile.value)} else s.stored)
    case SkipTile =>
      && s.phase.Scanning? && s.phase.work.Storing? && s.phase.work.id !in s.cache && s.lockFree
      && t == Do(s, Idle)
    // The directory walk ends when it has come past every file that was there all the time.
    case EndFiles =>
      && s.phase.Scanning? && s.phase.work.Idle? && s.stable <= s.phase.visited
      && t == s.(phase := Purging(s.cache.Keys))
    case Purge(id) =>
      && s.phase.Purging? && id in s.phase.left && id in s.cache
      && t == s.(phase := Purging(s.phase.left - {id}),
                 cache := if id !in s.seen then s.cache[id := None] else s.cache)
    case EndScan =>
      && s.phase.Purging? && s.phase.left == {}
      && t == s.(phase := Waiting, lastScan := s.currentScan, initialized := true)
    // The readers, which exist only once the singleton is constructed.
    case Enter(r, id) =>
      && s.initialized && r in s.readers && s.readers[r].Outside? && (s.lockFree || s.mutex == None)
      && t == s.(readers := s.readers[r := Inside(id)], mutex := if s.lockFree then s.mutex else Some(r))
    case Find(r) =>
      && r in s.readers && s.readers[r].Inside? && s.readers[r].id in s.cache
      && t == s.(readers := s.readers[r := AtEntry(s.readers[r].id)])
    case Return(r) =>
      && r in s.readers
      && (s.readers[r].AtEntry? || (s.readers[r].Inside? && s.readers[r].id !in s.cache))
      && var id := s.readers[r].id;
        t == s.(readers := s.readers[r := Outside], mutex := if s.lockFree then s.mutex else None,
                returned := s.returned + {(id, if id in s.cache then s.cache[id] else None)})
  }

  // ----- Locking.

  ghost predicate IsInside(s: State, r: Reader) {
    r in s.readers && !s.readers[r].Outside?
  }

  /** Readers are inside only once the watcher is initialised, and one at a time unless the key
      set is fixed; a reader at an entry still has the entry. */
  ghost predicate Locking(s: State) {
    && (s.phase.Starting? ==> !s.initialized)
    && (forall r :: IsInside(s, r) ==> s.initialized && (s.lockFree || s.mutex == Some(r)))
    && (forall r :: IsInside(s, r) && s.readers[r].AtEntry? ==> s.readers[r].id in s.cache)
  }

  lemma LockingKept(s: State, a: Action, t: State)
    requires Locking(s) && Next(s, a, t)
    ensures Locking(t)
  {
    forall r | IsInside(t, r)
      ensures t.initialized && (t.lockFree || t.mutex == Some(r))
    {
      assert IsInside(s, r) || (a.Enter? && r == a.reader);
      assert a.Return? ==> IsInside(s, a.reader);
    }
    forall r | IsInside(t, r) && t.readers[r].AtEntry?
      ensures t.readers[r].id in t.cache
    {
      assert IsInside(s, r);
    }
  }

  /** The key set of the cache does not change while a reader is inside its lookup, and without
      locks it never changes again once the watcher has started. */
  lemma KeysFixedUnderReaders(s: State, a: Action, t: State)
    requires Locking(s) && Next(s, a, t)
    ensures (exists r :: IsInside(s, r)) ==> t.cache.Keys == s.cache.Keys
    ensures s.lockFree && !s.phase.Starting? ==> t.lockFree && t.cache.Keys == s.cache.Keys
  {
    match a
    case StoreTile => assert t.cache.Keys == s.cache.Keys;
    case Purge(id) => assert t.cache.Keys == s.cache.Keys;
    case _ =>
  }

  // ----- Where tiles come from.

  ghost predicate Provenance(s: State) {
    && (forall id :: id in s.disk && s.disk[id].content.Incidents? ==> (id, s.disk[id].content.tile) in s.written)
    && (s.phase.Scanning? && s.phase.work.Storing? && s.phase.work.tile.Some? ==>
          (s.phase.work.id, s.phase.work.tile.value) in s.written)
    && s.stored <= s.written
    && (forall id :: id in s.cache && s.cache[id].Some? ==> (id, s.cache[id].value) in s.stored)
    && (forall id, tile :: (id, Some(tile)) in s.returned ==> (id, tile) in s.stored)
  }

  predicate OfEnvironment(a: Action) {
    a.Tick? || a.Write? || a.Delete?
  }

  predicate OfReader(a: Action) {
    a.Enter? || a.Find? || a.Return?
  }

  predicate OfCache(a: Action) {
    a.StoreTile? || a.InsertEntry? || a.SkipTile?
  }

  lemma EnvironmentKeepsProvenance(s: State, a: Action, t: State)
    requires Provenance(s) && Next(s, a, t) && OfEnvironment(a)
    ensures Provenance(t)
  {
  }

  lemma ReadersKeepProvenance(s: State, a: Action, t: State)
    requires Provenance(s) && Next(s, a, t) && OfReader(a)
    ensures Provenance(t)
  {
  }

  lemma StoringKeepsProvenance(s: State, a: Action, t: State)
    requires Provenance(s) && Next(s, a, t) && OfCache(a)
    ensures Provenance(t)
  {
  }

  lemma ReadingKeepsProvenance(s: State, a: Action, t: State)
    requires Provenance(s) && Next(s, a, t) && a.ReadContent?
    ensures Provenance(t)
  {
  }

  lemma ProvenanceKept(s: State, a: Action, t: State)
    requires Provenance(s) && Next(s, a, t)
    ensures Provenance(t)
  {
    if OfEnvironment(a) {
      EnvironmentKeepsProvenance(s, a, t);
    } else if OfReader(a) {
      ReadersKeepProvenance(s, a, t);
    } else if OfCache(a) {
      StoringKeepsProvenance(s, a, t);
    } else if a.ReadContent? {
      ReadingKeepsProvenance(s, a, t);
    } else {
      assert t.disk == s.disk && t.written == s.written && t.stored == s.stored && t.returned == s.returned;
    }
  }

  // ----- Freshness.

  /** The tiles that the watcher keeps track of. */
  predicate Tracked(s: State, id: TileId) {
    s.lockFree ==> id in s.cache
  }

  /** The cache holds what the file of the tile says. */
  predicate InStep(s: State, id: TileId) {
    id in s.disk && id in s.cache && s.cache[id] == ReadTile(s.disk[id].content)
  }

  /** Every tracked tile whose file is older than time is cached as the file says. */
  ghost predicate FreshBefore(s: State, time: Time) {
    forall id :: id in s.disk && s.disk[id].mtime < time && Tracked(s, id) ==> InStep(s, id)
  }

  ghost predicate Current(w: Work, id: TileId) {
    !w.Idle? && w.id == id
  }

  ghost predicate Times(s: State) {
    && s.lastScan <= s.currentScan <= s.clock
    && (s.phase.Starting? || s.phase.Disabled? ==> s.lastScan == 0)
    && (s.phase.Scanning? || s.phase.Purging? ==>
          forall id :: id in s.disk && s.disk[id].mtime < s.currentScan ==> id in s.stable)
  }

  /** What the scan has come past so far is up to date, apart from the file in hand. */
  ghost predicate FreshSoFar(s: State)
    requires s.phase.Scanning?
  {
    forall id ::
      (id in s.phase.visited && !Current(s.phase.work, id) && Tracked(s, id) && id in s.disk && s.disk[id].mtime < s.currentScan)
      ==> InStep(s, id)
  }

  /** A file that has not changed since the scan began was read as it is now. */
  ghost predicate ReadRight(w: Work, s: State) {
    w.Storing? && w.id in s.disk && s.disk[w.id].mtime < s.currentScan ==> w.tile == ReadTile(s.disk[w.id].content)
  }

  ghost predicate Freshness(s: State) {
    && FreshBefore(s, s.lastScan)
    && (s.phase.Scanning? ==>
          && s.phase.visited == s.seen
          && (!s.phase.work.Idle? ==> s.phase.work.id in s.phase.visited)
          && FreshSoFar(s)
          && ReadRight(s.phase.work, s))
    && (s.phase.Purging? ==> FreshBefore(s, s.currentScan) && s.stable <= s.seen)
  }

  lemma EnvironmentKeepsTimes(s: State, a: Action, t: State)
    requires Times(s) && Next(s, a, t) && OfEnvironment(a)
    ensures Times(t)
  {
  }

  lemma ScansKeepTimes(s: State, a: Action, t: State)
    requires Times(s) && Next(s, a, t) && (a.BeginScan? || a.EndScan?)
    ensures Times(t)
  {
  }

  lemma TimesKept(s: State, a: Action, t: State)
    requires Times(s) && Next(s, a, t)
    ensures Times(t)
  {
    if OfEnvironment(a) {
      EnvironmentKeepsTimes(s, a, t);
    } else if a.BeginScan? || a.EndScan? {
      ScansKeepTimes(s, a, t);
    } else {
      assert t.disk == s.disk && t.clock == s.clock && t.lastScan == s.lastScan && t.currentScan == s.currentScan;
    }
  }

  lemma EnvironmentKeepsFreshness(s: State, a: Action, t: State)
    requires Times(s) && Freshness(s) && Next(s, a, t) && OfEnvironment(a)
    ensures Freshness(t)
  {
    forall id | id in t.disk && t.disk[id].mtime < t.currentScan
      ensures id in s.disk && t.disk[id] == s.disk[id] && (InStep(s, id) ==> InStep(t, id))
    {
    }
  }

  lemma ReadersKeepFreshness(s: State, a: Action, t: State)
    requires Times(s) && Freshness(s) && Next(s, a, t) && OfReader(a)
    ensures Freshness(t)
  {
    assert forall id :: InStep(s, id) ==> InStep(t, id);
  }

  /** Storing a tile brings the one entry up to date and leaves the others. */
  lemma StoringKeepsFreshness(s: State, a: Action, t: State)
    requires Times(s) && Freshness(s) && Next(s, a, t) && OfCache(a)
    ensures Freshness(t)
  {
    assert forall id :: id != s.phase.work.id ==> (InStep(s, id) ==> InStep(t, id));
    assert a.StoreTile? ==> t.cache[s.phase.work.id] == s.phase.work.tile;
  }

  lemma PurgingKeepsFreshness(s: State, a: Action, t: State)
    requires Times(s) && Freshness(s) && Next(s, a, t) && a.Purge?
    ensures Freshness(t)
  {
    forall id | id in s.seen && InStep(s, id)
      ensures InStep(t, id)
    {
    }
  }

  lemma ReadingKeepsFreshness(s: State, a: Action, t: State)
    requires Times(s) && Freshness(s) && Next(s, a, t) && (a.Visit? || a.ReadTime? || a.ReadContent?)
    ensures Freshness(t)
  {
    assert t.cache == s.cache && t.disk == s.disk;
  }

  lemma FreshnessKept(s: State, a: Action, t: State)
    requires Times(s) && Freshness(s) && Next(s, a, t)
    ensures Freshness(t)
  {
    if OfEnvironment(a) {
      EnvironmentKeepsFreshness(s, a, t);
    } else if OfReader(a) {
      ReadersKeepFreshness(s, a, t);
    } else if OfCache(a) {
      StoringKeepsFreshness(s, a, t);
    } else if a.Purge? {
      PurgingKeepsFreshness(s, a, t);
    } else if a.Visit? || a.ReadTime? || a.ReadContent? {
      ReadingKeepsFreshness(s, a, t);
    } else {
      assert a.Start? || t.cache == s.cache;
    }
  }

  // ----- What a scan has seen.

  ghost predicate OnlySeen(s: State, but: set<TileId>) {
    forall id :: id in s.cache && id !in but && s.cache[id].Some? ==> id in s.seen
  }

  /** A scan during which the disk does not change sees and reads only files that are there; when
      it has ended, no tile that it did not see is still cached. */
  ghost predicate Sightings(s: State) {
    && ((s.phase.Scanning? || s.phase.Purging?) && !s.changed ==> s.seen <= s.disk.Keys)
    && (Working(s) ==> s.phase.work.id in s.seen)
    && (s.phase.Starting? ==> s.cache == map[])
    && (s.phase.Purging? ==> OnlySeen(s, s.phase.left))
    && (s.phase.Waiting? ==> OnlySeen(s, {}))
  }

  lemma StoringKeepsSightings(s: State, a: Action, t: State)
    requires Sightings(s) && Next(s, a, t) && OfCache(a)
    ensures Sightings(t)
  {
  }

  /** What is not seen and no longer left to be looked at has been emptied. */
  lemma PurgingKeepsSightings(s: State, a: Action, t: State)
    requires Sightings(s) && Next(s, a, t) && a.Purge?
    ensures Sightings(t)
  {
  }

  lemma StartingKeepsSightings(s: State, a: Action, t: State)
    requires Sightings(s) && Next(s, a, t) && (a.Start? || a.BeginScan? || a.Visit?)
    ensures Sightings(t)
  {
  }

  lemma SightingsKept(s: State, a: Action, t: State)
    requires Sightings(s) && Next(s, a, t)
    ensures Sightings(t)
  {
    if OfCache(a) {
      StoringKeepsSightings(s, a, t);
    } else if a.Purge? {
      PurgingKeepsSightings(s, a, t);
    } else if a.Start? || a.BeginScan? || a.Visit? {
      StartingKeepsSightings(s, a, t);
    } else {
      assert t.cache == s.cache && t.seen == s.seen;
    }
  }

  // ----- What the next step needs.

  /** The mutex is held by a reader that is inside, files to come past are there, and entries to
      purge are cached. */
  ghost predicate Orderly(s: State) {
    && (s.mutex.Some? ==> IsInside(s, s.mutex.value) && !s.lockFree)
    && (s.phase.Scanning? ==> s.stable <= s.disk.Keys)
    && (s.phase.Purging? ==> s.phase.left <= s.cache.Keys)
  }

  lemma OrderlyKept(s: State, a: Action, t: State)
    requires Locking(s) && Orderly(s) && Next(s, a, t)
    ensures Orderly(t)
  {
    if a.Purge? || a.StoreTile? {
      KeysFixedUnderReaders(s, a, t);
      assert t.readers == s.readers && t.cache.Keys == s.cache.Keys;
    } else if OfReader(a) {
      assert t.cache == s.cache && t.disk == s.disk;
    } else {
      assert t.readers == s.readers && t.mutex == s.mutex;
    }
  }

  // ----- Runs.

  ghost predicate Reachable(s: State) {
    Locking(s) && Provenance(s) && Times(s) && Freshness(s) && Sightings(s) && Orderly(s)
  }

  lemma ReachableAtFirst(s: State)
    requires Init(s)
    ensures Reachable(s)
  {
    assert forall r :: !IsInside(s, r);
  }

  lemma ReachableNext(s: State, a: Action, t: State)
    requires Reachable(s) && Next(s, a, t)
    ensures Reachable(t)
  {
    LockingKept(s, a, t);
    ProvenanceKept(s, a, t);
    TimesKept(s, a, t);
    FreshnessKept(s, a, t);
    SightingsKept(s, a, t);
    OrderlyKept(s, a, t);
  }

  ghost predicate StepAt(states: seq<State>, actions: seq<Action>, i: nat)
    requires i < |actions| && |states| == |actions| + 1
  {
    Next(states[i], actions[i], states[i + 1])
  }

  /** Any interleaving of the watcher, the readers and the environment. */
  ghost predicate Run(states: seq<State>, actions: seq<Action>) {
    && |states| == |actions| + 1
    && Init(states[0])
    && forall i :: 0 <= i < |actions| ==> StepAt(states, actions, i)
  }

  lemma {:induction false} EveryStateReachable(states: seq<State>, actions: seq<Action>, i: nat)
    requires Run(states, actions) && i < |states|
    ensures Reachable(states[i])
  {
    if i == 0 {
      ReachableAtFirst(states[0]);
    } else {
      EveryStateReachable(states, actions, i - 1);
      assert StepAt(states, actions, i - 1);
      ReachableNext(states[i - 1], actions[i - 1], states[i]);
    }
  }

  /** Over every run: a reader only ever gets no tile or one that the watcher stored for that very
      id, which was the content of the file of that id at some time; the key set does not change
      under a reader; and the cache agrees with every file older than the last scan. */
  lemma SafeReads(states: seq<State>, actions: seq<Action>, i: nat)
    requires Run(states, actions) && i < |actions|
    ensures forall id, tile :: (id, Some(tile)) in states[i].returned ==>
                                 (id, tile) in states[i].stored && (id, tile) in states[i].written
    ensures (exists r :: IsInside(states[i], r)) ==> states[i + 1].cache.Keys == states[i].cache.Keys
    ensures FreshBefore(states[i], states[i].lastScan)
  {
    EveryStateReachable(states, actions, i);
    assert StepAt(states, actions, i);
    KeysFixedUnderReaders(states[i], actions[i], states[i + 1]);
  }

  // ----- Every scan can go on to its end.

  ghost predicate InScan(s: State) {
    s.phase.Scanning? || s.phase.Purging?
  }

  /** What is still to be come past, or to be purged. */
  ghost function Left(s: State): set<TileId> {
    match s.phase
    case Scanning(visited, _) => s.stable - visited
    case Purging(left) => left
    case _ => {}
  }

  /** The steps with the file in hand, and those of the reader that keeps a new entry waiting. */
  ghost function StepsInHand(s: State): nat {
    if !s.phase.Scanning? then 0
    else match s.phase.work
      case Visited(_) => 4
      case Loading(_) => 3
      case Storing(id, _) => if id in s.cache then 1 else 2
      case Idle => 0
  }

  ghost function StepsOfReader(s: State): nat {
    if s.mutex.None? || s.mutex.value !in s.readers then 0
    else if s.readers[s.mutex.value].Inside? then 2
    else 1
  }

  /** t is nearer to the end of the scan than s. */
  ghost predicate Nearer(s: State, t: State) {
    || (s.phase.Scanning? && t.phase.Purging?)
    || (s.phase.Scanning? == t.phase.Scanning?
        && (Left(t) < Left(s)
            || (Left(t) == Left(s)
                && (StepsInHand(t) < StepsInHand(s)
                    || (StepsInHand(t) == StepsInHand(s) && StepsOfReader(t) < StepsOfReader(s))))))
  }

  /** With nothing in hand the watcher goes to the next file, or on to purging. */
  lemma IdleGoesOn(s: State) returns (a: Action, t: State)
    requires Orderly(s) && s.phase.Scanning? && s.phase.work.Idle?
    ensures Next(s, a, t) && (a.Visit? || a.EndFiles?) && InScan(t) && Nearer(s, t)
  {
    if id :| id in s.stable && id !in s.phase.visited {
      a := Visit(id);
      t := s.(phase := Scanning(s.phase.visited + {id}, Visited(id)), seen := s.seen + {id});
      assert id in Left(s) && id !in Left(t);
    } else {
      assert forall id :: id in s.stable ==> id in s.phase.visited;
      a, t := EndFiles, s.(phase := Purging(s.cache.Keys));
    }
  }

  /** A reader inside its lookup can always take its next step. */
  lemma ReaderGoesOn(s: State) returns (a: Action, t: State)
    requires Locking(s) && Orderly(s) && InScan(s) && s.mutex.Some?
    ensures Next(s, a, t) && OfReader(a) && InScan(t) && Nearer(s, t)
  {
    var r := s.mutex.value;
    assert IsInside(s, r);
    var id := s.readers[r].id;
    if s.readers[r].Inside? && id in s.cache {
      a, t := Find(r), s.(readers := s.readers[r := AtEntry(id)]);
    } else {
      a := Return(r);
      t := s.(readers := s.readers[r := Outside], mutex := None,
              returned := s.returned + {(id, if id in s.cache then s.cache[id] else None)});
    }
  }

  lemma StoringGoesOn(s: State) returns (a: Action, t: State)
    requires Locking(s) && Orderly(s) && s.phase.Scanning? && s.phase.work.Storing?
    ensures Next(s, a, t) && (OfCache(a) || OfReader(a)) && InScan(t) && Nearer(s, t)
  {
    var id, tile := s.phase.work.id, s.phase.work.tile;
    if id in s.cache {
      a := StoreTile;
      t := Do(s, Idle).(cache := s.cache[id := tile],
                        stored := if tile.Some? then s.stored + {(id, tile.value)} else s.stored);
    } else {
      a, t := MissingGoesOn(s);
    }
  }

  /** Without an entry, the tile is passed over, or an entry is made once no reader is inside. */
  lemma MissingGoesOn(s: State) returns (a: Action, t: State)
    requires Locking(s) && Orderly(s) && s.phase.Scanning? && s.phase.work.Storing? && s.phase.work.id !in s.cache
    ensures Next(s, a, t) && (OfCache(a) || OfReader(a)) && InScan(t) && Nearer(s, t)
  {
    if s.lockFree {
      a, t := SkipTile, Do(s, Idle);
    } else if s.mutex.None? {
      a, t := InsertEntry, s.(cache := s.cache[s.phase.work.id := None]);
    } else {
      a, t := ReaderGoesOn(s);
    }
  }

  lemma VisitedGoesOn(s: State) returns (a: Action, t: State)
    requires s.phase.Scanning? && s.phase.work.Visited?
    ensures Next(s, a, t) && a.ReadTime? && InScan(t) && Nearer(s, t)
  {
    var id := s.phase.work.id;
    a, t := ReadTime, Do(s, if id in s.disk && s.lastScan <= s.disk[id].mtime then Loading(id) else Idle);
  }

  lemma LoadingGoesOn(s: State) returns (a: Action, t: State)
    requires s.phase.Scanning? && s.phase.work.Loading?
    ensures Next(s, a, t) && a.ReadContent? && InScan(t) && Nearer(s, t)
  {
    var id := s.phase.work.id;
    a, t := ReadContent, Do(s, Storing(id, if id in s.disk then ReadTile(s.disk[id].content) else None));
  }

  lemma PurgingGoesOn(s: State) returns (a: Action, t: State)
    requires Orderly(s) && s.phase.Purging?
    ensures Next(s, a, t) && (a.EndScan? || (a.Purge? && InScan(t) && Nearer(s, t)))
  {
    if id :| id in s.phase.left {
      a := Purge(id);
      t := s.(phase := Purging(s.phase.left - {id}), cache := if id !in s.seen then s.cache[id := None] else s.cache);
    } else {
      assert forall id :: id !in s.phase.left;
      a, t := EndScan, s.(phase := Waiting, lastScan := s.currentScan, initialized := true);
    }
  }

  /** No state of a scan blocks: the watcher, or the reader that it waits for, can take a step towards
      the end of the scan. */
  lemma ScanGoesOn(s: State) returns (a: Action, t: State)
    requires Reachable(s) && InScan(s)
    ensures Next(s, a, t) && !OfEnvironment(a) && !a.Enter?
    ensures a.EndScan? || (InScan(t) && Nearer(s, t))
  {
    if s.phase.Purging? {
      a, t := PurgingGoesOn(s);
    } else if s.phase.work.Idle? {
      a, t := IdleGoesOn(s);
    } else if s.phase.work.Storing? {
      a, t := StoringGoesOn(s);
    } else if s.phase.work.Loading? {
      a, t := LoadingGoesOn(s);
    } else {
      a, t := VisitedGoesOn(s);
    }
  }

  ghost predicate Path(states: seq<State>, actions: seq<Action>) {
    |states| == |actions| + 1 && forall i :: 0 <= i < |actions| ==> StepAt(states, actions, i)
  }

  /** From every reachable state of a scan, steps of the watcher and of readers already inside lead to
      the end of the scan. */
  lemma {:induction false} ScanCanEnd(s: State) returns (states: seq<State>, actions: seq<Action>)
    requires Reachable(s) && InScan(s)
    ensures Path(states, actions) && states[0] == s && actions != [] && actions[|actions| - 1] == EndScan
    ensures forall i :: 0 <= i < |actions| ==> !OfEnvironment(actions[i]) && !actions[i].Enter?
    decreases s.phase.Scanning?, Left(s), StepsInHand(s), StepsOfReader(s)
  {
    var a, t := ScanGoesOn(s);
    if a.EndScan? {
      states, actions := [s, t], [a];
    } else {
      ReachableNext(s, a, t);
      var ss, aa := ScanCanEnd(t);
      states, actions := [s] + ss, [a] + aa;
      forall i | 0 <= i < |actions|
        ensures StepAt(states, actions, i)
      {
        assert i > 0 ==> StepAt(ss, aa, i - 1);
      }
    }
  }

  // ----- Convergence.

  predicate ChangesDisk(a: Action) {
    a.Write? || a.Delete?
  }

  /** The cache says for every tracked tile what the disk says. */
  ghost predicate InAgreement(s: State) {
    && (forall id :: id in s.disk && Tracked(s, id) ==> InStep(s, id))
    && (forall id :: id in s.cache && s.cache[id].Some? ==> id in s.disk)
  }

  /** What the scan has come past is up to date whatever its time, apart from the file in hand. */
  ghost predicate InStepSoFar(s: State)
    requires s.phase.Scanning?
  {
    forall id :: id in s.phase.visited && !Current(s.phase.work, id) && Tracked(s, id) && id in s.disk ==> InStep(s, id)
  }

  ghost predicate AllInStep(s: State) {
    forall id :: id in s.disk && Tracked(s, id) ==> InStep(s, id)
  }

  /** During and after a scan that began at time, with nothing changing on disk. */
  ghost predicate Calm(s: State, time: Time) {
    && !s.changed && time <= s.currentScan
    && (s.phase.Scanning? || s.phase.Purging? || s.phase.Waiting?)
    && (s.phase.Scanning? || s.phase.Purging? ==> s.disk.Keys <= s.stable)
    && (s.phase.Scanning? ==> InStepSoFar(s))
    && (s.phase.Scanning? && s.phase.work.Storing? && s.phase.work.id in s.disk ==>
          s.phase.work.tile == ReadTile(s.disk[s.phase.work.id].content))
    && (s.phase.Purging? ==> AllInStep(s))
  }

  lemma CalmBegins(s: State, t: State)
    requires Reachable(s) && Next(s, BeginScan, t)
    ensures Calm(t, s.clock)
  {
  }

  lemma ReadingKeepsCalm(s: State, a: Action, t: State, time: Time)
    requires Reachable(s) && Calm(s, time) && Next(s, a, t) && (a.Visit? || a.ReadTime? || a.ReadContent? || a.EndFiles?)
    ensures Calm(t, time)
  {
    assert t.cache == s.cache && t.disk == s.disk;
    assert forall id :: id in s.disk && s.disk[id].mtime < s.lastScan && Tracked(s, id) ==> InStep(s, id);
  }

  lemma StoringKeepsCalm(s: State, a: Action, t: State, time: Time)
    requires Reachable(s) && Calm(s, time) && Next(s, a, t) && OfCache(a)
    ensures Calm(t, time)
  {
    assert forall id :: id != s.phase.work.id ==> (InStep(s, id) ==> InStep(t, id));
    assert a.StoreTile? ==> t.cache[s.phase.work.id] == s.phase.work.tile;
  }

  lemma PurgingKeepsCalm(s: State, a: Action, t: State, time: Time)
    requires Reachable(s) && Calm(s, time) && Next(s, a, t) && a.Purge?
    ensures Calm(t, time)
  {
    assert s.disk.Keys <= s.seen;
    assert forall id :: id in s.seen && InStep(s, id) ==> InStep(t, id);
  }

  lemma ReadersKeepCalm(s: State, a: Action, t: State, time: Time)
    requires Calm(s, time) && Next(s, a, t) && (OfReader(a) || a.Tick?)
    ensures Calm(t, time)
  {
    assert t.cache == s.cache && t.disk == s.disk && t.phase == s.phase;
  }

  lemma CalmKept(s: State, a: Action, t: State, time: Time)
    requires Reachable(s) && Calm(s, time) && Next(s, a, t) && !ChangesDisk(a)
    ensures Calm(t, time) && t.disk == s.disk
  {
    if OfReader(a) || a.Tick? {
      ReadersKeepCalm(s, a, t, time);
    } else if OfCache(a) {
      StoringKeepsCalm(s, a, t, time);
    } else if a.Purge? {
      PurgingKeepsCalm(s, a, t, time);
    } else if a.Visit? || a.ReadTime? || a.ReadContent? || a.EndFiles? {
      ReadingKeepsCalm(s, a, t, time);
    }
  }

  lemma ScanBringsAgreement(s: State, a: Action, t: State, time: Time)
    requires Reachable(s) && Calm(s, time) && Next(s, a, t) && a.EndScan?
    ensures InAgreement(t) && time <= t.lastScan
  {
    assert t.cache == s.cache && t.disk == s.disk;
  }

  lemma StoringKeepsAgreement(s: State, a: Action, t: State, time: Time)
    requires Reachable(s) && Calm(s, time) && InAgreement(s) && Next(s, a, t) && OfCache(a)
    ensures InAgreement(t)
  {
    assert s.phase.work.id in s.disk;
    assert forall id :: id != s.phase.work.id ==> (InStep(s, id) ==> InStep(t, id));
  }

  lemma PurgingKeepsAgreement(s: State, a: Action, t: State, time: Time)
    requires Reachable(s) && Calm(s, time) && InAgreement(s) && Next(s, a, t) && a.Purge?
    ensures InAgreement(t)
  {
    assert s.disk.Keys <= s.seen;
    assert forall id :: id in s.seen && InStep(s, id) ==> InStep(t, id);
  }

  /** Later scans store what is cached already, and purge only what is not on disk. */
  lemma AgreementKept(s: State, a: Action, t: State, time: Time)
    requires Reachable(s) && Calm(s, time) && Next(s, a, t) && !ChangesDisk(a) && !a.EndScan?
    requires InAgreement(s) && time <= s.lastScan
    ensures InAgreement(t) && time <= t.lastScan
  {
    if OfCache(a) {
      StoringKeepsAgreement(s, a, t, time);
    } else if a.Purge? {
      PurgingKeepsAgreement(s, a, t, time);
    } else {
      assert t.cache == s.cache && t.disk == s.disk;
    }
  }

  lemma AgreementNext(s: State, a: Action, t: State, time: Time)
    requires Reachable(s) && Calm(s, time) && Next(s, a, t) && !ChangesDisk(a)
    requires a.EndScan? || (InAgreement(s) && time <= s.lastScan)
    ensures InAgreement(t) && time <= t.lastScan
  {
    if a.EndScan? {
      ScanBringsAgreement(s, a, t, time);
    } else {
      AgreementKept(s, a, t, time);
    }
  }

  lemma AgreementAt(states: seq<State>, actions: seq<Action>, i: nat, time: Time)
    requires Run(states, actions) && i < |actions| && Calm(states[i], time) && !ChangesDisk(actions[i])
    requires actions[i].EndScan? || (InAgreement(states[i]) && time <= states[i].lastScan)
    ensures InAgreement(states[i + 1]) && time <= states[i + 1].lastScan
  {
    EveryStateReachable(states, actions, i);
    assert StepAt(states, actions, i);
    AgreementNext(states[i], actions[i], states[i + 1], time);
  }

  lemma {:induction false} CalmFromScanOn(states: seq<State>, actions: seq<Action>, j: nat, m: nat)
    requires Run(states, actions) && j < m < |states| && actions[j] == BeginScan
    requires forall i :: j <= i < m ==> !ChangesDisk(actions[i])
    ensures Calm(states[m], states[j].clock)
  {
    EveryStateReachable(states, actions, m - 1);
    assert StepAt(states, actions, m - 1);
    if m > j + 1 {
      CalmFromScanOn(states, actions, j, m - 1);
      CalmKept(states[m - 1], actions[m - 1], states[m], states[j].clock);
    } else {
      CalmBegins(states[j], states[m]);
    }
  }

  /** If, from the beginning of some scan on, the disk no longer changes, then the cache equals the
      disk from the end of that scan on, whatever times the files are stamped with. */
  lemma {:induction false} Converges(states: seq<State>, actions: seq<Action>, j: nat, k: nat, m: nat)
    requires Run(states, actions) && j < k < m < |states|
    requires actions[j] == BeginScan && actions[k] == EndScan
    requires forall i :: j <= i < m ==> !ChangesDisk(actions[i])
    ensures InAgreement(states[m]) && states[j].clock <= states[m].lastScan
  {
    CalmFromScanOn(states, actions, j, m - 1);
    if m > k + 1 {
      Converges(states, actions, j, k, m - 1);
    }
    AgreementAt(states, actions, m - 1, states[j].clock);
  }

  // ----- What readers are told.

  /** What the file of a tile says; nothing if there is no file. */
  ghost predicate FileSays(s: State, id: TileId, answer: Option<int>) {
    match answer
    case Some(x) => id in s.disk && s.disk[id].content == Incidents(x)
    case None => id in s.disk ==> !s.disk[id].content.Incidents?
  }

  /** A lookup keeps the id that it was begun with. */
  lemma LookupKeepsId(s: State, a: Action, t: State, r: Reader)
    requires Next(s, a, t)
    ensures IsInside(s, r) && IsInside(t, r) ==> t.readers[r].id == s.readers[r].id
    ensures !IsInside(s, r) && IsInside(t, r) ==> a == Enter(r, t.readers[r].id)
  {
  }

  /** Its answer is the cached tile of that id. */
  lemma AnswerIsCached(s: State, r: Reader, t: State)
    requires Locking(s) && Next(s, Return(r), t)
    ensures IsInside(s, r) && !IsInside(t, r)
    ensures var id := s.readers[r].id;
            if id in s.cache then (id, s.cache[id]) in t.returned else (id, None) in t.returned
    ensures forall x :: x in t.returned ==> x in s.returned || x.0 == s.readers[r].id
  {
  }

  /** While cache and disk agree, it is what the file of the id says, if the watcher tracks the tile. */
  lemma AnswerIsTheFile(s: State, r: Reader, t: State)
    requires Reachable(s) && InAgreement(s) && Next(s, Return(r), t)
    ensures var id := s.readers[r].id;
            Tracked(s, id) ==> exists answer :: FileSays(s, id, answer) && (id, answer) in t.returned
  {
    AnswerIsCached(s, r, t);
    var id := s.readers[r].id;
    if Tracked(s, id) {
      var answer := if id in s.cache then s.cache[id] else None;
      assert id in s.disk ==> InStep(s, id);
      assert FileSays(s, id, answer);
    }
  }

  /** So every lookup after the end of a scan since whose beginning nothing has changed on disk is
      answered with what the file says. */
  lemma CalmAnswers(states: seq<State>, actions: seq<Action>, j: nat, k: nat, m: nat, r: Reader)
    requires Run(states, actions) && j < k < m < |actions|
    requires actions[j] == BeginScan && actions[k] == EndScan && actions[m] == Return(r)
    requires forall i :: j <= i < m ==> !ChangesDisk(actions[i])
    ensures r in states[m].readers && !states[m].readers[r].Outside?
    ensures var id := states[m].readers[r].id;
            Tracked(states[m], id) ==> exists answer :: FileSays(states[m], id, answer) && (id, answer) in states[m + 1].returned
  {
    Converges(states, actions, j, k, m);
    EveryStateReachable(states, actions, m);
    assert StepAt(states, actions, m);
    AnswerIsTheFile(states[m], r, states[m + 1]);
    AnswerIsCached(states[m], r, states[m + 1]);
  }

  // ----- A run in which a reader is told what a file says.

  ghost function OneFile(id: TileId, x: int): State {
    State(map[id := File(Incidents(x), 0)], 0, Starting, 0, 0, {}, map[], false, false, None, map[1 := Outside], {}, {}, false,
          {(id, x)}, {})
  }

  ghost function AfterScan(id: TileId, x: int): State {
    OneFile(id, x).(phase := Waiting, seen := {id}, stable := {id}, cache := map[id := Some(x)], stored := {(id, x)}, initialized := true)
  }

  /** The states of the run after so many steps. */
  ghost function ServedState(id: TileId, x: int, k: nat): State {
    var s := OneFile(id, x);
    var begun := s.(stable := {id});
    var seen := begun.(seen := {id});
    var done := seen.(cache := map[id := Some(x)], stored := {(id, x)});
    if k == 0 then s
    else if k == 1 then s.(phase := Waiting)
    else if k == 2 then begun.(phase := Phase.Scanning({}, Idle))
    else if k == 3 then seen.(phase := Phase.Scanning({id}, Visited(id)))
    else if k == 4 then seen.(phase := Phase.Scanning({id}, Loading(id)))
    else if k == 5 then seen.(phase := Phase.Scanning({id}, Storing(id, Some(x))))
    else if k == 6 then seen.(phase := Phase.Scanning({id}, Storing(id, Some(x))), cache := map[id := None])
    else if k == 7 then done.(phase := Phase.Scanning({id}, Idle))
    else if k == 8 then done.(phase := Purging({id}))
    else if k == 9 then done.(phase := Purging({}))
    else if k == 10 then AfterScan(id, x)
    else if k == 11 then AfterScan(id, x).(readers := map[1 := Inside(id)], mutex := Some(1))
    else if k == 12 then AfterScan(id, x).(readers := map[1 := AtEntry(id)], mutex := Some(1))
    else AfterScan(id, x).(returned := {(id, Some(x))})
  }

  ghost function ServedActions(id: TileId): seq<Action> {
    [Start({}), BeginScan, Visit(id), ReadTime, ReadContent, InsertEntry, StoreTile, EndFiles, Purge(id), EndScan,
     Enter(1, id), Find(1), Return(1)]
  }

  lemma ServedScan(id: TileId, x: int, k: nat)
    requires k < 6
    ensures Next(ServedState(id, x, k), ServedActions(id)[k], ServedState(id, x, k + 1))
  {
    var s, t := ServedState(id, x, k), ServedState(id, x, k + 1);
    assert k == 0 ==> t.cache == map[];
    assert k == 1 ==> t.stable == s.disk.Keys;
    assert k == 2 ==> s.phase.visited + {id} == {id};
  }

  lemma ServedPurge(id: TileId, x: int, k: nat)
    requires 6 <= k < 10
    ensures Next(ServedState(id, x, k), ServedActions(id)[k], ServedState(id, x, k + 1))
  {
    var s, t := ServedState(id, x, k), ServedState(id, x, k + 1);
    assert k == 6 ==> t.cache == s.cache[id := Some(x)];
    assert k == 7 ==> s.cache.Keys == {id};
    assert k == 8 ==> s.phase.left - {id} == {};
  }

  lemma ServedLookup(id: TileId, x: int, k: nat)
    requires 10 <= k < 13
    ensures Next(ServedState(id, x, k), ServedActions(id)[k], ServedState(id, x, k + 1))
  {
    var s, t := ServedState(id, x, k), ServedState(id, x, k + 1);
    assert k == 10 ==> t.readers == s.readers[1 := Inside(id)];
    assert k == 11 ==> t.readers == s.readers[1 := AtEntry(id)];
    assert k == 12 ==> t.readers == s.readers[1 := Outside];
  }

  /** For any tile there is a run in which its file is stored and a reader is told what it says. */
  lemma AFileIsServed(id: TileId, x: int) returns (states: seq<State>, actions: seq<Action>)
    ensures Run(states, actions) && actions == ServedActions(id)
    ensures states[0].disk == map[id := File(Incidents(x), 0)] && states[|actions|].returned == {(id, Some(x))}
  {
    actions := ServedActions(id);
    states := seq(14, k requires 0 <= k < 14 => ServedState(id, x, k));
    forall i | 0 <= i < |actions|
      ensures StepAt(states, actions, i)
    {
      if i < 6 {
        ServedScan(id, x, i);
      } else if i < 10 {
        ServedPurge(id, x, i);
      } else {
        ServedLookup(id, x, i);
      }
    }
  }
}
