/** MemoryStore: mappings with a time to live, under any interleaving of threads. */
module Store {
  import opened ByteText
  import opened Restore

  datatype Entry = Entry(mapping: Mapping, expiresAt: int)
  type Sessions = map<Bytes, Entry>

  datatype Error = TTLNotPositive | NoRandomness | NotFound | Expired
  datatype Result<T> = Ok(value: T) | Err(error: Error)
  datatype Option<T> = None | Some(value: T)

  // ---------- what the critical sections do ----------

  function Read(sessions: Sessions, id: Bytes, now: int): Result<Mapping> {
    if id !in sessions then Err(NotFound)
    else if now < sessions[id].expiresAt then Ok(sessions[id].mapping)
    else Err(Expired)
  }

  /** The entry under id is looked up again: it need not be the one whose expiry was noticed. */
  function Cleaned(sessions: Sessions, id: Bytes, now: int): Sessions {
    if id in sessions && sessions[id].expiresAt <= now then sessions - {id} else sessions
  }

  method CloneMapping(mapping: Mapping) returns (out: Mapping)
    ensures out == mapping
  {
    out := map[];
    var keys := mapping.Keys;
    while keys != {}
      invariant keys <= mapping.Keys && out.Keys == mapping.Keys - keys
      invariant forall k | k in out :: out[k] == mapping[k]
      decreases |keys|
    {
      var k :| k in keys;
      out := out[k := mapping[k]];
      keys := keys - {k};
    }
  }

  class MemoryStore {
    var sessions: Sessions

    constructor ()
      ensures sessions == map[]
    {
      sessions := map[];
    }

    /** The id is random; drawing it can fail. The clock is read before the lock is taken. */
    method Save(mapping: Mapping, ttl: int, random: Option<Bytes>, now: int) returns (id: Result<Bytes>)
      modifies this
      ensures ttl <= 0 ==> id == Err(TTLNotPositive)
      ensures ttl > 0 && random == None ==> id == Err(NoRandomness)
      ensures ttl > 0 && random.Some? ==> id == Ok(random.value)
      ensures sessions == if id.Ok? then old(sessions)[id.value := Entry(mapping, now + ttl)] else old(sessions)
    {
      if ttl <= 0 {
        return Err(TTLNotPositive);
      }
      match random {
        case None =>
          return Err(NoRandomness);
        case Some(name) =>
          var copy := CloneMapping(mapping);
          SaveInsert(name, Entry(copy, now + ttl));
          return Ok(name);
      }
    }

    method SaveInsert(id: Bytes, entry: Entry)
      modifies this
      ensures sessions == old(sessions)[id := entry]
    {
      sessions := sessions[id := entry];
    }

    /** now is the clock of the read, later that of the cleanup, when nothing comes in between. */
    method Load(id: Bytes, now: int, later: int) returns (mapping: Result<Mapping>)
      modifies this
      ensures mapping == Read(old(sessions), id, now)
      ensures mapping == Err(NotFound) <==> id !in old(sessions)
      ensures mapping == Err(Expired) <==> id in old(sessions) && old(sessions)[id].expiresAt <= now
      ensures mapping.Ok? <==> id in old(sessions) && now < old(sessions)[id].expiresAt
      ensures mapping.Ok? ==> mapping.value == old(sessions)[id].mapping
      ensures sessions == if mapping == Err(Expired) then Cleaned(old(sessions), id, later) else old(sessions)
      ensures forall x :: x in sessions <==>
                && x in old(sessions)
                && !(x == id && old(sessions)[x].expiresAt <= now && old(sessions)[x].expiresAt <= later)
      ensures forall x | x in sessions :: sessions[x] == old(sessions)[x]
    {
      if id !in sessions {
        return Err(NotFound);
      }
      var entry := sessions[id];
      if !(now < entry.expiresAt) {
        LoadCleanup(id, later);
        return Err(Expired);
      }
      var copy := CloneMapping(entry.mapping);
      return Ok(copy);
    }

    method LoadCleanup(id: Bytes, now: int)
      modifies this
      ensures sessions == Cleaned(old(sessions), id, now)
    {
      if id in sessions {
        var current := sessions[id];
        if !(now < current.expiresAt) {
          sessions := sessions - {id};
        }
      }
    }

    method Destroy(id: Bytes) returns (found: Result<()>)
      modifies this
      ensures found == if id in old(sessions) then Ok(()) else Err(NotFound)
      ensures sessions == old(sessions) - {id}
    {
      if id !in sessions {
        assert sessions - {id} == sessions;
        return Err(NotFound);
      }
      sessions := sessions - {id};
      return Ok(());
    }
  }

  // ---------- any number of threads ----------

  /** One critical section (or clock reading) of one thread, at a moment of the clock. */
  datatype Event =
    | SaveClock(thread: nat, now: int, id: Bytes, mapping: Mapping, ttl: int)
    | SaveInsert(thread: nat, now: int)
    | LoadRead(thread: nat, now: int, id: Bytes)
    | LoadCleanup(thread: nat, now: int)
    | Destroy(thread: nat, now: int, id: Bytes)

  /** What a thread between two of its critical sections is about to do. */
  datatype Pending = Saving(id: Bytes, entry: Entry) | Cleaning(id: Bytes)

  datatype State = State(sessions: Sessions, threads: map<nat, Pending>)

  predicate Enabled(s: State, e: Event) {
    match e
    case SaveClock(t, _, _, _, ttl) => t !in s.threads && ttl > 0
    case SaveInsert(t, _) => t in s.threads && s.threads[t].Saving?
    case LoadRead(t, _, _) => t !in s.threads
    case LoadCleanup(t, _) => t in s.threads && s.threads[t].Cleaning?
    case Destroy(t, _, _) => t !in s.threads
  }

  function Next(s: State, e: Event): State
    requires Enabled(s, e)
  {
    match e
    case SaveClock(t, now, id, mapping, ttl) =>
      s.(threads := s.threads[t := Saving(id, Entry(mapping, now + ttl))])
    case SaveInsert(t, _) =>
      State(s.sessions[s.threads[t].id := s.threads[t].entry], s.threads - {t})
    case LoadRead(t, now, id) =>
      if Read(s.sessions, id, now) == Err(Expired) then s.(threads := s.threads[t := Cleaning(id)]) else s
    case LoadCleanup(t, now) =>
      State(Cleaned(s.sessions, s.threads[t].id, now), s.threads - {t})
    case Destroy(_, _, id) =>
      s.(sessions := s.sessions - {id})
  }

  function After(events: seq<Event>, n: nat): State
    requires n <= |events|
  {
    if n == 0 then State(map[], map[])
    else
      var s := After(events, n - 1);
      if Enabled(s, events[n - 1]) then Next(s, events[n - 1]) else s
  }

  /** A run: the critical sections of all threads in some order. */
  ghost predicate Run(events: seq<Event>) {
    forall n | 0 <= n < |events| :: EnabledAt(events, n)
  }

  ghost predicate EnabledAt(events: seq<Event>, n: nat)
    requires n < |events|
  {
    Enabled(After(events, n), events[n])
  }

  lemma AfterStep(events: seq<Event>, n: nat)
    requires Run(events) && 0 < n <= |events|
    ensures Enabled(After(events, n - 1), events[n - 1])
    ensures After(events, n) == Next(After(events, n - 1), events[n - 1])
  {
    assert EnabledAt(events, n - 1);
  }


  ghost predicate Fresh(events: seq<Event>) {
    forall i, j | 0 <= i < j < |events| && events[i].SaveClock? && events[j].SaveClock? :: events[i].id != events[j].id
  }

  /** Event n puts an entry under id. */
  ghost predicate Inserts(events: seq<Event>, n: nat, id: Bytes)
    requires n < |events|
  {
    events[n].SaveInsert? && Saves(events, n, events[n].thread) && After(events, n).threads[events[n].thread].id == id
  }

  /** Thread t is in the middle of a save after n events. */
  ghost predicate Saves(events: seq<Event>, n: nat, t: nat)
    requires n <= |events|
  {
    t in After(events, n).threads && After(events, n).threads[t].Saving?
  }

  /** The entry last saved under id and not destroyed since: a store in which nothing ever expires. */
  ghost function Latest(events: seq<Event>, n: nat, id: Bytes): Option<Entry>
    requires n <= |events|
  {
    if n == 0 then None
    else if Inserts(events, n - 1, id) then Some(After(events, n - 1).threads[events[n - 1].thread].entry)
    else if events[n - 1].Destroy? && events[n - 1].id == id then None
    else Latest(events, n - 1, id)
  }

  /** Event i is a cleanup that found entry under id, expired by its own clock reading; id is not saved again. */
  ghost predicate CleanedAway(events: seq<Event>, i: int, n: nat, id: Bytes, entry: Entry)
    requires n <= |events|
  {
    && 0 <= i < n && events[i].LoadCleanup?
    && events[i].thread in After(events, i).threads && After(events, i).threads[events[i].thread] == Cleaning(id)
    && id in After(events, i).sessions && After(events, i).sessions[id] == entry
    && entry.expiresAt <= events[i].now
    && forall l | i < l < n :: !Inserts(events, l, id)
  }

  ghost predicate WasCleaned(events: seq<Event>, n: nat, id: Bytes, entry: Entry)
    requires n <= |events|
  {
    exists i :: CleanedAway(events, i, n, id, entry)
  }

  /**
   * In every interleaving: an entry in the store is the latest one, and a latest entry is missing if
   * and only if a cleanup of the same id found this very entry expired by the cleanup's own clock
   * reading, after it was saved and with no save of the id since.
   */
  lemma {:induction false} StoreIsLatest(events: seq<Event>, n: nat, id: Bytes)
    requires Run(events) && n <= |events|
    ensures id in After(events, n).sessions ==> Latest(events, n, id) == Some(After(events, n).sessions[id])
    ensures Latest(events, n, id).Some? ==>
      (id !in After(events, n).sessions <==> WasCleaned(events, n, id, Latest(events, n, id).value))
  {
    if n > 0 {
      StoreIsLatest(events, n - 1, id);
      AfterStep(events, n);
      if Latest(events, n, id).Some? {
        MissingStep(events, n, id);
      }
    }
  }

  lemma MissingStep(events: seq<Event>, n: nat, id: Bytes)
    requires Run(events) && 0 < n <= |events| && Latest(events, n, id).Some?
    requires id in After(events, n - 1).sessions ==>
      Latest(events, n - 1, id) == Some(After(events, n - 1).sessions[id])
    requires Latest(events, n - 1, id).Some? ==>
      (id !in After(events, n - 1).sessions <==> WasCleaned(events, n - 1, id, Latest(events, n - 1, id).value))
    ensures id !in After(events, n).sessions <==> WasCleaned(events, n, id, Latest(events, n, id).value)
  {
    var entry := Latest(events, n, id).value;
    AfterStep(events, n);
    if id !in After(events, n).sessions {
      if id in After(events, n - 1).sessions {
        assert CleanedAway(events, n - 1, n, id, entry);
      } else {
        var i :| CleanedAway(events, i, n - 1, id, Latest(events, n - 1, id).value);
        assert CleanedAway(events, i, n, id, entry);
      }
    }
    if i :| CleanedAway(events, i, n, id, entry) {
      if i < n - 1 { StaysAway(events, i + 1, n, id); }
      AfterStep(events, i + 1);
    }
  }

  lemma {:induction false} StaysAway(events: seq<Event>, i: nat, n: nat, id: Bytes)
    requires Run(events) && i <= n <= |events| && id !in After(events, i).sessions
    requires forall l | i <= l < n :: !Inserts(events, l, id)
    ensures id !in After(events, n).sessions
    decreases n
  {
    if i < n {
      StaysAway(events, i, n - 1, id);
      AfterStep(events, n);
      assert !Inserts(events, n - 1, id);
    }
  }

  /** now is not before any of the first n events. */
  ghost predicate Reached(events: seq<Event>, n: nat, now: int)
    requires n <= |events|
  {
    forall i | 0 <= i < n :: events[i].now <= now
  }

  /**
   * With a clock that never goes back, a Load returns a mapping in exactly one case: it is the one of
   * the latest save, not destroyed since, and the clock is strictly before its expiry.
   */
  lemma LoadExactly(events: seq<Event>, n: nat, id: Bytes, now: int, mapping: Mapping)
    requires Run(events) && n <= |events| && Reached(events, n, now)
    ensures Read(After(events, n).sessions, id, now) == Ok(mapping)
       <==> Latest(events, n, id).Some? && Latest(events, n, id).value.mapping == mapping
            && now < Latest(events, n, id).value.expiresAt
  {
    StoreIsLatest(events, n, id);
  }

  // ---------- where entries come from ----------

  /** Event i is where the save that thread t is in the middle of (or finishes) at n read the clock. */
  ghost predicate Began(events: seq<Event>, i: int, n: int, t: nat, id: Bytes, entry: Entry)
    requires n <= |events|
  {
    && 0 <= i < n && events[i].SaveClock? && events[i].thread == t && events[i].id == id
    && events[i].ttl > 0 && entry == Entry(events[i].mapping, events[i].now + events[i].ttl)
    && forall l | i < l < n :: events[l].thread != t
  }

  lemma {:induction false} SavingBegan(events: seq<Event>, n: nat, t: nat) returns (i: int)
    requires Run(events) && n <= |events|
    requires Saves(events, n, t)
    ensures Began(events, i, n, t, After(events, n).threads[t].id, After(events, n).threads[t].entry)
  {
    AfterStep(events, n);
    if events[n - 1].thread == t {
      i := n - 1;
    } else {
      i := SavingBegan(events, n - 1, t);
    }
  }

  /** The event at which the latest entry was put in the store. */
  lemma {:induction false} LatestInserted(events: seq<Event>, n: nat, id: Bytes) returns (j: nat)
    requires n <= |events| && Latest(events, n, id).Some?
    ensures j < n && Inserts(events, j, id)
    ensures After(events, j).threads[events[j].thread] == Saving(id, Latest(events, n, id).value)
    ensures forall l | j < l < n :: !(events[l].Destroy? && events[l].id == id)
  {
    if Inserts(events, n - 1, id) {
      j := n - 1;
    } else {
      j := LatestInserted(events, n - 1, id);
    }
  }

  /**
   * What a successful Load returns was passed to a Save of the same id that has been finished, has not
   * been destroyed since, and whose time to live has not passed.
   */
  lemma LoadReturnsSaved(events: seq<Event>, n: nat, id: Bytes, now: int, mapping: Mapping) returns (i: nat, j: nat)
    requires Run(events) && n <= |events| && Read(After(events, n).sessions, id, now) == Ok(mapping)
    ensures i < j < n && events[i].SaveClock? && events[i].id == id && events[i].mapping == mapping
    ensures now < events[i].now + events[i].ttl
    ensures Inserts(events, j, id) && events[j].thread == events[i].thread
    ensures forall l | j < l < n :: !(events[l].Destroy? && events[l].id == id)
  {
    StoreIsLatest(events, n, id);
    j := LatestInserted(events, n, id);
    i := SavingBegan(events, j, events[j].thread);
  }

  lemma InsertedOnce(events: seq<Event>, j: nat, l: nat, id: Bytes)
    requires Run(events) && Fresh(events) && j < l < |events|
    ensures !(Inserts(events, j, id) && Inserts(events, l, id))
  {
    if Inserts(events, j, id) && Inserts(events, l, id) {
      var i := SavingBegan(events, j, events[j].thread);
      var i' := SavingBegan(events, l, events[l].thread);
      assert false;
    }
  }

  lemma {:induction false} LatestWithoutInsert(events: seq<Event>, n: nat, l: nat, id: Bytes)
    requires n <= l <= |events|
    requires forall j | n <= j < l :: !Inserts(events, j, id)
    ensures Latest(events, l, id) == Latest(events, n, id) || Latest(events, l, id) == None
    ensures forall j | n <= j < l && events[j].Destroy? && events[j].id == id :: Latest(events, l, id) == None
    decreases l
  {
    if n < l { LatestWithoutInsert(events, n, l - 1, id); }
  }

  /**
   * With fresh ids and a clock that never goes back, a session that was found expired, or destroyed,
   * is gone: no Load succeeds at any later moment, whatever other threads do in between.
   */
  lemma GoneForGood(events: seq<Event>, n: nat, l: nat, id: Bytes, now: int)
    requires Run(events) && Fresh(events) && n < l <= |events| && Reached(events, l, now)
    requires id in After(events, n).sessions
    requires || (events[n].Destroy? && events[n].id == id)
             || (events[n].LoadRead? && events[n].id == id
                 && Read(After(events, n).sessions, id, events[n].now) == Err(Expired))
    ensures !Read(After(events, l).sessions, id, now).Ok?
  {
    StoreIsLatest(events, n, id);
    var j := LatestInserted(events, n, id);
    forall x | n <= x < l ensures !Inserts(events, x, id) { InsertedOnce(events, j, x, id); }
    LatestWithoutInsert(events, n, l, id);
    StoreIsLatest(events, l, id);
  }
}
