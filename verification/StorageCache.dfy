/** Object storage with a remote as the source of truth and the local tree as a bounded read cache. */
module StorageCache {
  import opened Exceptions

  type Key = string
  type Body = string

  /** A local file and its modification time. */
  datatype File = File(body: Body, mod: int)

  /** The local tree, the remote, and the sizes in the metadata table. */
  datatype Store = Store(local: map<Key, File>, remote: map<Key, Body>, meta: map<Key, nat>)

  /** Writes locally, then pushes; if the push fails the local copy goes too and the request fails. Without
      a remote nothing is pushed. */
  function Put(s: Store, enabled: bool, k: Key, body: Body, pushOk: bool, now: int): (Store, bool) {
    if enabled && !pushOk then (s.(local := s.local - {k}), false)
    else
      (Store(s.local[k := File(body, now)], if enabled then s.remote[k := body] else s.remote, s.meta[k := |body|]), true)
  }

  /** Serves the local copy, or pulls one; `mod` is the time a pulled copy gets. */
  function Get(s: Store, enabled: bool, k: Key, pullOk: bool, mod: int, now: int): (Store, Option<Body>) {
    if k in s.local then (s.(local := s.local[k := s.local[k].(mod := now)]), Some(s.local[k].body))
    else if enabled && pullOk && k in s.remote then (s.(local := s.local[k := File(s.remote[k], mod)]), Some(s.remote[k]))
    else (s, None)
  }

  /** An unreachable remote keeps its copy; the request succeeds all the same. */
  function Delete(s: Store, enabled: bool, k: Key, deleteOk: bool): Store {
    Store(s.local - {k}, if enabled && deleteOk then s.remote - {k} else s.remote, s.meta - {k})
  }

  const CACHE_CAP: nat := 1536 * 1024 * 1024

  /** An order in which the pruner may see the files: every file once, oldest first. */
  ghost predicate Sorted(files: seq<Key>, local: map<Key, File>) {
    && (forall k :: k in files <==> k in local)
    && (forall i, j :: 0 <= i < j < |files| ==> files[i] != files[j])
    && (forall i, j :: 0 <= i < j < |files| && files[i] in local && files[j] in local ==> local[files[i]].mod <= local[files[j]].mod)
  }

  /** The loop of the pruner; files in `stuck` cannot be removed. */
  function Evict(local: map<Key, File>, files: seq<Key>, total: int, stuck: set<Key>): map<Key, File> {
    if files == [] || total <= CACHE_CAP then local
    else
      var k := files[0];
      if k in stuck || k !in local then Evict(local, files[1..], total, stuck)
      else Evict(local - {k}, files[1..], total - |local[k].body|, stuck)
  }

  // ----- sizes -----

  ghost function Total(local: map<Key, File>): nat
    decreases |local|
  {
    if local == map[] then 0
    else
      var k :| k in local;
      assert |local - {k}| < |local| by { SmallerWithout(local, k); }
      |local[k].body| + Total(local - {k})
  }

  lemma SmallerWithout(local: map<Key, File>, k: Key)
    requires k in local
    ensures |local - {k}| == |local| - 1
  {
    assert local.Keys == (local - {k}).Keys + {k};
  }

  lemma {:induction false} TotalWithout(local: map<Key, File>, k: Key)
    requires k in local
    ensures Total(local) == |local[k].body| + Total(local - {k})
    decreases |local|
  {
    var first :| first in local && Total(local) == |local[first].body| + Total(local - {first});
    if first != k {
      SmallerWithout(local, first);
      SmallerWithout(local, k);
      TotalWithout(local - {first}, k);
      TotalWithout(local - {k}, first);
      assert local - {first} - {k} == local - {k} - {first};
    }
  }

  // ----- the cache never disagrees with the remote -----

  /** Every local copy equals the remote object, and the metadata describe remote objects. */
  ghost predicate Synced(s: Store) {
    && (forall k :: k in s.local ==> k in s.remote && s.local[k].body == s.remote[k])
    && (forall k :: k in s.meta ==> k in s.remote && s.meta[k] == |s.remote[k]|)
  }

  /** What a read that can reach the remote returns. */
  function Readable(s: Store, k: Key): Option<Body> {
    if k in s.local then Some(s.local[k].body) else if k in s.remote then Some(s.remote[k]) else None
  }

  datatype Event =
    | Stored(k: Key, body: Body, pushOk: bool, now: int)
    | Fetched(k: Key, pullOk: bool, mod: int, now: int)
    | Removed(k: Key, deleteOk: bool)
    | Trimmed(files: seq<Key>, total: int, stuck: set<Key>)

  /** One request to a store with a remote, or without one; without one nothing is pruned. */
  function Step(s: Store, enabled: bool, e: Event): Store {
    match e
    case Stored(k, body, pushOk, now) => Put(s, enabled, k, body, pushOk, now).0
    case Fetched(k, pullOk, mod, now) => Get(s, enabled, k, pullOk, mod, now).0
    case Removed(k, deleteOk) => Delete(s, enabled, k, deleteOk)
    case Trimmed(files, total, stuck) => if enabled then s.(local := Evict(s.local, files, total, stuck)) else s
  }

  /** The same requests served by the remote alone. */
  function RemoteStep(objects: map<Key, Body>, e: Event): map<Key, Body> {
    match e
    case Stored(k, body, pushOk, _) => if pushOk then objects[k := body] else objects
    case Fetched(_, _, _, _) => objects
    case Removed(k, deleteOk) => if deleteOk then objects - {k} else objects
    case Trimmed(_, _, _) => objects
  }

  lemma {:induction false} EvictKeeps(local: map<Key, File>, files: seq<Key>, total: int, stuck: set<Key>)
    ensures forall k :: k in Evict(local, files, total, stuck) ==> k in local && Evict(local, files, total, stuck)[k] == local[k]
    decreases |files|
  {
    if files != [] && total > CACHE_CAP {
      var k := files[0];
      if k in stuck || k !in local { EvictKeeps(local, files[1..], total, stuck); }
      else { EvictKeeps(local - {k}, files[1..], total - |local[k].body|, stuck); }
    }
  }

  lemma StepKeepsSynced(s: Store, e: Event)
    requires Synced(s)
    ensures Synced(Step(s, true, e)) && Step(s, true, e).remote == RemoteStep(s.remote, e)
  {
    hide Evict;
    if e.Trimmed? { EvictKeeps(s.local, e.files, e.total, e.stuck); }
  }

  function Run(s: Store, enabled: bool, events: seq<Event>): Store {
    if events == [] then s else Step(Run(s, enabled, events[..|events| - 1]), enabled, events[|events| - 1])
  }

  function RemoteRun(objects: map<Key, Body>, events: seq<Event>): map<Key, Body> {
    if events == [] then objects else RemoteStep(RemoteRun(objects, events[..|events| - 1]), events[|events| - 1])
  }

  /** From a fully migrated state the cache is invisible: after any run, with any remote calls failing, a
      read returns what a remote that served all requests alone would return, or fails because the remote
      cannot be reached. */
  lemma {:induction false} CacheIsInvisible(s: Store, events: seq<Event>, k: Key, pullOk: bool, mod: int, now: int)
    requires Synced(s)
    ensures var t := Run(s, true, events);
      var objects := RemoteRun(s.remote, events);
      var answer := Get(t, true, k, pullOk, mod, now).1;
      && Synced(t) && t.remote == objects
      && (answer == (if k in objects then Some(objects[k]) else None) || (answer == None && !pullOk && k !in t.local))
  {
    hide Step, RemoteStep;
    if events != [] {
      var n := |events| - 1;
      CacheIsInvisible(s, events[..n], k, pullOk, mod, now);
      StepKeepsSynced(Run(s, true, events[..n]), events[n]);
    }
  }

  /** A failed upload changes nothing that can be read; a successful one changes its own key only. */
  lemma PutIsAllOrNothing(s: Store, k: Key, body: Body, pushOk: bool, now: int, other: Key)
    requires Synced(s)
    ensures var (t, ok) := Put(s, true, k, body, pushOk, now);
      && ok == pushOk
      && Readable(t, other) == (if ok && other == k then Some(body) else Readable(s, other))
      && (other in t.meta <==> other in s.meta || (ok && other == k))
  {
  }

  /** A deleted object is gone if and only if the remote took part: if it was unreachable, and had the
      object, the next read brings it back. */
  lemma DeleteIsFinal(s: Store, k: Key, deleteOk: bool)
    ensures Readable(Delete(s, true, k, deleteOk), k) == None <==> deleteOk || k !in s.remote
    ensures k !in Delete(s, true, k, deleteOk).meta
  {
  }

  /** Pruning changes no read that can reach the remote. */
  lemma PruneIsInvisible(s: Store, files: seq<Key>, total: int, stuck: set<Key>, k: Key)
    requires Synced(s)
    ensures Readable(s.(local := Evict(s.local, files, total, stuck)), k) == Readable(s, k)
  {
    EvictKeeps(s.local, files, total, stuck);
    hide Evict;
  }

  // ----- without a remote -----

  /** The same requests served by one plain map. */
  function PlainStep(objects: map<Key, Body>, e: Event): map<Key, Body> {
    match e
    case Stored(k, body, _, _) => objects[k := body]
    case Fetched(_, _, _, _) => objects
    case Removed(k, _) => objects - {k}
    case Trimmed(_, _, _) => objects
  }

  function PlainRun(objects: map<Key, Body>, events: seq<Event>): map<Key, Body> {
    if events == [] then objects else PlainStep(PlainRun(objects, events[..|events| - 1]), events[|events| - 1])
  }

  /** The local tree holds exactly these objects. */
  ghost predicate Holds(s: Store, objects: map<Key, Body>) {
    && (forall k :: k in s.local <==> k in objects)
    && (forall k :: k in s.local && k in objects ==> s.local[k].body == objects[k])
  }

  /** A store without a remote is a plain map: every upload succeeds, every read returns what was stored
      last, nothing is ever pruned, and what a remote may still hold is neither read nor written. */
  lemma {:induction false} LocalOnlyIsPlain(s: Store, objects: map<Key, Body>, events: seq<Event>, k: Key, ok: bool, mod: int, now: int,
                                            body: Body)
    requires Holds(s, objects)
    ensures var t := Run(s, false, events);
      var plain := PlainRun(objects, events);
      && Holds(t, plain) && t.remote == s.remote
      && Get(t, false, k, ok, mod, now).1 == (if k in plain then Some(plain[k]) else None)
      && Put(t, false, k, body, ok, now).1
  {
    if events != [] {
      var n := |events| - 1;
      LocalOnlyIsPlain(s, objects, events[..n], k, ok, mod, now, body);
      hide Run, PlainRun;
      PlainKeepsHolds(Run(s, false, events[..n]), PlainRun(objects, events[..n]), events[n]);
      RunsSnoc(s, objects, events, n);
    }
  }

  lemma RunsSnoc(s: Store, objects: map<Key, Body>, events: seq<Event>, n: nat)
    requires |events| == n + 1
    ensures Run(s, false, events) == Step(Run(s, false, events[..n]), false, events[n])
    ensures PlainRun(objects, events) == PlainStep(PlainRun(objects, events[..n]), events[n])
  {
    hide Step, PlainStep;
  }

  lemma PlainKeepsHolds(s: Store, objects: map<Key, Body>, e: Event)
    requires Holds(s, objects)
    ensures Holds(Step(s, false, e), PlainStep(objects, e)) && Step(s, false, e).remote == s.remote
  {
  }

  // ----- recency -----

  /** Every file carries the time of its last use, which is what the pruner goes by: an upload and a read
      that finds the file stamp it with the time of the request, a pull with the time the copy brings, and
      nothing else touches it. */
  lemma StampedOnUse(s: Store, enabled: bool, e: Event, k: Key)
    requires k in Step(s, enabled, e).local
    ensures Step(s, enabled, e).local[k].mod ==
      if e.Stored? && e.k == k then e.now
      else if e.Fetched? && e.k == k && k in s.local then e.now
      else if e.Fetched? && e.k == k then e.mod
      else if k in s.local then s.local[k].mod else 0
    ensures k in s.local || ((e.Stored? || e.Fetched?) && e.k == k)
  {
    hide Evict;
    if e.Trimmed? { EvictKeeps(s.local, e.files, e.total, e.stuck); }
  }

  // ----- what the pruner removes -----

  /** The files left once the first `n` that can be removed are gone. */
  function Without(local: map<Key, File>, files: seq<Key>, n: nat, stuck: set<Key>): map<Key, File>
    requires n <= |files|
  {
    map k | k in local && (k !in files[..n] || k in stuck) :: local[k]
  }

  lemma WithoutNone(local: map<Key, File>, files: seq<Key>, stuck: set<Key>)
    ensures Without(local, files, 0, stuck) == local
  {
  }

  lemma WithoutOne(local: map<Key, File>, files: seq<Key>, n: nat, stuck: set<Key>)
    requires n < |files| && forall i, j :: 0 <= i < j < |files| ==> files[i] != files[j]
    ensures Without(local, files, n + 1, stuck) ==
      (if files[n] in stuck || files[n] !in local then Without(local, files, n, stuck) else Without(local, files, n, stuck) - {files[n]})
    ensures files[n] in local ==> files[n] in Without(local, files, n, stuck)
  {
    assert files[..n + 1] == files[..n] + [files[n]];
    assert forall i :: 0 <= i < n ==> files[..n][i] == files[i];
  }

  /** Where the pruner stops. */
  ghost predicate StopsAt(local: map<Key, File>, files: seq<Key>, stuck: set<Key>, n: nat)
    requires n <= |files|
  {
    && (Total(Without(local, files, n, stuck)) <= CACHE_CAP || n == |files|)
    && (n > 0 ==> Total(Without(local, files, n - 1, stuck)) > CACHE_CAP)
  }

  /** From the i-th file on, the loop removes the files up to the first point where the rest fits. */
  lemma {:induction false} EvictFrom(local: map<Key, File>, files: seq<Key>, i: nat, stuck: set<Key>) returns (n: nat)
    requires i <= |files| && forall i, j :: 0 <= i < j < |files| ==> files[i] != files[j]
    requires i > 0 ==> Total(Without(local, files, i - 1, stuck)) > CACHE_CAP
    ensures i <= n <= |files| && StopsAt(local, files, stuck, n)
    ensures var here := Without(local, files, i, stuck); Evict(here, files[i..], Total(here), stuck) == Without(local, files, n, stuck)
    decreases |files| - i
  {
    hide Without, Total;
    var here := Without(local, files, i, stuck);
    if i == |files| || Total(here) <= CACHE_CAP {
      n := i;
    } else {
      var k := files[i];
      WithoutOne(local, files, i, stuck);
      WithoutSubset(local, files, i, stuck);
      if k !in stuck && k in here {
        TotalWithout(here, k);
      }
      assert files[i..][1..] == files[i + 1..];
      n := EvictFrom(local, files, i + 1, stuck);
    }
  }

  lemma WithoutSubset(local: map<Key, File>, files: seq<Key>, n: nat, stuck: set<Key>)
    requires n <= |files|
    ensures forall k :: k in Without(local, files, n, stuck) ==> k in local && Without(local, files, n, stuck)[k] == local[k]
  {
  }

  /** When every removal succeeds: the cache ends under its cap of one and a half gibibytes, nothing kept is older than anything
      evicted, and the last file evicted was still one too many. */
  lemma PruneTrimsOldest(local: map<Key, File>, files: seq<Key>) returns (n: nat)
    requires Sorted(files, local)
    ensures n <= |files|
    ensures var kept := Evict(local, files, Total(local), {});
      && kept == Without(local, files, n, {}) && Total(kept) <= 1_610_612_736
      && (forall k, e :: k in kept && e in local && e !in kept ==> local[e].mod <= local[k].mod)
      && (n > 0 ==> Total(Without(local, files, n - 1, {})) > 1_610_612_736)
  {
    WithoutNone(local, files, {});
    assert files[0..] == files;
    n := EvictFrom(local, files, 0, {});
    NothingLeft(local, files);
    KeptAreNewer(local, files, n);
    hide Evict, Total, Without, Sorted;
  }

  lemma NothingLeft(local: map<Key, File>, files: seq<Key>)
    requires Sorted(files, local)
    ensures Total(Without(local, files, |files|, {})) == 0
  {
    assert files[..|files|] == files;
    assert Without(local, files, |files|, {}) == map[];
  }

  lemma KeptAreNewer(local: map<Key, File>, files: seq<Key>, n: nat)
    requires Sorted(files, local) && n <= |files|
    ensures var kept := Without(local, files, n, {});
      forall k, e :: k in kept && e in local && e !in kept ==> local[e].mod <= local[k].mod
  {
    var kept := Without(local, files, n, {});
    assert forall a :: 0 <= a < n ==> files[..n][a] == files[a];
    forall k, e | k in kept && e in local && e !in kept ensures local[e].mod <= local[k].mod {
      assert k in files && e in files[..n];
      var i :| 0 <= i < |files| && files[i] == k;
      var j :| 0 <= j < n && files[..n][j] == e;
    }
  }

  /** When some files cannot be removed the pruner passes them by; it still stops as soon as it can. */
  lemma PruneWithStuckFiles(local: map<Key, File>, files: seq<Key>, stuck: set<Key>) returns (n: nat)
    requires Sorted(files, local)
    ensures n <= |files| && StopsAt(local, files, stuck, n)
    ensures Evict(local, files, Total(local), stuck) == Without(local, files, n, stuck)
  {
    WithoutNone(local, files, stuck);
    assert files[0..] == files;
    n := EvictFrom(local, files, 0, stuck);
  }

  // ----- the handlers -----

  class ObjectStore {
    const enabled: bool
    var local: map<Key, File>
    var remote: map<Key, Body>
    var meta: map<Key, nat>

    ghost function State(): Store
      reads this
    {
      Store(local, remote, meta)
    }

    constructor (withRemote: bool)
      ensures State() == Store(map[], map[], map[]) && enabled == withRemote
    {
      enabled := withRemote;
      local, remote, meta := map[], map[], map[];
    }

    method Push(k: Key, pushOk: bool) returns (ok: bool)
      requires k in local
      modifies this`remote
      ensures ok <==> !enabled || pushOk
      ensures remote == if enabled && pushOk then old(remote)[k := local[k].body] else old(remote)
    {
      if !enabled {
        return true;
      }
      if pushOk {
        remote := remote[k := local[k].body];
      }
      return pushOk;
    }

    method EnsureLocal(k: Key, pullOk: bool, mod: int, now: int) returns (present: bool)
      modifies this`local
      ensures State() == Get(old(State()), enabled, k, pullOk, mod, now).0 && present == (k in local)
    {
      if k in local {
        local := local[k := local[k].(mod := now)];
        return true;
      }
      if !enabled {
        return false;
      }
      if !pullOk || k !in remote {
        return false;
      }
      local := local[k := File(remote[k], mod)];
      return true;
    }

    method PutObject(k: Key, body: Body, pushOk: bool, now: int) returns (ok: bool)
      modifies this
      ensures (State(), ok) == Put(old(State()), enabled, k, body, pushOk, now)
    {
      ghost var before := local;
      local := local[k := File(body, now)];
      ok := Push(k, pushOk);
      if !ok {
        local := local - {k};
        assert local == before - {k};
        return;
      }
      meta := meta[k := |body|];
    }

    method GetObject(k: Key, pullOk: bool, mod: int, now: int) returns (r: Option<Body>)
      modifies this
      ensures (State(), r) == Get(old(State()), enabled, k, pullOk, mod, now)
    {
      var present := EnsureLocal(k, pullOk, mod, now);
      if k !in local {
        return None;
      }
      return Some(local[k].body);
    }

    method DeleteObject(k: Key, deleteOk: bool)
      modifies this
      ensures State() == Delete(old(State()), enabled, k, deleteOk)
    {
      local := local - {k};
      if enabled && deleteOk {
        remote := remote - {k};
      }
      meta := meta - {k};
    }

    /** `files` is what walking the tree and sorting by time gave. */
    method PruneCache(files: seq<Key>, stuck: set<Key>)
      requires Sorted(files, local)
      modifies this`local
      ensures local == if enabled then Evict(old(local), files, Total(old(local)), stuck) else old(local)
    {
      hide Total, Without, Sorted, Evict;
      if !enabled {
        return;
      }
      var total := AddSizes(files);
      ghost var before := local;
      ghost var all := total;
      SortedParts(files, local);
      WithoutNone(local, files, stuck);
      if total <= CACHE_CAP {
        EvictDone(local, files, total, stuck);
        return;
      }
      var i := 0;
      assert files[0..] == files;
      while i < |files|
        invariant 0 <= i <= |files| && local == Without(before, files, i, stuck)
        invariant Evict(local, files[i..], total, stuck) == Evict(before, files, all, stuck)
      {
        EvictStep(local, files[i..], total, stuck);
        if total <= CACHE_CAP {
          return;
        }
        var k := files[i];
        assert files[i..][1..] == files[i + 1..];
        WithoutOne(before, files, i, stuck);
        if k !in stuck {
          total := total - |local[k].body|;
          local := local - {k};
        }
        i := i + 1;
      }
      EvictDone(local, files[i..], total, stuck);
    }

    method AddSizes(files: seq<Key>) returns (total: nat)
      requires Sorted(files, local)
      ensures total == Total(local)
    {
      hide Total, Without, Sorted;
      total := 0;
      var i := 0;
      SortedParts(files, local);
      WithoutNone(local, files, {});
      while i < |files|
        invariant 0 <= i <= |files| && total + Total(Without(local, files, i, {})) == Total(local)
      {
        WithoutOne(local, files, i, {});
        WithoutSubset(local, files, i, {});
        TotalWithout(Without(local, files, i, {}), files[i]);
        total := total + |local[files[i]].body|;
        i := i + 1;
      }
      NothingLeft(local, files);
    }
  }

  lemma SortedParts(files: seq<Key>, local: map<Key, File>)
    requires Sorted(files, local)
    ensures forall j :: 0 <= j < |files| ==> files[j] in local
    ensures forall i, j :: 0 <= i < j < |files| ==> files[i] != files[j]
  {
  }

  lemma EvictDone(local: map<Key, File>, files: seq<Key>, total: int, stuck: set<Key>)
    requires files == [] || total <= CACHE_CAP
    ensures Evict(local, files, total, stuck) == local
  {
  }

  lemma EvictStep(local: map<Key, File>, files: seq<Key>, total: int, stuck: set<Key>)
    requires files != []
    ensures Evict(local, files, total, stuck) ==
      if total <= CACHE_CAP then local
      else if files[0] in stuck || files[0] !in local then Evict(local, files[1..], total, stuck)
      else Evict(local - {files[0]}, files[1..], total - |local[files[0]].body|, stuck)
  {
  }
}
