/** Single-flight cache fill: any number of concurrent fetchers, each of which takes the
    lock of its key, looks in the cache again, and only then asks the backend.

    Coroutines interleave at the two points where they really suspend: waiting for a lock
    and waiting for the backend. Everything between is one step. Locks live in a bounded,
    recency-ordered table that drops unused locks when it is over its bound. */
module SingleFlight {
  import opened Prelude
  import opened FileCache

  /** A lock object; two locks made for the same key differ in their serial. */
  datatype Lock = Lock(key: FileKey, serial: nat)

  datatype Phase =
    | Idle
    | Waiting(lock: Lock)
    | Fetching(lock: Lock)
    | Done(result: Bytes)

  /** `keys[i]` is what fetcher `i` reads; `backend` holds the content of every key. */
  datatype System = System(keys: seq<FileKey>, backend: map<FileKey, Bytes>, maxBytes: nat, maxLocks: nat)

  /** `fetches` and `removals` count, per key, backend calls and losses of a cache entry
      (eviction, expiry, invalidation, or a put rejected as too large). */
  datatype State = State(tasks: seq<Phase>, table: seq<Lock>, nextSerial: nat,
                         cached: map<FileKey, Bytes>, fetches: multiset<FileKey>, removals: multiset<FileKey>)

  datatype Action =
    | Start(i: nat)
    | Wake(i: nat)
    | Finish(i: nat, evicted: set<FileKey>)
    | Remove(key: FileKey)

  predicate WellFormed(sys: System) {
    forall k | k in sys.keys :: k in sys.backend
  }

  /** All fetchers are about to start on an empty cache; the lock table may hold unused
      locks of earlier work. */
  ghost predicate IsInit(sys: System, s: State) {
    && s.tasks == seq(|sys.keys|, _ => Idle)
    && OneLockPerKey(s.table) && (forall l | l in s.table :: l.serial < s.nextSerial)
    && s.cached == map[] && s.fetches == multiset{} && s.removals == multiset{}
  }

  ghost predicate OneLockPerKey(table: seq<Lock>) {
    forall i, j | 0 <= i < j < |table| :: table[i].key != table[j].key
  }

  /* ---- locks ---- */

  predicate Uses(p: Phase, lock: Lock) {
    (p.Waiting? || p.Fetching?) && p.lock == lock
  }

  predicate InUse(tasks: seq<Phase>, lock: Lock) {
    exists p | p in tasks :: Uses(p, lock)
  }

  predicate Held(tasks: seq<Phase>, lock: Lock) {
    Fetching(lock) in tasks
  }

  function FindLock(table: seq<Lock>, key: FileKey): (r: Option<Lock>)
    ensures r.Some? ==> r.value in table && r.value.key == key
    ensures r.None? ==> forall l | l in table :: l.key != key
  {
    if table == [] then None
    else if table[0].key == key then Some(table[0])
    else FindLock(table[1..], key)
  }

  /** Drops, oldest first, up to `target` locks that nobody uses. */
  function Evict(table: seq<Lock>, target: nat, tasks: seq<Phase>): (r: seq<Lock>)
    ensures forall l | l in r :: l in table
    ensures forall l | l in table && InUse(tasks, l) :: l in r
  {
    if table == [] || target == 0 then table
    else if InUse(tasks, table[0]) then [table[0]] + Evict(table[1..], target, tasks)
    else Evict(table[1..], target - 1, tasks)
  }

  function MoveToEnd(table: seq<Lock>, lock: Lock): (r: seq<Lock>)
    ensures forall l :: l in r <==> l in table || l == lock
  {
    Without(table, lock) + [lock]
  }

  /** The lock a caller gets for its key, and the table afterwards. */
  function GetLock(sys: System, s: State, key: FileKey): (Lock, seq<Lock>) {
    var found := FindLock(s.table, key);
    if found.Some? then (found.value, MoveToEnd(s.table, found.value))
    else
      var lock := Lock(key, s.nextSerial);
      var table := s.table + [lock];
      (lock, if |table| <= sys.maxLocks then table else Evict(table, |table| - sys.maxLocks, s.tasks))
  }

  /* ---- steps ---- */

  /** The lock is acquired: a hit returns at once, a miss goes to the backend. */
  function Enter(sys: System, s: State, i: nat, lock: Lock): State
    requires i < |s.tasks| == |sys.keys|
  {
    var key := sys.keys[i];
    if key in s.cached then s.(tasks := s.tasks[i := Done(s.cached[key])])
    else s.(tasks := s.tasks[i := Fetching(lock)], fetches := s.fetches + multiset{key})
  }

  predicate Enabled(sys: System, s: State, a: Action)
    requires |s.tasks| == |sys.keys|
  {
    match a
    case Start(i) => i < |s.tasks| && s.tasks[i].Idle?
    case Wake(i) => i < |s.tasks| && s.tasks[i].Waiting? && !Held(s.tasks, s.tasks[i].lock)
    case Finish(i, evicted) =>
      i < |s.tasks| && s.tasks[i].Fetching? && evicted <= s.cached.Keys && sys.keys[i] !in evicted
    case Remove(key) => key in s.cached
  }

  function Step(sys: System, s: State, a: Action): (s': State)
    requires WellFormed(sys) && |s.tasks| == |sys.keys| && Enabled(sys, s, a)
    ensures |s'.tasks| == |sys.keys|
  {
    match a
    case Start(i) =>
      var (lock, table) := GetLock(sys, s, sys.keys[i]);
      var s1 := s.(table := table, nextSerial := s.nextSerial + 1);
      if Held(s.tasks, lock) then s1.(tasks := s.tasks[i := Waiting(lock)]) else Enter(sys, s1, i, lock)
    case Wake(i) => Enter(sys, s, i, s.tasks[i].lock)
    case Finish(i, evicted) =>
      var key := sys.keys[i];
      var content := sys.backend[key];
      var s1 := s.(tasks := s.tasks[i := Done(content)]);
      if |content| > sys.maxBytes then
        s1.(cached := s.cached - {key}, removals := s.removals + multiset{key})
      else
        s1.(cached := (s.cached - evicted)[key := content], removals := s.removals + multiset(evicted))
    case Remove(key) =>
      s.(cached := s.cached - {key}, removals := s.removals + multiset{key})
  }

  ghost predicate Next(sys: System, s: State, s': State)
    requires WellFormed(sys) && |s.tasks| == |sys.keys|
    ensures Next(sys, s, s') ==> |s'.tasks| == |sys.keys|
  {
    exists a :: Enabled(sys, s, a) && s' == Step(sys, s, a)
  }

  /** A run: any interleaving of the fetchers' steps and of losses of cache entries. */
  ghost predicate IsRun(sys: System, run: seq<State>)
    requires WellFormed(sys)
  {
    && run != [] && IsInit(sys, run[0])
    && forall i | 0 <= i < |run| - 1 :: IsStep(sys, run[i], run[i + 1])
  }

  ghost predicate IsStep(sys: System, s: State, s': State)
    requires WellFormed(sys)
  {
    |s.tasks| == |sys.keys| && Next(sys, s, s')
  }

  /* ---- when there is room for the locks ---- */

  predicate Shared(sys: System, key: FileKey) {
    exists i, j | 0 <= i < j < |sys.keys| :: sys.keys[i] == key && sys.keys[j] == key
  }

  function OtherKeys(sys: System, key: FileKey): set<FileKey> {
    set k | k in sys.keys && k != key
  }

  /** Whenever two fetchers share a key, all other keys together leave a free slot in the
      lock table. */
  predicate Roomy(sys: System) {
    forall k | k in sys.keys && Shared(sys, k) :: |OtherKeys(sys, k)| < sys.maxLocks
  }

  /* ---- the lock table ---- */

  function Used(table: seq<Lock>, tasks: seq<Phase>): seq<Lock> {
    if table == [] then [] else (if InUse(tasks, table[0]) then [table[0]] else []) + Used(table[1..], tasks)
  }

  /** Eviction stops at some point of the table: before it only the locks in use stay, after it
      all do, and it stops short of the end only when the target is met. */
  lemma {:induction false} EvictDropsOldest(table: seq<Lock>, target: nat, tasks: seq<Phase>) returns (n: nat)
    ensures n <= |table| && Evict(table, target, tasks) == Used(table[..n], tasks) + table[n..]
    ensures |table| - |Evict(table, target, tasks)| <= target
    ensures n < |table| ==> |table| - |Evict(table, target, tasks)| == target
  {
    if table == [] || target == 0 {
      n := 0;
    } else {
      var used := InUse(tasks, table[0]);
      var m := EvictDropsOldest(table[1..], if used then target else target - 1, tasks);
      n := m + 1;
      assert table[..n][0] == table[0] && table[..n][1..] == table[1..][..m] && table[1..][m..] == table[n..];
    }
  }

  lemma {:induction false} EvictKeepsOneLockPerKey(table: seq<Lock>, target: nat, tasks: seq<Phase>)
    requires OneLockPerKey(table)
    ensures OneLockPerKey(Evict(table, target, tasks))
  {
    if table != [] && target != 0 {
      EvictKeepsOneLockPerKey(table[1..], target, tasks);
      EvictKeepsOneLockPerKey(table[1..], target - 1, tasks);
      var rest := Evict(table[1..], target, tasks);
      assert forall j | 0 <= j < |rest| :: rest[j] in rest;
      assert forall l | l in table[1..] :: l.key != table[0].key;
    }
  }

  lemma {:induction false} WithoutKeepsOneLockPerKey(table: seq<Lock>, lock: Lock)
    requires OneLockPerKey(table)
    ensures OneLockPerKey(Without(table, lock))
  {
    if table != [] {
      WithoutKeepsOneLockPerKey(table[1..], lock);
      var rest := Without(table[1..], lock);
      assert forall j | 0 <= j < |rest| :: rest[j] in rest;
      assert forall l | l in table[1..] :: l.key != table[0].key;
    }
  }

  function UsedCount(table: seq<Lock>, tasks: seq<Phase>): nat {
    if table == [] then 0 else (if InUse(tasks, table[0]) then 1 else 0) + UsedCount(table[1..], tasks)
  }

  /** Used locks of distinct keys are at most as many as the keys. */
  lemma {:induction false} UsedCountBound(table: seq<Lock>, tasks: seq<Phase>, keys: set<FileKey>)
    requires OneLockPerKey(table)
    requires forall l | l in table && InUse(tasks, l) :: l.key in keys
    ensures UsedCount(table, tasks) <= |keys|
  {
    if table != [] {
      assert forall l | l in table[1..] :: l.key != table[0].key;
      if InUse(tasks, table[0]) {
        UsedCountBound(table[1..], tasks, keys - {table[0].key});
      } else {
        UsedCountBound(table[1..], tasks, keys);
      }
    }
  }

  /** The newest lock is evicted only if fewer older ones are unused than must go. */
  lemma {:induction false} NewestSurvives(table: seq<Lock>, lock: Lock, target: nat, tasks: seq<Phase>)
    requires target + UsedCount(table, tasks) <= |table|
    ensures lock in Evict(table + [lock], target, tasks)
  {
    if target != 0 {
      assert (table + [lock])[1..] == table[1..] + [lock];
      if InUse(tasks, table[0]) {
        NewestSurvives(table[1..], lock, target, tasks);
      } else {
        NewestSurvives(table[1..], lock, target - 1, tasks);
      }
    }
  }

  /* ---- what every step keeps ---- */

  ghost predicate LocksOk(sys: System, s: State) {
    && |s.tasks| == |sys.keys|
    && OneLockPerKey(s.table) && (forall l | l in s.table :: l.serial < s.nextSerial)
    && (forall i | 0 <= i < |s.tasks| && (s.tasks[i].Waiting? || s.tasks[i].Fetching?) ::
          && s.tasks[i].lock.key == sys.keys[i] && s.tasks[i].lock.serial < s.nextSerial
          && (Shared(sys, sys.keys[i]) ==> s.tasks[i].lock in s.table))
  }

  ghost predicate OneFetcherPerKey(sys: System, s: State)
    requires |s.tasks| == |sys.keys|
  {
    forall i, j | 0 <= i < j < |s.tasks| && s.tasks[i].Fetching? && s.tasks[j].Fetching? :: sys.keys[i] != sys.keys[j]
  }

  ghost predicate ContentOk(sys: System, s: State)
    requires |s.tasks| == |sys.keys|
  {
    && (forall k | k in s.cached :: k in sys.backend && s.cached[k] == sys.backend[k])
    && (forall i | 0 <= i < |s.tasks| && s.tasks[i].Done? ::
          sys.keys[i] in sys.backend && s.tasks[i].result == sys.backend[sys.keys[i]])
  }

  ghost predicate IsBeingFetched(sys: System, s: State, key: FileKey)
    requires |s.tasks| == |sys.keys|
  {
    exists i | 0 <= i < |s.tasks| :: s.tasks[i].Fetching? && sys.keys[i] == key
  }

  ghost predicate IsServed(sys: System, s: State, key: FileKey)
    requires |s.tasks| == |sys.keys|
  {
    exists i | 0 <= i < |s.tasks| :: s.tasks[i].Done? && sys.keys[i] == key
  }

  /** Every backend call but the current one is paid for by a lost cache entry, and nothing
      is served or cached without a call. */
  ghost predicate FetchesOk(sys: System, s: State)
    requires |s.tasks| == |sys.keys|
  {
    && (forall k :: s.fetches[k] <= s.removals[k] + if k in s.cached || IsBeingFetched(sys, s, k) then 1 else 0)
    && (forall k | k in s.cached || IsBeingFetched(sys, s, k) || IsServed(sys, s, k) :: s.fetches[k] >= 1)
  }

  ghost predicate Inv(sys: System, s: State) {
    LocksOk(sys, s) && OneFetcherPerKey(sys, s) && ContentOk(sys, s) && FetchesOk(sys, s)
  }

  lemma UsedLocksOfOthers(sys: System, s: State, key: FileKey, l: Lock)
    requires LocksOk(sys, s) && InUse(s.tasks, l) && l.key != key
    ensures l.key in OtherKeys(sys, key)
  {
    var p :| p in s.tasks && Uses(p, l);
    var i :| 0 <= i < |s.tasks| && s.tasks[i] == p;
    assert sys.keys[i] in sys.keys;
  }

  /** With room, the lock handed out for a shared key is in the table. */
  lemma LockIsInTable(sys: System, s: State, key: FileKey)
    requires Roomy(sys) && LocksOk(sys, s) && key in sys.keys && Shared(sys, key)
    ensures GetLock(sys, s, key).0 in GetLock(sys, s, key).1
  {
    if FindLock(s.table, key).None? {
      var lock := Lock(key, s.nextSerial);
      forall l | l in s.table && InUse(s.tasks, l) ensures l.key in OtherKeys(sys, key) {
        UsedLocksOfOthers(sys, s, key, l);
      }
      UsedCountBound(s.table, s.tasks, OtherKeys(sys, key));
      if |s.table| + 1 > sys.maxLocks { NewestSurvives(s.table, lock, |s.table| + 1 - sys.maxLocks, s.tasks); }
    }
  }

  /** Handing out a lock keeps the table well-formed and every used lock in it. */
  lemma GetLockKeeps(sys: System, s: State, key: FileKey)
    requires LocksOk(sys, s)
    ensures var (lock, table) := GetLock(sys, s, key);
            && lock.key == key && lock.serial <= s.nextSerial && OneLockPerKey(table)
            && (forall l | l in table :: l.serial <= s.nextSerial)
            && (forall l | l in s.table && InUse(s.tasks, l) :: l in table)
  {
    var found := FindLock(s.table, key);
    if found.Some? {
      WithoutKeepsOneLockPerKey(s.table, found.value);
      var rest := Without(s.table, found.value);
      assert forall i | 0 <= i < |rest| :: rest[i] in rest && rest[i].key != key;
    } else {
      var table := s.table + [Lock(key, s.nextSerial)];
      assert OneLockPerKey(table);
      if |table| > sys.maxLocks { EvictKeepsOneLockPerKey(table, |table| - sys.maxLocks, s.tasks); }
    }
  }

  lemma NewTableKeepsInv(sys: System, s: State, key: FileKey)
    requires Inv(sys, s)
    ensures Inv(sys, s.(table := GetLock(sys, s, key).1, nextSerial := s.nextSerial + 1))
  {
    GetLockKeeps(sys, s, key);
    forall i | 0 <= i < |s.tasks| && (s.tasks[i].Waiting? || s.tasks[i].Fetching?) && s.tasks[i].lock in s.table
      ensures s.tasks[i].lock in GetLock(sys, s, key).1
    {
      assert Uses(s.tasks[i], s.tasks[i].lock);
    }
    var s1 := s.(table := GetLock(sys, s, key).1, nextSerial := s.nextSerial + 1);
    assert forall k :: IsBeingFetched(sys, s1, k) <==> IsBeingFetched(sys, s, k);
    assert forall k :: IsServed(sys, s1, k) <==> IsServed(sys, s, k);
  }

  /** A change of one fetcher between phases other than fetching and done. */
  lemma WaitKeepsInv(sys: System, s: State, i: nat, lock: Lock)
    requires Inv(sys, s) && i < |s.tasks| && s.tasks[i].Idle?
    requires lock.key == sys.keys[i] && lock.serial < s.nextSerial && (Shared(sys, sys.keys[i]) ==> lock in s.table)
    ensures Inv(sys, s.(tasks := s.tasks[i := Waiting(lock)]))
  {
    var s1 := s.(tasks := s.tasks[i := Waiting(lock)]);
    assert forall j | 0 <= j < |s.tasks| && j != i :: s1.tasks[j] == s.tasks[j];
    forall k
      ensures IsBeingFetched(sys, s1, k) <==> IsBeingFetched(sys, s, k)
      ensures IsServed(sys, s1, k) <==> IsServed(sys, s, k)
    {
      assert forall j | 0 <= j < |s.tasks| :: s1.tasks[j].Fetching? <==> s.tasks[j].Fetching?;
      assert forall j | 0 <= j < |s.tasks| :: s1.tasks[j].Done? <==> s.tasks[j].Done?;
    }
  }

  /** Nobody else fetches a key whose lock is free. */
  lemma FreeLockMeansNoFetcher(sys: System, s: State, i: nat, lock: Lock)
    requires Inv(sys, s) && i < |s.tasks| && !s.tasks[i].Fetching? && lock.key == sys.keys[i]
    requires !Held(s.tasks, lock) && (Shared(sys, sys.keys[i]) ==> lock in s.table)
    ensures !IsBeingFetched(sys, s, sys.keys[i])
  {
    if IsBeingFetched(sys, s, sys.keys[i]) {
      var j :| 0 <= j < |s.tasks| && s.tasks[j].Fetching? && sys.keys[j] == sys.keys[i];
    }
  }

  /** What entering does to who is being fetched and who has been served. */
  lemma EnterMarks(sys: System, s: State, i: nat, lock: Lock, k: FileKey)
    requires |s.tasks| == |sys.keys| && i < |s.tasks| && (s.tasks[i].Idle? || s.tasks[i].Waiting?)
    ensures var s1, key := Enter(sys, s, i, lock), sys.keys[i];
            && (IsBeingFetched(sys, s1, k) <==> IsBeingFetched(sys, s, k) || (k == key && key !in s.cached))
            && (IsServed(sys, s1, k) <==> IsServed(sys, s, k) || (k == key && key in s.cached))
  {
    var s1 := Enter(sys, s, i, lock);
    assert forall j | 0 <= j < |s.tasks| && j != i :: s1.tasks[j] == s.tasks[j];
    assert s1.tasks[i].Fetching? || s1.tasks[i].Done?;
  }

  lemma EnterKeepsFetches(sys: System, s: State, i: nat, lock: Lock)
    requires Inv(sys, s) && i < |s.tasks| && (s.tasks[i].Idle? || s.tasks[i].Waiting?)
    requires !IsBeingFetched(sys, s, sys.keys[i])
    ensures FetchesOk(sys, Enter(sys, s, i, lock))
  {
    forall k
      ensures IsBeingFetched(sys, Enter(sys, s, i, lock), k) <==>
              IsBeingFetched(sys, s, k) || (k == sys.keys[i] && sys.keys[i] !in s.cached)
      ensures IsServed(sys, Enter(sys, s, i, lock), k) <==>
              IsServed(sys, s, k) || (k == sys.keys[i] && sys.keys[i] in s.cached)
    {
      EnterMarks(sys, s, i, lock, k);
    }
  }

  lemma EnterKeepsLocks(sys: System, s: State, i: nat, lock: Lock)
    requires Inv(sys, s) && i < |s.tasks| && (s.tasks[i].Idle? || s.tasks[i].Waiting?)
    requires lock.key == sys.keys[i] && lock.serial < s.nextSerial && (Shared(sys, sys.keys[i]) ==> lock in s.table)
    requires !IsBeingFetched(sys, s, sys.keys[i])
    ensures LocksOk(sys, Enter(sys, s, i, lock)) && OneFetcherPerKey(sys, Enter(sys, s, i, lock))
    ensures ContentOk(sys, Enter(sys, s, i, lock))
  {
    var s1 := Enter(sys, s, i, lock);
    assert forall j | 0 <= j < |s.tasks| && j != i :: s1.tasks[j] == s.tasks[j];
  }

  lemma EnterKeepsInv(sys: System, s: State, i: nat, lock: Lock)
    requires WellFormed(sys) && Inv(sys, s) && i < |s.tasks| && (s.tasks[i].Idle? || s.tasks[i].Waiting?)
    requires lock.key == sys.keys[i] && lock.serial < s.nextSerial && (Shared(sys, sys.keys[i]) ==> lock in s.table)
    requires !Held(s.tasks, lock)
    ensures Inv(sys, Enter(sys, s, i, lock))
  {
    FreeLockMeansNoFetcher(sys, s, i, lock);
    EnterKeepsFetches(sys, s, i, lock);
    EnterKeepsLocks(sys, s, i, lock);
  }

  lemma FinishMarks(sys: System, s: State, i: nat, evicted: set<FileKey>, k: FileKey)
    requires WellFormed(sys) && Inv(sys, s) && Enabled(sys, s, Finish(i, evicted))
    ensures var s1 := Step(sys, s, Finish(i, evicted));
            && (IsBeingFetched(sys, s1, k) <==> IsBeingFetched(sys, s, k) && k != sys.keys[i])
            && (IsServed(sys, s1, k) <==> IsServed(sys, s, k) || k == sys.keys[i])
  {
    var s1 := Step(sys, s, Finish(i, evicted));
    assert forall j | 0 <= j < |s.tasks| && j != i :: s1.tasks[j] == s.tasks[j];
  }

  lemma FinishKeepsFetches(sys: System, s: State, i: nat, evicted: set<FileKey>)
    requires WellFormed(sys) && Inv(sys, s) && Enabled(sys, s, Finish(i, evicted))
    ensures FetchesOk(sys, Step(sys, s, Finish(i, evicted)))
  {
    var key, s1 := sys.keys[i], Step(sys, s, Finish(i, evicted));
    assert IsBeingFetched(sys, s, key);
    forall k
      ensures IsBeingFetched(sys, s1, k) <==> IsBeingFetched(sys, s, k) && k != key
      ensures IsServed(sys, s1, k) <==> IsServed(sys, s, k) || k == key
    {
      FinishMarks(sys, s, i, evicted, k);
    }
  }

  lemma FinishKeepsLocks(sys: System, s: State, i: nat, evicted: set<FileKey>)
    requires WellFormed(sys) && Inv(sys, s) && Enabled(sys, s, Finish(i, evicted))
    ensures var s1 := Step(sys, s, Finish(i, evicted)); LocksOk(sys, s1) && OneFetcherPerKey(sys, s1)
  {
    var s1 := Step(sys, s, Finish(i, evicted));
    assert forall j | 0 <= j < |s.tasks| && j != i :: s1.tasks[j] == s.tasks[j];
  }

  lemma FinishKeepsInv(sys: System, s: State, i: nat, evicted: set<FileKey>)
    requires WellFormed(sys) && Inv(sys, s) && Enabled(sys, s, Finish(i, evicted))
    ensures Inv(sys, Step(sys, s, Finish(i, evicted)))
  {
    FinishKeepsFetches(sys, s, i, evicted);
    FinishKeepsLocks(sys, s, i, evicted);
    StepKeepsContent(sys, s, Finish(i, evicted));
  }

  lemma RemoveKeepsInv(sys: System, s: State, key: FileKey)
    requires WellFormed(sys) && Inv(sys, s) && Enabled(sys, s, Remove(key))
    ensures Inv(sys, Step(sys, s, Remove(key)))
  {
    var s1 := Step(sys, s, Remove(key));
    assert forall k :: IsBeingFetched(sys, s1, k) <==> IsBeingFetched(sys, s, k);
    assert forall k :: IsServed(sys, s1, k) <==> IsServed(sys, s, k);
  }

  lemma StepKeepsInv(sys: System, s: State, a: Action)
    requires WellFormed(sys) && Roomy(sys) && Inv(sys, s) && Enabled(sys, s, a)
    ensures Inv(sys, Step(sys, s, a))
  {
    match a
    case Start(i) =>
      var key := sys.keys[i];
      assert key in sys.keys;
      var (lock, table) := GetLock(sys, s, key);
      var s1 := s.(table := table, nextSerial := s.nextSerial + 1);
      NewTableKeepsInv(sys, s, key);
      GetLockKeeps(sys, s, key);
      if Shared(sys, key) { LockIsInTable(sys, s, key); }
      if Held(s.tasks, lock) { WaitKeepsInv(sys, s1, i, lock); } else { EnterKeepsInv(sys, s1, i, lock); }
    case Wake(i) => EnterKeepsInv(sys, s, i, s.tasks[i].lock);
    case Finish(i, evicted) => FinishKeepsInv(sys, s, i, evicted);
    case Remove(key) => RemoveKeepsInv(sys, s, key);
  }

  lemma NextKeepsInv(sys: System, s: State, s': State)
    requires WellFormed(sys) && Roomy(sys) && Inv(sys, s) && Next(sys, s, s')
    ensures Inv(sys, s')
  {
    var a :| Enabled(sys, s, a) && s' == Step(sys, s, a);
    StepKeepsInv(sys, s, a);
  }

  lemma InitInv(sys: System, s: State)
    requires IsInit(sys, s)
    ensures Inv(sys, s)
  {
    assert forall i | 0 <= i < |s.tasks| :: s.tasks[i] == Idle;
  }

  lemma {:induction false} RunInv(sys: System, run: seq<State>, i: nat)
    requires WellFormed(sys) && Roomy(sys) && IsRun(sys, run) && i < |run|
    ensures Inv(sys, run[i])
  {
    if i == 0 {
      InitInv(sys, run[0]);
    } else {
      RunInv(sys, run, i - 1);
      assert IsStep(sys, run[i - 1], run[(i - 1) + 1]);
      NextKeepsInv(sys, run[i - 1], run[i]);
    }
  }

  /* ---- results ---- */

  lemma StepKeepsContent(sys: System, s: State, a: Action)
    requires WellFormed(sys) && |s.tasks| == |sys.keys| && ContentOk(sys, s) && Enabled(sys, s, a)
    ensures ContentOk(sys, Step(sys, s, a))
  {
    var s1 := Step(sys, s, a);
    if !a.Remove? {
      assert sys.keys[a.i] in sys.keys;
      assert forall j | 0 <= j < |s.tasks| && j != a.i :: s1.tasks[j] == s.tasks[j];
    }
  }

  /** Every fetcher that returns, returns the backend's content, in every run. */
  lemma {:induction false} ResultsAreBackendContent(sys: System, run: seq<State>, n: nat)
    requires WellFormed(sys) && IsRun(sys, run) && n < |run|
    ensures |run[n].tasks| == |sys.keys| && ContentOk(sys, run[n])
  {
    if n > 0 {
      ResultsAreBackendContent(sys, run, n - 1);
      assert IsStep(sys, run[n - 1], run[(n - 1) + 1]);
      var a :| Enabled(sys, run[n - 1], a) && run[n] == Step(sys, run[n - 1], a);
      StepKeepsContent(sys, run[n - 1], a);
    } else {
      assert forall i | 0 <= i < |run[0].tasks| :: run[0].tasks[i] == Idle;
    }
  }

  /* ---- termination ---- */

  function StepsLeft(p: Phase): nat {
    match p case Idle => 3 case Waiting(_) => 2 case Fetching(_) => 1 case Done(_) => 0
  }

  function Remaining(tasks: seq<Phase>): nat {
    if tasks == [] then 0 else StepsLeft(tasks[0]) + Remaining(tasks[1..])
  }

  lemma {:induction false} RemainingUpdate(tasks: seq<Phase>, i: nat, p: Phase)
    requires i < |tasks|
    ensures Remaining(tasks[i := p]) == Remaining(tasks) - StepsLeft(tasks[i]) + StepsLeft(p)
  {
    if i == 0 {
      assert tasks[0 := p][1..] == tasks[1..];
    } else {
      RemainingUpdate(tasks[1..], i - 1, p);
      assert tasks[i := p][1..] == tasks[1..][i - 1 := p];
    }
  }

  lemma {:induction false} RemainingOfIdle(n: nat)
    ensures Remaining(seq(n, _ => Idle)) == 3 * n
  {
    if n > 0 {
      RemainingOfIdle(n - 1);
      assert seq(n, _ => Idle)[1..] == seq(n - 1, _ => Idle);
    }
  }

  lemma StepMovesOne(sys: System, s: State, a: Action) returns (p: Phase)
    requires WellFormed(sys) && |s.tasks| == |sys.keys| && Enabled(sys, s, a) && !a.Remove?
    ensures a.i < |s.tasks| && Step(sys, s, a).tasks == s.tasks[a.i := p] && StepsLeft(p) < StepsLeft(s.tasks[a.i])
  {
    match a
    case Start(i) =>
      var lock := GetLock(sys, s, sys.keys[i]).0;
      p := if Held(s.tasks, lock) then Waiting(lock)
           else if sys.keys[i] in s.cached then Done(s.cached[sys.keys[i]]) else Fetching(lock);
    case Wake(i) =>
      p := if sys.keys[i] in s.cached then Done(s.cached[sys.keys[i]]) else Fetching(s.tasks[i].lock);
    case Finish(i, _) => p := Done(sys.backend[sys.keys[i]]);
  }

  /** Every step of a fetcher brings it closer to its end; losing a cache entry never sets
      one back. */
  lemma StepsDecrease(sys: System, s: State, a: Action)
    requires WellFormed(sys) && |s.tasks| == |sys.keys| && Enabled(sys, s, a)
    ensures a.Remove? ==> Step(sys, s, a).tasks == s.tasks
    ensures !a.Remove? ==> Remaining(Step(sys, s, a).tasks) < Remaining(s.tasks)
  {
    if !a.Remove? {
      var p := StepMovesOne(sys, s, a);
      RemainingUpdate(s.tasks, a.i, p);
    }
  }

  /** How often the first `n` steps of a run moved a fetcher. */
  ghost function Moves(run: seq<State>, n: nat): nat
    requires n < |run|
  {
    if n == 0 then 0 else Moves(run, n - 1) + if run[n].tasks != run[n - 1].tasks then 1 else 0
  }

  /** However many entries are lost on the way, the fetchers together take at most three
      steps each. */
  lemma {:induction false} MovesAreBounded(sys: System, run: seq<State>, n: nat)
    requires WellFormed(sys) && IsRun(sys, run) && n < |run|
    ensures Moves(run, n) + Remaining(run[n].tasks) <= 3 * |sys.keys|
  {
    if n == 0 {
      RemainingOfIdle(|sys.keys|);
    } else {
      MovesAreBounded(sys, run, n - 1);
      assert IsStep(sys, run[n - 1], run[(n - 1) + 1]);
      var a :| Enabled(sys, run[n - 1], a) && run[n] == Step(sys, run[n - 1], a);
      StepsDecrease(sys, run[n - 1], a);
    }
  }

  /** As long as a fetcher has not returned, some fetcher can move. */
  lemma NoDeadlock(sys: System, s: State, i: nat) returns (a: Action)
    requires WellFormed(sys) && |s.tasks| == |sys.keys| && i < |s.tasks| && !s.tasks[i].Done?
    ensures !a.Remove? && Enabled(sys, s, a)
  {
    match s.tasks[i]
    case Idle => a := Start(i);
    case Fetching(_) => a := Finish(i, {});
    case Waiting(lock) =>
      if Held(s.tasks, lock) {
        var j :| 0 <= j < |s.tasks| && s.tasks[j] == Fetching(lock);
        a := Finish(j, {});
      } else {
        a := Wake(i);
      }
  }

  /* ---- single flight, exactly when there is room ---- */

  ghost predicate CallsBounded(s: State) {
    forall k :: s.fetches[k] <= 1 + s.removals[k]
  }

  ghost predicate SingleFlightHolds(sys: System)
    requires WellFormed(sys)
  {
    forall run, n: nat | IsRun(sys, run) && n < |run| :: CallsBounded(run[n])
  }

  /** With room and no losses, all the fetchers of a key cost one backend call. */
  lemma ExactlyOneCall(sys: System, run: seq<State>, n: nat, i: nat)
    requires WellFormed(sys) && Roomy(sys) && IsRun(sys, run) && n < |run| && |run[n].tasks| == |sys.keys|
    requires i < |run[n].tasks| && run[n].tasks[i].Done? && run[n].removals[sys.keys[i]] == 0
    ensures run[n].fetches[sys.keys[i]] == 1
  {
    RunInv(sys, run, n);
    assert IsServed(sys, run[n], sys.keys[i]);
  }

  /** The first fetchers, each on a key of its own, fill the table with locks in use. */
  ghost predicate Filled(sys: System, s: State, idx: seq<nat>) {
    && |s.tasks| == |sys.keys| && |s.table| == |idx| == s.nextSerial
    && s.cached == map[] && s.removals == multiset{}
    && (forall t | 0 <= t < |idx| :: idx[t] < |sys.keys| && s.table[t] == Lock(sys.keys[idx[t]], t)
          && s.tasks[idx[t]] == Fetching(s.table[t]))
    && (forall i | 0 <= i < |s.tasks| && i !in idx :: s.tasks[i] == Idle)
  }

  predicate OwnKeys(sys: System, idx: seq<nat>, shared: FileKey) {
    && (forall t | 0 <= t < |idx| :: idx[t] < |sys.keys| && sys.keys[idx[t]] != shared)
    && (forall t, u | 0 <= t < u < |idx| :: sys.keys[idx[t]] != sys.keys[idx[u]])
  }

  lemma {:induction false} PickIndices(sys: System, shared: FileKey, keys: set<FileKey>, m: nat) returns (idx: seq<nat>)
    requires keys <= OtherKeys(sys, shared) && m <= |keys|
    ensures |idx| == m && OwnKeys(sys, idx, shared) && forall t | 0 <= t < m :: sys.keys[idx[t]] in keys
  {
    if m == 0 { return []; }
    var k :| k in keys;
    var i :| 0 <= i < |sys.keys| && sys.keys[i] == k;
    var rest := PickIndices(sys, shared, keys - {k}, m - 1);
    idx := rest + [i];
  }

  lemma ExtendRun(sys: System, run: seq<State>, a: Action)
    requires WellFormed(sys) && IsRun(sys, run) && |run[|run| - 1].tasks| == |sys.keys| && Enabled(sys, run[|run| - 1], a)
    ensures IsRun(sys, run + [Step(sys, run[|run| - 1], a)])
  {
    var s := run[|run| - 1];
    assert IsStep(sys, s, Step(sys, s, a));
  }

  lemma FillOneMore(sys: System, s: State, idx: seq<nat>, i: nat, shared: FileKey)
    requires WellFormed(sys) && OwnKeys(sys, idx + [i], shared) && |idx| < sys.maxLocks && Filled(sys, s, idx)
    ensures Enabled(sys, s, Start(i)) && Filled(sys, Step(sys, s, Start(i)), idx + [i])
  {
    assert (idx + [i])[|idx|] == i;
    forall t | 0 <= t < |idx| ensures s.table[t].key != sys.keys[i] && idx[t] != i {
      assert (idx + [i])[t] == idx[t];
    }
    var lock := Lock(sys.keys[i], s.nextSerial);
    assert FindLock(s.table, sys.keys[i]) == None;
    assert !Held(s.tasks, lock);
    var s1 := Step(sys, s, Start(i));
    assert s1.tasks == s.tasks[i := Fetching(lock)] && s1.table == s.table + [lock];
  }

  lemma {:induction false} FillTable(sys: System, idx: seq<nat>, shared: FileKey) returns (run: seq<State>)
    requires WellFormed(sys) && OwnKeys(sys, idx, shared) && |idx| <= sys.maxLocks
    ensures IsRun(sys, run) && Filled(sys, run[|run| - 1], idx)
  {
    if idx == [] {
      run := [State(seq(|sys.keys|, _ => Idle), [], 0, map[], multiset{}, multiset{})];
    } else {
      var rest, i := idx[..|idx| - 1], idx[|idx| - 1];
      assert idx == rest + [i];
      var before := FillTable(sys, rest, shared);
      FillOneMore(sys, before[|before| - 1], rest, i, shared);
      ExtendRun(sys, before, Start(i));
      run := before + [Step(sys, before[|before| - 1], Start(i))];
    }
  }

  lemma {:induction false} EvictOnlyNewest(table: seq<Lock>, lock: Lock, tasks: seq<Phase>)
    requires (forall l | l in table :: InUse(tasks, l)) && !InUse(tasks, lock)
    ensures Evict(table + [lock], 1, tasks) == table
  {
    if table != [] {
      assert (table + [lock])[1..] == table[1..] + [lock];
      EvictOnlyNewest(table[1..], lock, tasks);
    }
  }

  /** The table is full of locks in use, none of them for the key, and the key is not cached. */
  ghost predicate FullWithout(sys: System, s: State, key: FileKey) {
    && |s.tasks| == |sys.keys| && |s.table| == sys.maxLocks && key !in s.cached
    && (forall l | l in s.table :: InUse(s.tasks, l) && l.key != key)
    && (forall p, l | p in s.tasks && Uses(p, l) :: l.serial < s.nextSerial)
  }

  function WithOrphan(s: State, i: nat, key: FileKey): State
    requires i < |s.tasks|
  {
    s.(tasks := s.tasks[i := Fetching(Lock(key, s.nextSerial))], nextSerial := s.nextSerial + 1,
       fetches := s.fetches + multiset{key})
  }

  /** Then the lock made for the key is dropped at once, and its fetcher goes ahead. */
  lemma OrphanLock(sys: System, s: State, i: nat, key: FileKey)
    requires WellFormed(sys) && FullWithout(sys, s, key)
    requires i < |sys.keys| && sys.keys[i] == key && s.tasks[i].Idle?
    ensures Step(sys, s, Start(i)) == WithOrphan(s, i, key)
  {
    var lock := Lock(key, s.nextSerial);
    assert FindLock(s.table, key) == None;
    assert !InUse(s.tasks, lock);
    EvictOnlyNewest(s.table, lock, s.tasks);
    assert !Held(s.tasks, lock) by { assert Uses(Fetching(lock), lock); }
    assert GetLock(sys, s, key) == (lock, s.table);
  }

  lemma OrphanKeepsFull(sys: System, s: State, i: nat, key: FileKey)
    requires FullWithout(sys, s, key) && i < |s.tasks| && s.tasks[i].Idle?
    ensures FullWithout(sys, WithOrphan(s, i, key), key)
  {
    var s1 := WithOrphan(s, i, key);
    forall l | l in s.table ensures InUse(s1.tasks, l) {
      var p :| p in s.tasks && Uses(p, l);
      var j :| 0 <= j < |s.tasks| && s.tasks[j] == p;
      assert s1.tasks[j] == p;
    }
    forall p, l | p in s1.tasks && Uses(p, l) ensures l.serial < s1.nextSerial {
      var j :| 0 <= j < |s1.tasks| && s1.tasks[j] == p;
      if j != i { assert s.tasks[j] in s.tasks; }
    }
  }

  lemma FilledIsFull(sys: System, s: State, idx: seq<nat>, key: FileKey)
    requires Filled(sys, s, idx) && |idx| == sys.maxLocks && OwnKeys(sys, idx, key)
    ensures FullWithout(sys, s, key)
  {
    forall l | l in s.table ensures InUse(s.tasks, l) && l.key != key {
      var t :| 0 <= t < |s.table| && s.table[t] == l;
      assert Uses(s.tasks[idx[t]], l);
    }
    forall p, l | p in s.tasks && Uses(p, l) ensures l.serial < s.nextSerial {
      var i :| 0 <= i < |s.tasks| && s.tasks[i] == p;
      if i in idx { var t :| 0 <= t < |idx| && idx[t] == i; }
    }
  }

  /** Without room, two fetchers of one key can both call the backend with nothing lost. */
  lemma DoubleFetch(sys: System, key: FileKey) returns (run: seq<State>)
    requires WellFormed(sys) && Shared(sys, key) && |OtherKeys(sys, key)| >= sys.maxLocks
    ensures IsRun(sys, run) && run[|run| - 1].fetches[key] >= 2 && run[|run| - 1].removals[key] == 0
  {
    var i, j :| 0 <= i < j < |sys.keys| && sys.keys[i] == key && sys.keys[j] == key;
    var idx := PickIndices(sys, key, OtherKeys(sys, key), sys.maxLocks);
    run := FillTable(sys, idx, key);
    var s := run[|run| - 1];
    FilledIsFull(sys, s, idx, key);
    assert i !in idx && j !in idx;
    OrphanLock(sys, s, i, key);
    OrphanKeepsFull(sys, s, i, key);
    ExtendRun(sys, run, Start(i));
    run := run + [Step(sys, s, Start(i))];
    var s1 := run[|run| - 1];
    OrphanLock(sys, s1, j, key);
    ExtendRun(sys, run, Start(j));
    run := run + [Step(sys, s1, Start(j))];
  }

  /** Backend calls for a key never exceed one more than its lost cache entries, in every
      run, exactly when the lock table has room. */
  lemma SingleFlightIffRoomy(sys: System)
    requires WellFormed(sys)
    ensures SingleFlightHolds(sys) <==> Roomy(sys)
  {
    if Roomy(sys) {
      forall run, n: nat | IsRun(sys, run) && n < |run| ensures CallsBounded(run[n]) {
        RunInv(sys, run, n);
      }
    } else {
      var key :| key in sys.keys && Shared(sys, key) && |OtherKeys(sys, key)| >= sys.maxLocks;
      var run := DoubleFetch(sys, key);
      assert !CallsBounded(run[|run| - 1]);
    }
  }

  /* ---- the cache behind it ---- */

  /** What a fetcher's put does to the store is a `Finish` step, whatever it evicts. */
  lemma PutIsFinish(sys: System, s: State, store: Store, i: nat, e: Entry) returns (evicted: set<FileKey>)
    requires WellFormed(sys) && |s.tasks| == |sys.keys| && i < |s.tasks| && s.tasks[i].Fetching?
    requires ValidStore(store, sys.maxBytes) && s.cached == ContentsOf(store) && e.content == sys.backend[sys.keys[i]]
    ensures Enabled(sys, s, Finish(i, evicted))
    ensures Step(sys, s, Finish(i, evicted)).cached == ContentsOf(AfterPut(store, sys.keys[i], e, sys.maxBytes))
  {
    evicted := Evicted(store, sys.keys[i], e, sys.maxBytes);
    PutContents(store, sys.keys[i], e, sys.maxBytes);
  }

  /** A lookup or an invalidation leaves the cache alone or loses the key, a `Remove` step. */
  lemma OtherOpsAreRemovals(sys: System, s: State, store: Store, op: Op)
    requires WellFormed(sys) && |s.tasks| == |sys.keys| && ValidStore(store, sys.maxBytes) && s.cached == ContentsOf(store)
    requires !op.PutOp?
    ensures var after := ContentsOf(Apply(store, op, sys.maxBytes));
            || after == s.cached
            || (Enabled(sys, s, Remove(op.key)) && Step(sys, s, Remove(op.key)).cached == after)
  {
    OtherContents(store, op, sys.maxBytes);
  }
}
