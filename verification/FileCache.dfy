/** The byte-bounded, least-recently-used content cache.

    The class updates its fields in place as the source does; `Put`, `Get` and `Discard`
    on values are its specification, and the theorems about runs are stated on those. */
module FileCache {
  import opened Prelude

  type Bytes = seq<bv8>

  datatype FileKey = FileKey(backendId: string, scopeId: string, path: string, space: string)

  datatype Entry = Entry(content: Bytes, fingerprint: Option<string>, expiresAt: Option<real>)

  /** `order` lists the cached keys from least to most recently used. */
  datatype Store = Store(order: seq<FileKey>, entries: map<FileKey, Entry>)

  /* ---- the recency order ---- */

  function TotalBytes(order: seq<FileKey>, entries: map<FileKey, Entry>): nat
    requires forall k | k in order :: k in entries
  {
    if order == [] then 0 else |entries[order[0]].content| + TotalBytes(order[1..], entries)
  }

  /** Drops the least recently used keys until the rest fits. */
  function Kept(order: seq<FileKey>, entries: map<FileKey, Entry>, maxBytes: nat): (r: seq<FileKey>)
    requires forall k | k in order :: k in entries
    ensures forall k | k in r :: k in order
  {
    if TotalBytes(order, entries) <= maxBytes then order else Kept(order[1..], entries, maxBytes)
  }

  ghost predicate ValidStore(s: Store, maxBytes: nat) {
    && NoRepeats(s.order)
    && (forall k :: k in s.order <==> k in s.entries)
    && TotalBytes(s.order, s.entries) <= maxBytes
  }

  /* ---- the operations as functions of the store ---- */

  function Restrict(entries: map<FileKey, Entry>, keys: seq<FileKey>): (r: map<FileKey, Entry>) {
    map k | k in entries && k in keys :: entries[k]
  }

  function Discard(s: Store, key: FileKey): Store {
    Store(Without(s.order, key), s.entries - {key})
  }

  predicate Expired(e: Entry, now: real) { e.expiresAt.Some? && e.expiresAt.value <= now }

  /** With an expected fingerprint an entry must carry it; without one it must be bounded
      by a time to live. */
  predicate Usable(e: Entry, expected: Option<string>) {
    if expected.Some? then e.fingerprint == expected else e.expiresAt.Some?
  }

  function Lookup(s: Store, key: FileKey, expected: Option<string>, now: real): Option<Bytes> {
    if key in s.entries && !Expired(s.entries[key], now) && Usable(s.entries[key], expected)
    then Some(s.entries[key].content) else None
  }

  function AfterGet(s: Store, key: FileKey, expected: Option<string>, now: real): Store {
    if key !in s.entries then s
    else if Expired(s.entries[key], now) then Discard(s, key)
    else if Usable(s.entries[key], expected) then s.(order := Without(s.order, key) + [key])
    else s
  }

  function MakeEntry(content: Bytes, fingerprint: Option<string>, ttl: Option<int>, now: real): Entry {
    Entry(content, fingerprint, if ttl.None? then None else Some(now + (if ttl.value < 0 then 0 else ttl.value) as real))
  }

  function AfterPut(s: Store, key: FileKey, e: Entry, maxBytes: nat): (r: Store)
    requires forall k | k in s.order :: k in s.entries
  {
    if |e.content| > maxBytes then Discard(s, key)
    else
      var entries := s.entries[key := e];
      var order := Kept(Without(s.order, key) + [key], entries, maxBytes);
      Store(order, Restrict(entries, order))
  }

  /* ---- facts about the order ---- */

  lemma {:induction false} TotalDependsOnKeys(order: seq<FileKey>, a: map<FileKey, Entry>, b: map<FileKey, Entry>)
    requires forall k | k in order :: k in a && k in b && a[k] == b[k]
    ensures TotalBytes(order, a) == TotalBytes(order, b)
  {
    if order != [] { TotalDependsOnKeys(order[1..], a, b); }
  }

  lemma {:induction false} TotalAppend(order: seq<FileKey>, key: FileKey, entries: map<FileKey, Entry>)
    requires key in entries && forall k | k in order :: k in entries
    ensures TotalBytes(order + [key], entries) == TotalBytes(order, entries) + |entries[key].content|
  {
    if order != [] {
      assert (order + [key])[1..] == order[1..] + [key];
      TotalAppend(order[1..], key, entries);
    }
  }

  lemma {:induction false} TotalWithout(order: seq<FileKey>, key: FileKey, entries: map<FileKey, Entry>)
    requires NoRepeats(order) && forall k | k in order :: k in entries
    ensures TotalBytes(order, entries) ==
            TotalBytes(Without(order, key), entries) + if key in order then |entries[key].content| else 0
  {
    if order != [] {
      TotalWithout(order[1..], key, entries);
      if order[0] == key {
        assert key !in order[1..];
        WithoutAbsent(order[1..], key);
        assert Without(order, key) == order[1..];
      } else {
        assert key in order <==> key in order[1..];
        var rest := Without(order[1..], key);
        assert ([order[0]] + rest)[1..] == rest;
      }
    }
  }

  /** Eviction keeps a suffix of the recency order, the longest one that fits. */
  lemma {:induction false} KeptIsLongestFittingSuffix(order: seq<FileKey>, entries: map<FileKey, Entry>, maxBytes: nat) returns (n: nat)
    requires forall k | k in order :: k in entries
    ensures n <= |order| && Kept(order, entries, maxBytes) == order[n..]
    ensures TotalBytes(order[n..], entries) <= maxBytes
    ensures forall m | 0 <= m < n :: TotalBytes(order[m..], entries) > maxBytes
  {
    if TotalBytes(order, entries) <= maxBytes {
      n := 0;
      assert order[0..] == order;
    } else {
      var k := KeptIsLongestFittingSuffix(order[1..], entries, maxBytes);
      n := k + 1;
      assert order[1..][k..] == order[n..];
      forall m | 0 <= m < n ensures TotalBytes(order[m..], entries) > maxBytes {
        if m == 0 { assert order[0..] == order; } else { assert order[1..][m - 1..] == order[m..]; }
      }
    }
  }

  /** A key that was just put is the last in the order and survives the eviction. */
  lemma LastIsKept(order: seq<FileKey>, entries: map<FileKey, Entry>, maxBytes: nat)
    requires order != [] && (forall k | k in order :: k in entries)
    requires |entries[order[|order| - 1]].content| <= maxBytes
    ensures order[|order| - 1] in Kept(order, entries, maxBytes)
  {
    var last := order[|order| - 1];
    var n := KeptIsLongestFittingSuffix(order, entries, maxBytes);
    assert order[|order| - 1..] == [last];
    assert TotalBytes([last], entries) == |entries[last].content|;
    assert n < |order| ==> order[n..][|order| - 1 - n] == last;
  }

  lemma DiscardKeepsValid(s: Store, key: FileKey, maxBytes: nat)
    requires ValidStore(s, maxBytes)
    ensures ValidStore(Discard(s, key), maxBytes)
    ensures TotalBytes(s.order, s.entries) == TotalBytes(Discard(s, key).order, Discard(s, key).entries)
                                             + if key in s.entries then |s.entries[key].content| else 0
  {
    WithoutKeepsNoRepeats(s.order, key);
    TotalWithout(s.order, key, s.entries);
    TotalDependsOnKeys(Without(s.order, key), s.entries, s.entries - {key});
  }

  lemma DiscardAbsent(s: Store, key: FileKey, maxBytes: nat)
    requires ValidStore(s, maxBytes)
    ensures key !in s.entries ==> Discard(s, key) == s
  {
    if key !in s.entries {
      WithoutAbsent(s.order, key);
      assert s.entries - {key} == s.entries;
    }
  }

  lemma TouchKeepsValid(s: Store, key: FileKey, maxBytes: nat)
    requires ValidStore(s, maxBytes) && key in s.entries
    ensures ValidStore(s.(order := Without(s.order, key) + [key]), maxBytes)
    ensures TotalBytes(Without(s.order, key) + [key], s.entries) == TotalBytes(s.order, s.entries)
  {
    WithoutKeepsNoRepeats(s.order, key);
    TotalWithout(s.order, key, s.entries);
    TotalAppend(Without(s.order, key), key, s.entries);
  }

  /** The state in the middle of a put: the new entry is in, nothing evicted yet. */
  lemma PutBeforeEviction(s: Store, key: FileKey, e: Entry, maxBytes: nat)
    requires ValidStore(s, maxBytes)
    ensures var order, entries := Without(s.order, key) + [key], s.entries[key := e];
            && NoRepeats(order) && (forall k :: k in order <==> k in entries)
            && TotalBytes(order, entries) == TotalBytes(s.order, s.entries) + |e.content|
                                             - if key in s.entries then |s.entries[key].content| else 0
  {
    var rest, entries := Without(s.order, key), s.entries[key := e];
    WithoutKeepsNoRepeats(s.order, key);
    TotalWithout(s.order, key, s.entries);
    TotalDependsOnKeys(rest, s.entries, entries);
    TotalAppend(rest, key, entries);
  }

  lemma PutKeepsValid(s: Store, key: FileKey, e: Entry, maxBytes: nat)
    requires ValidStore(s, maxBytes)
    ensures ValidStore(AfterPut(s, key, e, maxBytes), maxBytes)
    ensures |e.content| <= maxBytes ==>
              key in AfterPut(s, key, e, maxBytes).entries && AfterPut(s, key, e, maxBytes).entries[key] == e
  {
    if |e.content| > maxBytes {
      DiscardKeepsValid(s, key, maxBytes);
    } else {
      var entries := s.entries[key := e];
      var order := Without(s.order, key) + [key];
      PutBeforeEviction(s, key, e, maxBytes);
      assert order[|order| - 1] == key;
      LastIsKept(order, entries, maxBytes);
      var n := KeptIsLongestFittingSuffix(order, entries, maxBytes);
      TotalDependsOnKeys(order[n..], entries, Restrict(entries, order[n..]));
    }
  }

  lemma EvictStep(order: seq<FileKey>, entries: map<FileKey, Entry>)
    requires NoRepeats(order) && order != [] && forall k | k in order :: k in entries
    ensures NoRepeats(order[1..]) && Restrict(entries, order) - {order[0]} == Restrict(entries, order[1..])
    ensures Restrict(entries, order)[order[0]] == entries[order[0]]
  {
    assert order[0] !in order[1..] && order == [order[0]] + order[1..];
  }

  /* ---- the class ---- */

  class MemoryFileCache {
    const maxBytes: nat
    var entries: map<FileKey, Entry>
    var order: seq<FileKey>
    var totalBytes: int

    ghost function Contents(): Store reads this { Store(order, entries) }

    ghost predicate Valid() reads this {
      && ValidStore(Contents(), maxBytes)
      && totalBytes == TotalBytes(order, entries)
    }

    constructor (maxBytes: nat)
      ensures Valid() && this.maxBytes == maxBytes && Contents() == Store([], map[])
    {
      this.maxBytes := maxBytes;
      entries, order, totalBytes := map[], [], 0;
    }

    method DiscardLocked(key: FileKey)
      requires Valid()
      modifies this
      ensures Valid() && Contents() == Discard(old(Contents()), key)
    {
      DiscardKeepsValid(Contents(), key, maxBytes);
      DiscardAbsent(Contents(), key, maxBytes);
      if key in entries {
        totalBytes := totalBytes - |entries[key].content|;
        entries, order := entries - {key}, Without(order, key);
      }
    }

    method Get(key: FileKey, expected: Option<string>, now: real) returns (r: Option<Bytes>)
      requires Valid()
      modifies this
      ensures Valid()
      ensures r == Lookup(old(Contents()), key, expected, now)
      ensures r.Some? ==> order != [] && order[|order| - 1] == key
      ensures entries == if key in old(entries) && Expired(old(entries)[key], now) then old(entries) - {key} else old(entries)
      ensures Contents() == AfterGet(old(Contents()), key, expected, now)
    {
      if key !in entries { return None; }
      var entry := entries[key];
      if entry.expiresAt.Some? && entry.expiresAt.value <= now {
        DiscardLocked(key);
        return None;
      }
      if expected.Some? {
        if entry.fingerprint != expected { return None; }
      } else if entry.expiresAt.None? {
        return None;
      }
      TouchKeepsValid(Contents(), key, maxBytes);
      order := Without(order, key) + [key];
      return Some(entry.content);
    }

    method Put(key: FileKey, content: Bytes, fingerprint: Option<string>, ttl: Option<int>, now: real)
      requires Valid()
      modifies this
      ensures Valid()
      ensures Contents() == AfterPut(old(Contents()), key, MakeEntry(content, fingerprint, ttl, now), maxBytes)
    {
      ghost var e := MakeEntry(content, fingerprint, ttl, now);
      PutKeepsValid(Contents(), key, e, maxBytes);
      if |content| > maxBytes {
        DiscardLocked(key);
        return;
      }
      PutBeforeEviction(Contents(), key, e, maxBytes);
      if key in entries { totalBytes := totalBytes - |entries[key].content|; }
      entries := entries[key := MakeEntry(content, fingerprint, ttl, now)];
      order := Without(order, key) + [key];
      totalBytes := totalBytes + |content|;
      EvictUntilUnderCap();
      TotalDependsOnKeys(order, old(entries)[key := e], entries);
    }

    /** Pops the least recently used entry until the total fits the cap. */
    method EvictUntilUnderCap()
      requires NoRepeats(order) && (forall k :: k in order <==> k in entries)
      requires totalBytes == TotalBytes(order, entries)
      modifies this
      ensures order == Kept(old(order), old(entries), maxBytes)
      ensures entries == Restrict(old(entries), order)
      ensures totalBytes == TotalBytes(order, old(entries))
    {
      assert entries == Restrict(entries, order);
      while totalBytes > maxBytes && order != []
        invariant NoRepeats(order) && (forall k | k in order :: k in old(entries))
        invariant entries == Restrict(old(entries), order)
        invariant totalBytes == TotalBytes(order, old(entries))
        invariant Kept(old(order), old(entries), maxBytes) == Kept(order, old(entries), maxBytes)
        decreases |order|
      {
        var oldest := order[0];
        EvictStep(order, old(entries));
        totalBytes := totalBytes - |entries[oldest].content|;
        entries, order := entries - {oldest}, order[1..];
      }
    }

    method Invalidate(key: FileKey)
      requires Valid()
      modifies this
      ensures Valid() && Contents() == Discard(old(Contents()), key)
    {
      DiscardLocked(key);
    }
  }

  /* ---- runs ---- */

  datatype Op =
    | GetOp(key: FileKey, expected: Option<string>, now: real)
    | PutOp(key: FileKey, entry: Entry)
    | InvalidateOp(key: FileKey)

  function Apply(s: Store, op: Op, maxBytes: nat): Store
    requires forall k | k in s.order :: k in s.entries
  {
    match op
    case GetOp(key, expected, now) => AfterGet(s, key, expected, now)
    case PutOp(key, entry) => AfterPut(s, key, entry, maxBytes)
    case InvalidateOp(key) => Discard(s, key)
  }

  ghost function Run(ops: seq<Op>, maxBytes: nat): (s: Store)
    ensures ValidStore(s, maxBytes)
  {
    if ops == [] then Store([], map[])
    else
      var before := Run(ops[..|ops| - 1], maxBytes);
      ApplyKeepsValid(before, ops[|ops| - 1], maxBytes);
      Apply(before, ops[|ops| - 1], maxBytes)
  }

  lemma GetKeepsValid(s: Store, key: FileKey, expected: Option<string>, now: real, maxBytes: nat)
    requires ValidStore(s, maxBytes)
    ensures ValidStore(AfterGet(s, key, expected, now), maxBytes)
  {
    if key in s.entries {
      if Expired(s.entries[key], now) { DiscardKeepsValid(s, key, maxBytes); }
      else if Usable(s.entries[key], expected) { TouchKeepsValid(s, key, maxBytes); }
    }
  }

  lemma ApplyKeepsValid(s: Store, op: Op, maxBytes: nat)
    requires ValidStore(s, maxBytes)
    ensures ValidStore(Apply(s, op, maxBytes), maxBytes)
  {
    match op
    case GetOp(key, expected, now) => GetKeepsValid(s, key, expected, now, maxBytes);
    case PutOp(key, entry) => PutKeepsValid(s, key, entry, maxBytes);
    case InvalidateOp(key) => DiscardKeepsValid(s, key, maxBytes);
  }

  /** The entry of the most recent put of the key, unless the key was invalidated since. */
  function LastWrite(ops: seq<Op>, key: FileKey): Option<Entry> {
    if ops == [] then None
    else
      match ops[|ops| - 1]
      case PutOp(k, entry) => if k == key then Some(entry) else LastWrite(ops[..|ops| - 1], key)
      case InvalidateOp(k) => if k == key then None else LastWrite(ops[..|ops| - 1], key)
      case GetOp(_, _, _) => LastWrite(ops[..|ops| - 1], key)
  }

  /** What is cached is what was last written. */
  lemma {:induction false} CachedIsLastWrite(ops: seq<Op>, maxBytes: nat, key: FileKey)
    requires key in Run(ops, maxBytes).entries
    ensures LastWrite(ops, key) == Some(Run(ops, maxBytes).entries[key])
  {
    if ops != [] {
      var init, op := ops[..|ops| - 1], ops[|ops| - 1];
      if !(op.PutOp? && op.key == key) { CachedIsLastWrite(init, maxBytes, key); }
    }
  }

  /** After any run a hit returns the content of the most recent put of that key, unexpired and
      not invalidated since, and made with the expected fingerprint or, when none is expected,
      with a time to live. */
  lemma HitsAreFresh(ops: seq<Op>, maxBytes: nat, key: FileKey, expected: Option<string>, now: real)
    requires Lookup(Run(ops, maxBytes), key, expected, now).Some?
    ensures LastWrite(ops, key).Some?
    ensures var e := LastWrite(ops, key).value;
            && Lookup(Run(ops, maxBytes), key, expected, now) == Some(e.content)
            && !Expired(e, now) && (if expected.Some? then e.fingerprint == expected else e.expiresAt.Some?)
  {
    CachedIsLastWrite(ops, maxBytes, key);
  }

  /** The operation neither puts nor invalidates the key. */
  predicate Leaves(op: Op, key: FileKey) { op.GetOp? || op.key != key }

  lemma {:induction false} LastWriteStays(ops: seq<Op>, later: seq<Op>, key: FileKey)
    requires forall op | op in later :: Leaves(op, key)
    ensures LastWrite(ops + later, key) == LastWrite(ops, key)
  {
    if later == [] {
      assert ops + later == ops;
    } else {
      var init := later[..|later| - 1];
      LastWriteStays(ops, init, key);
      assert (ops + later)[..|ops + later| - 1] == ops + init && later[|later| - 1] in later;
    }
  }

  /** A put is a hit, in any later run that leaves the key alone and has not lost it, until it
      expires. */
  lemma PutThenHit(ops: seq<Op>, key: FileKey, entry: Entry, later: seq<Op>, maxBytes: nat, now: real)
    requires !Expired(entry, now) && entry.fingerprint.Some? && forall op | op in later :: Leaves(op, key)
    requires key in Run(ops + [PutOp(key, entry)] + later, maxBytes).entries
    ensures Lookup(Run(ops + [PutOp(key, entry)] + later, maxBytes), key, entry.fingerprint, now) == Some(entry.content)
  {
    var put := ops + [PutOp(key, entry)];
    assert put[..|put| - 1] == ops && put[|put| - 1] == PutOp(key, entry);
    LastWriteStays(put, later, key);
    CachedIsLastWrite(put + later, maxBytes, key);
  }

  lemma {:induction false} TotalOfSuffix(order: seq<FileKey>, entries: map<FileKey, Entry>, i: nat)
    requires i <= |order| && forall k | k in order :: k in entries
    ensures TotalBytes(order[i..], entries) <= TotalBytes(order, entries)
  {
    if i == 0 {
      assert order[0..] == order;
    } else {
      TotalOfSuffix(order[1..], entries, i - 1);
      assert order[1..][i - 1..] == order[i..];
    }
  }

  lemma InSuffixIff<T>(s: seq<T>, n: nat, j: nat)
    requires NoRepeats(s) && n <= |s| && j < |s|
    ensures s[j] in s[n..] <==> n <= j
  {
    if n <= j { assert s[n..][j - n] == s[j]; }
  }

  /** A put keeps another key exactly when what was used since that key, the new entry
      included, fits the cap together with it. */
  lemma PutKeepsIff(s: Store, key: FileKey, e: Entry, maxBytes: nat, i: nat)
    requires ValidStore(s, maxBytes) && |e.content| <= maxBytes && i < |s.order| && s.order[i] != key
    ensures var order, entries := Without(s.order, key) + [key], s.entries[key := e];
            forall j | 0 <= j < |order| && order[j] == s.order[i] ::
              s.order[i] in AfterPut(s, key, e, maxBytes).entries <==> TotalBytes(order[j..], entries) <= maxBytes
  {
    var order, entries := Without(s.order, key) + [key], s.entries[key := e];
    PutBeforeEviction(s, key, e, maxBytes);
    var n := KeptIsLongestFittingSuffix(order, entries, maxBytes);
    forall j | 0 <= j < |order| && order[j] == s.order[i]
      ensures s.order[i] in order[n..] <==> TotalBytes(order[j..], entries) <= maxBytes
    {
      InSuffixIff(order, n, j);
      if n <= j {
        TotalOfSuffix(order[n..], entries, j - n);
        assert order[n..][j - n..] == order[j..];
      }
    }
  }

  /* ---- recency ---- */

  /** The number of the last operation, counted from 1, that put the key or was a hit on it; 0
      when there is none. */
  ghost function LastUse(ops: seq<Op>, maxBytes: nat, key: FileKey): (n: nat)
    ensures n <= |ops|
  {
    if ops == [] then 0
    else
      var init, op := ops[..|ops| - 1], ops[|ops| - 1];
      if op.key == key && (op.PutOp? || (op.GetOp? && Lookup(Run(init, maxBytes), key, op.expected, op.now).Some?))
      then |ops| else LastUse(init, maxBytes, key)
  }

  /** The keys stand in strictly increasing order of last use. */
  ghost predicate InOrderOfUse(ops: seq<Op>, maxBytes: nat, order: seq<FileKey>) {
    Increasing(order, Recency(ops, maxBytes))
  }

  ghost function Recency(ops: seq<Op>, maxBytes: nat): FileKey -> int { (key: FileKey) => LastUse(ops, maxBytes, key) }

  lemma WithoutKeepsOrderOfUse(ops: seq<Op>, maxBytes: nat, order: seq<FileKey>, key: FileKey)
    requires InOrderOfUse(ops, maxBytes, order)
    ensures InOrderOfUse(ops, maxBytes, Without(order, key))
  {
    WithoutKeepsIncreasing(order, key, Recency(ops, maxBytes));
  }

  /** An operation that does not use a key leaves its last use. */
  lemma OthersKeepLastUse(ops: seq<Op>, maxBytes: nat, order: seq<FileKey>)
    requires ops != [] && InOrderOfUse(ops[..|ops| - 1], maxBytes, order) && ops[|ops| - 1].key !in order
    ensures InOrderOfUse(ops, maxBytes, order)
    ensures forall k | k in order :: LastUse(ops, maxBytes, k) < |ops|
  {
  }

  /** A used key goes to the end, and what is kept of that is a suffix. */
  lemma UseGoesLast(ops: seq<Op>, maxBytes: nat, rest: seq<FileKey>, n: nat)
    requires ops != [] && InOrderOfUse(ops, maxBytes, rest) && (forall k | k in rest :: LastUse(ops, maxBytes, k) < |ops|)
    requires LastUse(ops, maxBytes, ops[|ops| - 1].key) == |ops| && n <= |rest| + 1
    ensures InOrderOfUse(ops, maxBytes, (rest + [ops[|ops| - 1].key])[n..])
  {
    var order := rest + [ops[|ops| - 1].key];
    assert forall i | 0 <= i < |rest| :: order[i] in rest;
    assert InOrderOfUse(ops, maxBytes, order);
  }

  lemma MissKeepsOrderOfUse(ops: seq<Op>, maxBytes: nat, order: seq<FileKey>)
    requires ops != [] && ops[|ops| - 1].GetOp? && InOrderOfUse(ops[..|ops| - 1], maxBytes, order)
    requires LastUse(ops, maxBytes, ops[|ops| - 1].key) < |ops|
    ensures InOrderOfUse(ops, maxBytes, order)
  {
    var init := ops[..|ops| - 1];
    forall k ensures LastUse(ops, maxBytes, k) == LastUse(init, maxBytes, k) {}
  }

  lemma GetKeepsOrderOfUse(ops: seq<Op>, maxBytes: nat)
    requires ops != [] && ops[|ops| - 1].GetOp? && InOrderOfUse(ops[..|ops| - 1], maxBytes, Run(ops[..|ops| - 1], maxBytes).order)
    ensures InOrderOfUse(ops, maxBytes, Run(ops, maxBytes).order)
  {
    var init, op := ops[..|ops| - 1], ops[|ops| - 1];
    var s, rest := Run(init, maxBytes), Without(Run(init, maxBytes).order, op.key);
    WithoutKeepsOrderOfUse(init, maxBytes, s.order, op.key);
    OthersKeepLastUse(ops, maxBytes, rest);
    if Lookup(s, op.key, op.expected, op.now).Some? {
      UseGoesLast(ops, maxBytes, rest, 0);
      assert (rest + [op.key])[0..] == rest + [op.key];
    } else {
      MissKeepsOrderOfUse(ops, maxBytes, s.order);
    }
  }

  lemma PutKeepsOrderOfUse(ops: seq<Op>, maxBytes: nat)
    requires ops != [] && ops[|ops| - 1].PutOp? && InOrderOfUse(ops[..|ops| - 1], maxBytes, Run(ops[..|ops| - 1], maxBytes).order)
    ensures InOrderOfUse(ops, maxBytes, Run(ops, maxBytes).order)
  {
    var init, op := ops[..|ops| - 1], ops[|ops| - 1];
    var s, rest := Run(init, maxBytes), Without(Run(init, maxBytes).order, op.key);
    WithoutKeepsOrderOfUse(init, maxBytes, s.order, op.key);
    OthersKeepLastUse(ops, maxBytes, rest);
    if |op.entry.content| <= maxBytes {
      PutBeforeEviction(s, op.key, op.entry, maxBytes);
      var n := KeptIsLongestFittingSuffix(rest + [op.key], s.entries[op.key := op.entry], maxBytes);
      UseGoesLast(ops, maxBytes, rest, n);
    }
  }

  /** The store keeps its keys from least to most recently put or hit. */
  lemma {:induction false} OrderIsRecency(ops: seq<Op>, maxBytes: nat)
    ensures InOrderOfUse(ops, maxBytes, Run(ops, maxBytes).order)
  {
    if ops != [] {
      var init, op := ops[..|ops| - 1], ops[|ops| - 1];
      OrderIsRecency(init, maxBytes);
      if op.GetOp? {
        GetKeepsOrderOfUse(ops, maxBytes);
      } else if op.PutOp? {
        PutKeepsOrderOfUse(ops, maxBytes);
      } else {
        var s := Run(init, maxBytes);
        WithoutKeepsOrderOfUse(init, maxBytes, s.order, op.key);
        OthersKeepLastUse(ops, maxBytes, Without(s.order, op.key));
      }
    }
  }

  /** Of two cached keys the one that stands earlier is the one used less recently. */
  lemma EarlierIsLessRecent(ops: seq<Op>, maxBytes: nat, i: nat, j: nat)
    requires i < |Run(ops, maxBytes).order| && j < |Run(ops, maxBytes).order|
    ensures var order := Run(ops, maxBytes).order;
            i < j <==> LastUse(ops, maxBytes, order[i]) < LastUse(ops, maxBytes, order[j])
  {
    OrderIsRecency(ops, maxBytes);
  }

  /** What a suffix of `rest + [x]` lacks stands before what it has. */
  lemma LackingStandBefore<T>(rest: seq<T>, x: T, n: nat, gone: T, kept: T) returns (i: nat, j: nat)
    requires n <= |rest| + 1 && gone in rest && gone !in (rest + [x])[n..] && kept in (rest + [x])[n..] && kept != x
    ensures i < j < |rest| && rest[i] == gone && rest[j] == kept
  {
    var all := rest + [x];
    i :| 0 <= i < |rest| && rest[i] == gone;
    j :| n <= j < |all| && all[j] == kept;
    assert forall m | n <= m < |all| :: all[m] in all[n..];
    assert all[i] == gone;
  }

  /** What a put evicts stands before everything else it keeps. */
  lemma EvictedStandBefore(s: Store, key: FileKey, e: Entry, maxBytes: nat, gone: FileKey, kept: FileKey) returns (i: nat, j: nat)
    requires ValidStore(s, maxBytes) && |e.content| <= maxBytes && gone in Evicted(s, key, e, maxBytes)
    requires kept in AfterPut(s, key, e, maxBytes).entries && kept != key
    ensures i < j < |Without(s.order, key)| && Without(s.order, key)[i] == gone && Without(s.order, key)[j] == kept
  {
    var rest := Without(s.order, key);
    var n := KeptIsLongestFittingSuffix(rest + [key], s.entries[key := e], maxBytes);
    i, j := LackingStandBefore(rest, key, n, gone, kept);
  }

  /** A put evicts only keys used less recently than every other key it keeps. */
  lemma EvictsLeastRecent(ops: seq<Op>, maxBytes: nat, key: FileKey, e: Entry, gone: FileKey, kept: FileKey)
    requires |e.content| <= maxBytes && gone in Evicted(Run(ops, maxBytes), key, e, maxBytes)
    requires kept in AfterPut(Run(ops, maxBytes), key, e, maxBytes).entries && kept != key
    ensures LastUse(ops, maxBytes, gone) < LastUse(ops, maxBytes, kept)
  {
    var s := Run(ops, maxBytes);
    OrderIsRecency(ops, maxBytes);
    WithoutKeepsOrderOfUse(ops, maxBytes, s.order, key);
    var i, j := EvictedStandBefore(s, key, e, maxBytes, gone, kept);
  }

  /** A put is a hit until its time to live has passed: with the fingerprint it was made with,
      or without any when it was made with a time to live. */
  lemma PutLivesFor(ops: seq<Op>, maxBytes: nat, key: FileKey, content: Bytes, fingerprint: Option<string>, ttl: Option<int>, at: real,
                    expected: Option<string>, now: real)
    requires |content| <= maxBytes
    ensures var put := PutOp(key, MakeEntry(content, fingerprint, ttl, at));
            Lookup(Run(ops + [put], maxBytes), key, expected, now) ==
            if && (ttl.Some? ==> now < at + (if ttl.value > 0 then ttl.value else 0) as real)
               && (if expected.Some? then fingerprint == expected else ttl.Some?)
            then Some(content) else None
  {
    var put := PutOp(key, MakeEntry(content, fingerprint, ttl, at));
    assert (ops + [put])[..|ops|] == ops;
    PutKeepsValid(Run(ops, maxBytes), key, put.entry, maxBytes);
  }

  /* ---- contents ---- */

  /** The content of every entry. */
  function ContentsOf(s: Store): map<FileKey, Bytes> {
    map k | k in s.entries :: s.entries[k].content
  }

  function Evicted(s: Store, key: FileKey, e: Entry, maxBytes: nat): set<FileKey>
    requires forall k | k in s.order :: k in s.entries
  {
    s.entries.Keys - AfterPut(s, key, e, maxBytes).entries.Keys - {key}
  }

  /** A put replaces the key's content and drops what it evicts; too large a one only drops the key. */
  lemma PutContents(s: Store, key: FileKey, e: Entry, maxBytes: nat)
    requires ValidStore(s, maxBytes)
    ensures ContentsOf(AfterPut(s, key, e, maxBytes)) ==
            if |e.content| > maxBytes then ContentsOf(s) - {key}
            else (ContentsOf(s) - Evicted(s, key, e, maxBytes))[key := e.content]
    ensures Evicted(s, key, e, maxBytes) <= ContentsOf(s).Keys
  {
    PutKeepsValid(s, key, e, maxBytes);
    if |e.content| <= maxBytes {
      RestrictedContents(s, key, e, AfterPut(s, key, e, maxBytes).order);
    } else {
      DiscardedContents(s, key);
    }
  }

  lemma DiscardedContents(s: Store, key: FileKey)
    ensures ContentsOf(Discard(s, key)) == ContentsOf(s) - {key}
  {
  }

  lemma RestrictedContents(s: Store, key: FileKey, e: Entry, kept: seq<FileKey>)
    requires key in kept
    ensures var after := Store(kept, Restrict(s.entries[key := e], kept));
            ContentsOf(after) == (ContentsOf(s) - (s.entries.Keys - after.entries.Keys - {key}))[key := e.content]
  {
  }

  /** A lookup or an invalidation changes no content or drops the key. */
  lemma OtherContents(s: Store, op: Op, maxBytes: nat)
    requires ValidStore(s, maxBytes) && !op.PutOp?
    ensures var after := ContentsOf(Apply(s, op, maxBytes));
            after == ContentsOf(s) || (op.key in ContentsOf(s) && after == ContentsOf(s) - {op.key})
  {
    DiscardedContents(s, op.key);
    if op.key !in s.entries { assert ContentsOf(s) - {op.key} == ContentsOf(s); }
  }
}
