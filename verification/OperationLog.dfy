/** The operation log's sequence numbers, and the removal of duplicate rows before a unique
    constraint is added: by window function, by least row id, and by self-join. */
module OperationLog {
  import opened Prelude

  /** A row: its primary key, its position in the table, its creation time, and the value that
      is to become unique. Primary keys stand for their rank in the database's ordering. */
  datatype Row<K> = Row(id: int, rowid: int, createdAt: int, key: Option<K>)

  /** The column that breaks ties, the primary key or the row id. */
  datatype Tie = ById | ByRowid

  function Place<K>(tie: Tie, r: Row<K>): int { if tie.ById? then r.id else r.rowid }

  ghost predicate IsTable<K(!new)>(rows: set<Row<K>>) {
    forall tie, a, b | a in rows && b in rows && Place(tie, a) == Place(tie, b) :: a == b
  }

  /* ---- numbering ---- */

  type LogRow = Row<nat>

  predicate AtOrBefore(a: LogRow, b: LogRow) {
    a.createdAt < b.createdAt || (a.createdAt == b.createdAt && a.id <= b.id)
  }

  /** The number PostgreSQL's backfill gives a row, by creation time and id. */
  function RowNumber(log: set<LogRow>, r: LogRow): nat { |set q | q in log && AtOrBefore(q, r)| }

  /** The number SQLite's backfill gives it, by row id. */
  function RowidCount(log: set<LogRow>, r: LogRow): nat { |set q | q in log && q.rowid <= r.rowid| }

  lemma RowNumberStep(log: set<LogRow>, a: LogRow, b: LogRow)
    requires IsTable(log) && a in log && b in log && a != b && AtOrBefore(a, b)
    ensures RowNumber(log, a) < RowNumber(log, b)
  {
    var upToA, upToB := set q | q in log && AtOrBefore(q, a), set q | q in log && AtOrBefore(q, b);
    assert Place(ById, a) != Place(ById, b);
    assert a in upToA && b in upToB - upToA;
    SubsetSize(upToA, upToB - {b});
  }

  lemma RowidCountStep(log: set<LogRow>, a: LogRow, b: LogRow)
    requires a in log && b in log && a.rowid < b.rowid
    ensures RowidCount(log, a) < RowidCount(log, b)
  {
    var upToA, upToB := set q | q in log && q.rowid <= a.rowid, set q | q in log && q.rowid <= b.rowid;
    assert a in upToA && b in upToB - upToA;
    SubsetSize(upToA, upToB - {b});
  }

  lemma SelfCounted(log: set<LogRow>, a: LogRow)
    requires a in log
    ensures 1 <= RowNumber(log, a) <= |log| && 1 <= RowidCount(log, a) <= |log|
  {
    var byTime, byRowid := set q | q in log && AtOrBefore(q, a), set q | q in log && q.rowid <= a.rowid;
    assert a in byTime && a in byRowid;
    SubsetSize({a}, byTime);
    SubsetSize({a}, byRowid);
    SubsetSize(byTime, log);
    SubsetSize(byRowid, log);
  }

  /** Each numbering follows its own order of the rows. */
  lemma NumbersFollowOrder(log: set<LogRow>, a: LogRow, b: LogRow)
    requires IsTable(log) && a in log && b in log
    ensures RowNumber(log, a) <= RowNumber(log, b) <==> a.createdAt < b.createdAt || (a.createdAt == b.createdAt && a.id <= b.id)
    ensures RowidCount(log, a) <= RowidCount(log, b) <==> a.rowid <= b.rowid
  {
    if a != b {
      assert Place(ByRowid, a) != Place(ByRowid, b);
      if AtOrBefore(a, b) { RowNumberStep(log, a, b); } else { RowNumberStep(log, b, a); }
      if a.rowid < b.rowid { RowidCountStep(log, a, b); } else { RowidCountStep(log, b, a); }
    }
  }

  /** The number a row gets: ById is PostgreSQL's backfill, ByRowid SQLite's. */
  function Number(log: set<LogRow>, tie: Tie, r: LogRow): nat {
    if tie.ById? then RowNumber(log, r) else RowidCount(log, r)
  }

  lemma NumbersAreDistinct(log: set<LogRow>, tie: Tie, a: LogRow, b: LogRow)
    requires IsTable(log) && a in log && b in log && Number(log, tie, a) == Number(log, tie, b)
    ensures a == b
  {
    NumbersFollowOrder(log, a, b);
    NumbersFollowOrder(log, b, a);
    assert Place(tie, a) == Place(tie, b);
  }

  ghost predicate IsTaken(log: set<LogRow>, tie: Tie, k: nat) {
    exists a | a in log :: Number(log, tie, a) == k
  }

  ghost function UpTo(n: nat): (range: set<nat>)
    ensures |range| == n && forall k :: k in range <==> 1 <= k <= n
  {
    if n == 0 then {} else UpTo(n - 1) + {n}
  }

  ghost function NumbersOf(log: set<LogRow>, tie: Tie, some: set<LogRow>): set<nat> {
    set a | a in some :: Number(log, tie, a)
  }

  lemma {:induction false} NumbersOfSize(log: set<LogRow>, tie: Tie, some: set<LogRow>)
    requires IsTable(log) && some <= log
    ensures |NumbersOf(log, tie, some)| == |some|
  {
    if some != {} {
      var a :| a in some;
      NumbersOfSize(log, tie, some - {a});
      assert NumbersOf(log, tie, some) == NumbersOf(log, tie, some - {a}) + {Number(log, tie, a)};
      forall b | b in some - {a} ensures Number(log, tie, b) != Number(log, tie, a) {
        if Number(log, tie, b) == Number(log, tie, a) { NumbersAreDistinct(log, tie, a, b); }
      }
    }
  }

  /** Either backfill numbers the rows 1..n without gaps or repeats. */
  lemma BackfillNumbers(log: set<LogRow>, tie: Tie)
    requires IsTable(log)
    ensures forall a | a in log :: 1 <= Number(log, tie, a) <= |log|
    ensures forall a, b | a in log && b in log && Number(log, tie, a) == Number(log, tie, b) :: a == b
    ensures forall k | 1 <= k <= |log| :: IsTaken(log, tie, k)
  {
    forall a | a in log ensures 1 <= Number(log, tie, a) <= |log| { SelfCounted(log, a); }
    forall a, b | a in log && b in log && Number(log, tie, a) == Number(log, tie, b) ensures a == b {
      NumbersAreDistinct(log, tie, a, b);
    }
    NumbersOfSize(log, tie, log);
    SubsetEquality(NumbersOf(log, tie, log), UpTo(|log|));
    forall k: nat | 1 <= k <= |log| ensures IsTaken(log, tie, k) {
      assert k in NumbersOf(log, tie, log);
    }
  }

  ghost predicate OrdersAgree(log: set<LogRow>) {
    forall a, b | a in log && b in log :: AtOrBefore(a, b) <==> a.rowid <= b.rowid
  }

  /** The two dialects give every row the same number exactly when rows were inserted in order
      of creation time and id. */
  lemma DialectsAgree(log: set<LogRow>)
    requires IsTable(log)
    ensures (forall r | r in log :: RowNumber(log, r) == RowidCount(log, r)) <==> OrdersAgree(log)
  {
    if OrdersAgree(log) {
      forall r | r in log ensures RowNumber(log, r) == RowidCount(log, r) {
        assert (set q | q in log && AtOrBefore(q, r)) == (set q | q in log && q.rowid <= r.rowid);
      }
    } else {
      var a, b :| a in log && b in log && !(AtOrBefore(a, b) <==> a.rowid <= b.rowid);
      NumbersFollowOrder(log, a, b);
    }
  }

  /* ---- removing duplicates ---- */

  /** Null keys are not equal to anything. */
  predicate SameKey<K(==)>(a: Row<K>, b: Row<K>) { a.key.Some? && a.key == b.key }

  /** ROW_NUMBER() OVER (PARTITION BY key ORDER BY the tie-break column). */
  function PartitionNumber<K(==)>(rows: set<Row<K>>, tie: Tie, r: Row<K>): nat {
    |set q | q in rows && SameKey(q, r) && Place(tie, q) <= Place(tie, r)|
  }

  function ByWindow<K(==)>(rows: set<Row<K>>, tie: Tie): set<Row<K>> {
    var doomed := set r | r in rows && r.key.Some? && PartitionNumber(rows, tie, r) > 1 :: Place(tie, r);
    set r | r in rows && Place(tie, r) !in doomed
  }

  predicate IsLeastOfKey<K(==)>(rows: set<Row<K>>, tie: Tie, r: Row<K>) {
    r in rows && r.key.Some? && forall q | q in rows && SameKey(q, r) :: Place(tie, r) <= Place(tie, q)
  }

  function ByLeast<K(==)>(rows: set<Row<K>>, tie: Tie): set<Row<K>> {
    var least := set r | r in rows && IsLeastOfKey(rows, tie, r) :: Place(tie, r);
    set r | r in rows && (r.key.None? || Place(tie, r) in least)
  }

  function BySelfJoin<K(==)>(rows: set<Row<K>>, tie: Tie): set<Row<K>> {
    set r | r in rows && !exists q | q in rows :: SameKey(r, q) && Place(tie, r) > Place(tie, q)
  }

  ghost predicate NoDuplicates<K(!new)>(rows: set<Row<K>>) {
    forall a, b | a in rows && b in rows && SameKey(a, b) :: a == b
  }

  /** Nothing is invented, rows without a key stay, of each key exactly the least row stays,
      and no key is lost. */
  ghost predicate IsDeduplicated<K(!new)>(rows: set<Row<K>>, tie: Tie, kept: set<Row<K>>) {
    && kept <= rows
    && (forall r | r in rows && r.key.None? :: r in kept)
    && (forall r | r in rows && r.key.Some? :: r in kept <==> IsLeastOfKey(rows, tie, r))
    && (forall r | r in rows && r.key.Some? :: exists q :: q in kept && SameKey(q, r))
    && NoDuplicates(kept)
  }

  lemma {:induction false} KeyHasLeast<K(!new)>(rows: set<Row<K>>, tie: Tie, r: Row<K>) returns (least: Row<K>)
    requires r in rows && r.key.Some?
    ensures IsLeastOfKey(rows, tie, least) && SameKey(least, r)
    decreases |rows|
  {
    if q :| q in rows && SameKey(q, r) && Place(tie, q) < Place(tie, r) {
      least := KeyHasLeast(rows - {r}, tie, q);
    } else {
      least := r;
    }
  }

  function Survivors<K(==)>(rows: set<Row<K>>, tie: Tie): set<Row<K>> {
    set r | r in rows && (r.key.None? || IsLeastOfKey(rows, tie, r))
  }

  lemma LeastIsDeduplicated<K(!new)>(rows: set<Row<K>>, tie: Tie, kept: set<Row<K>>)
    requires IsTable(rows) && kept <= rows
    requires forall r | r in rows :: r in kept <==> r.key.None? || IsLeastOfKey(rows, tie, r)
    ensures IsDeduplicated(rows, tie, kept)
  {
    forall r | r in rows && r.key.Some? ensures exists q :: q in kept && SameKey(q, r) {
      var least := KeyHasLeast(rows, tie, r);
      assert least in kept;
    }
    forall a, b | a in kept && b in kept && SameKey(a, b) ensures a == b {
      assert Place(tie, a) == Place(tie, b);
    }
  }

  lemma PartitionNumberIsOne<K(!new)>(rows: set<Row<K>>, tie: Tie, r: Row<K>)
    requires IsTable(rows) && r in rows && r.key.Some?
    ensures PartitionNumber(rows, tie, r) > 1 <==> !IsLeastOfKey(rows, tie, r)
  {
    var upTo := set q | q in rows && SameKey(q, r) && Place(tie, q) <= Place(tie, r);
    assert r in upTo;
    if IsLeastOfKey(rows, tie, r) {
      assert upTo == {r};
    } else {
      var q :| q in rows && SameKey(q, r) && Place(tie, q) < Place(tie, r);
      SubsetSize({q, r}, upTo);
    }
  }

  lemma WindowKeeps<K(!new)>(rows: set<Row<K>>, tie: Tie)
    requires IsTable(rows)
    ensures ByWindow(rows, tie) == Survivors(rows, tie)
  {
    forall r | r in rows ensures r in ByWindow(rows, tie) <==> r in Survivors(rows, tie) {
      if r.key.Some? { PartitionNumberIsOne(rows, tie, r); }
    }
  }

  lemma LeastKeeps<K(!new)>(rows: set<Row<K>>, tie: Tie)
    requires IsTable(rows)
    ensures ByLeast(rows, tie) == Survivors(rows, tie)
  {
    forall r | r in rows ensures r in ByLeast(rows, tie) <==> r in Survivors(rows, tie) {
    }
  }

  lemma SelfJoinKeeps<K(!new)>(rows: set<Row<K>>, tie: Tie)
    ensures BySelfJoin(rows, tie) == Survivors(rows, tie)
  {
    forall r | r in rows ensures r in BySelfJoin(rows, tie) <==> r in Survivors(rows, tie) {
    }
  }

  /** On any table the three deletions keep the same rows, the least of each key. */
  lemma DeletionsAgree<K(!new)>(rows: set<Row<K>>, tie: Tie)
    requires IsTable(rows)
    ensures ByWindow(rows, tie) == ByLeast(rows, tie) == BySelfJoin(rows, tie)
    ensures IsDeduplicated(rows, tie, ByWindow(rows, tie))
  {
    WindowKeeps(rows, tie);
    LeastKeeps(rows, tie);
    SelfJoinKeeps(rows, tie);
    LeastIsDeduplicated(rows, tie, Survivors(rows, tie));
  }

  /** By id no row with the same key has a smaller primary key, by row id none a smaller row id. */
  ghost predicate IsFirstOfKey<K(!new)>(rows: set<Row<K>>, tie: Tie, r: Row<K>) {
    forall q | q in rows && q.key == r.key :: if tie.ById? then r.id <= q.id else r.rowid <= q.rowid
  }

  lemma LeastIsFirst<K(!new)>(rows: set<Row<K>>, tie: Tie, r: Row<K>)
    requires r in rows && r.key.Some?
    ensures IsLeastOfKey(rows, tie, r) <==> IsFirstOfKey(rows, tie, r)
  {
  }

  /** What the deletions keep: the rows without a key and the first of each key. */
  lemma KeepsFirst<K(!new)>(rows: set<Row<K>>, tie: Tie, r: Row<K>)
    requires IsTable(rows) && r in rows
    ensures r in ByWindow(rows, tie) <==> r.key.None? || IsFirstOfKey(rows, tie, r)
  {
    WindowKeeps(rows, tie);
    if r.key.Some? { LeastIsFirst(rows, tie, r); }
  }

  /** A deletion leaves the table alone exactly when no key repeats. */
  lemma UntouchedIffNoDuplicates<K(!new)>(rows: set<Row<K>>, tie: Tie)
    requires IsTable(rows)
    ensures ByWindow(rows, tie) == rows <==> NoDuplicates(rows)
  {
    DeletionsAgree(rows, tie);
    if NoDuplicates(rows) {
      forall r | r in rows ensures r in ByWindow(rows, tie) {
        if r.key.Some? { assert IsLeastOfKey(rows, tie, r); }
      }
    }
  }

  lemma DeletionIsIdempotent<K(!new)>(rows: set<Row<K>>, tie: Tie)
    requires IsTable(rows)
    ensures ByWindow(ByWindow(rows, tie), tie) == ByWindow(rows, tie)
  {
    DeletionsAgree(rows, tie);
    UntouchedIffNoDuplicates(ByWindow(rows, tie), tie);
  }

  /* ---- the migrations ---- */

  function WithNumber(log: set<LogRow>, tie: Tie, r: LogRow): LogRow { r.(key := Some(Number(log, tie, r))) }

  function Numbered(log: set<LogRow>, tie: Tie): set<LogRow> {
    set r | r in log :: WithNumber(log, tie, r)
  }

  lemma NumberedIsTable(log: set<LogRow>, tie: Tie)
    requires IsTable(log)
    ensures IsTable(Numbered(log, tie)) && NoDuplicates(Numbered(log, tie))
  {
    var numbered := Numbered(log, tie);
    forall t: Tie, a: LogRow, b: LogRow | a in numbered && b in numbered && Place(t, a) == Place(t, b) ensures a == b {
      var x :| x in log && a == WithNumber(log, tie, x);
      var y :| y in log && b == WithNumber(log, tie, y);
      assert Place(t, x) == Place(t, y);
    }
    forall a, b | a in numbered && b in numbered && SameKey(a, b) ensures a == b {
      var x :| x in log && a == WithNumber(log, tie, x);
      var y :| y in log && b == WithNumber(log, tie, y);
      NumbersAreDistinct(log, tie, x, y);
    }
  }

  /** After the backfill, whatever the table held, removing duplicate sequence numbers removes
      nothing. */
  lemma BackfilledHasNoDuplicates(log: set<LogRow>, tie: Tie)
    requires IsTable(log)
    ensures ByWindow(Numbered(log, tie), tie) == ByLeast(Numbered(log, tie), tie) == Numbered(log, tie)
  {
    NumberedIsTable(log, tie);
    UntouchedIffNoDuplicates(Numbered(log, tie), tie);
    DeletionsAgree(Numbered(log, tie), tie);
  }

  predicate ComesBefore(tie: Tie, a: LogRow, b: LogRow) {
    if tie.ById? then a.createdAt < b.createdAt || (a.createdAt == b.createdAt && a.id <= b.id) else a.rowid <= b.rowid
  }

  predicate IsSameRow(a: LogRow, b: LogRow) { a.id == b.id && a.rowid == b.rowid && a.createdAt == b.createdAt }

  ghost predicate IsKey(log: set<LogRow>, k: nat) { exists r | r in log :: r.key == Some(k) }

  predicate InOrder(tie: Tie, a: LogRow, b: LogRow) {
    a.key.Some? && b.key.Some? && (a.key.value <= b.key.value <==> ComesBefore(tie, a, b))
  }

  /** The same rows but for their numbers. */
  ghost predicate HasSameRows(before: set<LogRow>, after: set<LogRow>) {
    && |after| == |before|
    && (forall r | r in after :: exists q | q in before :: IsSameRow(q, r))
    && (forall q | q in before :: exists r | r in after :: IsSameRow(q, r))
  }

  /** The numbers are 1..n in the dialect's order. */
  ghost predicate IsNumberedInOrder(log: set<LogRow>, tie: Tie) {
    && (forall r | r in log :: r.key.Some? && 1 <= r.key.value <= |log|)
    && (forall k | 1 <= k <= |log| :: IsKey(log, k))
    && (forall a, b | a in log && b in log :: InOrder(tie, a, b))
  }

  lemma {:induction false} NumberedSize(log: set<LogRow>, tie: Tie, some: set<LogRow>)
    requires IsTable(log) && some <= log
    ensures |set r | r in some :: WithNumber(log, tie, r)| == |some|
  {
    if some != {} {
      var a :| a in some;
      var rest := some - {a};
      NumberedSize(log, tie, rest);
      forall b | b in rest ensures WithNumber(log, tie, b) != WithNumber(log, tie, a) {
        assert Place(ById, a) != Place(ById, b);
      }
      assert (set r | r in some :: WithNumber(log, tie, r)) ==
             (set r | r in rest :: WithNumber(log, tie, r)) + {WithNumber(log, tie, a)};
    }
  }

  lemma NumberedHasSameRows(log: set<LogRow>, tie: Tie)
    requires IsTable(log)
    ensures HasSameRows(log, Numbered(log, tie))
  {
    NumberedSize(log, tie, log);
    assert forall q | q in log :: WithNumber(log, tie, q) in Numbered(log, tie) && IsSameRow(q, WithNumber(log, tie, q));
  }

  lemma NumberIsKey(log: set<LogRow>, tie: Tie, k: nat)
    requires IsTaken(log, tie, k)
    ensures IsKey(Numbered(log, tie), k)
  {
    var q :| q in log && Number(log, tie, q) == k;
    assert WithNumber(log, tie, q) in Numbered(log, tie);
  }

  lemma NumberedPairInOrder(log: set<LogRow>, tie: Tie, a: LogRow, b: LogRow)
    requires IsTable(log) && a in Numbered(log, tie) && b in Numbered(log, tie)
    ensures InOrder(tie, a, b)
  {
    var x :| x in log && a == WithNumber(log, tie, x);
    var y :| y in log && b == WithNumber(log, tie, y);
    NumbersFollowOrder(log, x, y);
  }

  lemma NumberedIsInOrder(log: set<LogRow>, tie: Tie)
    requires IsTable(log)
    ensures IsNumberedInOrder(Numbered(log, tie), tie)
  {
    var after := Numbered(log, tie);
    NumberedSize(log, tie, log);
    BackfillNumbers(log, tie);
    forall k: nat | 1 <= k <= |after| ensures IsKey(after, k) {
      NumberIsKey(log, tie, k);
    }
    forall a, b | a in after && b in after ensures InOrder(tie, a, b) {
      NumberedPairInOrder(log, tie, a, b);
    }
    forall r | r in after ensures r.key.Some? && 1 <= r.key.value <= |log| {
      var x :| x in log && r == WithNumber(log, tie, x);
    }
  }

  /** The log under its two migrations; `tie` is ById on PostgreSQL and ByRowid on SQLite. */
  class LogTable {
    var rows: set<LogRow>

    constructor (log: set<LogRow>)
      ensures rows == log
    {
      rows := log;
    }

    method AddSequenceNumbers(tie: Tie)
      requires IsTable(rows)
      modifies this
      ensures IsTable(rows) && NoDuplicates(rows) && HasSameRows(old(rows), rows) && IsNumberedInOrder(rows, tie)
    {
      var log := rows;
      NumberedIsTable(log, tie);
      NumberedHasSameRows(log, tie);
      NumberedIsInOrder(log, tie);
      rows := set r | r in log :: WithNumber(log, tie, r);
    }

    method RemoveDuplicates(tie: Tie)
      requires IsTable(rows)
      modifies this
      ensures IsTable(rows) && IsDeduplicated(old(rows), tie, rows)
    {
      DeletionsAgree(rows, tie);
      rows := if tie.ById? then ByWindow(rows, tie) else ByLeast(rows, tie);
    }
  }
}
