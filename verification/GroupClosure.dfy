/** The group-closure table and the two migrations, on different branches, that move it from
    `tenant_id` to `zone_id`: one renames the column, the other adds and backfills it. Either
    may run first. PostgreSQL behaviour; columns and indexes are named by constructors. */
module GroupClosure {
  import opened Prelude

  datatype Column = MemberType | MemberId | GroupType | GroupId | TenantId | ZoneId | Depth | UpdatedAt

  datatype IndexName = MemberIndex | GroupIndex | DepthIndex | UpdatedAtIndex

  type Row = map<Column, string>

  datatype Table = Table(columns: set<Column>, rows: seq<Row>, primaryKey: seq<Column>,
                         indexes: map<IndexName, seq<Column>>)

  const ROOT_ZONE: string := "root"
  const KEY: seq<Column> := [MemberType, MemberId, GroupType, GroupId, ZoneId]
  const MEMBER_COLUMNS: seq<Column> := [ZoneId, MemberType, MemberId]
  const GROUP_COLUMNS: seq<Column> := [ZoneId, GroupType, GroupId]

  /* ---- table states ---- */

  predicate SameOn(a: Row, b: Row, columns: seq<Column>) {
    forall c | c in columns :: (c in a <==> c in b) && (c in a && c in b ==> a[c] == b[c])
  }

  predicate UniqueBy(rows: seq<Row>, columns: seq<Column>) {
    forall i, j | 0 <= i < j < |rows| :: !SameOn(rows[i], rows[j], columns)
  }

  /** Every row fills the table's columns, and a primary key is one. */
  ghost predicate ValidTable(t: Table) {
    && (forall r | r in t.rows :: r.Keys == t.columns)
    && (t.primaryKey != [] ==> UniqueBy(t.rows, t.primaryKey))
    && (forall c | c in t.primaryKey :: c in t.columns)
    && (forall n | n in t.indexes :: forall c | c in t.indexes[n] :: c in t.columns)
  }

  /* ---- schema operations ---- */

  function MapRows(rows: seq<Row>, f: Row -> Row): (r: seq<Row>)
    ensures |r| == |rows| && forall i | 0 <= i < |rows| :: r[i] == f(rows[i])
  {
    seq(|rows|, i requires 0 <= i < |rows| => f(rows[i]))
  }

  function AddColumn(t: Table, c: Column, value: string): Table {
    t.(columns := t.columns + {c}, rows := MapRows(t.rows, (r: Row) => r[c := value]))
  }

  function CopyColumn(t: Table, from: Column, to: Column): Table {
    t.(rows := MapRows(t.rows, (r: Row) => if from in r then r[to := r[from]] else r))
  }

  /** Dropping a column drops the indexes and the key that mention it. */
  function DropColumn(t: Table, c: Column): Table {
    Table(t.columns - {c}, MapRows(t.rows, (r: Row) => r - {c}),
          if c in t.primaryKey then [] else t.primaryKey,
          map n | n in t.indexes && c !in t.indexes[n] :: t.indexes[n])
  }

  function Renamed(columns: seq<Column>, from: Column, to: Column): (r: seq<Column>)
    ensures |r| == |columns| && forall i | 0 <= i < |r| :: r[i] == if columns[i] == from then to else columns[i]
  {
    seq(|columns|, i requires 0 <= i < |columns| => if columns[i] == from then to else columns[i])
  }

  /** Renaming a column carries over to the key and the indexes. */
  function RenameColumn(t: Table, from: Column, to: Column): Table {
    Table(t.columns - {from} + {to}, MapRows(t.rows, (r: Row) => if from in r then (r - {from})[to := r[from]] else r),
          Renamed(t.primaryKey, from, to), map n | n in t.indexes :: Renamed(t.indexes[n], from, to))
  }

  function DropIndex(t: Table, n: IndexName): Table { t.(indexes := t.indexes - {n}) }

  function CreateIndex(t: Table, n: IndexName, columns: seq<Column>): Table { t.(indexes := t.indexes[n := columns]) }

  /* ---- the migrations ---- */

  /** Without the two indexes that are rebuilt. */
  function Bare(t: Table): Table { DropIndex(DropIndex(t, MemberIndex), GroupIndex) }

  function AfterRename(t: Table): Table {
    if TenantId !in t.columns then t
    else
      var moved := if ZoneId in t.columns then DropColumn(Bare(t), TenantId) else RenameColumn(Bare(t), TenantId, ZoneId);
      CreateIndex(CreateIndex(moved, MemberIndex, MEMBER_COLUMNS), GroupIndex, GROUP_COLUMNS)
  }

  function WithZone(t: Table): Table {
    if ZoneId in t.columns then t
    else
      var added := AddColumn(t, ZoneId, ROOT_ZONE);
      if TenantId in t.columns then CopyColumn(added, TenantId, ZoneId) else added
  }

  predicate HasKeyColumns(t: Table) { forall c | c in KEY :: c in t.columns }

  /** Adding the new primary key raises on duplicate rows. */
  function AfterRepair(t: Table): Option<Table> {
    var zoned := WithZone(t);
    if !HasKeyColumns(zoned) then Some(zoned)
    else if zoned.primaryKey != KEY && !UniqueBy(zoned.rows, KEY) then None
    else
      var keyed := zoned.(primaryKey := KEY);
      var m := if MemberIndex in keyed.indexes && keyed.indexes[MemberIndex] == MEMBER_COLUMNS then keyed
               else CreateIndex(keyed, MemberIndex, MEMBER_COLUMNS);
      Some(if GroupIndex in m.indexes && m.indexes[GroupIndex] == GROUP_COLUMNS then m
           else CreateIndex(m, GroupIndex, GROUP_COLUMNS))
  }

  /* ---- either order ---- */

  /** A table before either migration: it has the tenant column and the four others of the key,
      and no index but the two rebuilt ones mentions the tenant. Its own key and indexes may
      have drifted. */
  ghost predicate BeforeBoth(t: Table) {
    && ValidTable(t) && TenantId in t.columns && ZoneId !in t.columns
    && (forall c | c in KEY && c != ZoneId :: c in t.columns)
    && (forall n | n in t.indexes && n != MemberIndex && n != GroupIndex :: TenantId !in t.indexes[n])
  }

  /** The table both orders end in: the tenant's values under the zone's name. */
  function Moved(r: Row): Row {
    if TenantId in r then (r - {TenantId})[ZoneId := r[TenantId]] else r
  }

  function Target(t: Table): Table {
    Table(t.columns - {TenantId} + {ZoneId}, MapRows(t.rows, Moved), KEY,
          t.indexes[MemberIndex := MEMBER_COLUMNS][GroupIndex := GROUP_COLUMNS])
  }

  const TENANT_KEY: seq<Column> := [MemberType, MemberId, GroupType, GroupId, TenantId]

  lemma SameOnMoved(a: Row, b: Row)
    requires ZoneId !in a && ZoneId !in b && TenantId in a && TenantId in b
    ensures SameOn(Moved(a), Moved(b), KEY) <==> SameOn(a, b, TENANT_KEY)
  {
    var x, y := Moved(a), Moved(b);
    assert x[ZoneId] == a[TenantId] && y[ZoneId] == b[TenantId];
    assert forall c | c != TenantId && c != ZoneId :: (c in x <==> c in a) && (c in y <==> c in b);
    assert KEY[0] in KEY && KEY[1] in KEY && KEY[2] in KEY && KEY[3] in KEY && KEY[4] in KEY;
    assert TENANT_KEY[0] in TENANT_KEY && TENANT_KEY[1] in TENANT_KEY && TENANT_KEY[2] in TENANT_KEY
      && TENANT_KEY[3] in TENANT_KEY && TENANT_KEY[4] in TENANT_KEY;
  }

  lemma UniqueMoved(t: Table)
    requires BeforeBoth(t)
    ensures UniqueBy(MapRows(t.rows, Moved), KEY) <==> UniqueBy(t.rows, TENANT_KEY)
  {
    var moved := MapRows(t.rows, Moved);
    forall i, j | 0 <= i < j < |t.rows|
      ensures SameOn(moved[i], moved[j], KEY) <==> SameOn(t.rows[i], t.rows[j], TENANT_KEY)
    {
      assert t.rows[i] in t.rows && t.rows[j] in t.rows;
      SameOnMoved(t.rows[i], t.rows[j]);
    }
  }

  lemma RenameWithoutColumn(columns: seq<Column>)
    requires TenantId !in columns
    ensures Renamed(columns, TenantId, ZoneId) == columns
  {
  }

  lemma RenamedIndexes(t: Table)
    requires BeforeBoth(t)
    ensures RenameColumn(Bare(t), TenantId, ZoneId).indexes == t.indexes - {MemberIndex, GroupIndex}
  {
    forall n | n in Bare(t).indexes ensures Renamed(t.indexes[n], TenantId, ZoneId) == t.indexes[n] {
      RenameWithoutColumn(t.indexes[n]);
    }
  }

  lemma RenamedRows(t: Table)
    ensures RenameColumn(Bare(t), TenantId, ZoneId).rows == MapRows(t.rows, Moved)
  {
  }

  /** Rebuilding the two indexes overwrites whatever they were. */
  lemma RebuiltIndexes(indexes: map<IndexName, seq<Column>>, m: seq<Column>, g: seq<Column>)
    ensures (indexes - {MemberIndex, GroupIndex})[MemberIndex := m][GroupIndex := g] ==
            indexes[MemberIndex := m][GroupIndex := g]
  {
  }

  lemma RenameFirst(t: Table)
    requires BeforeBoth(t)
    ensures AfterRename(t) == Target(t).(primaryKey := Renamed(t.primaryKey, TenantId, ZoneId))
  {
    RenamedIndexes(t);
    RenamedRows(t);
    RebuiltIndexes(t.indexes, MEMBER_COLUMNS, GROUP_COLUMNS);
  }

  lemma RenamedKeyIsKey(t: Table)
    requires BeforeBoth(t) && Renamed(t.primaryKey, TenantId, ZoneId) == KEY
    ensures t.primaryKey == TENANT_KEY
  {
    assert forall i | 0 <= i < |t.primaryKey| :: t.primaryKey[i] in t.primaryKey;
    assert forall i | 0 <= i < |KEY| :: t.primaryKey[i] == TENANT_KEY[i];
  }

  lemma RepairAfterRename(t: Table)
    requires BeforeBoth(t)
    ensures AfterRepair(AfterRename(t)) == if UniqueBy(t.rows, TENANT_KEY) then Some(Target(t)) else None
  {
    RenameFirst(t);
    UniqueMoved(t);
    if Renamed(t.primaryKey, TenantId, ZoneId) == KEY { RenamedKeyIsKey(t); }
    var u := AfterRename(t);
    assert WithZone(u) == u && HasKeyColumns(u);
    assert u.(primaryKey := KEY) == Target(t);
  }

  function Zoned(r: Row): Row { if TenantId in r then r[ZoneId := r[TenantId]] else r[ZoneId := ROOT_ZONE] }

  /** The table between the two migrations when the repair ran first. */
  function Repaired(t: Table): Table {
    Table(t.columns + {ZoneId}, MapRows(t.rows, Zoned), KEY,
          t.indexes[MemberIndex := MEMBER_COLUMNS][GroupIndex := GROUP_COLUMNS])
  }

  lemma WithZoneIsZoned(t: Table)
    requires BeforeBoth(t)
    ensures WithZone(t) == t.(columns := t.columns + {ZoneId}, rows := MapRows(t.rows, Zoned))
  {
    var rows := WithZone(t).rows;
    forall i | 0 <= i < |t.rows| ensures rows[i] == Zoned(t.rows[i]) {
      assert t.rows[i] in t.rows;
    }
    assert rows == MapRows(t.rows, Zoned);
  }

  lemma SameOnWithout(a: Row, b: Row)
    ensures SameOn(a, b, KEY) <==> SameOn(a - {TenantId}, b - {TenantId}, KEY)
  {
    assert TenantId !in KEY;
    assert forall c | c in KEY :: (c in a <==> c in a - {TenantId}) && (c in b <==> c in b - {TenantId});
  }

  lemma ZonedIsMoved(a: Row, b: Row)
    requires ZoneId !in a && ZoneId !in b && TenantId in a && TenantId in b
    ensures SameOn(Zoned(a), Zoned(b), KEY) <==> SameOn(Moved(a), Moved(b), KEY)
  {
    assert Zoned(a) - {TenantId} == Moved(a) && Zoned(b) - {TenantId} == Moved(b);
    SameOnWithout(Zoned(a), Zoned(b));
  }

  lemma UniqueZoned(t: Table)
    requires BeforeBoth(t)
    ensures UniqueBy(MapRows(t.rows, Zoned), KEY) <==> UniqueBy(MapRows(t.rows, Moved), KEY)
  {
    var zoned, moved := MapRows(t.rows, Zoned), MapRows(t.rows, Moved);
    forall i, j | 0 <= i < j < |t.rows|
      ensures SameOn(zoned[i], zoned[j], KEY) <==> SameOn(moved[i], moved[j], KEY)
    {
      assert t.rows[i] in t.rows && t.rows[j] in t.rows;
      ZonedIsMoved(t.rows[i], t.rows[j]);
    }
  }

  lemma RepairFirst(t: Table)
    requires BeforeBoth(t)
    ensures AfterRepair(t) == if UniqueBy(t.rows, TENANT_KEY) then Some(Repaired(t)) else None
  {
    WithZoneIsZoned(t);
    UniqueZoned(t);
    UniqueMoved(t);
    assert t.primaryKey != KEY by { assert KEY[4] in KEY; }
    assert HasKeyColumns(WithZone(t));
  }

  lemma DroppedRows(t: Table)
    requires BeforeBoth(t)
    ensures DropColumn(Bare(Repaired(t)), TenantId).rows == MapRows(t.rows, Moved)
  {
    var rows := DropColumn(Bare(Repaired(t)), TenantId).rows;
    forall i | 0 <= i < |t.rows| ensures rows[i] == Moved(t.rows[i]) {
      assert t.rows[i] in t.rows;
    }
  }

  lemma DroppedIndexes(t: Table)
    requires BeforeBoth(t)
    ensures DropColumn(Bare(Repaired(t)), TenantId).indexes == t.indexes - {MemberIndex, GroupIndex}
    ensures DropColumn(Bare(Repaired(t)), TenantId).primaryKey == KEY
  {
    assert TenantId !in KEY;
  }

  lemma RenameOfRepaired(t: Table)
    requires BeforeBoth(t)
    ensures AfterRename(Repaired(t)) == Target(t)
  {
    DroppedIndexes(t);
    DroppedRows(t);
    RebuiltIndexes(t.indexes, MEMBER_COLUMNS, GROUP_COLUMNS);
    assert t.columns + {ZoneId} - {TenantId} == t.columns - {TenantId} + {ZoneId};
  }

  /** Running the two migrations in either order ends in the same table, or raises in both; it
      raises exactly when two rows agree on the key columns and the tenant. */
  lemma EitherOrderAgrees(t: Table)
    requires BeforeBoth(t)
    ensures AfterRepair(AfterRename(t)) ==
            (if AfterRepair(t).Some? then Some(AfterRename(AfterRepair(t).value)) else None)
    ensures AfterRepair(AfterRename(t)) == if UniqueBy(t.rows, TENANT_KEY) then Some(Target(t)) else None
  {
    RepairAfterRename(t);
    RepairFirst(t);
    RenameOfRepaired(t);
  }

  /** On the table as it was created, whose key is unique, neither order raises. */
  lemma OriginalTableMigrates(t: Table)
    requires BeforeBoth(t) && t.primaryKey == TENANT_KEY
    ensures AfterRepair(AfterRename(t)) == Some(Target(t))
    ensures AfterRepair(t).Some? && AfterRename(AfterRepair(t).value) == Target(t)
  {
    EitherOrderAgrees(t);
  }

  /** Running either migration again changes nothing. */
  lemma RerunIsNoop(t: Table)
    requires BeforeBoth(t)
    ensures AfterRename(Target(t)) == Target(t) && AfterRepair(Target(t)) == Some(Target(t))
  {
  }

  /* ---- any table ---- */

  /** The repair gives every row of any table a zone, its own, else its tenant, else the root
      zone, and changes no other column. */
  lemma RepairKeepsRows(t: Table, i: nat)
    requires ValidTable(t) && AfterRepair(t).Some? && i < |t.rows|
    ensures |AfterRepair(t).value.rows| == |t.rows|
    ensures var r := t.rows[i];
            AfterRepair(t).value.rows[i] ==
            r[ZoneId := if ZoneId in r then r[ZoneId] else if TenantId in r then r[TenantId] else "root"]
  {
    assert t.rows[i] in t.rows;
    assert WithZone(t).rows == AfterRepair(t).value.rows;
  }

  /** With the other key columns there, the repair gives any table the five-column key and the two
      indexes led by the zone, and leaves the rest; without them it only adds the zone column. */
  lemma RepairSetsShape(t: Table)
    requires AfterRepair(t).Some?
    ensures var u := AfterRepair(t).value;
            && u.columns == t.columns + {ZoneId}
            && if {MemberType, MemberId, GroupType, GroupId} <= t.columns
               then u.primaryKey == [MemberType, MemberId, GroupType, GroupId, ZoneId]
                    && u.indexes == t.indexes[MemberIndex := [ZoneId, MemberType, MemberId]][GroupIndex := [ZoneId, GroupType, GroupId]]
               else u.primaryKey == t.primaryKey && u.indexes == t.indexes
  {
    var zoned := WithZone(t);
    assert KEY[0] in KEY && KEY[1] in KEY && KEY[2] in KEY && KEY[3] in KEY && KEY[4] in KEY;
    assert HasKeyColumns(zoned) <==> {MemberType, MemberId, GroupType, GroupId} <= t.columns;
  }

  /** The rename takes the tenant out of every row of any table; a zone that is there stays, and
      otherwise the tenant's value becomes the zone. */
  lemma RenameKeepsRows(t: Table, i: nat)
    requires ValidTable(t) && i < |t.rows|
    ensures |AfterRename(t).rows| == |t.rows|
    ensures var r := t.rows[i];
            AfterRename(t).rows[i] ==
            if TenantId !in r then r else (r - {TenantId})[ZoneId := if ZoneId in r then r[ZoneId] else r[TenantId]]
  {
    assert t.rows[i] in t.rows;
  }

  /* ---- the table as the migrations alter it ---- */

  class ClosureTable {
    var columns: set<Column>
    var rows: seq<Row>
    var primaryKey: seq<Column>
    var indexes: map<IndexName, seq<Column>>

    ghost function Contents(): Table reads this { Table(columns, rows, primaryKey, indexes) }

    constructor (t: Table)
      ensures Contents() == t
    {
      columns, rows, primaryKey, indexes := t.columns, t.rows, t.primaryKey, t.indexes;
    }

    method Rename()
      modifies this
      ensures Contents() == AfterRename(old(Contents()))
    {
      if TenantId !in columns { return; }
      if MemberIndex in indexes { indexes := indexes - {MemberIndex}; }
      if GroupIndex in indexes { indexes := indexes - {GroupIndex}; }
      ghost var bare := DropIndex(DropIndex(old(Contents()), MemberIndex), GroupIndex);
      assert indexes == bare.indexes;
      if ZoneId in columns {
        rows := MapRows(rows, (r: Row) => r - {TenantId});
        columns := columns - {TenantId};
        primaryKey := if TenantId in primaryKey then [] else primaryKey;
        indexes := map n | n in indexes && TenantId !in indexes[n] :: indexes[n];
        assert Contents() == DropColumn(bare, TenantId);
        if MemberIndex !in indexes { indexes := indexes[MemberIndex := MEMBER_COLUMNS]; }
        if GroupIndex !in indexes { indexes := indexes[GroupIndex := GROUP_COLUMNS]; }
        return;
      }
      rows := MapRows(rows, (r: Row) => if TenantId in r then (r - {TenantId})[ZoneId := r[TenantId]] else r);
      columns := columns - {TenantId} + {ZoneId};
      primaryKey := Renamed(primaryKey, TenantId, ZoneId);
      indexes := map n | n in indexes :: Renamed(indexes[n], TenantId, ZoneId);
      assert Contents() == RenameColumn(bare, TenantId, ZoneId);
      indexes := indexes[MemberIndex := MEMBER_COLUMNS];
      indexes := indexes[GroupIndex := GROUP_COLUMNS];
    }

    /** Returns false, leaving the table as it was, when the new key cannot be added. */
    method Repair() returns (ok: bool)
      modifies this
      ensures ok <==> AfterRepair(old(Contents())).Some?
      ensures Contents() == if ok then AfterRepair(old(Contents())).value else old(Contents())
    {
      var newColumns, newRows := columns, rows;
      if ZoneId !in newColumns {
        newColumns := newColumns + {ZoneId};
        newRows := MapRows(newRows, (r: Row) => r[ZoneId := ROOT_ZONE]);
        if TenantId in newColumns {
          newRows := MapRows(newRows, (r: Row) => if TenantId in r then r[ZoneId := r[TenantId]] else r);
        }
      }
      assert WithZone(Contents()) == Contents().(columns := newColumns, rows := newRows);
      if !(forall c | c in KEY :: c in newColumns) {
        columns, rows := newColumns, newRows;
        return true;
      }
      if primaryKey != KEY && !UniqueBy(newRows, KEY) { return false; }
      columns, rows, primaryKey := newColumns, newRows, KEY;
      if MemberIndex !in indexes || indexes[MemberIndex] != MEMBER_COLUMNS {
        indexes := indexes[MemberIndex := MEMBER_COLUMNS];
      }
      if GroupIndex !in indexes || indexes[GroupIndex] != GROUP_COLUMNS {
        indexes := indexes[GroupIndex := GROUP_COLUMNS];
      }
      return true;
    }
  }
}
