/** Generated file-metadata code: the string-interning pool, the compact record, and the
    mapper to and from the wire message. The generators work from a list of fields and a few
    tables; here both are arbitrary, and the repository's own tables are one instance. */
module Metadata {
  import opened Prelude

  type Instant = int

  datatype Value = Null | Text(text: string) | Moment(at: Instant) | Number(n: int) | Fraction(x: real)

  /** Printing and parsing of timestamps: any pair with this law. */
  datatype Clock = Clock(format: Instant -> string, parse: string -> Option<Instant>)

  ghost predicate RoundTrips(clock: Clock) {
    forall at :: clock.format(at) != "" && clock.parse(clock.format(at)) == Some(at)
  }

  /* ---- the intern pool ---- */

  datatype Pool = Pool(ids: map<string, int>, texts: map<int, string>, next: nat)

  /** The two maps are mutually inverse, on the ids below `next`. */
  ghost predicate ValidPool(p: Pool) {
    && (forall id :: id in p.texts <==> 0 <= id < p.next)
    && (forall s | s in p.ids :: p.ids[s] in p.texts && p.texts[p.ids[s]] == s)
    && (forall id | id in p.texts :: p.texts[id] in p.ids && p.ids[p.texts[id]] == id)
  }

  /** Every id of `p` means the same in `q`. */
  ghost predicate Extends(p: Pool, q: Pool) {
    && p.next <= q.next
    && (forall s | s in p.ids :: s in q.ids && q.ids[s] == p.ids[s])
    && (forall id | id in p.texts :: id in q.texts && q.texts[id] == p.texts[id])
  }

  function AfterIntern(p: Pool, s: Option<string>): Pool {
    if s.None? || s.value in p.ids then p
    else Pool(p.ids[s.value := p.next], p.texts[p.next := s.value], p.next + 1)
  }

  function IdOf(p: Pool, s: Option<string>): int {
    if s.None? then -1
    else if s.value in p.ids then p.ids[s.value] else p.next
  }

  function Resolve(p: Pool, id: int): Option<string> {
    if id == -1 then None else if id in p.texts then Some(p.texts[id]) else None
  }

  function ResolveRequired(p: Pool, id: int): Option<string> {
    if id in p.texts then Some(p.texts[id]) else None
  }

  /** Interning keeps the pool a bijection, old ids keep their meaning, and the id resolves to
      the string in every later pool. */
  lemma InternIsSound(p: Pool, s: Option<string>, later: Pool)
    requires ValidPool(p) && Extends(AfterIntern(p, s), later) && ValidPool(later)
    ensures ValidPool(AfterIntern(p, s)) && Extends(p, AfterIntern(p, s)) && Extends(p, later)
    ensures Resolve(later, IdOf(p, s)) == s
    ensures s.Some? ==> ResolveRequired(later, IdOf(p, s)) == s
    ensures s.None? ==> ResolveRequired(later, IdOf(p, s)) == None
  {
  }

  class InternPool {
    var ids: map<string, int>
    var texts: map<int, string>
    var next: nat

    ghost function Contents(): Pool reads this { Pool(ids, texts, next) }

    ghost predicate Valid() reads this { ValidPool(Contents()) }

    constructor ()
      ensures Valid() && Contents() == Pool(map[], map[], 0)
    {
      ids, texts, next := map[], map[], 0;
    }

    method Intern(s: Option<string>) returns (id: int)
      requires Valid()
      modifies this
      ensures Valid() && Contents() == AfterIntern(old(Contents()), s) && Extends(old(Contents()), Contents())
      ensures id == IdOf(old(Contents()), s)
      ensures if s.Some? then id in texts && texts[id] == s.value else id == -1 && Contents() == old(Contents())
    {
      if s.None? { return -1; }
      if s.value !in ids {
        ids := ids[s.value := next];
        texts := texts[next := s.value];
        next := next + 1;
      }
      return ids[s.value];
    }

    method Clear()
      modifies this
      ensures Valid() && Contents() == Pool(map[], map[], 0)
    {
      ids, texts, next := map[], map[], 0;
    }
  }

  /* ---- compact records ---- */

  type Record = map<string, Value>

  datatype Cell = Id(id: int) | Stamp(printed: Option<string>) | Copy(value: Value)

  /** `compactNames` are the interned fields and their names in the compact record; `defaults`
      the values the full record's constructor supplies for omitted fields. */
  datatype Tables = Tables(compactNames: map<string, string>, datetimes: set<string>, nullables: set<string>,
                           direct: set<string>, defaults: map<string, Value>)

  /** No two fields share a place in the compact record. */
  predicate TablesOk(t: Tables) {
    && (forall a, b | a in t.compactNames && b in t.compactNames && t.compactNames[a] == t.compactNames[b] :: a == b)
    && (forall a | a in t.compactNames :: t.compactNames[a] !in t.datetimes && t.compactNames[a] !in t.direct)
  }

  predicate IsStored(t: Tables, name: string) {
    name in t.compactNames || name in t.datetimes || name in t.direct
  }

  function CompactName(t: Tables, name: string): string {
    if name in t.compactNames then t.compactNames[name] else name
  }

  /** Fields of the interned table hold text or null, timestamps a moment or null. */
  predicate IsTyped(t: Tables, name: string, v: Value) {
    && (name in t.compactNames ==> v.Null? || v.Text?)
    && (name !in t.compactNames && name in t.datetimes ==> v.Null? || v.Moment?)
  }

  function TextOf(v: Value): Option<string> { if v.Text? then Some(v.text) else None }

  function FromText(s: Option<string>): Value { if s.Some? then Text(s.value) else Null }

  function CellOf(t: Tables, clock: Clock, p: Pool, name: string, v: Value): Cell {
    if name in t.compactNames then Id(IdOf(p, TextOf(v)))
    else if name in t.datetimes then Stamp(if v.Moment? then Some(clock.format(v.at)) else None)
    else Copy(v)
  }

  function PoolAfter(t: Tables, p: Pool, name: string, v: Value): Pool {
    if name in t.compactNames then AfterIntern(p, TextOf(v)) else p
  }

  /** `from_file_metadata`: the compact record and the pool after building it, field by field. */
  function ToCompact(t: Tables, clock: Clock, names: seq<string>, p: Pool, r: Record): (map<string, Cell>, Pool)
    requires forall n | n in names :: n in r
  {
    if names == [] then (map[], p)
    else
      var init, name := names[..|names| - 1], names[|names| - 1];
      var (cells, p1) := ToCompact(t, clock, init, p, r);
      if IsStored(t, name)
      then (cells[CompactName(t, name) := CellOf(t, clock, p1, name, r[name])], PoolAfter(t, p1, name, r[name]))
      else (cells, p1)
  }

  /** One argument of the constructor call in `to_file_metadata`; None when it raises. */
  function Restore(t: Tables, clock: Clock, p: Pool, cells: map<string, Cell>, name: string): Option<Value> {
    var key := CompactName(t, name);
    if !IsStored(t, name) then (if name in t.defaults then Some(t.defaults[name]) else None)
    else if key !in cells then None
    else
      match cells[key]
      case Id(id) =>
        if name in t.nullables then Some(FromText(Resolve(p, id)))
        else
          var s := ResolveRequired(p, id);
          if s.Some? then Some(Text(s.value)) else None
      case Stamp(printed) =>
        if printed.None? || printed.value == "" then Some(Null)
        else
          var at := clock.parse(printed.value);
          if at.Some? then Some(Moment(at.value)) else None
      case Copy(v) => Some(v)
  }

  function FromCompact(t: Tables, clock: Clock, names: seq<string>, p: Pool, cells: map<string, Cell>): Option<Record> {
    if forall n | n in names :: Restore(t, clock, p, cells, n).Some?
    then Some(map n | n in names :: Restore(t, clock, p, cells, n).value)
    else None
  }

  lemma {:induction false} ToCompactExtends(t: Tables, clock: Clock, names: seq<string>, p: Pool, r: Record)
    requires ValidPool(p) && forall n | n in names :: n in r
    ensures ValidPool(ToCompact(t, clock, names, p, r).1) && Extends(p, ToCompact(t, clock, names, p, r).1)
  {
    if names != [] {
      var init, name := names[..|names| - 1], names[|names| - 1];
      ToCompactExtends(t, clock, init, p, r);
      var p1 := ToCompact(t, clock, init, p, r).1;
      InternIsSound(p1, TextOf(r[name]), AfterIntern(p1, TextOf(r[name])));
    }
  }

  /** What is read back for a field: itself, its default, or an error. */
  function Expected(t: Tables, name: string, v: Value): Option<Value> {
    if IsStored(t, name) then (if name in t.compactNames && name !in t.nullables && v.Null? then None else Some(v))
    else if name in t.defaults then Some(t.defaults[name])
    else None
  }

  /** A stored field is read back from its cell in every later pool. */
  lemma RestoreOfCell(t: Tables, clock: Clock, p: Pool, later: Pool, cells: map<string, Cell>, name: string, v: Value)
    requires RoundTrips(clock) && ValidPool(p) && ValidPool(later) && IsTyped(t, name, v) && IsStored(t, name)
    requires Extends(PoolAfter(t, p, name, v), later)
    requires CompactName(t, name) in cells && cells[CompactName(t, name)] == CellOf(t, clock, p, name, v)
    ensures Restore(t, clock, later, cells, name) == Expected(t, name, v)
  {
    if name in t.compactNames { InternIsSound(p, TextOf(v), later); }
  }

  lemma PlacesAreDistinct(t: Tables, a: string, b: string)
    requires TablesOk(t) && IsStored(t, a) && IsStored(t, b) && a != b
    ensures CompactName(t, a) != CompactName(t, b)
  {
  }

  /** One more field leaves the reading of another as it was. */
  lemma RestoreOfOther(t: Tables, clock: Clock, later: Pool, cells: map<string, Cell>, key: string, cell: Cell, name: string)
    requires CompactName(t, name) != key
    ensures Restore(t, clock, later, cells[key := cell], name) == Restore(t, clock, later, cells, name)
  {
  }

  lemma {:induction false} RestoreAfterToCompact(t: Tables, clock: Clock, names: seq<string>, p: Pool, r: Record, later: Pool, name: string)
    requires RoundTrips(clock) && TablesOk(t) && ValidPool(p) && ValidPool(later)
    requires (forall n | n in names :: n in r && IsTyped(t, n, r[n])) && name in names
    requires Extends(ToCompact(t, clock, names, p, r).1, later)
    ensures Restore(t, clock, later, ToCompact(t, clock, names, p, r).0, name) == Expected(t, name, r[name])
  {
    var init, last := names[..|names| - 1], names[|names| - 1];
    var (cells, p1) := ToCompact(t, clock, init, p, r);
    var all := ToCompact(t, clock, names, p, r).0;
    ToCompactExtends(t, clock, init, p, r);
    InternIsSound(p1, TextOf(r[last]), AfterIntern(p1, TextOf(r[last])));
    if !IsStored(t, name) {
    } else if name == last {
      RestoreOfCell(t, clock, p1, later, all, name, r[name]);
    } else {
      assert name in init;
      RestoreAfterToCompact(t, clock, init, p, r, later, name);
      if IsStored(t, last) {
        PlacesAreDistinct(t, last, name);
        RestoreOfOther(t, clock, later, cells, CompactName(t, last), CellOf(t, clock, p1, last, r[last]), name);
      }
    }
  }

  /** What a compact record holds for a field: the id of its text in the pool, its printed
      timestamp, or a copy. */
  predicate IsCell(t: Tables, clock: Clock, p: Pool, name: string, v: Value, cell: Cell) {
    if name in t.compactNames
    then cell.Id? && (if v.Text? then cell.id in p.texts && p.texts[cell.id] == v.text else cell.id == -1)
    else if name in t.datetimes then cell == Stamp(if v.Moment? then Some(clock.format(v.at)) else None)
    else cell == Copy(v)
  }

  /** A compact record has a place for every stored field and holds there what it should. */
  lemma {:induction false} ToCompactHolds(t: Tables, clock: Clock, names: seq<string>, p: Pool, r: Record, name: string)
    requires TablesOk(t) && ValidPool(p) && (forall n | n in names :: n in r) && name in names && IsStored(t, name)
    ensures var (cells, later) := ToCompact(t, clock, names, p, r);
            CompactName(t, name) in cells && IsCell(t, clock, later, name, r[name], cells[CompactName(t, name)])
  {
    var init, last := names[..|names| - 1], names[|names| - 1];
    var (cells, p1) := ToCompact(t, clock, init, p, r);
    ToCompactExtends(t, clock, init, p, r);
    InternIsSound(p1, TextOf(r[last]), AfterIntern(p1, TextOf(r[last])));
    if name != last {
      assert name in init;
      ToCompactHolds(t, clock, init, p, r, name);
      if IsStored(t, last) { PlacesAreDistinct(t, last, name); }
    }
  }

  /** The expected values of the named fields, or nothing when one of them is an error. */
  ghost predicate ReadsBack(t: Tables, names: seq<string>, r: Record, back: Option<Record>)
    requires forall n | n in names :: n in r
  {
    && (back.Some? <==> forall n | n in names :: Expected(t, n, r[n]).Some?)
    && (back.Some? ==> (forall n :: n in back.value <==> n in names)
                       && forall n | n in names :: Some(back.value[n]) == Expected(t, n, r[n]))
  }

  /** For any field list, a compact record expands at any later time to the original on all
      stored fields and to the default on the others; it fails exactly when a required interned
      field was null or an unstored field has no default. */
  lemma CompactRoundTrip(t: Tables, clock: Clock, names: seq<string>, p: Pool, r: Record, later: Pool)
    requires RoundTrips(clock) && TablesOk(t) && ValidPool(p) && ValidPool(later)
    requires forall n | n in names :: n in r && IsTyped(t, n, r[n])
    requires Extends(ToCompact(t, clock, names, p, r).1, later)
    ensures ReadsBack(t, names, r, FromCompact(t, clock, names, later, ToCompact(t, clock, names, p, r).0))
  {
    var cells := ToCompact(t, clock, names, p, r).0;
    forall n | n in names ensures Restore(t, clock, later, cells, n) == Expected(t, n, r[n]) {
      RestoreAfterToCompact(t, clock, names, p, r, later, n);
    }
  }

  /* ---- the mapper to the wire message ---- */

  datatype Category = DatetimeField | NullableString | IntField | EnumField | Passed

  datatype Field = Field(name: string, protoType: string)

  function CategoryOf(t: Tables, f: Field): Category {
    if f.name in t.datetimes then DatetimeField
    else if f.name in t.nullables then NullableString
    else if f.protoType in ["int64", "uint64", "int32"] then IntField
    else if f.protoType == "DirEntryType" then EnumField
    else Passed
  }

  /** The values a field of the full record may hold. */
  predicate FitsField(t: Tables, f: Field, v: Value) {
    match CategoryOf(t, f)
    case DatetimeField => v.Null? || v.Moment?
    case NullableString => v.Null? || v.Text?
    case IntField => v.Number?
    case EnumField => v.Number?
    case Passed => !v.Null? && !v.Moment?
  }

  /** One keyword argument of `to_proto`. The message has no nulls; an enum number must be one
      of the declared ones, or the name lookup raises. */
  function ToWire(t: Tables, clock: Clock, enumValues: set<int>, f: Field, v: Value): Option<Value> {
    match CategoryOf(t, f)
    case DatetimeField => Some(Text(if v.Moment? then clock.format(v.at) else ""))
    case NullableString => Some(if v.Text? then v else Text(""))
    case EnumField => if v.Number? && v.n in enumValues then Some(v) else None
    case _ => Some(v)
  }

  /** One keyword argument of `from_proto`; an unparsable timestamp becomes null. */
  function FromWire(t: Tables, clock: Clock, f: Field, w: Value): Value {
    match CategoryOf(t, f)
    case DatetimeField =>
      if w.Text? && w.text != "" && clock.parse(w.text).Some? then Moment(clock.parse(w.text).value) else Null
    case NullableString => if w == Text("") then Null else w
    case _ => w
  }

  function ToProto(t: Tables, clock: Clock, enumValues: set<int>, fields: seq<Field>, r: Record): Option<Record>
    requires forall f | f in fields :: f.name in r
  {
    if forall f | f in fields :: ToWire(t, clock, enumValues, f, r[f.name]).Some?
    then Some(WireRecord(t, clock, enumValues, fields, r)) else None
  }

  function WireRecord(t: Tables, clock: Clock, enumValues: set<int>, fields: seq<Field>, r: Record): (w: Record)
    requires forall f | f in fields :: f.name in r && ToWire(t, clock, enumValues, f, r[f.name]).Some?
  {
    if fields == [] then map[]
    else
      var last := fields[|fields| - 1];
      WireRecord(t, clock, enumValues, fields[..|fields| - 1], r)[last.name := ToWire(t, clock, enumValues, last, r[last.name]).value]
  }

  function FromProto(t: Tables, clock: Clock, fields: seq<Field>, w: Record): Record
    requires forall f | f in fields :: f.name in w
  {
    if fields == [] then map[]
    else
      var last := fields[|fields| - 1];
      FromProto(t, clock, fields[..|fields| - 1], w)[last.name := FromWire(t, clock, last, w[last.name])]
  }

  ghost predicate DistinctNames(fields: seq<Field>) {
    forall i, j | 0 <= i < j < |fields| :: fields[i].name != fields[j].name
  }

  lemma {:induction false} WireRecordHolds(t: Tables, clock: Clock, enumValues: set<int>, fields: seq<Field>, r: Record, f: Field)
    requires DistinctNames(fields) && f in fields
    requires forall g | g in fields :: g.name in r && ToWire(t, clock, enumValues, g, r[g.name]).Some?
    ensures f.name in WireRecord(t, clock, enumValues, fields, r)
    ensures Some(WireRecord(t, clock, enumValues, fields, r)[f.name]) == ToWire(t, clock, enumValues, f, r[f.name])
  {
    if f != fields[|fields| - 1] { WireRecordHolds(t, clock, enumValues, fields[..|fields| - 1], r, f); }
  }

  lemma {:induction false} FromProtoHolds(t: Tables, clock: Clock, fields: seq<Field>, w: Record, f: Field)
    requires DistinctNames(fields) && f in fields && forall g | g in fields :: g.name in w
    ensures f.name in FromProto(t, clock, fields, w)
    ensures FromProto(t, clock, fields, w)[f.name] == FromWire(t, clock, f, w[f.name])
  {
    if f != fields[|fields| - 1] { FromProtoHolds(t, clock, fields[..|fields| - 1], w, f); }
  }

  /** What a value becomes on the way through the message. */
  function Normalized(t: Tables, f: Field, v: Value): Value {
    if CategoryOf(t, f) == NullableString && v == Text("") then Null else v
  }

  lemma WireRoundTrip(t: Tables, clock: Clock, enumValues: set<int>, f: Field, v: Value)
    requires RoundTrips(clock) && FitsField(t, f, v) && ToWire(t, clock, enumValues, f, v).Some?
    ensures FromWire(t, clock, f, ToWire(t, clock, enumValues, f, v).value) == Normalized(t, f, v)
    ensures FitsField(t, f, Normalized(t, f, v)) && Normalized(t, f, Normalized(t, f, v)) == Normalized(t, f, v)
  {
  }

  /** On the wire a null is the empty string, a moment is printed, and the rest is as it was. */
  lemma WireHolds(t: Tables, clock: Clock, enumValues: set<int>, fields: seq<Field>, r: Record, f: Field)
    requires DistinctNames(fields) && f in fields && (forall g | g in fields :: g.name in r) && FitsField(t, f, r[f.name])
    requires ToProto(t, clock, enumValues, fields, r).Some?
    ensures var sent, v := ToProto(t, clock, enumValues, fields, r).value, r[f.name];
            f.name in sent && sent[f.name] == if v.Null? then Text("") else if v.Moment? then Text(clock.format(v.at)) else v
  {
    WireRecordHolds(t, clock, enumValues, fields, r, f);
  }

  predicate EnumsDeclared(t: Tables, enumValues: set<int>, fields: seq<Field>, r: Record)
    requires forall f | f in fields :: f.name in r
  {
    forall f | f in fields && CategoryOf(t, f) == EnumField :: r[f.name].Number? && r[f.name].n in enumValues
  }

  ghost predicate ComesBack(t: Tables, clock: Clock, fields: seq<Field>, r: Record, sent: Record)
    requires forall f | f in fields :: f.name in r
  {
    && (forall f | f in fields :: f.name in sent)
    && forall f | f in fields ::
         && f.name in FromProto(t, clock, fields, sent)
         && FromProto(t, clock, fields, sent)[f.name] == Normalized(t, f, r[f.name])
         && (FromProto(t, clock, fields, sent)[f.name] == r[f.name] <==>
             !(CategoryOf(t, f) == NullableString && r[f.name] == Text("")))
  }

  /** For any field list, `from_proto` after `to_proto` is the identity except that empty
      nullable strings become null; it is exact precisely on records without such strings, and
      conversion fails precisely on an undeclared enum number. */
  lemma MapperRoundTrip(t: Tables, clock: Clock, enumValues: set<int>, fields: seq<Field>, r: Record)
    requires RoundTrips(clock) && DistinctNames(fields)
    requires forall f | f in fields :: f.name in r && FitsField(t, f, r[f.name])
    ensures ToProto(t, clock, enumValues, fields, r).Some? <==> EnumsDeclared(t, enumValues, fields, r)
    ensures EnumsDeclared(t, enumValues, fields, r) ==>
              ComesBack(t, clock, fields, r, ToProto(t, clock, enumValues, fields, r).value)
  {
    var sent := ToProto(t, clock, enumValues, fields, r);
    if sent.Some? {
      forall f | f in fields ensures f.name in sent.value
                                     && Some(sent.value[f.name]) == ToWire(t, clock, enumValues, f, r[f.name]) {
        WireRecordHolds(t, clock, enumValues, fields, r, f);
      }
      var back := FromProto(t, clock, fields, sent.value);
      forall f | f in fields ensures f.name in back && back[f.name] == Normalized(t, f, r[f.name]) {
        FromProtoHolds(t, clock, fields, sent.value, f);
        WireRoundTrip(t, clock, enumValues, f, r[f.name]);
      }
    }
  }

  /* ---- the repository's tables ---- */

  const REPOSITORY_TABLES := Tables(
    map["path" := "path_id", "content_id" := "content_id_intern", "mime_type" := "mime_type_id",
        "zone_id" := "zone_id_intern", "created_by" := "created_by_id", "owner_id" := "owner_id_intern",
        "target_zone_id" := "target_zone_id_intern", "last_writer_address" := "last_writer_address_id",
        "link_target" := "link_target_id"],
    {"created_at", "modified_at"},
    {"content_id", "mime_type", "zone_id", "created_by", "owner_id", "target_zone_id", "last_writer_address", "link_target"},
    {"size", "version", "entry_type", "gen"},
    map["version" := Number(1), "entry_type" := Number(0), "ttl_seconds" := Fraction(0.0), "gen" := Number(0),
        "created_at" := Null, "modified_at" := Null, "content_id" := Null, "mime_type" := Null, "zone_id" := Null,
        "created_by" := Null, "owner_id" := Null, "target_zone_id" := Null, "last_writer_address" := Null,
        "link_target" := Null])

  /** The field a compact name stands for, told by its length and first letter. */
  function FieldOf(compact: string): string {
    match |compact|
    case 7 => "path"
    case 12 => "mime_type"
    case 13 => "created_by"
    case 14 => if compact[0] == 'z' then "zone_id" else "link_target"
    case 15 => "owner_id"
    case 17 => "content_id"
    case 21 => "target_zone_id"
    case _ => "last_writer_address"
  }

  lemma CompactNameIsReadable(name: string)
    requires name in REPOSITORY_TABLES.compactNames
    ensures var c := REPOSITORY_TABLES.compactNames[name];
            FieldOf(c) == name && c !in REPOSITORY_TABLES.datetimes && c !in REPOSITORY_TABLES.direct
  {
  }

  lemma RepositoryTablesAreOk()
    ensures TablesOk(REPOSITORY_TABLES)
  {
    forall a | a in REPOSITORY_TABLES.compactNames
      ensures FieldOf(REPOSITORY_TABLES.compactNames[a]) == a
              && REPOSITORY_TABLES.compactNames[a] !in REPOSITORY_TABLES.datetimes
              && REPOSITORY_TABLES.compactNames[a] !in REPOSITORY_TABLES.direct
    {
      CompactNameIsReadable(a);
    }
  }

  /** The message's fields. */
  const FIELDS: seq<string> := ["path", "size", "content_id", "mime_type", "created_at", "modified_at", "version", "zone_id",
    "owner_id", "entry_type", "target_zone_id", "ttl_seconds", "last_writer_address", "link_target", "gen"]

  /** Every field comes back but `lost`, which comes back as `zero`, and `required` must be there. */
  ghost predicate LosesOnly(t: Tables, names: seq<string>, lost: string, zero: Value, required: string) {
    forall n, v | n in names ::
      Expected(t, n, v) == if n == lost then Some(zero) else if n == required && v.Null? then None else Some(v)
  }

  lemma ReadsBackWithLoss(t: Tables, names: seq<string>, r: Record, back: Option<Record>, lost: string, zero: Value, required: string)
    requires (forall n :: n in r <==> n in names) && ReadsBack(t, names, r, back)
    requires lost in names && required in names && lost != required && LosesOnly(t, names, lost, zero, required)
    ensures back == if r[required] == Null then None else Some(r[lost := zero])
  {
    if r[required] == Null {
      assert Expected(t, required, r[required]).None?;
    } else {
      forall n | n in names ensures Expected(t, n, r[n]) == Some(r[lost := zero][n]) {}
      assert back.value == r[lost := zero];
    }
  }

  lemma RepositoryExpects(name: string, v: Value)
    requires name in FIELDS
    ensures Expected(REPOSITORY_TABLES, name, v) ==
            if name == "ttl_seconds" then Some(Fraction(0.0)) else if name == "path" && v.Null? then None else Some(v)
  {
  }

  /** Of the repository's fields all come back but the time to live, which comes back as zero;
      a record without a path does not come back. */
  lemma RepositoryRoundTrip(clock: Clock, p: Pool, r: Record, later: Pool)
    requires RoundTrips(clock) && ValidPool(p) && ValidPool(later) && HasFields(r)
    requires Extends(ToCompact(REPOSITORY_TABLES, clock, FIELDS, p, r).1, later)
    ensures FromCompact(REPOSITORY_TABLES, clock, FIELDS, later, ToCompact(REPOSITORY_TABLES, clock, FIELDS, p, r).0) ==
            if r["path"] == Null then None else Some(r["ttl_seconds" := Fraction(0.0)])
  {
    RepositoryTablesAreOk();
    RepositoryLosesOnly();
    CompactRoundTrip(REPOSITORY_TABLES, clock, FIELDS, p, r, later);
    ReadsBackWithLoss(REPOSITORY_TABLES, FIELDS, r,
                      FromCompact(REPOSITORY_TABLES, clock, FIELDS, later, ToCompact(REPOSITORY_TABLES, clock, FIELDS, p, r).0),
                      "ttl_seconds", Fraction(0.0), "path");
  }

  lemma RepositoryLosesOnly()
    ensures LosesOnly(REPOSITORY_TABLES, FIELDS, "ttl_seconds", Fraction(0.0), "path")
    ensures "path" in FIELDS && "ttl_seconds" in FIELDS && "path" != "ttl_seconds"
  {
    forall n, v | n in FIELDS
      ensures Expected(REPOSITORY_TABLES, n, v) ==
              if n == "ttl_seconds" then Some(Fraction(0.0)) else if n == "path" && v.Null? then None else Some(v)
    {
      RepositoryExpects(n, v);
    }
    assert FIELDS[0] == "path" && FIELDS[11] == "ttl_seconds";
  }

  /** A record of the message's fields. */
  ghost predicate HasFields(r: Record)
    ensures HasFields(r) ==> "path" in r
  {
    assert FIELDS[0] == "path";
    (forall n :: n in r <==> n in FIELDS) && forall n | n in FIELDS :: IsTyped(REPOSITORY_TABLES, n, r[n])
  }
}
