/** The key-to-zone junction: the migration that creates and backfills it, the later migration
    that asserts it is populated, the key check, and registration of a custom admin key. */
module ApiKeyZones {
  import opened Prelude

  datatype ApiKey = ApiKey(hash: string, zone: Option<string>, isAdmin: bool, revoked: bool)

  /** `junction` is None until its table exists. */
  datatype Db = Db(zones: set<string>, keys: map<string, ApiKey>, junction: Option<set<(string, string)>>)

  const ROOT: string := "root"

  /* ---- creating the junction ---- */

  datatype Outcome = Migrated | RaisedInPreflight | RaisedAfterCreate

  function Seeded(db: Db): Db { db.(zones := db.zones + {ROOT}) }

  predicate IsLive(k: ApiKey) { !k.revoked }

  /** Zones of live keys, other than root, that have no zone row. */
  function Orphans(db: Db): set<string> {
    set id | id in db.keys && IsLive(db.keys[id]) && db.keys[id].zone.Some?
             && db.keys[id].zone.value != ROOT && db.keys[id].zone.value !in db.zones :: db.keys[id].zone.value
  }

  predicate HasZonelessLiveKey(db: Db) {
    exists id | id in db.keys :: IsLive(db.keys[id]) && db.keys[id].zone.None?
  }

  function Backfilled(db: Db): set<(string, string)> {
    set id | id in db.keys && IsLive(db.keys[id]) && db.keys[id].zone.Some? :: (id, db.keys[id].zone.value)
  }

  /** Seed, preflight, create, backfill. The junction's zone is not nullable, so a live key
      without a zone stops the backfill after the table has been created. */
  function Upgrade(db: Db): (Outcome, Db) {
    var seeded := Seeded(db);
    if Orphans(seeded) != {} then (RaisedInPreflight, seeded)
    else if HasZonelessLiveKey(seeded) then (RaisedAfterCreate, seeded.(junction := Some({})))
    else (Migrated, seeded.(junction := Some(Backfilled(seeded))))
  }

  /* ---- checking ---- */

  predicate HasZoneRow(db: Db, id: string, zone: string) {
    db.junction.Some? && (id, zone) in db.junction.value
  }

  predicate HasAnyRow(db: Db, id: string) {
    db.junction.Some? && exists row | row in db.junction.value :: row.0 == id
  }

  /** A live key the assertion query would list. */
  predicate IsReported(db: Db, id: string)
    requires id in db.keys
  {
    var k := db.keys[id];
    IsLive(k) && ((k.zone.Some? && !HasZoneRow(db, id, k.zone.value)) || (!k.isAdmin && !HasAnyRow(db, id)))
  }

  /** The query needs the junction table. */
  predicate AssertionRaises(db: Db)
    requires db.junction.Some?
  {
    exists id | id in db.keys :: IsReported(db, id)
  }

  datatype Answer = Exists | Missing

  /** The key with a given hash; hashes are unique. */
  predicate IsKeyOf(db: Db, hash: string, id: string) { id in db.keys && db.keys[id].hash == hash }

  ghost predicate UniqueHashes(db: Db) {
    forall a, b | a in db.keys && b in db.keys && db.keys[a].hash == db.keys[b].hash :: a == b
  }

  function CheckRow(db: Db, id: string): Answer
    requires id in db.keys
  {
    var k := db.keys[id];
    if k.revoked then Missing
    else if k.zone.Some? && !HasZoneRow(db, id, k.zone.value) then Missing
    else if !k.isAdmin && !HasAnyRow(db, id) then Missing
    else Exists
  }

  ghost function Check(db: Db, hash: string): Answer {
    if id :| IsKeyOf(db, hash, id) then CheckRow(db, id) else Missing
  }

  /** A key exists for the check when it is not revoked, has the junction row of its own zone if
      it has one, and has some junction row unless it is an admin's. */
  lemma CheckFindsRow(db: Db, id: string)
    requires UniqueHashes(db) && id in db.keys
    ensures Check(db, db.keys[id].hash) == CheckRow(db, id)
    ensures var k, rows := db.keys[id], if db.junction.Some? then db.junction.value else {};
            CheckRow(db, id) == Exists <==>
            !k.revoked && (k.zone.Some? ==> (id, k.zone.value) in rows) && (k.isAdmin || exists z :: (id, z) in rows)
  {
    assert IsKeyOf(db, db.keys[id].hash, id);
  }

  /** The assertion raises exactly when the key check calls some live key missing. */
  lemma AssertionIsTheCheck(db: Db)
    requires UniqueHashes(db) && db.junction.Some?
    ensures AssertionRaises(db) <==>
            exists id | id in db.keys :: IsLive(db.keys[id]) && Check(db, db.keys[id].hash) == Missing
  {
    forall id | id in db.keys
      ensures IsReported(db, id) <==> IsLive(db.keys[id]) && Check(db, db.keys[id].hash) == Missing
    {
      CheckFindsRow(db, id);
    }
  }

  /** The migration raises before any table is created exactly on orphan zones, and otherwise
      after it exactly on a live key without a zone. When it goes through the junction has exactly
      the zones of the live keys, all of them existing, and the later assertion passes. */
  lemma UpgradeIsAllOrNothing(db: Db)
    requires db.junction.None?
    ensures var (outcome, after) := Upgrade(db);
            && (outcome == RaisedInPreflight <==> exists id | id in db.keys ::
                  IsLive(db.keys[id]) && db.keys[id].zone.Some? && db.keys[id].zone.value !in db.zones + {ROOT})
            && after.keys == db.keys && after.zones == db.zones + {"root"}
            && (outcome == RaisedInPreflight ==> after.junction.None?) && (outcome == RaisedAfterCreate ==> after.junction == Some({}))
            && (outcome == Migrated ==> after.junction.Some? && forall id, zone :: (id, zone) in after.junction.value <==>
                  id in db.keys && !db.keys[id].revoked && db.keys[id].zone == Some(zone))
            && (outcome == Migrated ==> forall id | id in db.keys && IsLive(db.keys[id]) ::
                  db.keys[id].zone.Some? && HasZoneRow(after, id, db.keys[id].zone.value)
                  && db.keys[id].zone.value in after.zones)
            && (outcome == Migrated ==> !AssertionRaises(after) && AllLiveExist(after) && ForeignKeysHold(after))
            && (outcome == RaisedAfterCreate <==> outcome != RaisedInPreflight && HasZonelessLiveKey(db))
    ensures (forall id | id in db.keys :: db.keys[id].zone.Some?) ==> Upgrade(db).0 != RaisedAfterCreate
  {
    var (outcome, after) := Upgrade(db);
    var seeded := Seeded(db);
    if id :| id in db.keys && IsLive(db.keys[id]) && db.keys[id].zone.Some? && db.keys[id].zone.value !in db.zones + {ROOT} {
      assert db.keys[id].zone.value in Orphans(seeded);
    }
    if outcome == Migrated {
      forall id | id in db.keys && IsLive(db.keys[id])
        ensures db.keys[id].zone.Some? && HasZoneRow(after, id, db.keys[id].zone.value) && db.keys[id].zone.value in after.zones
      {
        assert (id, db.keys[id].zone.value) in Backfilled(seeded);
      }
    }
  }

  /* ---- registering a custom admin key ---- */

  /** Junction rows point at existing keys and zones. */
  ghost predicate ForeignKeysHold(db: Db) {
    db.junction.Some? && forall row | row in db.junction.value :: row.0 in db.keys && row.1 in db.zones
  }

  function WithRow(db: Db, id: string, zone: string): Option<Db>
    requires db.junction.Some?
  {
    if zone == "" || (id, zone) in db.junction.value then Some(db)
    else if zone !in db.zones then None
    else Some(db.(junction := Some(db.junction.value + {(id, zone)})))
  }

  /** An existing key, found by hash, loses its own zone and gains the junction row; a new one
      is inserted as a zoneless admin. None when the zone does not exist. */
  function RegisterExisting(db: Db, id: string, zone: string): Option<Db>
    requires db.junction.Some? && id in db.keys
  {
    WithRow(db.(keys := db.keys[id := db.keys[id].(zone := None)]), id, zone)
  }

  function RegisterNew(db: Db, hash: string, newId: string, zone: string): Option<Db>
    requires db.junction.Some?
  {
    WithRow(db.(keys := db.keys[newId := ApiKey(hash, None, true, false)]), newId, zone)
  }

  ghost predicate AllLiveExist(db: Db) {
    forall id | id in db.keys && IsLive(db.keys[id]) :: CheckRow(db, id) == Exists
  }

  /** Registering fails exactly on a named zone that does not exist. */
  lemma RegisterFailsIff(db: Db, id: string, hash: string, newId: string, zone: string)
    requires ForeignKeysHold(db) && id in db.keys
    ensures RegisterExisting(db, id, zone).None? <==> zone != "" && zone !in db.zones
    ensures newId !in db.keys ==> (RegisterNew(db, hash, newId, zone).None? <==> zone != "" && zone !in db.zones)
  {
  }

  /** Other keys and all rows stay as they are; a named zone has its row afterwards. */
  ghost predicate OnlyAdds(db: Db, after: Db, id: string, zone: string) {
    && after.zones == db.zones && (forall j | j in db.keys && j != id :: j in after.keys && after.keys[j] == db.keys[j])
    && (forall j | j in after.keys :: j in db.keys || j == id)
    && (forall z, j :: HasZoneRow(after, j, z) <==> HasZoneRow(db, j, z) || (j == id && z == zone != ""))
  }

  /** Every live key still exists, the key itself does unless it was revoked, and doing it again
      changes nothing. */
  lemma RegisterExistingKeeps(db: Db, id: string, zone: string)
    requires ForeignKeysHold(db) && UniqueHashes(db) && AllLiveExist(db) && id in db.keys
    requires RegisterExisting(db, id, zone).Some?
    ensures var after := RegisterExisting(db, id, zone).value;
            && ForeignKeysHold(after) && UniqueHashes(after) && AllLiveExist(after)
            && (CheckRow(after, id) == Exists <==> !db.keys[id].revoked)
            && after.keys[id].zone.None? && OnlyAdds(db, after, id, zone)
            && RegisterExisting(after, id, zone) == Some(after)
  {
    var after := RegisterExisting(db, id, zone).value;
    forall j | j in db.keys ensures HasAnyRow(db, j) ==> HasAnyRow(after, j) {
      if HasAnyRow(db, j) {
        var row :| row in db.junction.value && row.0 == j;
        assert row in after.junction.value;
      }
    }
    if db.keys[id].zone.Some? && HasZoneRow(db, id, db.keys[id].zone.value) {
      assert (id, db.keys[id].zone.value) in db.junction.value;
      assert HasAnyRow(db, id);
    }
    assert after.keys[id := after.keys[id].(zone := None)] == after.keys;
  }

  lemma RegisterNewKeeps(db: Db, hash: string, newId: string, zone: string)
    requires ForeignKeysHold(db) && UniqueHashes(db) && AllLiveExist(db)
    requires newId !in db.keys && (forall id | id in db.keys :: db.keys[id].hash != hash)
    requires RegisterNew(db, hash, newId, zone).Some?
    ensures var after := RegisterNew(db, hash, newId, zone).value;
            && ForeignKeysHold(after) && UniqueHashes(after) && AllLiveExist(after)
            && IsKeyOf(after, hash, newId) && CheckRow(after, newId) == Exists
            && after.keys[newId].isAdmin && after.keys[newId].zone.None? && OnlyAdds(db, after, newId, zone)
            && RegisterExisting(after, newId, zone) == Some(after)
  {
    var after := RegisterNew(db, hash, newId, zone).value;
    forall j | j in db.keys ensures HasAnyRow(db, j) ==> HasAnyRow(after, j) {
      if HasAnyRow(db, j) {
        var row :| row in db.junction.value && row.0 == j;
        assert row in after.junction.value;
      }
    }
    assert after.keys[newId := after.keys[newId].(zone := None)] == after.keys;
  }

  class KeyStore {
    var zones: set<string>
    var keys: map<string, ApiKey>
    var junction: Option<set<(string, string)>>

    ghost function Contents(): Db reads this { Db(zones, keys, junction) }

    constructor (db: Db)
      ensures Contents() == db
    {
      zones, keys, junction := db.zones, db.keys, db.junction;
    }

    /** The junction migration; a rollback after a failure is the caller's. */
    method CreateJunction() returns (outcome: Outcome)
      requires junction.None?
      modifies this
      ensures (outcome, Contents()) == Upgrade(old(Contents()))
    {
      if ROOT !in zones { zones := zones + {ROOT}; }
      assert Contents() == Seeded(old(Contents()));
      var orphans := set id | id in keys && !keys[id].revoked && keys[id].zone.Some?
                              && keys[id].zone.value != ROOT && keys[id].zone.value !in zones :: keys[id].zone.value;
      assert orphans == Orphans(Contents());
      if orphans != {} {
        return RaisedInPreflight;
      }
      junction := Some({});
      if exists id | id in keys :: !keys[id].revoked && keys[id].zone.None? {
        return RaisedAfterCreate;
      }
      junction := Some(set id | id in keys && !keys[id].revoked && keys[id].zone.Some? :: (id, keys[id].zone.value));
      assert junction.value == Backfilled(Seeded(old(Contents())));
      return Migrated;
    }

    /** The custom-key branch of the admin-key script; `newId` is the id a new row would get. */
    method RegisterCustomKey(hash: string, newId: string, zone: string) returns (ok: bool)
      requires ForeignKeysHold(Contents()) && UniqueHashes(Contents()) && newId !in keys
      modifies this
      ensures ok <==> zone == "" || zone in zones
      ensures !ok ==> Contents() == old(Contents())
      ensures ok ==> if id :| IsKeyOf(old(Contents()), hash, id)
                     then RegisterExisting(old(Contents()), id, zone) == Some(Contents())
                     else RegisterNew(old(Contents()), hash, newId, zone) == Some(Contents())
      ensures ok && old(AllLiveExist(Contents())) ==> AllLiveExist(Contents()) && ForeignKeysHold(Contents())
    {
      ghost var db := Contents();
      var found := exists id | id in keys :: keys[id].hash == hash;
      var id := newId;
      var newKeys := keys;
      if found {
        id :| id in keys && keys[id].hash == hash;
        assert IsKeyOf(db, hash, id);
        newKeys := keys[id := keys[id].(zone := None)];
      } else {
        newKeys := keys[id := ApiKey(hash, None, true, false)];
      }
      if zone != "" && (id, zone) !in junction.value {
        if zone !in zones { return false; }
        junction := Some(junction.value + {(id, zone)});
      }
      keys := newKeys;
      if AllLiveExist(db) {
        if found { RegisterExistingKeeps(db, id, zone); } else { RegisterNewKeeps(db, hash, newId, zone); }
      }
      return true;
    }
  }
}
