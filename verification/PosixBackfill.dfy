/** Filling `posix_uid` from `direct_owner` tuples: the batch loop of the script, the single
    UPDATE it stands for, and what the result means to the permission check. */
module PosixBackfill {
  import opened Prelude
  import opened RebacGraph
  import opened FileNamespace
  import opened Inheritance

  datatype FileRow = FileRow(path: string, uid: Option<string>, deleted: bool)

  /** `file_paths`, by path id. */
  type Files = map<string, FileRow>

  datatype JoinRow = JoinRow(id: string, owner: string)

  /* ---- the queries ---- */

  predicate OwnsPath(t: Tuple, path: string) {
    t.relation == "direct_owner" && t.target == Entity("file", path)
  }

  predicate IsOwnerId(tuples: seq<Tuple>, path: string, owner: string) {
    exists t | t in tuples :: OwnsPath(t, path) && t.subject.id == owner
  }

  predicate IsOpen(f: FileRow) { f.uid.None? && !f.deleted }

  /** The join of open files with their owner tuples. */
  predicate IsJoinRow(tuples: seq<Tuple>, files: Files, r: JoinRow) {
    r.id in files && IsOpen(files[r.id]) && IsOwnerId(tuples, files[r.id].path, r.owner)
  }

  predicate IsPending(tuples: seq<Tuple>, f: FileRow) {
    IsOpen(f) && exists t | t in tuples :: OwnsPath(t, f.path)
  }

  function Pending(tuples: seq<Tuple>, files: Files): set<string> {
    set id | id in files && IsPending(tuples, files[id])
  }

  /** `SELECT ... LIMIT :batch_size`: some join rows in some order, a file as often as it has
      owner tuples, and none only when there is nothing to select. */
  type Select = Files -> seq<JoinRow>

  ghost predicate IsSelect(tuples: seq<Tuple>, batchSize: nat, select: Select) {
    forall files ::
      && |select(files)| <= batchSize
      && (forall r | r in select(files) :: IsJoinRow(tuples, files, r))
      && (select(files) == [] ==> Pending(tuples, files) == {})
  }

  /** The effect of the single UPDATE: every file that has owner tuples, no owner yet and is not
      deleted gets one of its owners, and nothing else changes. */
  ghost predicate IsBackfill(tuples: seq<Tuple>, before: Files, after: Files) {
    && after.Keys == before.Keys
    && forall id | id in before ::
         if before[id].uid == None && !before[id].deleted && (exists t | t in tuples :: OwnsPath(t, before[id].path))
         then after[id].uid.Some? && IsOwnerId(tuples, before[id].path, after[id].uid.value)
              && after[id] == before[id].(uid := after[id].uid)
         else after[id] == before[id]
  }

  /* ---- the loop ---- */

  /** Part of the backfill: some pending files have got an owner, the rest is untouched. */
  ghost predicate IsPartial(tuples: seq<Tuple>, before: Files, after: Files) {
    && after.Keys == before.Keys
    && forall id | id in before ::
         after[id] == before[id] ||
         (IsPending(tuples, before[id]) && after[id].uid.Some?
          && IsOwnerId(tuples, before[id].path, after[id].uid.value)
          && after[id] == before[id].(uid := after[id].uid))
  }

  lemma PendingShrinks(tuples: seq<Tuple>, before: Files, after: Files)
    requires IsPartial(tuples, before, after)
    ensures Pending(tuples, after) <= Pending(tuples, before)
  {
  }

  /** Applies one batch; every row was pending when it was selected, so a file selected twice
      ends with the last of its owners. */
  method ApplyBatch(tuples: seq<Tuple>, files: Files, rows: seq<JoinRow>, updated: nat)
    returns (after: Files, count: nat)
    requires forall r | r in rows :: IsJoinRow(tuples, files, r)
    ensures IsPartial(tuples, files, after) && count == updated + |rows|
    ensures forall r | r in rows :: r.id in after && after[r.id].uid.Some?
    ensures |Pending(tuples, files)| <= |Pending(tuples, after)| + |rows|
  {
    after, count := files, updated;
    for i := 0 to |rows|
      invariant IsPartial(tuples, files, after) && count == updated + i
      invariant forall j | 0 <= j < i :: rows[j].id in after && after[rows[j].id].uid.Some?
      invariant |Pending(tuples, files)| <= |Pending(tuples, after)| + i
    {
      var r := rows[i];
      assert r in rows;
      ghost var pending := Pending(tuples, after);
      after := after[r.id := after[r.id].(uid := Some(r.owner))];
      assert Pending(tuples, after) == pending - {r.id};
      count := count + 1;
    }
  }

  /** The live SQLite loop. For every batch size of at least one it ends with the effect of the
      single UPDATE, having counted the rows it applied: owners of files that wanted one, and at
      least one for each such file. */
  method Backfill(tuples: seq<Tuple>, files: Files, batchSize: nat, select: Select)
    returns (after: Files, updated: nat, ghost applied: seq<JoinRow>)
    requires batchSize >= 1 && IsSelect(tuples, batchSize, select)
    ensures IsBackfill(tuples, files, after)
    ensures forall id | id in files && (files[id].deleted || files[id].uid.Some?) :: after[id] == files[id]
    ensures updated == |applied| >= |Pending(tuples, files)| && forall r | r in applied :: IsJoinRow(tuples, files, r)
  {
    after, updated, applied := files, 0, [];
    while true
      invariant IsPartial(tuples, files, after)
      invariant updated == |applied| && forall r | r in applied :: IsJoinRow(tuples, files, r)
      invariant |Pending(tuples, files)| <= |Pending(tuples, after)| + updated
      decreases |Pending(tuples, after)|
    {
      var rows := select(after);
      if rows == [] { break; }
      ghost var before := after;
      assert IsJoinRow(tuples, before, rows[0]);
      after, updated := ApplyBatch(tuples, after, rows, updated);
      JoinRowsWereThere(tuples, files, before, rows);
      applied := applied + rows;
      PendingShrinks(tuples, before, after);
      assert rows[0].id in Pending(tuples, before) && rows[0].id !in Pending(tuples, after);
      SubsetCardinality(Pending(tuples, after), Pending(tuples, before));
      PartialComposes(tuples, files, before, after);
    }
    FinishedIsBackfill(tuples, files, after);
  }

  lemma JoinRowsWereThere(tuples: seq<Tuple>, files: Files, later: Files, rows: seq<JoinRow>)
    requires IsPartial(tuples, files, later) && forall r | r in rows :: IsJoinRow(tuples, later, r)
    ensures forall r | r in rows :: IsJoinRow(tuples, files, r)
  {
  }

  lemma PartialComposes(tuples: seq<Tuple>, a: Files, b: Files, c: Files)
    requires IsPartial(tuples, a, b) && IsPartial(tuples, b, c)
    ensures IsPartial(tuples, a, c)
  {
  }

  lemma FinishedIsBackfill(tuples: seq<Tuple>, before: Files, after: Files)
    requires IsPartial(tuples, before, after) && Pending(tuples, after) == {}
    ensures IsBackfill(tuples, before, after)
  {
    forall id | id in before && IsPending(tuples, before[id]) ensures after[id].uid.Some? {
      assert id !in Pending(tuples, after);
    }
  }

  /* ---- what the result is ---- */

  /** After a backfill nothing is pending: running it again changes nothing. */
  lemma BackfillIsIdempotent(tuples: seq<Tuple>, before: Files, after: Files, again: Files)
    requires IsBackfill(tuples, before, after) && IsBackfill(tuples, after, again)
    ensures again == after && Pending(tuples, after) == {}
  {
    assert forall id | id in after :: again[id] == after[id];
  }

  ghost predicate OneOwner(tuples: seq<Tuple>) {
    forall t, u, path | t in tuples && u in tuples && OwnsPath(t, path) && OwnsPath(u, path) :: t.subject.id == u.subject.id
  }

  /** If no file has two owners, all forms of the backfill give the same table. */
  lemma BackfillIsDetermined(tuples: seq<Tuple>, before: Files, a: Files, b: Files)
    requires OneOwner(tuples) && IsBackfill(tuples, before, a) && IsBackfill(tuples, before, b)
    ensures a == b
  {
    forall id | id in before ensures a[id] == b[id] {
      if IsPending(tuples, before[id]) {
        var t :| t in tuples && OwnsPath(t, before[id].path) && t.subject.id == a[id].uid.value;
        var u :| u in tuples && OwnsPath(u, before[id].path) && u.subject.id == b[id].uid.value;
      }
    }
  }

  /* ---- what it means to the permission check ---- */

  lemma OwnerExecutes(w: World, c: Config, s: Entity, f: Entity)
    requires HasFileRules(w, c) && f.kind == "file" && ByTuple(w.tuples, Key(s, DirectName(Owner), f))
    ensures Derivable(w, 3, Key(s, PermissionName(Execute), f))
  {
    DirectStep(w, c, 1, s, Owner, f);
    UnionStep(w, c, 2, s, Owner, f);
    PermissionStep(w, c, 3, s, Execute, f);
    assert Owner in GrantingLevels(Execute);
  }

  /** The holder of a direct owner tuple may execute, under every configuration. */
  lemma OwnerMayExecute(tuples: seq<Tuple>, c: Config, others: map<string, Namespace>, s: Entity, f: Entity)
    requires MemberIsBase(others) && f.kind == "file" && ByTuple(tuples, Key(s, DirectName(Owner), f))
    ensures Allowed(tuples, c, others, s, Execute, f)
  {
    FileWorldHasFileRules(tuples, c, others);
    OwnerExecutes(FileWorld(tuples, c, others), c, s, f);
  }

  /** The owner tuples of a path that name users themselves, unconditionally. */
  predicate IsUserOwner(t: Tuple) {
    t.subject.kind == "user" && t.subjectRelation == None && !t.conditioned
  }

  /** So the O(1) owner check is sound for a file whose owner tuples all name users: whoever
      the backfill makes its owner may execute it, before and after the namespace migration. */
  lemma BackfilledOwnerMayExecute(tuples: seq<Tuple>, c: Config, others: map<string, Namespace>,
                                  before: Files, after: Files, id: string)
    requires MemberIsBase(others) && IsBackfill(tuples, before, after)
    requires id in after && after[id].uid.Some? && after[id] != before[id]
    requires forall t | t in tuples && OwnsPath(t, after[id].path) :: IsUserOwner(t)
    ensures Allowed(tuples, c, others, Entity("user", after[id].uid.value), Execute, Entity("file", after[id].path))
  {
    var path, owner := before[id].path, after[id].uid.value;
    var t :| t in tuples && OwnsPath(t, path) && t.subject.id == owner;
    assert IsDirectMatch(t, Key(Entity("user", owner), DirectName(Owner), Entity("file", path)));
    OwnerMayExecute(tuples, c, others, Entity("user", owner), Entity("file", path));
  }

  /** What a configuration permits, read off the tuples. */
  ghost predicate IsPermitted(tuples: seq<Tuple>, c: Config, s: Entity, f: Entity) {
    if c.Flattened? then PermittedWithin(HoldingsOf(tuples, s), Execute, f, 1, 0) else PermittedAnywhere(HoldingsOf(tuples, s), Execute, f)
  }

  lemma PermittedIsAllowed(tuples: seq<Tuple>, c: Config, others: map<string, Namespace>, s: Entity, f: Entity)
    requires MemberIsBase(others) && ParentsAreFiles(tuples) && f.kind == "file"
    ensures Allowed(tuples, c, others, s, Execute, f) <==> IsPermitted(tuples, c, s, f)
  {
    if c.Flattened? { FlattenedGrants(tuples, others, s, Execute, f); }
    else { RecursiveGrants(tuples, c.nested, others, s, Execute, f); }
  }

  /** Whoever the backfill makes owner of the file may execute it. */
  ghost predicate OwnerPathIsSound(tuples: seq<Tuple>, c: Config, others: map<string, Namespace>, before: Files, id: string)
    requires id in before
  {
    forall after: Files | IsBackfill(tuples, before, after) && after[id] != before[id] ::
      Allowed(tuples, c, others, Entity("user", after[id].uid.value), Execute, Entity("file", before[id].path))
  }

  /** A backfill that takes a given tuple's subject for a given file, and any owner for the others. */
  lemma BackfillWith(tuples: seq<Tuple>, before: Files, id: string, t: Tuple) returns (after: Files)
    requires id in before && IsOpen(before[id]) && t in tuples && OwnsPath(t, before[id].path)
    ensures IsBackfill(tuples, before, after) && after[id].uid == Some(t.subject.id)
  {
    after := map i | i in before ::
      if i == id then before[i].(uid := Some(t.subject.id))
      else if IsPending(tuples, before[i]) then before[i].(uid := Some(SomeOwner(tuples, before[i])))
      else before[i];
  }

  ghost function SomeOwner(tuples: seq<Tuple>, f: FileRow): string
    requires IsPending(tuples, f)
    ensures IsOwnerId(tuples, f.path, SomeOwner(tuples, f))
  {
    var t :| t in tuples && OwnsPath(t, f.path);
    t.subject.id
  }

  /** For a file the backfill may set, the owner check is sound exactly when the user named by
      each owner tuple of its path, whatever kind of subject that tuple has, is permitted. */
  lemma OwnerPathIsSoundIff(tuples: seq<Tuple>, c: Config, others: map<string, Namespace>, before: Files, id: string)
    requires MemberIsBase(others) && ParentsAreFiles(tuples) && id in before && IsOpen(before[id])
    ensures OwnerPathIsSound(tuples, c, others, before, id) <==>
            forall t | t in tuples && OwnsPath(t, before[id].path) ::
              IsPermitted(tuples, c, Entity("user", t.subject.id), Entity("file", before[id].path))
  {
    var f := Entity("file", before[id].path);
    forall t | t in tuples && OwnsPath(t, before[id].path)
      ensures Allowed(tuples, c, others, Entity("user", t.subject.id), Execute, f) <==>
              IsPermitted(tuples, c, Entity("user", t.subject.id), f)
      ensures OwnerPathIsSound(tuples, c, others, before, id) ==>
              Allowed(tuples, c, others, Entity("user", t.subject.id), Execute, f)
    {
      PermittedIsAllowed(tuples, c, others, Entity("user", t.subject.id), f);
      var after := BackfillWith(tuples, before, id, t);
    }
  }

  /** For instance a file owned by a group gets the group's id as its owner, and the user of
      that id may not execute it. */
  lemma GroupOwnerIsUnsound(c: Config, group: string, path: string, id: string)
    ensures var tuples := [Tuple(Entity("group", group), "direct_owner", Entity("file", path), None, false)];
            var before := map[id := FileRow(path, None, false)];
            && !OwnerPathIsSound(tuples, c, map[], before, id)
            && !Allowed(tuples, c, map[], Entity("user", group), Execute, Entity("file", path))
  {
    var t := Tuple(Entity("group", group), "direct_owner", Entity("file", path), None, false);
    var tuples, before := [t], map[id := FileRow(path, None, false)];
    assert t in tuples && OwnsPath(t, path);
    GroupTupleGrantsNobody(t, Entity("user", group), Entity("file", path));
    PermittedIsAllowed(tuples, c, map[], Entity("user", group), Entity("file", path));
    OwnerPathIsSoundIff(tuples, c, map[], before, id);
  }

  lemma GroupTupleGrantsNobody(t: Tuple, s: Entity, f: Entity)
    requires t.subject.kind == "group" && s.kind == "user" && t.relation == "direct_owner"
    ensures !PermittedAnywhere(HoldingsOf([t], s), Execute, f) && !PermittedWithin(HoldingsOf([t], s), Execute, f, 1, 0)
  {
    forall l, g ensures !ByTuple([t], Key(s, DirectName(l), g)) && !GroupHolds([t], s, DirectName(l), g) {
      assert WILDCARD.kind == "*";
      assert forall e :: !ByTuple([t], Key(s, "member", e));
    }
  }
}
