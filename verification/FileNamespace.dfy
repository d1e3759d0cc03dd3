/** The two `file` namespace configurations of the flattening migration, and what each of
    them grants: the recursive (old) one, the flattened (new) one, and the recursive one
    as the depth-limited evaluator sees it. */
module FileNamespace {
  import opened Prelude
  import opened RebacGraph
  import opened BulkEvaluator
  import opened Inheritance

  const PERMISSIONS: map<string, Rewrite> := map[
    "read" := Union(["viewer", "editor", "owner"]),
    "write" := Union(["editor", "owner"]),
    "execute" := Union(["owner"])
  ]

  /** The relations both configurations share. */
  const COMMON: map<string, Rewrite> := map[
    "parent" := Direct,
    "direct_owner" := Direct,
    "direct_editor" := Direct,
    "direct_viewer" := Direct,
    "group_owner" := TupleToUserset("direct_owner", "member"),
    "group_editor" := TupleToUserset("direct_editor", "member"),
    "group_viewer" := TupleToUserset("direct_viewer", "member"),
    "owner" := Union(["direct_owner", "parent_owner", "group_owner"]),
    "viewer" := Union(["direct_viewer", "parent_viewer", "group_viewer"])
  ]

  /** The flattened configuration, or the recursive one with or without `owner` nested in
      the `editor` union. */
  datatype Config = Flattened | Recursive(nested: bool)

  function NamespaceOf(c: Config): Namespace {
    match c
    case Recursive(nested) => Namespace(PERMISSIONS, COMMON + map[
        "parent_owner" := TupleToUserset("parent", "owner"),
        "parent_editor" := TupleToUserset("parent", "editor"),
        "parent_viewer" := TupleToUserset("parent", "viewer"),
        "editor" := Union(if nested then ["direct_editor", "parent_editor", "group_editor", "owner"]
                          else ["direct_editor", "parent_editor", "group_editor"])
      ])
    case Flattened => Namespace(PERMISSIONS, COMMON + map[
        "parent_owner" := TupleToUserset("parent", "direct_owner"),
        "parent_editor" := TupleToUserset("parent", "direct_editor"),
        "parent_viewer" := TupleToUserset("parent", "direct_viewer"),
        "editor" := Union(["direct_editor", "parent_editor", "group_editor"])
      ])
  }

  const OLD_CONFIG: Config := Recursive(true)
  const NEW_CONFIG: Config := Flattened

  /** Checks of files meet no exclusion, so it does not matter what is held. */
  function FileWorld(tuples: seq<Tuple>, c: Config, others: map<string, Namespace>): World {
    World(tuples, others["file" := NamespaceOf(c)], {})
  }

  /* ---- well-formed stores ---- */

  /** `member` is a base relation of every other namespace, as it is of groups. */
  predicate MemberIsBase(others: map<string, Namespace>) {
    forall kind | kind in others :: "member" !in others[kind].permissions
      && ("member" in others[kind].relations ==> others[kind].relations["member"] == Direct)
  }

  /** `parent` is structural: a file's parent is a directory, which is a file too. */
  predicate ParentsAreFiles(tuples: seq<Tuple>) {
    forall t | t in tuples && t.relation == "parent" && t.subject.kind == "file" :: t.target.kind == "file"
  }

  function Parents(tuples: seq<Tuple>, f: Entity): seq<Entity> {
    FindRelatedObjects(f, "parent", tuples)
  }

  /* ---- grants read off the tuples ---- */

  function DirectName(l: Level): string {
    match l case Owner => "direct_owner" case Editor => "direct_editor" case Viewer => "direct_viewer"
  }

  function PermissionName(permission: Permission): string {
    match permission case Read => "read" case Write => "write" case Execute => "execute"
  }

  /** The subject is a member of a group that an unconditioned tuple of the relation joins to
      the object. */
  predicate GroupHolds(tuples: seq<Tuple>, s: Entity, relation: string, e: Entity) {
    exists t | t in tuples && !t.conditioned && t.relation == relation ::
      || (t.target == e && ByTuple(tuples, Key(s, "member", t.subject)))
      || (t.subject == e && ByTuple(tuples, Key(s, "member", t.target)))
  }

  lemma GroupHoldsByRelated(tuples: seq<Tuple>, s: Entity, relation: string, e: Entity)
    requires relation != "parent"
    ensures GroupHolds(tuples, s, relation, e) <==>
            exists g | g in Related(e, relation, tuples) :: HasDirect(tuples, Key(s, "member", g))
  {
    if g :| g in Related(e, relation, tuples) && HasDirect(tuples, Key(s, "member", g)) {
      RelatedIsExact(e, relation, tuples, g);
      assert ByTuple(tuples, Key(s, "member", g));
    }
    if t :| t in tuples && !t.conditioned && t.relation == relation && t.target == e && ByTuple(tuples, Key(s, "member", t.subject)) {
      RelatedIsExact(e, relation, tuples, t.subject);
    }
    if t :| t in tuples && !t.conditioned && t.relation == relation && t.subject == e && ByTuple(tuples, Key(s, "member", t.target)) {
      RelatedIsExact(e, relation, tuples, t.target);
    }
  }

  function ParentsOf(tuples: seq<Tuple>): Entity -> seq<Entity> { (f: Entity) => Parents(tuples, f) }

  /** What the tuples give a subject. */
  function HoldingsOf(tuples: seq<Tuple>, s: Entity): Holdings<Entity> {
    Holdings(ParentsOf(tuples), (l: Level, f: Entity) => ByTuple(tuples, Key(s, DirectName(l), f)),
             (l: Level, f: Entity) => GroupHolds(tuples, s, DirectName(l), f))
  }

  /* ---- one level of the hierarchy, one rewrite at a time ---- */

  function ParentName(l: Level): string {
    match l case Owner => "parent_owner" case Editor => "parent_editor" case Viewer => "parent_viewer"
  }

  function GroupName(l: Level): string {
    match l case Owner => "group_owner" case Editor => "group_editor" case Viewer => "group_viewer"
  }

  function UnionName(l: Level): string {
    match l case Owner => "owner" case Editor => "editor" case Viewer => "viewer"
  }

  function ComputedName(c: Config, l: Level): string {
    if c.Flattened? then DirectName(l) else UnionName(l)
  }

  function UnionMembers(c: Config, l: Level): seq<string> {
    [DirectName(l), ParentName(l), GroupName(l)]
    + if c == Recursive(true) && l == Editor then [UnionName(Owner)] else []
  }

  function PermissionMembers(permission: Permission): seq<string> {
    match permission
    case Read => [UnionName(Viewer), UnionName(Editor), UnionName(Owner)]
    case Write => [UnionName(Editor), UnionName(Owner)]
    case Execute => [UnionName(Owner)]
  }

  /** The rewrites of a world for one subject, level and file. */
  predicate HasLevelRules(w: World, c: Config, s: Entity, l: Level, f: Entity) {
    && Expand(w, Key(s, DirectName(l), f)) == Leaf(HasDirect(w.tuples, Key(s, DirectName(l), f)), true)
    && Expand(w, Key(s, GroupName(l), f)) ==
       AnyOf(EntityKeys(Key(s, GroupName(l), f), "member", Related(f, DirectName(l), w.tuples)))
    && Expand(w, Key(s, ParentName(l), f)) ==
       AnyOf(EntityKeys(Key(s, ParentName(l), f), ComputedName(c, l), Parents(w.tuples, f)))
    && Expand(w, Key(s, UnionName(l), f)) == AnyOf(MemberKeys(Key(s, UnionName(l), f), UnionMembers(c, l)))
  }

  predicate HasMemberRule(w: World, s: Entity, g: Entity) {
    var rule := Expand(w, Key(s, "member", g));
    rule.Leaf? && rule.granted == HasDirect(w.tuples, Key(s, "member", g))
  }

  predicate HasPermissionRule(w: World, s: Entity, p: Permission, f: Entity) {
    Expand(w, Key(s, PermissionName(p), f)) == AnyOf(MemberKeys(Key(s, PermissionName(p), f), PermissionMembers(p)))
  }

  /** The world rewrites files as the configuration says, and `member` is a base relation. */
  ghost predicate HasFileRules(w: World, c: Config) {
    && (forall s, l, f: Entity | f.kind == "file" :: HasLevelRules(w, c, s, l, f))
    && (forall s, g :: HasMemberRule(w, s, g))
    && (forall s, p: Permission, f: Entity | f.kind == "file" :: HasPermissionRule(w, s, p, f))
  }

  lemma BaseLookups(c: Config, l: Level)
    ensures var ns := NamespaceOf(c);
            && DirectName(l) !in ns.permissions && DirectName(l) in ns.relations && ns.relations[DirectName(l)] == Direct
            && GroupName(l) !in ns.permissions && GroupName(l) in ns.relations
            && ns.relations[GroupName(l)] == TupleToUserset(DirectName(l), "member")
  {
    match l case Owner => case Editor => case Viewer =>
  }

  lemma ParentLookup(c: Config, l: Level)
    ensures var ns := NamespaceOf(c);
            && ParentName(l) !in ns.permissions && ParentName(l) in ns.relations
            && ns.relations[ParentName(l)] == TupleToUserset("parent", ComputedName(c, l))
  {
    match l case Owner => case Editor => case Viewer =>
  }

  lemma UnionLookup(c: Config, l: Level)
    ensures var ns := NamespaceOf(c);
            && UnionName(l) !in ns.permissions && UnionName(l) in ns.relations
            && ns.relations[UnionName(l)] == Union(UnionMembers(c, l)) && UsableMembers(UnionMembers(c, l))
  {
    match l case Owner => case Editor => case Viewer =>
  }

  lemma PermissionLookup(c: Config, permission: Permission)
    ensures var ns := NamespaceOf(c);
            && PermissionName(permission) in ns.permissions
            && ns.permissions[PermissionName(permission)] == Union(PermissionMembers(permission))
            && UsableMembers(PermissionMembers(permission))
  {
    match permission case Read => case Write => case Execute =>
  }

  lemma MemberLookup(c: Config)
    ensures "member" !in NamespaceOf(c).permissions && "member" !in NamespaceOf(c).relations
  {
  }

  lemma LevelRules(w: World, c: Config, s: Entity, l: Level, f: Entity)
    requires "file" in w.namespaces && w.namespaces["file"] == NamespaceOf(c) && f.kind == "file"
    ensures HasLevelRules(w, c, s, l, f)
  {
    BaseLookups(c, l);
    ParentLookup(c, l);
    UnionLookup(c, l);
    assert Related(f, "parent", w.tuples) == Parents(w.tuples, f);
  }

  /** The configuration's tables amount to those rules. */
  lemma FileWorldHasFileRules(tuples: seq<Tuple>, c: Config, others: map<string, Namespace>)
    requires MemberIsBase(others)
    ensures HasFileRules(FileWorld(tuples, c, others), c)
  {
    var w := FileWorld(tuples, c, others);
    forall s, l, f: Entity | f.kind == "file" ensures HasLevelRules(w, c, s, l, f) {
      LevelRules(w, c, s, l, f);
    }
    MemberLookup(c);
    forall s, p: Permission, f: Entity | f.kind == "file"
      ensures HasPermissionRule(w, s, p, f)
    {
      PermissionLookup(c, p);
    }
    forall s, g ensures HasMemberRule(w, s, g) {
    }
  }

  /* ---- derivations level by level ---- */

  lemma DirectStep(w: World, c: Config, n: nat, s: Entity, l: Level, f: Entity)
    requires HasFileRules(w, c) && f.kind == "file"
    ensures Derivable(w, n, Key(s, DirectName(l), f)) <==> n >= 1 && ByTuple(w.tuples, Key(s, DirectName(l), f))
  {
    assert HasLevelRules(w, c, s, l, f);
    DirectIsByTuple(w.tuples, Key(s, DirectName(l), f));
  }

  lemma GroupStep(w: World, c: Config, n: nat, s: Entity, l: Level, f: Entity)
    requires HasFileRules(w, c) && f.kind == "file"
    ensures Derivable(w, n, Key(s, GroupName(l), f)) <==> n >= 2 && GroupHolds(w.tuples, s, DirectName(l), f)
  {
    assert HasLevelRules(w, c, s, l, f);
    DerivableUserset(w, n, Key(s, GroupName(l), f), "member", Related(f, DirectName(l), w.tuples));
    GroupHoldsByRelated(w.tuples, s, DirectName(l), f);
    if n >= 1 {
      forall g ensures Derivable(w, n - 1, Key(s, "member", g)) <==> n >= 2 && HasDirect(w.tuples, Key(s, "member", g)) {
        assert HasMemberRule(w, s, g);
      }
    }
  }

  lemma ParentStep(w: World, c: Config, n: nat, s: Entity, l: Level, f: Entity)
    requires HasFileRules(w, c) && f.kind == "file"
    ensures Derivable(w, n, Key(s, ParentName(l), f)) <==>
            n >= 1 && exists p | p in Parents(w.tuples, f) :: Derivable(w, n - 1, Key(s, ComputedName(c, l), p))
  {
    assert HasLevelRules(w, c, s, l, f);
    DerivableUserset(w, n, Key(s, ParentName(l), f), ComputedName(c, l), Parents(w.tuples, f));
  }

  lemma UnionMembersAre(c: Config, l: Level, m: string)
    ensures m in UnionMembers(c, l) <==>
            (|| m == DirectName(l) || m == ParentName(l) || m == GroupName(l)
             || (c == Recursive(true) && l == Editor && m == UnionName(Owner)))
  {
    assert [DirectName(l), ParentName(l), GroupName(l)] <= UnionMembers(c, l);
  }

  /** Whether some member of a union holds. */
  ghost predicate ByMember(w: World, c: Config, n: nat, s: Entity, l: Level, f: Entity) {
    || Derivable(w, n, Key(s, DirectName(l), f)) || Derivable(w, n, Key(s, ParentName(l), f))
    || Derivable(w, n, Key(s, GroupName(l), f))
    || (c == Recursive(true) && l == Editor && Derivable(w, n, Key(s, UnionName(Owner), f)))
  }

  lemma SomeMember(w: World, c: Config, n: nat, s: Entity, l: Level, f: Entity)
    ensures (exists m | m in UnionMembers(c, l) :: Derivable(w, n, Key(s, m, f))) <==> ByMember(w, c, n, s, l, f)
  {
    UnionMembersAre(c, l, DirectName(l));
    UnionMembersAre(c, l, ParentName(l));
    UnionMembersAre(c, l, GroupName(l));
    UnionMembersAre(c, l, UnionName(Owner));
    if m :| m in UnionMembers(c, l) && Derivable(w, n, Key(s, m, f)) { UnionMembersAre(c, l, m); }
  }

  lemma UnionStep(w: World, c: Config, n: nat, s: Entity, l: Level, f: Entity)
    requires HasFileRules(w, c) && f.kind == "file"
    ensures Derivable(w, n, Key(s, UnionName(l), f)) <==> n >= 1 && ByMember(w, c, n - 1, s, l, f)
  {
    assert HasLevelRules(w, c, s, l, f);
    DerivableUnion(w, n, Key(s, UnionName(l), f), UnionMembers(c, l));
    if n >= 1 { SomeMember(w, c, n - 1, s, l, f); }
  }

  lemma PermissionMembersAre(permission: Permission, m: string)
    ensures m in PermissionMembers(permission) <==> exists l | l in GrantingLevels(permission) :: m == UnionName(l)
  {
  }

  lemma PermissionStep(w: World, c: Config, n: nat, s: Entity, permission: Permission, f: Entity)
    requires HasFileRules(w, c) && f.kind == "file"
    ensures Derivable(w, n, Key(s, PermissionName(permission), f)) <==>
            n >= 1 && exists l | l in GrantingLevels(permission) :: Derivable(w, n - 1, Key(s, UnionName(l), f))
  {
    assert HasPermissionRule(w, s, permission, f);
    DerivableUnion(w, n, Key(s, PermissionName(permission), f), PermissionMembers(permission));
    forall m ensures m in PermissionMembers(permission) <==>
                     exists l | l in GrantingLevels(permission) :: m == UnionName(l)
    {
      PermissionMembersAre(permission, m);
    }
  }

  lemma ParentIsFile(tuples: seq<Tuple>, f: Entity, p: Entity)
    requires ParentsAreFiles(tuples) && f.kind == "file" && p in Parents(tuples, f)
    ensures p.kind == "file"
  {
    FindRelatedObjectsIsExact(f, "parent", tuples, p);
  }

  /* ---- closed forms ---- */

  /** The unions of a subject by height. */
  function Unions(w: World, s: Entity): ByHeight<Entity> {
    (n: nat, l: Level, f: Entity) => Derivable(w, n, Key(s, UnionName(l), f))
  }

  predicate IsFile(e: Entity) { e.kind == "file" }

  ghost predicate ParentUnion(w: World, n: nat, s: Entity, l: Level, f: Entity) {
    exists p | p in Parents(w.tuples, f) :: Derivable(w, n, Key(s, UnionName(l), p))
  }

  /** The recursive law before it is read as one about holdings. */
  ghost predicate IsRecursive(w: World, nested: bool, n: nat, s: Entity, l: Level, f: Entity) {
    Derivable(w, n, Key(s, UnionName(l), f)) <==>
    (|| (n >= 2 && ByTuple(w.tuples, Key(s, DirectName(l), f))) || (n >= 3 && GroupHolds(w.tuples, s, DirectName(l), f))
     || (n >= 2 && ParentUnion(w, n - 2, s, l, f))
     || (n >= 1 && nested && l == Editor && Derivable(w, n - 1, Key(s, UnionName(Owner), f))))
  }

  lemma RecursiveDerivable(w: World, nested: bool, n: nat, s: Entity, l: Level, f: Entity)
    requires HasFileRules(w, Recursive(nested)) && f.kind == "file"
    ensures IsRecursive(w, nested, n, s, l, f)
  {
    UnionStep(w, Recursive(nested), n, s, l, f);
    if n >= 1 {
      DirectStep(w, Recursive(nested), n - 1, s, l, f);
      GroupStep(w, Recursive(nested), n - 1, s, l, f);
      ParentStep(w, Recursive(nested), n - 1, s, l, f);
    }
  }

  lemma RecursiveUnion(w: World, nested: bool, n: nat, s: Entity, l: Level, f: Entity)
    requires IsRecursive(w, nested, n, s, l, f)
    ensures RecursiveLaw(Unions(w, s), HoldingsOf(w.tuples, s), nested, n, l, f)
  {
    var u, t := Unions(w, s), HoldingsOf(w.tuples, s);
    assert t.direct(l, f) == ByTuple(w.tuples, Key(s, DirectName(l), f));
    assert t.group(l, f) == GroupHolds(w.tuples, s, DirectName(l), f);
    if n >= 2 {
      var m := n - 2;
      assert forall p :: u(m, l, p) == Derivable(w, m, Key(s, UnionName(l), p));
      assert SomeParent(u, t, m, l, f) == ParentUnion(w, m, s, l, f);
    }
  }

  lemma RecursiveUnions(w: World, nested: bool, s: Entity)
    requires HasFileRules(w, Recursive(nested)) && ParentsAreFiles(w.tuples)
    ensures ObeysRecursive(Unions(w, s), HoldingsOf(w.tuples, s), IsFile, nested)
  {
    forall n: nat, l, f | IsFile(f) ensures RecursiveLaw(Unions(w, s), HoldingsOf(w.tuples, s), nested, n, l, f) {
      RecursiveDerivable(w, nested, n, s, l, f);
      RecursiveUnion(w, nested, n, s, l, f);
    }
    forall f, p | IsFile(f) && p in HoldingsOf(w.tuples, s).parents(f) ensures IsFile(p) {
      ParentIsFile(w.tuples, f, p);
    }
  }

  lemma PermissionByUnions(w: World, c: Config, n: nat, s: Entity, permission: Permission, f: Entity)
    requires HasFileRules(w, c) && f.kind == "file"
    ensures Derivable(w, n, Key(s, PermissionName(permission), f)) <==> n >= 1 && SomeLevel(Unions(w, s), n - 1, permission, f)
  {
    PermissionStep(w, c, n, s, permission, f);
  }

  /** Under the recursive configuration, derivations of height `n` reach direct grants up to
      (n - 3) / 2 parent steps away and group grants up to (n - 4) / 2. */
  lemma RecursiveClosedForm(w: World, nested: bool, n: nat, s: Entity, permission: Permission, f: Entity)
    requires HasFileRules(w, Recursive(nested)) && ParentsAreFiles(w.tuples) && f.kind == "file"
    ensures Derivable(w, n, Key(s, PermissionName(permission), f)) <==>
            PermittedWithin(HoldingsOf(w.tuples, s), permission, f, (n - 3) / 2, (n - 4) / 2)
  {
    var t, k := HoldingsOf(w.tuples, s), Key(s, PermissionName(permission), f);
    PermissionByUnions(w, Recursive(nested), n, s, permission, f);
    if n == 0 {
      NothingWithinLess(t, permission, f, (n - 3) / 2, (n - 4) / 2);
    } else {
      var m := n - 1;
      assert m - 2 == n - 3 && m - 3 == n - 4;
      RecursiveSomeLevel(w, nested, m, s, permission, f);
      assert Derivable(w, n, k) <==> PermittedWithin(t, permission, f, (m - 2) / 2, (m - 3) / 2);
    }
  }

  lemma RecursiveSomeLevel(w: World, nested: bool, n: nat, s: Entity, permission: Permission, f: Entity)
    requires HasFileRules(w, Recursive(nested)) && ParentsAreFiles(w.tuples) && f.kind == "file"
    ensures SomeLevel(Unions(w, s), n, permission, f) <==>
            PermittedWithin(HoldingsOf(w.tuples, s), permission, f, (n - 2) / 2, (n - 3) / 2)
  {
    RecursiveUnions(w, nested, s);
    RecursiveLevels(Unions(w, s), HoldingsOf(w.tuples, s), IsFile, nested, n, permission, f);
  }

  ghost predicate ParentHas(tuples: seq<Tuple>, s: Entity, l: Level, f: Entity) {
    exists p | p in Parents(tuples, f) :: ByTuple(tuples, Key(s, DirectName(l), p))
  }

  lemma FlattenedMembers(w: World, n: nat, s: Entity, l: Level, f: Entity)
    requires HasFileRules(w, Flattened) && ParentsAreFiles(w.tuples) && f.kind == "file" && n >= 2
    ensures ByMember(w, Flattened, n, s, l, f) <==>
            ByTuple(w.tuples, Key(s, DirectName(l), f)) || GroupHolds(w.tuples, s, DirectName(l), f) || ParentHas(w.tuples, s, l, f)
  {
    DirectStep(w, Flattened, n, s, l, f);
    GroupStep(w, Flattened, n, s, l, f);
    FlattenedParents(w, n, s, l, f);
  }

  lemma FlattenedParents(w: World, n: nat, s: Entity, l: Level, f: Entity)
    requires HasFileRules(w, Flattened) && ParentsAreFiles(w.tuples) && f.kind == "file" && n >= 2
    ensures Derivable(w, n, Key(s, ParentName(l), f)) <==> ParentHas(w.tuples, s, l, f)
  {
    ParentStep(w, Flattened, n, s, l, f);
    forall p | p in Parents(w.tuples, f)
      ensures Derivable(w, n - 1, Key(s, DirectName(l), p)) <==> ByTuple(w.tuples, Key(s, DirectName(l), p))
    {
      ParentIsFile(w.tuples, f, p);
      DirectStep(w, Flattened, n - 1, s, l, p);
    }
  }

  lemma FlattenedUnion(w: World, n: nat, s: Entity, l: Level, f: Entity)
    requires HasFileRules(w, Flattened) && ParentsAreFiles(w.tuples) && f.kind == "file" && n >= 3
    ensures FlattenedLaw(Unions(w, s), HoldingsOf(w.tuples, s), n, l, f)
  {
    FlattenedDerivable(w, n, s, l, f);
    AsFlattenedLaw(w, n, s, l, f);
  }

  lemma FlattenedDerivable(w: World, n: nat, s: Entity, l: Level, f: Entity)
    requires HasFileRules(w, Flattened) && ParentsAreFiles(w.tuples) && f.kind == "file" && n >= 3
    ensures Derivable(w, n, Key(s, UnionName(l), f)) <==>
            ByTuple(w.tuples, Key(s, DirectName(l), f)) || GroupHolds(w.tuples, s, DirectName(l), f) || ParentHas(w.tuples, s, l, f)
  {
    UnionStep(w, Flattened, n, s, l, f);
    FlattenedMembers(w, n - 1, s, l, f);
  }

  lemma AsFlattenedLaw(w: World, n: nat, s: Entity, l: Level, f: Entity)
    requires Derivable(w, n, Key(s, UnionName(l), f)) <==>
             ByTuple(w.tuples, Key(s, DirectName(l), f)) || GroupHolds(w.tuples, s, DirectName(l), f) || ParentHas(w.tuples, s, l, f)
    ensures FlattenedLaw(Unions(w, s), HoldingsOf(w.tuples, s), n, l, f)
  {
    var t := HoldingsOf(w.tuples, s);
    assert t.direct(l, f) == ByTuple(w.tuples, Key(s, DirectName(l), f));
    assert t.group(l, f) == GroupHolds(w.tuples, s, DirectName(l), f);
    if ParentHas(w.tuples, s, l, f) {
      var p :| p in Parents(w.tuples, f) && ByTuple(w.tuples, Key(s, DirectName(l), p));
      assert p in t.parents(f) && t.direct(l, p);
    }
    if p :| p in t.parents(f) && t.direct(l, p) {
      assert p in Parents(w.tuples, f) && ByTuple(w.tuples, Key(s, DirectName(l), p));
    }
    assert Unions(w, s)(n, l, f) == Derivable(w, n, Key(s, UnionName(l), f));
  }

  /** Under the flattened configuration every grant has a derivation of height 4, and the
      granting tuple is on the file or directly on a parent. */
  lemma FlattenedClosedForm(w: World, n: nat, s: Entity, permission: Permission, f: Entity)
    requires HasFileRules(w, Flattened) && ParentsAreFiles(w.tuples) && f.kind == "file" && n >= 4
    ensures Derivable(w, n, Key(s, PermissionName(permission), f)) <==>
            PermittedWithin(HoldingsOf(w.tuples, s), permission, f, 1, 0)
  {
    PermissionByUnions(w, Flattened, n, s, permission, f);
    var u, t, m := Unions(w, s), HoldingsOf(w.tuples, s), n - 1;
    forall l ensures FlattenedLaw(u, t, m, l, f) {
      FlattenedUnion(w, m, s, l, f);
    }
    FlattenedLevels(u, t, m, permission, f);
  }

  /* ---- what the two configurations grant ---- */

  ghost predicate Allowed(tuples: seq<Tuple>, c: Config, others: map<string, Namespace>, s: Entity, permission: Permission, f: Entity) {
    Grants(FileWorld(tuples, c, others), Key(s, PermissionName(permission), f))
  }

  /** The recursive configuration grants a permission exactly when some ancestor, at any
      distance, carries a sufficient direct or group grant. */
  lemma RecursiveGrants(tuples: seq<Tuple>, nested: bool, others: map<string, Namespace>, s: Entity, permission: Permission, f: Entity)
    requires MemberIsBase(others) && ParentsAreFiles(tuples) && f.kind == "file"
    ensures Allowed(tuples, Recursive(nested), others, s, permission, f) <==> PermittedAnywhere(HoldingsOf(tuples, s), permission, f)
  {
    var w := FileWorld(tuples, Recursive(nested), others);
    var k := Key(s, PermissionName(permission), f);
    FileWorldHasFileRules(tuples, Recursive(nested), others);
    if Grants(w, k) {
      var n: nat :| Derivable(w, n, k);
      RecursiveClosedForm(w, nested, n, s, permission, f);
      WithinIsAnywhere(HoldingsOf(tuples, s), permission, f, (n - 3) / 2, (n - 4) / 2);
    }
    if PermittedAnywhere(HoldingsOf(tuples, s), permission, f) {
      var d := AnywhereIsWithin(HoldingsOf(tuples, s), permission, f);
      RecursiveClosedForm(w, nested, 2 * d + 4, s, permission, f);
      PermittedMonotone(HoldingsOf(tuples, s), permission, f, d, d, (2 * d + 1) / 2, (2 * d) / 2);
    }
  }

  /** Nesting `owner` in the `editor` union changes no permission, not even at a given
      derivation height. */
  lemma NestedOwnerIsRedundant(tuples: seq<Tuple>, others: map<string, Namespace>, n: nat, s: Entity, permission: Permission, f: Entity)
    requires MemberIsBase(others) && ParentsAreFiles(tuples) && f.kind == "file"
    ensures Derivable(FileWorld(tuples, Recursive(true), others), n, Key(s, PermissionName(permission), f)) <==>
            Derivable(FileWorld(tuples, Recursive(false), others), n, Key(s, PermissionName(permission), f))
  {
    FileWorldHasFileRules(tuples, Recursive(true), others);
    FileWorldHasFileRules(tuples, Recursive(false), others);
    RecursiveClosedForm(FileWorld(tuples, Recursive(true), others), true, n, s, permission, f);
    RecursiveClosedForm(FileWorld(tuples, Recursive(false), others), false, n, s, permission, f);
  }

  lemma FlattenedGrants(tuples: seq<Tuple>, others: map<string, Namespace>, s: Entity, permission: Permission, f: Entity)
    requires MemberIsBase(others) && ParentsAreFiles(tuples) && f.kind == "file"
    ensures Allowed(tuples, Flattened, others, s, permission, f) <==> PermittedWithin(HoldingsOf(tuples, s), permission, f, 1, 0)
    ensures Allowed(tuples, Flattened, others, s, permission, f) <==>
            Derivable(FileWorld(tuples, Flattened, others), 4, Key(s, PermissionName(permission), f))
  {
    var w := FileWorld(tuples, Flattened, others);
    var k := Key(s, PermissionName(permission), f);
    FileWorldHasFileRules(tuples, Flattened, others);
    FlattenedClosedForm(w, 4, s, permission, f);
    if Grants(w, k) {
      var n: nat :| Derivable(w, n, k);
      DerivableMonotone(w, n, n + 4, k);
      FlattenedClosedForm(w, n + 4, s, permission, f);
    }
  }

  /** The migration never grants more. */
  lemma FlatteningOnlyRevokes(tuples: seq<Tuple>, others: map<string, Namespace>, s: Entity, permission: Permission, f: Entity)
    requires MemberIsBase(others) && ParentsAreFiles(tuples) && f.kind == "file"
    requires Allowed(tuples, NEW_CONFIG, others, s, permission, f)
    ensures Allowed(tuples, OLD_CONFIG, others, s, permission, f)
  {
    FlattenedGrants(tuples, others, s, permission, f);
    RecursiveGrants(tuples, true, others, s, permission, f);
    WithinIsAnywhere(HoldingsOf(tuples, s), permission, f, 1, 0);
  }

  /** Sharing a file with a group lets every member in, and sharing it with the public wildcard
      everyone, under every configuration. */
  lemma SharesLetIn(tuples: seq<Tuple>, c: Config, others: map<string, Namespace>, share: Tuple, s: Entity, permission: Permission, l: Level)
    requires MemberIsBase(others) && ParentsAreFiles(tuples) && share.target.kind == "file"
    requires share in tuples && !share.conditioned && share.relation == DirectName(l) && l in GrantingLevels(permission)
    requires || (share.subject == Entity("*", "*") && share.subjectRelation == None)
             || exists m | m in tuples && !m.conditioned && m.subjectRelation == None ::
                  m.relation == "member" && m.subject == s && m.target == share.subject
    ensures Allowed(tuples, c, others, s, permission, share.target)
  {
    var t, f := HoldingsOf(tuples, s), share.target;
    if share.subject == Entity("*", "*") && share.subjectRelation == None {
      assert ByTuple(tuples, Key(s, DirectName(l), f));
      assert t.direct(l, f);
    } else {
      assert ByTuple(tuples, Key(s, "member", share.subject));
      assert GroupHolds(tuples, s, DirectName(l), f);
      assert t.group(l, f);
    }
    OwnGrantIsInReach(t, permission, l, f);
    WithinIsAnywhere(t, permission, f, 1, 0);
    if c.Flattened? { FlattenedGrants(tuples, others, s, permission, f); }
    else { RecursiveGrants(tuples, c.nested, others, s, permission, f); }
  }

  /** Holding the stronger permission implies the weaker, under every configuration. */
  lemma PermissionsAreOrdered(tuples: seq<Tuple>, c: Config, others: map<string, Namespace>, s: Entity, f: Entity)
    requires MemberIsBase(others) && ParentsAreFiles(tuples) && f.kind == "file"
    ensures Allowed(tuples, c, others, s, Execute, f) ==> Allowed(tuples, c, others, s, Write, f)
    ensures Allowed(tuples, c, others, s, Write, f) ==> Allowed(tuples, c, others, s, Read, f)
  {
    forall permission: Permission
      ensures Allowed(tuples, c, others, s, permission, f) <==>
              if c.Flattened? then PermittedWithin(HoldingsOf(tuples, s), permission, f, 1, 0)
              else PermittedAnywhere(HoldingsOf(tuples, s), permission, f)
    {
      if c.Flattened? { FlattenedGrants(tuples, others, s, permission, f); }
      else { RecursiveGrants(tuples, c.nested, others, s, permission, f); }
    }
    assert GrantingLevels(Execute) <= GrantingLevels(Write) <= GrantingLevels(Read);
  }

  /* ---- when flattening loses nothing ---- */

  predicate TransitivelyClosed(tuples: seq<Tuple>) {
    forall t, u | t in tuples && u in tuples && t.relation == "parent" && u.relation == "parent"
                  && !t.conditioned && !u.conditioned && t.target == u.subject ::
      u.target in Parents(tuples, t.subject)
  }

  /** No directory that is the parent of something is shared with a group of `s`. */
  predicate NoGroupGrantOnParents(tuples: seq<Tuple>, s: Entity) {
    forall t, l: Level | t in tuples && t.relation == "parent" && !t.conditioned ::
      !GroupHolds(tuples, s, DirectName(l), t.target)
  }

  lemma ClosedParent(tuples: seq<Tuple>, s: Entity, f: Entity, p: Entity)
    requires TransitivelyClosed(tuples) && NoGroupGrantOnParents(tuples, s) && p in Parents(tuples, f)
    ensures IsClosedAt(HoldingsOf(tuples, s), f, p)
  {
    FindRelatedObjectsIsExact(f, "parent", tuples, p);
    forall g | g in Parents(tuples, p) ensures g in Parents(tuples, f) {
      FindRelatedObjectsIsExact(p, "parent", tuples, g);
    }
  }

  lemma ClosedParents(tuples: seq<Tuple>, s: Entity)
    requires TransitivelyClosed(tuples) && NoGroupGrantOnParents(tuples, s)
    ensures IsClosed(HoldingsOf(tuples, s))
  {
    var t := HoldingsOf(tuples, s);
    forall f, p | p in t.parents(f) ensures IsClosedAt(t, f, p) {
      ClosedParent(tuples, s, f, p);
    }
  }

  /** If parent tuples are transitively closed and no group grant sits on a parent, the two
      configurations grant the same. */
  lemma FlatteningAgrees(tuples: seq<Tuple>, others: map<string, Namespace>, s: Entity, permission: Permission, f: Entity)
    requires MemberIsBase(others) && ParentsAreFiles(tuples) && f.kind == "file"
    requires TransitivelyClosed(tuples) && NoGroupGrantOnParents(tuples, s)
    ensures Allowed(tuples, NEW_CONFIG, others, s, permission, f) <==> Allowed(tuples, OLD_CONFIG, others, s, permission, f)
  {
    FlattenedGrants(tuples, others, s, permission, f);
    RecursiveGrants(tuples, true, others, s, permission, f);
    if Allowed(tuples, NEW_CONFIG, others, s, permission, f) {
      FlatteningOnlyRevokes(tuples, others, s, permission, f);
    }
    ClosedParents(tuples, s);
    ClosedReach(HoldingsOf(tuples, s), permission, f);
  }

  /* ---- the evaluator's depth limit ---- */

  ghost predicate IsLevelName(name: string) {
    exists l: Level :: name in [DirectName(l), GroupName(l), ParentName(l), UnionName(l)]
  }

  ghost predicate IsPermissionName(name: string) { exists p: Permission :: name == PermissionName(p) }

  /** The keys a check of a file can come to. */
  ghost function FileKeys(): iset<Key> {
    iset k: Key | k.name == "member" || (k.target.kind == "file" && (IsLevelName(k.name) || IsPermissionName(k.name)))
  }

  lemma LevelKeyIsPlain(w: World, c: Config, s: Entity, l: Level, f: Entity, name: string)
    requires HasFileRules(w, c) && ParentsAreFiles(w.tuples) && f.kind == "file"
    requires name in [DirectName(l), GroupName(l), ParentName(l), UnionName(l)]
    ensures !Expand(w, Key(s, name, f)).NoneOf?
    ensures forall p | p in Premises(Expand(w, Key(s, name, f))) :: p in FileKeys()
  {
    assert HasLevelRules(w, c, s, l, f);
    forall p | p in Premises(Expand(w, Key(s, name, f))) ensures p in FileKeys() {
      if name == UnionName(l) {
        UnionMembersAre(c, l, p.name);
      } else if name == ParentName(l) {
        ParentIsFile(w.tuples, f, p.target);
        assert p.name in [DirectName(l), GroupName(l), ParentName(l), UnionName(l)];
      }
    }
  }

  lemma PermissionKeyIsPlain(w: World, c: Config, s: Entity, permission: Permission, f: Entity)
    requires HasFileRules(w, c) && f.kind == "file"
    ensures !Expand(w, Key(s, PermissionName(permission), f)).NoneOf?
    ensures forall p | p in Premises(Expand(w, Key(s, PermissionName(permission), f))) :: p in FileKeys()
  {
    assert HasPermissionRule(w, s, permission, f);
    forall p | p in Premises(Expand(w, Key(s, PermissionName(permission), f))) ensures p in FileKeys() {
      PermissionMembersAre(permission, p.name);
    }
  }

  lemma FileKeysArePlain(w: World, c: Config)
    requires HasFileRules(w, c) && ParentsAreFiles(w.tuples)
    ensures IsPlain(w, FileKeys())
  {
    forall k: Key | k in FileKeys()
      ensures !Expand(w, k).NoneOf? && forall p | p in Premises(Expand(w, k)) :: p in FileKeys()
    {
      if k.name == "member" {
        assert HasMemberRule(w, k.subject, k.target);
      } else if l: Level :| k.name in [DirectName(l), GroupName(l), ParentName(l), UnionName(l)] {
        LevelKeyIsPlain(w, c, k.subject, l, k.target, k.name);
      } else {
        var p: Permission :| k.name == PermissionName(p);
        PermissionKeyIsPlain(w, c, k.subject, p, k.target);
      }
    }
  }

  /** On files the search is bounded derivation, under every configuration. */
  lemma FileSearch(tuples: seq<Tuple>, c: Config, others: map<string, Namespace>, maxDepth: nat, s: Entity, permission: Permission, f: Entity)
    requires MemberIsBase(others) && ParentsAreFiles(tuples) && f.kind == "file"
    ensures Search(FileWorld(tuples, c, others), maxDepth, Key(s, PermissionName(permission), f), 0, {}) <==>
            Derivable(FileWorld(tuples, c, others), maxDepth + 1, Key(s, PermissionName(permission), f))
  {
    var w, k := FileWorld(tuples, c, others), Key(s, PermissionName(permission), f);
    FileWorldHasFileRules(tuples, c, others);
    FileKeysArePlain(w, c);
    assert IsPermissionName(PermissionName(permission));
    PlainDecidesExclusions(w, FileKeys(), maxDepth, k, 0, {});
    SearchIsBoundedDerivation(w, maxDepth, k);
  }

  /** With the recursive configuration the evaluator sees direct grants up to 24 parent steps
      away and group grants up to 23, and no others. */
  lemma EvaluatorReachOnOld(tuples: seq<Tuple>, others: map<string, Namespace>, s: Entity, permission: Permission, f: Entity)
    requires MemberIsBase(others) && ParentsAreFiles(tuples) && f.kind == "file"
    ensures Search(FileWorld(tuples, OLD_CONFIG, others), MAX_DEPTH, Key(s, PermissionName(permission), f), 0, {}) <==>
            PermittedWithin(HoldingsOf(tuples, s), permission, f, 24, 23)
  {
    var w := FileWorld(tuples, OLD_CONFIG, others);
    FileWorldHasFileRules(tuples, OLD_CONFIG, others);
    FileSearch(tuples, OLD_CONFIG, others, MAX_DEPTH, s, permission, f);
    RecursiveClosedForm(w, true, MAX_DEPTH + 1, s, permission, f);
  }

  /** With the flattened configuration a depth limit of 3 or more is never felt. */
  lemma EvaluatorIsExactOnNew(tuples: seq<Tuple>, others: map<string, Namespace>, maxDepth: nat, s: Entity, permission: Permission, f: Entity)
    requires MemberIsBase(others) && ParentsAreFiles(tuples) && f.kind == "file"
    requires maxDepth >= 3
    ensures Search(FileWorld(tuples, NEW_CONFIG, others), maxDepth, Key(s, PermissionName(permission), f), 0, {}) <==>
            Allowed(tuples, NEW_CONFIG, others, s, permission, f)
  {
    var w := FileWorld(tuples, NEW_CONFIG, others);
    var k := Key(s, PermissionName(permission), f);
    FileSearch(tuples, NEW_CONFIG, others, maxDepth, s, permission, f);
    FlattenedGrants(tuples, others, s, permission, f);
    if Derivable(w, 4, k) { DerivableMonotone(w, 4, maxDepth + 1, k); }
  }

  datatype Query = Query(subject: Entity, permission: Permission, file: Entity)

  function QueryKey(q: Query): Key { Key(q.subject, PermissionName(q.permission), q.file) }

  /** What an answer of the memoised evaluator is worth: on the flattened configuration it is
      exact; on the recursive ones it lies between what is within reach and what is granted. */
  ghost predicate IsGoodAnswer(tuples: seq<Tuple>, c: Config, others: map<string, Namespace>, q: Query, answer: bool) {
    && (answer ==> Allowed(tuples, c, others, q.subject, q.permission, q.file))
    && (c.Flattened? && Allowed(tuples, c, others, q.subject, q.permission, q.file) ==> answer)
    && (c.Recursive? && PermittedWithin(HoldingsOf(tuples, q.subject), q.permission, q.file, 24, 23) ==> answer)
  }

  lemma BatchAnswerIsGood(tuples: seq<Tuple>, c: Config, others: map<string, Namespace>, q: Query, answer: bool)
    requires MemberIsBase(others) && ParentsAreFiles(tuples) && q.file.kind == "file"
    requires answer ==> Grants(FileWorld(tuples, c, others), QueryKey(q))
    requires Derivable(FileWorld(tuples, c, others), MAX_DEPTH + 1, QueryKey(q)) ==> answer
    ensures IsGoodAnswer(tuples, c, others, q, answer)
  {
    var w := FileWorld(tuples, c, others);
    if c.Flattened? {
      FlattenedGrants(tuples, others, q.subject, q.permission, q.file);
      if Derivable(w, 4, QueryKey(q)) { DerivableMonotone(w, 4, MAX_DEPTH + 1, QueryKey(q)); }
    } else {
      FileWorldHasFileRules(tuples, c, others);
      RecursiveClosedForm(w, c.nested, MAX_DEPTH + 1, q.subject, q.permission, q.file);
    }
  }

  /** A batch of file checks over one memo. */
  method CheckFiles(tuples: seq<Tuple>, c: Config, others: map<string, Namespace>, queries: seq<Query>) returns (answers: seq<bool>)
    requires MemberIsBase(others) && ParentsAreFiles(tuples) && forall q | q in queries :: q.file.kind == "file"
    ensures |answers| == |queries|
    ensures forall i | 0 <= i < |queries| :: IsGoodAnswer(tuples, c, others, queries[i], answers[i])
  {
    var w := FileWorld(tuples, c, others);
    FileWorldHasFileRules(tuples, c, others);
    FileKeysArePlain(w, c);
    var keys := seq(|queries|, i requires 0 <= i < |queries| => QueryKey(queries[i]));
    forall k | k in keys ensures k in FileKeys() {
      var i :| 0 <= i < |queries| && k == QueryKey(queries[i]);
      assert IsPermissionName(PermissionName(queries[i].permission));
    }
    var evaluator := new Evaluator(w, Plain(FileKeys()));
    answers := evaluator.CheckBatch(keys);
    forall i | 0 <= i < |queries| ensures IsGoodAnswer(tuples, c, others, queries[i], answers[i]) {
      BatchAnswerIsGood(tuples, c, others, queries[i], answers[i]);
    }
  }

  /* ---- how deep the recursive configuration needs to look ---- */

  /** For the recursive configuration a depth limit of 2 * |files| + 1 is enough, whatever
      cycles the parent tuples form. */
  lemma EvaluatorIsExactAtLinearDepth(tuples: seq<Tuple>, others: map<string, Namespace>, files: set<Entity>,
                                      s: Entity, permission: Permission, f: Entity)
    requires MemberIsBase(others) && ParentsAreFiles(tuples) && f.kind == "file"
    requires ClosedUnderParents(ParentsOf(tuples), files) && f in files
    ensures Search(FileWorld(tuples, OLD_CONFIG, others), 2 * |files| + 1, Key(s, PermissionName(permission), f), 0, {}) <==>
            Allowed(tuples, OLD_CONFIG, others, s, permission, f)
  {
    var w := FileWorld(tuples, OLD_CONFIG, others);
    FileWorldHasFileRules(tuples, OLD_CONFIG, others);
    FileSearch(tuples, OLD_CONFIG, others, 2 * |files| + 1, s, permission, f);
    RecursiveClosedForm(w, true, 2 * |files| + 2, s, permission, f);
    RecursiveGrants(tuples, true, others, s, permission, f);
    GrantsAreNear(HoldingsOf(tuples, s), files, permission, f);
  }

  /* ---- what flattening takes away ---- */

  /** Flattening takes a permission away exactly when it was granted and all its grants
      are far. */
  lemma FlatteningLosesExactly(tuples: seq<Tuple>, others: map<string, Namespace>, s: Entity, permission: Permission, f: Entity)
    requires MemberIsBase(others) && ParentsAreFiles(tuples) && f.kind == "file"
    ensures (Allowed(tuples, OLD_CONFIG, others, s, permission, f) && !Allowed(tuples, NEW_CONFIG, others, s, permission, f))
            <==> (PermittedAnywhere(HoldingsOf(tuples, s), permission, f) && OnlyFarGrants(HoldingsOf(tuples, s), permission, f))
  {
    FlattenedGrants(tuples, others, s, permission, f);
    RecursiveGrants(tuples, true, others, s, permission, f);
    OnlyFarGrantsAreOutOfReach(HoldingsOf(tuples, s), permission, f);
  }

  function GrandparentShare(file: Entity, dir: Entity, top: Entity, owner: Entity): seq<Tuple> {
    [Tuple(file, "parent", dir, None, false), Tuple(dir, "parent", top, None, false),
     Tuple(owner, "direct_owner", top, None, false)]
  }

  lemma GrandparentShareShape(file: Entity, dir: Entity, top: Entity, owner: Entity)
    requires file != dir && dir != top && file != top
    ensures var tuples := GrandparentShare(file, dir, top, owner);
            && (forall p :: p in Parents(tuples, file) <==> p == dir)
            && (forall p :: p in Parents(tuples, dir) <==> p == top)
  {
    var tuples := GrandparentShare(file, dir, top, owner);
    assert tuples[0] in tuples && tuples[1] in tuples && tuples[2] in tuples;
    forall p ensures (p in Parents(tuples, file) <==> p == dir) && (p in Parents(tuples, dir) <==> p == top) {
      FindRelatedObjectsIsExact(file, "parent", tuples, p);
      FindRelatedObjectsIsExact(dir, "parent", tuples, p);
    }
  }

  lemma GrandparentShareGrants(file: Entity, dir: Entity, top: Entity, owner: Entity, s: Entity, l: Level, g: Entity)
    ensures var tuples := GrandparentShare(file, dir, top, owner);
            && (ByTuple(tuples, Key(s, DirectName(l), g)) ==> g == top)
            && !GroupHolds(tuples, s, DirectName(l), g)
            && ByTuple(tuples, Key(owner, DirectName(Owner), top))
  {
    var tuples := GrandparentShare(file, dir, top, owner);
    assert tuples[2] in tuples;
    assert forall e :: !ByTuple(tuples, Key(s, "member", e));
  }

  lemma GrandparentShareReach(file: Entity, dir: Entity, top: Entity, owner: Entity)
    requires file != dir && dir != top && file != top
    ensures var t := HoldingsOf(GrandparentShare(file, dir, top, owner), owner);
            PermittedAnywhere(t, Write, file) && OnlyFarGrants(t, Write, file)
  {
    var tuples := GrandparentShare(file, dir, top, owner);
    var t := HoldingsOf(tuples, owner);
    GrandparentShareShape(file, dir, top, owner);
    forall l, g ensures (t.direct(l, g) ==> g == top) && !t.group(l, g) && t.direct(Owner, top) {
      GrandparentShareGrants(file, dir, top, owner, owner, l, g);
    }
    FarOwner(t, file, dir, top);
  }

  /** For instance the owner of a grandparent directory can write the file before the
      migration and not after it. */
  lemma FlatteningCanRevoke(file: Entity, dir: Entity, top: Entity, owner: Entity)
    requires file != dir && dir != top && file != top
    requires file.kind == dir.kind == top.kind == "file" && owner.kind == "user"
    ensures var tuples := GrandparentShare(file, dir, top, owner);
            && Allowed(tuples, OLD_CONFIG, map[], owner, Write, file)
            && !Allowed(tuples, NEW_CONFIG, map[], owner, Write, file)
  {
    var tuples := GrandparentShare(file, dir, top, owner);
    GrandparentShareReach(file, dir, top, owner);
    FlatteningLosesExactly(tuples, map[], owner, Write, file);
  }
}
