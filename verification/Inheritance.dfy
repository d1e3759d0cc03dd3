/** Inheritance of grants along parents, apart from how grants are stored or checked.

    Entities have parents and, at each level, direct and group grants. A check by height is
    any predicate with the step laws of the recursive or the flattened configuration; what it
    grants at a height is then determined, and read off here. */
module Inheritance {
  import opened Prelude

  datatype Level = Owner | Editor | Viewer

  datatype Permission = Read | Write | Execute

  /** The levels whose union grants the permission. */
  function GrantingLevels(permission: Permission): set<Level> {
    match permission case Read => {Viewer, Editor, Owner} case Write => {Editor, Owner} case Execute => {Owner}
  }

  /** What one subject holds, and where it can come from. */
  datatype Holdings<!E> = Holdings(parents: E -> seq<E>, direct: (Level, E) -> bool, group: (Level, E) -> bool)

  /** `g` is `d` parent steps above `f`. */
  ghost predicate Ancestor<E(!new)>(parents: E -> seq<E>, f: E, d: nat, g: E)
    decreases d
  {
    if d == 0 then f == g else exists p | p in parents(f) :: Ancestor(parents, p, d - 1, g)
  }

  lemma AncestorStep<E(!new)>(parents: E -> seq<E>, f: E, p: E, d: nat, g: E)
    requires p in parents(f) && Ancestor(parents, p, d, g)
    ensures Ancestor(parents, f, d + 1, g)
  {
  }

  /** The level is granted on some ancestor: directly at distance at most `near`, or through a
      group at distance at most `groupNear`. */
  ghost predicate InReach<E(!new)>(t: Holdings<E>, l: Level, f: E, near: int, groupNear: int) {
    exists d: nat, g :: Ancestor(t.parents, f, d, g) && ((d <= near && t.direct(l, g)) || (d <= groupNear && t.group(l, g)))
  }

  ghost predicate Anywhere<E(!new)>(t: Holdings<E>, l: Level, f: E) {
    exists d: nat, g :: Ancestor(t.parents, f, d, g) && (t.direct(l, g) || t.group(l, g))
  }

  /** A level sufficient for the permission is granted in reach. */
  ghost predicate PermittedWithin<E(!new)>(t: Holdings<E>, permission: Permission, f: E, near: int, groupNear: int) {
    exists l | l in GrantingLevels(permission) :: InReach(t, l, f, near, groupNear)
  }

  ghost predicate PermittedAnywhere<E(!new)>(t: Holdings<E>, permission: Permission, f: E) {
    exists l | l in GrantingLevels(permission) :: Anywhere(t, l, f)
  }

  lemma InReachMonotone<E(!new)>(t: Holdings<E>, l: Level, f: E, near: int, groupNear: int)
    ensures InReach(t, l, f, near, groupNear) ==>
              forall n, m | near <= n && groupNear <= m :: InReach(t, l, f, n, m)
  {
  }

  ghost predicate ParentInReach<E(!new)>(t: Holdings<E>, l: Level, f: E, near: int, groupNear: int) {
    exists p | p in t.parents(f) :: InReach(t, l, p, near, groupNear)
  }

  /** A grant in reach is at the entity itself or in reach, one step less, of a parent. */
  lemma InReachStep<E(!new)>(t: Holdings<E>, l: Level, f: E, near: int, groupNear: int)
    ensures InReach(t, l, f, near, groupNear) <==>
            || (0 <= near && t.direct(l, f))
            || (0 <= groupNear && t.group(l, f))
            || ParentInReach(t, l, f, near - 1, groupNear - 1)
  {
    if InReach(t, l, f, near, groupNear) { InReachDown(t, l, f, near, groupNear); }
    assert Ancestor(t.parents, f, 0, f);
    forall p | p in t.parents(f) && InReach(t, l, p, near - 1, groupNear - 1) ensures InReach(t, l, f, near, groupNear) {
      InReachUp(t, l, f, p, near, groupNear);
    }
  }

  lemma InReachDown<E(!new)>(t: Holdings<E>, l: Level, f: E, near: int, groupNear: int)
    requires InReach(t, l, f, near, groupNear)
    ensures || (0 <= near && t.direct(l, f))
            || (0 <= groupNear && t.group(l, f))
            || ParentInReach(t, l, f, near - 1, groupNear - 1)
  {
    var d: nat, g :| Ancestor(t.parents, f, d, g) && ((d <= near && t.direct(l, g)) || (d <= groupNear && t.group(l, g)));
    if d > 0 {
      var p :| p in t.parents(f) && Ancestor(t.parents, p, d - 1, g);
      assert InReach(t, l, p, near - 1, groupNear - 1);
    }
  }

  lemma InReachUp<E(!new)>(t: Holdings<E>, l: Level, f: E, p: E, near: int, groupNear: int)
    requires p in t.parents(f) && InReach(t, l, p, near - 1, groupNear - 1)
    ensures InReach(t, l, f, near, groupNear)
  {
    var d: nat, g :| Ancestor(t.parents, p, d, g)
      && ((d <= near - 1 && t.direct(l, g)) || (d <= groupNear - 1 && t.group(l, g)));
    assert Ancestor(t.parents, f, d + 1, g);
  }

  /* ---- checks by height ---- */

  /** Whether a union, or a permission, is granted at a height. */
  type ByHeight<!E> = (nat, Level, E) -> bool

  ghost predicate SomeParent<E(!new)>(u: ByHeight<E>, t: Holdings<E>, n: nat, l: Level, f: E) {
    exists p | p in t.parents(f) :: u(n, l, p)
  }

  /** A union of the recursive configuration is granted by its direct, parent or group member, or
      by a nested `owner`. */
  ghost predicate RecursiveLaw<E(!new)>(u: ByHeight<E>, t: Holdings<E>, nested: bool, n: nat, l: Level, f: E) {
    u(n, l, f) <==>
    (|| (n >= 2 && t.direct(l, f)) || (n >= 3 && t.group(l, f))
     || (n >= 2 && SomeParent(u, t, n - 2, l, f))
     || (n >= 1 && nested && l == Editor && u(n - 1, Owner, f)))
  }

  ghost predicate ObeysRecursive<E(!new)>(u: ByHeight<E>, t: Holdings<E>, isFile: E -> bool, nested: bool) {
    && (forall n: nat, l, f | isFile(f) :: RecursiveLaw(u, t, nested, n, l, f))
    && (forall f, p | isFile(f) && p in t.parents(f) :: isFile(p))
  }

  /** What it comes to: grants within so many parent steps. */
  ghost predicate UnionWithin<E(!new)>(t: Holdings<E>, nested: bool, l: Level, f: E, n: nat) {
    || InReach(t, l, f, (n - 2) / 2, (n - 3) / 2)
    || (nested && l == Editor && InReach(t, Owner, f, (n - 3) / 2, (n - 4) / 2))
  }

  ghost predicate SomeParentWithin<E(!new)>(t: Holdings<E>, nested: bool, l: Level, f: E, n: nat) {
    exists p | p in t.parents(f) :: UnionWithin(t, nested, l, p, n)
  }

  /** One step of `UnionWithin`, the same as one step of the union. */
  lemma UnionWithinStep<E(!new)>(t: Holdings<E>, nested: bool, l: Level, f: E, n: nat)
    ensures UnionWithin(t, nested, l, f, n) <==>
            (|| (n >= 2 && t.direct(l, f)) || (n >= 3 && t.group(l, f))
             || (n >= 2 && SomeParentWithin(t, nested, l, f, n - 2))
             || (n >= 1 && nested && l == Editor && UnionWithin(t, nested, Owner, f, n - 1)))
  {
    InReachStep(t, l, f, (n - 2) / 2, (n - 3) / 2);
    InReachStep(t, Owner, f, (n - 3) / 2, (n - 4) / 2);
  }

  lemma {:induction false} UnionClosedForm<E(!new)>(u: ByHeight<E>, t: Holdings<E>, isFile: E -> bool, nested: bool, n: nat, l: Level, f: E)
    requires ObeysRecursive(u, t, isFile, nested) && isFile(f)
    ensures u(n, l, f) <==> UnionWithin(t, nested, l, f, n)
    decreases n, 0
  {
    assert RecursiveLaw(u, t, nested, n, l, f);
    UnionWithinStep(t, nested, l, f, n);
    if n >= 2 { ParentsClosedForm(u, t, isFile, nested, n - 2, l, f); }
    if n >= 1 && nested && l == Editor { UnionClosedForm(u, t, isFile, nested, n - 1, Owner, f); }
  }

  lemma {:induction false} ParentsClosedForm<E(!new)>(u: ByHeight<E>, t: Holdings<E>, isFile: E -> bool, nested: bool, n: nat, l: Level, f: E)
    requires ObeysRecursive(u, t, isFile, nested) && isFile(f)
    ensures SomeParent(u, t, n, l, f) <==> SomeParentWithin(t, nested, l, f, n)
    decreases n, 1
  {
    forall p | p in t.parents(f) ensures u(n, l, p) <==> UnionWithin(t, nested, l, p, n) {
      UnionClosedForm(u, t, isFile, nested, n, l, p);
    }
  }

  ghost predicate SomeLevel<E(!new)>(u: ByHeight<E>, n: nat, permission: Permission, f: E) {
    exists l | l in GrantingLevels(permission) :: u(n, l, f)
  }

  /** At height `n` the unions of a permission reach direct grants up to (n - 2) / 2 parent steps
      away and group grants up to (n - 3) / 2. */
  lemma RecursiveLevels<E(!new)>(u: ByHeight<E>, t: Holdings<E>, isFile: E -> bool, nested: bool, n: nat, permission: Permission, f: E)
    requires ObeysRecursive(u, t, isFile, nested) && isFile(f)
    ensures SomeLevel(u, n, permission, f) <==> PermittedWithin(t, permission, f, (n - 2) / 2, (n - 3) / 2)
  {
    forall l: Level ensures u(n, l, f) <==> UnionWithin(t, nested, l, f, n) {
      UnionClosedForm(u, t, isFile, nested, n, l, f);
    }
    InReachMonotone(t, Owner, f, (n - 3) / 2, (n - 4) / 2);
  }

  /** A union of the flattened configuration, from height 3 on, is granted on the entity or
      directly on a parent. */
  ghost predicate FlattenedLaw<E(!new)>(u: ByHeight<E>, t: Holdings<E>, n: nat, l: Level, f: E) {
    u(n, l, f) <==> t.direct(l, f) || t.group(l, f) || exists p | p in t.parents(f) :: t.direct(l, p)
  }

  lemma FlattenedReach<E(!new)>(t: Holdings<E>, l: Level, f: E)
    ensures InReach(t, l, f, 1, 0) <==> t.direct(l, f) || t.group(l, f) || exists p | p in t.parents(f) :: t.direct(l, p)
  {
    InReachStep(t, l, f, 1, 0);
    forall p | p in t.parents(f) ensures InReach(t, l, p, 0, -1) <==> t.direct(l, p) {
      assert Ancestor(t.parents, p, 0, p);
    }
  }

  lemma FlattenedLevels<E(!new)>(u: ByHeight<E>, t: Holdings<E>, n: nat, permission: Permission, f: E)
    requires forall l :: FlattenedLaw(u, t, n, l, f)
    ensures SomeLevel(u, n, permission, f) <==> PermittedWithin(t, permission, f, 1, 0)
  {
    forall l: Level ensures u(n, l, f) <==> InReach(t, l, f, 1, 0) {
      assert FlattenedLaw(u, t, n, l, f);
      FlattenedReach(t, l, f);
    }
  }

  /* ---- how far grants can be ---- */

  lemma WithinIsAnywhere<E(!new)>(t: Holdings<E>, permission: Permission, f: E, near: int, groupNear: int)
    ensures PermittedWithin(t, permission, f, near, groupNear) ==> PermittedAnywhere(t, permission, f)
  {
    forall l | InReach(t, l, f, near, groupNear) ensures Anywhere(t, l, f) {
    }
  }

  lemma AnywhereIsWithin<E(!new)>(t: Holdings<E>, permission: Permission, f: E) returns (d: nat)
    requires PermittedAnywhere(t, permission, f)
    ensures PermittedWithin(t, permission, f, d, d)
  {
    var l :| l in GrantingLevels(permission) && Anywhere(t, l, f);
    var e: nat, g :| Ancestor(t.parents, f, e, g) && (t.direct(l, g) || t.group(l, g));
    d := e;
    assert InReach(t, l, f, d, d);
  }

  lemma PermittedMonotone<E(!new)>(t: Holdings<E>, permission: Permission, f: E, near: int, groupNear: int, near': int, groupNear': int)
    requires PermittedWithin(t, permission, f, near, groupNear) && near <= near' && groupNear <= groupNear'
    ensures PermittedWithin(t, permission, f, near', groupNear')
  {
    var l :| l in GrantingLevels(permission) && InReach(t, l, f, near, groupNear);
    InReachMonotone(t, l, f, near, groupNear);
  }

  /** Parents of parents are parents, and none of them carries a group grant. */
  ghost predicate IsClosed<E(!new)>(t: Holdings<E>) {
    forall f, p | p in t.parents(f) :: IsClosedAt(t, f, p)
  }

  ghost predicate IsClosedAt<E(!new)>(t: Holdings<E>, f: E, p: E) {
    (forall l :: !t.group(l, p)) && forall g | g in t.parents(p) :: g in t.parents(f)
  }

  lemma {:induction false} ClosedAncestorIsParent<E(!new)>(t: Holdings<E>, f: E, d: nat, g: E)
    requires IsClosed(t) && Ancestor(t.parents, f, d, g) && d >= 1
    ensures g in t.parents(f)
    decreases d
  {
    var p :| p in t.parents(f) && Ancestor(t.parents, p, d - 1, g);
    if d > 1 {
      ClosedAncestorIsParent(t, p, d - 1, g);
      assert IsClosedAt(t, f, p);
    }
  }

  lemma ClosedReach<E(!new)>(t: Holdings<E>, permission: Permission, f: E)
    requires IsClosed(t)
    ensures PermittedAnywhere(t, permission, f) <==> PermittedWithin(t, permission, f, 1, 0)
  {
    WithinIsAnywhere(t, permission, f, 1, 0);
    forall l | Anywhere(t, l, f) ensures InReach(t, l, f, 1, 0) {
      var d: nat, g :| Ancestor(t.parents, f, d, g) && (t.direct(l, g) || t.group(l, g));
      if d >= 1 {
        ClosedAncestorIsParent(t, f, d, g);
        assert IsClosedAt(t, f, g);
      }
      FlattenedReach(t, l, f);
    }
  }

  /** Every sufficient grant is above the parent, or on an ancestor through a group. */
  ghost predicate OnlyFarGrants<E(!new)>(t: Holdings<E>, permission: Permission, f: E) {
    forall l, d: nat, g | l in GrantingLevels(permission) && Ancestor(t.parents, f, d, g) ::
      (t.direct(l, g) ==> d >= 2) && (t.group(l, g) ==> d >= 1)
  }

  lemma OnlyFarGrantsAreOutOfReach<E(!new)>(t: Holdings<E>, permission: Permission, f: E)
    ensures OnlyFarGrants(t, permission, f) <==> !PermittedWithin(t, permission, f, 1, 0)
  {
    if !PermittedWithin(t, permission, f, 1, 0) {
      forall l, d: nat, g | l in GrantingLevels(permission) && Ancestor(t.parents, f, d, g)
        ensures (t.direct(l, g) ==> d >= 2) && (t.group(l, g) ==> d >= 1)
      {
        assert !InReach(t, l, f, 1, 0);
      }
    }
  }

  lemma NothingWithinLess<E(!new)>(t: Holdings<E>, permission: Permission, f: E, near: int, groupNear: int)
    requires near < 0 && groupNear < 0
    ensures !PermittedWithin(t, permission, f, near, groupNear)
  {
  }

  /** An owner of the grandparent only. */
  lemma FarOwner<E(!new)>(t: Holdings<E>, f: E, p: E, g: E)
    requires f != g && p != g && (forall e :: e in t.parents(f) <==> e == p) && g in t.parents(p)
    requires t.direct(Owner, g) && forall l, e :: (t.direct(l, e) ==> e == g) && !t.group(l, e)
    ensures PermittedAnywhere(t, Write, f) && OnlyFarGrants(t, Write, f)
  {
    assert Ancestor(t.parents, g, 0, g);
    AncestorStep(t.parents, p, g, 0, g);
    AncestorStep(t.parents, f, p, 1, g);
    assert Anywhere(t, Owner, f);
    forall l, d: nat, e | Ancestor(t.parents, f, d, e) ensures t.direct(l, e) ==> d >= 2 {
      assert d == 1 ==> exists q | q in t.parents(f) :: Ancestor(t.parents, q, 0, e);
    }
  }

  /** A grant on the file itself is in reach, direct or through a group. */
  lemma OwnGrantIsInReach<E(!new)>(t: Holdings<E>, permission: Permission, l: Level, f: E)
    requires l in GrantingLevels(permission) && (t.direct(l, f) || t.group(l, f))
    ensures PermittedWithin(t, permission, f, 1, 0)
  {
    assert Ancestor(t.parents, f, 0, f);
    assert InReach(t, l, f, 1, 0);
  }

  /** The files met on the way from `nodes[0]` up to its last element. */
  ghost predicate IsChain<E(!new)>(parents: E -> seq<E>, nodes: seq<E>) {
    nodes != [] && forall i | 0 <= i < |nodes| - 1 :: nodes[i + 1] in parents(nodes[i])
  }

  lemma {:induction false} AncestorHasChain<E(!new)>(parents: E -> seq<E>, f: E, d: nat, g: E) returns (nodes: seq<E>)
    requires Ancestor(parents, f, d, g)
    ensures IsChain(parents, nodes) && |nodes| == d + 1 && nodes[0] == f && nodes[d] == g
    decreases d
  {
    if d == 0 { nodes := [f]; }
    else {
      var p :| p in parents(f) && Ancestor(parents, p, d - 1, g);
      var rest := AncestorHasChain(parents, p, d - 1, g);
      nodes := [f] + rest;
    }
  }

  lemma {:induction false} ChainGivesAncestor<E(!new)>(parents: E -> seq<E>, nodes: seq<E>)
    requires IsChain(parents, nodes)
    ensures Ancestor(parents, nodes[0], |nodes| - 1, nodes[|nodes| - 1])
    decreases |nodes|
  {
    if |nodes| > 1 {
      ChainGivesAncestor(parents, nodes[1..]);
      AncestorStep(parents, nodes[0], nodes[1], |nodes| - 2, nodes[|nodes| - 1]);
    }
  }

  /** Cutting a cycle out of a chain. */
  lemma {:induction false} ShortenChain<E(!new)>(parents: E -> seq<E>, files: set<E>, nodes: seq<E>) returns (short: seq<E>)
    requires IsChain(parents, nodes) && forall e | e in nodes :: e in files
    ensures IsChain(parents, short) && |short| <= |files|
    ensures short[0] == nodes[0] && short[|short| - 1] == nodes[|nodes| - 1]
    decreases |nodes|
  {
    if |nodes| <= |files| { return nodes; }
    var i, j := Pigeonhole(nodes, files);
    var cut := nodes[..i] + nodes[j..];
    forall k | 0 <= k < |cut| - 1 ensures cut[k + 1] in parents(cut[k]) {
      if k + 1 < i { assert cut[k] == nodes[k] && cut[k + 1] == nodes[k + 1]; }
      else if k + 1 == i { assert cut[k] == nodes[k] && cut[k + 1] == nodes[k + 1]; }
      else { assert cut[k] == nodes[k + (j - i)] && cut[k + 1] == nodes[k + 1 + (j - i)]; }
    }
    assert cut[0] == nodes[0];
    short := ShortenChain(parents, files, cut);
  }

  ghost predicate ClosedUnderParents<E(!new)>(parents: E -> seq<E>, files: set<E>) {
    forall f, p | f in files && p in parents(f) :: p in files
  }

  lemma {:induction false} ChainStaysInside<E(!new)>(parents: E -> seq<E>, files: set<E>, nodes: seq<E>, i: nat)
    requires ClosedUnderParents(parents, files) && IsChain(parents, nodes) && nodes[0] in files && i < |nodes|
    ensures nodes[i] in files
  {
    if i > 0 { ChainStaysInside(parents, files, nodes, i - 1); }
  }

  /** With cycles or without, an ancestor is less than |files| steps away. */
  lemma NearAncestor<E(!new)>(parents: E -> seq<E>, files: set<E>, f: E, d: nat, g: E) returns (near: nat)
    requires ClosedUnderParents(parents, files) && f in files && Ancestor(parents, f, d, g)
    ensures near < |files| && Ancestor(parents, f, near, g)
  {
    var nodes := AncestorHasChain(parents, f, d, g);
    forall e | e in nodes ensures e in files {
      var i :| 0 <= i < |nodes| && nodes[i] == e;
      ChainStaysInside(parents, files, nodes, i);
    }
    var short := ShortenChain(parents, files, nodes);
    ChainGivesAncestor(parents, short);
    near := |short| - 1;
  }

  lemma GrantsAreNear<E(!new)>(t: Holdings<E>, files: set<E>, permission: Permission, f: E)
    requires ClosedUnderParents(t.parents, files) && f in files
    ensures PermittedAnywhere(t, permission, f) <==> PermittedWithin(t, permission, f, |files| - 1, |files| - 1)
  {
    WithinIsAnywhere(t, permission, f, |files| - 1, |files| - 1);
    if PermittedAnywhere(t, permission, f) {
      var l :| l in GrantingLevels(permission) && Anywhere(t, l, f);
      var d: nat, g :| Ancestor(t.parents, f, d, g) && (t.direct(l, g) || t.group(l, g));
      var near := NearAncestor(t.parents, files, f, d, g);
      assert InReach(t, l, f, |files| - 1, |files| - 1);
    }
  }
}
