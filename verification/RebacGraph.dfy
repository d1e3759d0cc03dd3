/** Relationship tuples, namespace rewrites, and what they grant.

    A check asks whether a subject holds a permission or relation (the `name` of a
    `Key`) on an object. The namespace of the object says how the name is rewritten;
    one rewrite turns a key into a rule over other keys. What is granted is the least
    fixpoint of those rules, over any finite tuple list, cyclic ones included. Exclusions are
    decided by a given set of held keys. */
module RebacGraph {
  import opened Prelude

  datatype Entity = Entity(kind: string, id: string)

  /** `conditioned` stands for a non-empty `conditions` column: bulk checks carry no
      context to evaluate it, so such tuples are never used. */
  datatype Tuple = Tuple(subject: Entity, relation: string, target: Entity,
                         subjectRelation: Option<string>, conditioned: bool)

  datatype Rewrite =
    | Direct
    | Union(members: seq<string>)
    | Intersection(members: seq<string>)
    | Exclusion(excluded: string)
    | TupleToUserset(tupleset: string, computedUserset: string)

  datatype Namespace = Namespace(permissions: map<string, Rewrite>, relations: map<string, Rewrite>)

  /** `held` are the keys that count as granted where an exclusion asks about them. */
  datatype World = World(tuples: seq<Tuple>, namespaces: map<string, Namespace>, held: set<Key>)

  datatype Key = Key(subject: Entity, name: string, target: Entity)

  /** `stored` tells whether the evaluator may put the leaf's answer in its memo. */
  datatype Rule =
    | Leaf(granted: bool, stored: bool)
    | AnyOf(premises: seq<Key>)
    | AllOf(premises: seq<Key>)
    | NoneOf(premise: Key)

  const WILDCARD := Entity("*", "*")

  /* ---- tuple lookups ---- */

  predicate IsDirectMatch(t: Tuple, k: Key) {
    && !t.conditioned && t.subjectRelation == None
    && t.relation == k.name && t.target == k.target
    && (t.subject == k.subject || t.subject == WILDCARD)
  }

  predicate HasDirect(tuples: seq<Tuple>, k: Key) {
    exists t | t in tuples :: IsDirectMatch(t, k)
  }

  predicate PointsFrom(t: Tuple, target: Entity, tupleset: string) {
    !t.conditioned && t.subject == target && t.relation == tupleset
  }

  predicate PointsTo(t: Tuple, target: Entity, tupleset: string) {
    !t.conditioned && t.target == target && t.relation == tupleset
  }

  function FindRelatedObjects(target: Entity, tupleset: string, tuples: seq<Tuple>): seq<Entity> {
    if tuples == [] then []
    else
      (if PointsFrom(tuples[0], target, tupleset) then [tuples[0].target] else [])
      + FindRelatedObjects(target, tupleset, tuples[1..])
  }

  function FindSubjects(target: Entity, tupleset: string, tuples: seq<Tuple>): seq<Entity> {
    if tuples == [] then []
    else
      (if PointsTo(tuples[0], target, tupleset) then [tuples[0].subject] else [])
      + FindSubjects(target, tupleset, tuples[1..])
  }

  lemma {:induction false} FindRelatedObjectsIsExact(target: Entity, tupleset: string, tuples: seq<Tuple>, e: Entity)
    ensures e in FindRelatedObjects(target, tupleset, tuples) <==>
            exists t | t in tuples :: PointsFrom(t, target, tupleset) && t.target == e
  {
    if tuples != [] {
      FindRelatedObjectsIsExact(target, tupleset, tuples[1..], e);
      assert tuples == [tuples[0]] + tuples[1..];
    }
  }

  lemma {:induction false} FindSubjectsIsExact(target: Entity, tupleset: string, tuples: seq<Tuple>, e: Entity)
    ensures e in FindSubjects(target, tupleset, tuples) <==>
            exists t | t in tuples :: PointsTo(t, target, tupleset) && t.subject == e
  {
    if tuples != [] {
      FindSubjectsIsExact(target, tupleset, tuples[1..], e);
      assert tuples == [tuples[0]] + tuples[1..];
    }
  }

  /** The entities a tuple-to-userset rewrite looks at: what the object points to, and,
      for every tupleset but `parent`, what points to the object. */
  function Related(target: Entity, tupleset: string, tuples: seq<Tuple>): seq<Entity> {
    FindRelatedObjects(target, tupleset, tuples)
    + if tupleset == "parent" then [] else FindSubjects(target, tupleset, tuples)
  }

  lemma RelatedIsExact(target: Entity, tupleset: string, tuples: seq<Tuple>, e: Entity)
    ensures e in Related(target, tupleset, tuples) <==>
            || (exists t | t in tuples :: PointsFrom(t, target, tupleset) && t.target == e)
            || (tupleset != "parent" && exists t | t in tuples :: PointsTo(t, target, tupleset) && t.subject == e)
  {
    FindRelatedObjectsIsExact(target, tupleset, tuples, e);
    FindSubjectsIsExact(target, tupleset, tuples, e);
  }

  /* ---- one rewrite step ---- */

  predicate UsableMembers(members: seq<string>) {
    members != [] && "" !in members
  }

  function MemberKeys(k: Key, members: seq<string>): (r: seq<Key>)
    ensures forall p :: p in r <==> exists m | m in members :: p == k.(name := m)
  {
    var r := seq(|members|, i requires 0 <= i < |members| => k.(name := members[i]));
    assert forall i | 0 <= i < |members| :: r[i] == k.(name := members[i]);
    r
  }

  function EntityKeys(k: Key, name: string, entities: seq<Entity>): (r: seq<Key>)
    ensures forall p :: p in r <==> exists e | e in entities :: p == Key(k.subject, name, e)
  {
    var r := seq(|entities|, i requires 0 <= i < |entities| => Key(k.subject, name, entities[i]));
    assert forall i | 0 <= i < |entities| :: r[i] == Key(k.subject, name, entities[i]);
    r
  }

  /** A permission is a list of names, a union, an intersection or an exclusion; any other
      shape, and an empty or ill-formed operand, is denied. */
  function ExpandPermission(k: Key, rewrite: Rewrite): Rule {
    match rewrite
    case Union(members) => if UsableMembers(members) then AnyOf(MemberKeys(k, members)) else Leaf(false, true)
    case Intersection(members) => if UsableMembers(members) then AllOf(MemberKeys(k, members)) else Leaf(false, true)
    case Exclusion(excluded) => if excluded != "" then NoneOf(k.(name := excluded)) else Leaf(false, true)
    case _ => Leaf(false, true)
  }

  function ExpandRelation(w: World, k: Key, rewrite: Rewrite): Rule {
    match rewrite
    case Direct => Leaf(HasDirect(w.tuples, k), true)
    case TupleToUserset(tupleset, computed) => AnyOf(EntityKeys(k, computed, Related(k.target, tupleset, w.tuples)))
    case _ => ExpandPermission(k, rewrite)
  }

  function Expand(w: World, k: Key): Rule {
    if k.target.kind !in w.namespaces then Leaf(HasDirect(w.tuples, k), false)
    else
      var ns := w.namespaces[k.target.kind];
      if k.name in ns.permissions then ExpandPermission(k, ns.permissions[k.name])
      else if k.name in ns.relations then ExpandRelation(w, k, ns.relations[k.name])
      else Leaf(HasDirect(w.tuples, k), true)
  }

  /* ---- meaning ---- */

  /** The key follows from the rules by a derivation of height at most `n`. */
  predicate Derivable(w: World, n: nat, k: Key) {
    n > 0 &&
    match Expand(w, k)
    case Leaf(granted, _) => granted
    case AnyOf(premises) => exists p | p in premises :: Derivable(w, n - 1, p)
    case AllOf(premises) => forall p | p in premises :: Derivable(w, n - 1, p)
    case NoneOf(premise) => premise !in w.held
  }

  ghost predicate Grants(w: World, k: Key) {
    exists n: nat :: Derivable(w, n, k)
  }

  ghost function GrantSet(w: World): iset<Key> {
    iset k | Grants(w, k)
  }

  /** One application of the rules to a set of granted keys. */
  ghost predicate Supported(w: World, x: iset<Key>, k: Key) {
    match Expand(w, k)
    case Leaf(granted, _) => granted
    case AnyOf(premises) => exists p | p in premises :: p in x
    case AllOf(premises) => forall p | p in premises :: p in x
    case NoneOf(premise) => premise !in w.held
  }

  lemma DerivableUnion(w: World, n: nat, k: Key, members: seq<string>)
    requires Expand(w, k) == AnyOf(MemberKeys(k, members))
    ensures Derivable(w, n, k) <==> n >= 1 && exists m | m in members :: Derivable(w, n - 1, k.(name := m))
  {
    forall m | m in members ensures k.(name := m) in Expand(w, k).premises {}
  }

  lemma DerivableUserset(w: World, n: nat, k: Key, name: string, entities: seq<Entity>)
    requires Expand(w, k) == AnyOf(EntityKeys(k, name, entities))
    ensures Derivable(w, n, k) <==> n >= 1 && exists e | e in entities :: Derivable(w, n - 1, Key(k.subject, name, e))
  {
    forall e | e in entities ensures Key(k.subject, name, e) in Expand(w, k).premises {}
  }

  lemma {:induction false} DerivableMonotone(w: World, m: nat, n: nat, k: Key)
    requires m <= n && Derivable(w, m, k)
    ensures Derivable(w, n, k)
  {
    match Expand(w, k)
    case Leaf(_, _) =>
    case AnyOf(premises) =>
      var p :| p in premises && Derivable(w, m - 1, p);
      DerivableMonotone(w, m - 1, n - 1, p);
    case AllOf(premises) =>
      forall p | p in premises ensures Derivable(w, n - 1, p) {
        DerivableMonotone(w, m - 1, n - 1, p);
      }
    case NoneOf(_) =>
  }

  /** Finitely many granted keys are all derivable at one common height. */
  lemma {:induction false} CommonHeight(w: World, keys: seq<Key>) returns (n: nat)
    requires forall k | k in keys :: Grants(w, k)
    ensures forall k | k in keys :: Derivable(w, n, k)
  {
    n := 0;
    for i := 0 to |keys|
      invariant forall j | 0 <= j < i :: Derivable(w, n, keys[j])
    {
      assert Grants(w, keys[i]);
      var m: nat :| Derivable(w, m, keys[i]);
      var top := if m < n then n else m;
      forall j | 0 <= j <= i ensures Derivable(w, top, keys[j]) {
        DerivableMonotone(w, if j < i then n else m, top, keys[j]);
      }
      n := top;
    }
  }

  /** The granted keys are a fixpoint of the rules and lie in every set closed under
      them: `Grants` is the least fixpoint. */
  lemma GrantSetIsLeastFixpoint(w: World)
    ensures forall k :: k in GrantSet(w) <==> Supported(w, GrantSet(w), k)
    ensures forall x: iset<Key> | (forall k | Supported(w, x, k) :: k in x) :: GrantSet(w) <= x
  {
    forall k ensures k in GrantSet(w) <==> Supported(w, GrantSet(w), k) {
      if k in GrantSet(w) {
        GrantedIsSupported(w, k);
      } else if Supported(w, GrantSet(w), k) {
        SupportedIsGranted(w, k);
      }
    }
    forall x: iset<Key>, k | (forall j | Supported(w, x, j) :: j in x) && k in GrantSet(w)
      ensures k in x
    {
      var n: nat :| Derivable(w, n, k);
      DerivableInClosedSet(w, x, n, k);
    }
  }

  lemma GrantedIsSupported(w: World, k: Key)
    requires Grants(w, k)
    ensures Supported(w, GrantSet(w), k)
  {
    var n: nat :| Derivable(w, n, k);
    var rule := Expand(w, k);
    if rule.AnyOf? || rule.AllOf? {
      assert forall p | p in rule.premises && Derivable(w, n - 1, p) :: p in GrantSet(w);
    }
  }

  lemma SupportedIsGranted(w: World, k: Key)
    requires Supported(w, GrantSet(w), k)
    ensures Grants(w, k)
  {
    match Expand(w, k)
    case Leaf(_, _) => assert Derivable(w, 1, k);
    case AnyOf(premises) =>
      var p :| p in premises && p in GrantSet(w);
      var n: nat :| Derivable(w, n, p);
      assert Derivable(w, n + 1, k);
    case AllOf(premises) =>
      var n := CommonHeight(w, premises);
      assert Derivable(w, n + 1, k);
    case NoneOf(_) => assert Derivable(w, 1, k);
  }

  lemma {:induction false} DerivableInClosedSet(w: World, x: iset<Key>, n: nat, k: Key)
    requires forall j | Supported(w, x, j) :: j in x
    requires Derivable(w, n, k)
    ensures k in x
  {
    match Expand(w, k)
    case Leaf(_, _) =>
    case AnyOf(premises) =>
      var p :| p in premises && Derivable(w, n - 1, p);
      DerivableInClosedSet(w, x, n - 1, p);
    case AllOf(premises) =>
      forall p | p in premises ensures p in x {
        DerivableInClosedSet(w, x, n - 1, p);
      }
    case NoneOf(_) =>
    assert Supported(w, x, k);
  }

  /* ---- the same, read off the tuples ---- */

  /** An unconditioned tuple names the key's relation and object, and the subject itself or
      the public wildcard rather than a userset. */
  predicate ByTuple(tuples: seq<Tuple>, k: Key) {
    exists t | t in tuples && !t.conditioned ::
      t.relation == k.name && t.target == k.target && t.subjectRelation == None
      && (t.subject == k.subject || t.subject == Entity("*", "*"))
  }

  lemma DirectIsByTuple(tuples: seq<Tuple>, k: Key)
    ensures HasDirect(tuples, k) <==> ByTuple(tuples, k)
  {
  }

  /** Some unconditioned tuple of the tupleset joins the object to an entity on which the
      subject holds the computed userset; `parent` is only followed from the object. */
  ghost predicate ByUserset(w: World, k: Key, tupleset: string, computed: string) {
    exists t | t in w.tuples && !t.conditioned && t.relation == tupleset ::
      || (t.subject == k.target && Grants(w, Key(k.subject, computed, t.target)))
      || (tupleset != "parent" && t.target == k.target && Grants(w, Key(k.subject, computed, t.subject)))
  }

  /** What a rewrite asks of the tuples and of the other grants. */
  ghost predicate ByRewrite(w: World, k: Key, rewrite: Rewrite, isRelation: bool) {
    match rewrite
    case Direct => isRelation && ByTuple(w.tuples, k)
    case Union(members) => members != [] && "" !in members && exists m | m in members :: Grants(w, k.(name := m))
    case Intersection(members) => members != [] && "" !in members && forall m | m in members :: Grants(w, k.(name := m))
    case Exclusion(excluded) => excluded != "" && k.(name := excluded) !in w.held
    case TupleToUserset(tupleset, computed) => isRelation && ByUserset(w, k, tupleset, computed)
  }

  ghost predicate ByNamespace(w: World, k: Key) {
    if k.target.kind !in w.namespaces then ByTuple(w.tuples, k)
    else
      var ns := w.namespaces[k.target.kind];
      if k.name in ns.permissions then ByRewrite(w, k, ns.permissions[k.name], false)
      else if k.name in ns.relations then ByRewrite(w, k, ns.relations[k.name], true)
      else ByTuple(w.tuples, k)
  }

  lemma UsersetIsSupported(w: World, k: Key, tupleset: string, computed: string)
    ensures (exists p | p in EntityKeys(k, computed, Related(k.target, tupleset, w.tuples)) :: p in GrantSet(w)) <==>
            ByUserset(w, k, tupleset, computed)
  {
    var related := Related(k.target, tupleset, w.tuples);
    if e :| e in related && Grants(w, Key(k.subject, computed, e)) {
      RelatedIsExact(k.target, tupleset, w.tuples, e);
    }
    if t :| t in w.tuples && !t.conditioned && t.relation == tupleset && t.subject == k.target
            && Grants(w, Key(k.subject, computed, t.target)) {
      RelatedIsExact(k.target, tupleset, w.tuples, t.target);
      assert Key(k.subject, computed, t.target) in EntityKeys(k, computed, related);
    }
    if t :| t in w.tuples && !t.conditioned && t.relation == tupleset && tupleset != "parent" && t.target == k.target
            && Grants(w, Key(k.subject, computed, t.subject)) {
      RelatedIsExact(k.target, tupleset, w.tuples, t.subject);
      assert Key(k.subject, computed, t.subject) in EntityKeys(k, computed, related);
    }
  }

  lemma MembersAreSupported(w: World, k: Key, members: seq<string>)
    ensures (exists p | p in MemberKeys(k, members) :: p in GrantSet(w)) <==>
            exists m | m in members :: Grants(w, k.(name := m))
    ensures (forall p | p in MemberKeys(k, members) :: p in GrantSet(w)) <==>
            forall m | m in members :: Grants(w, k.(name := m))
  {
    forall m | m in members ensures k.(name := m) in MemberKeys(k, members) {}
  }

  lemma RewriteIsSupported(w: World, k: Key)
    requires Expand(w, k).AnyOf? || Expand(w, k).AllOf?
    ensures Supported(w, GrantSet(w), k) <==> ByNamespace(w, k)
  {
    var ns := w.namespaces[k.target.kind];
    var rewrite := if k.name in ns.permissions then ns.permissions[k.name] else ns.relations[k.name];
    if rewrite.TupleToUserset? {
      UsersetIsSupported(w, k, rewrite.tupleset, rewrite.computedUserset);
    } else {
      MembersAreSupported(w, k, rewrite.members);
    }
  }

  /** A key is granted exactly when its namespace says so of the tuples and the other grants:
      the rewrites mean what they are called, over any tuples and namespaces. */
  lemma GrantsByNamespace(w: World, k: Key)
    ensures Grants(w, k) <==> ByNamespace(w, k)
  {
    if Grants(w, k) { GrantedIsSupported(w, k); }
    if Supported(w, GrantSet(w), k) { SupportedIsGranted(w, k); }
    if Expand(w, k).AnyOf? || Expand(w, k).AllOf? { RewriteIsSupported(w, k); }
  }

  lemma RelatedMonotone(target: Entity, tupleset: string, tuples: seq<Tuple>, tuples': seq<Tuple>, e: Entity)
    requires forall t | t in tuples && !t.conditioned :: t in tuples'
    requires e in Related(target, tupleset, tuples)
    ensures e in Related(target, tupleset, tuples')
  {
    RelatedIsExact(target, tupleset, tuples, e);
    RelatedIsExact(target, tupleset, tuples', e);
  }

  lemma PremiseStays(w: World, w': World, k: Key, p: Key)
    requires w.namespaces == w'.namespaces && forall t | t in w.tuples && !t.conditioned :: t in w'.tuples
    requires Expand(w, k).AnyOf? && p in Expand(w, k).premises
    ensures Expand(w', k).AnyOf? && p in Expand(w', k).premises
  {
    var ns := w.namespaces[k.target.kind];
    if k.name !in ns.permissions && ns.relations[k.name].TupleToUserset? {
      RelatedMonotone(k.target, ns.relations[k.name].tupleset, w.tuples, w'.tuples, p.target);
    }
  }

  /** As long as exclusions are decided the same, adding tuples never revokes, and conditioned
      tuples grant nothing: the answer under every height bound only grows. */
  lemma {:induction false} MoreTuplesGrantMore(w: World, w': World, n: nat, k: Key)
    requires w.namespaces == w'.namespaces && w'.held <= w.held
    requires forall t | t in w.tuples && !t.conditioned :: t in w'.tuples
    requires Derivable(w, n, k)
    ensures Derivable(w', n, k)
  {
    match Expand(w, k)
    case Leaf(_, _) =>
    case AnyOf(premises) =>
      var p :| p in premises && Derivable(w, n - 1, p);
      MoreTuplesGrantMore(w, w', n - 1, p);
      PremiseStays(w, w', k, p);
    case AllOf(premises) =>
      forall p | p in premises ensures Derivable(w', n - 1, p) {
        MoreTuplesGrantMore(w, w', n - 1, p);
      }
    case NoneOf(_) =>
  }

  /* ---- saturation on a finite set of keys ---- */

  predicate ClosedUnderRules(w: World, universe: set<Key>) {
    forall k | k in universe :: Premises(Expand(w, k)) <= universe
  }

  function Premises(rule: Rule): set<Key> {
    match rule
    case Leaf(_, _) => {}
    case NoneOf(premise) => {premise}
    case _ => set p | p in rule.premises
  }

  ghost function Level(w: World, universe: set<Key>, n: nat): set<Key> {
    set k | k in universe && Derivable(w, n, k)
  }

  lemma LevelStep(w: World, universe: set<Key>, m: nat, n: nat, k: Key)
    requires ClosedUnderRules(w, universe) && k in universe
    requires Level(w, universe, m) == Level(w, universe, n)
    ensures Derivable(w, m + 1, k) <==> Derivable(w, n + 1, k)
  {
    var rule := Expand(w, k);
    if rule.AnyOf? || rule.AllOf? {
      forall p | p in rule.premises ensures Derivable(w, m, p) <==> Derivable(w, n, p) {
        assert p in Premises(rule);
        assert p in Level(w, universe, m) <==> p in Level(w, universe, n);
      }
    }
  }

  lemma {:induction false} LevelStaysStable(w: World, universe: set<Key>, m: nat, n: nat)
    requires ClosedUnderRules(w, universe) && m <= n
    requires Level(w, universe, m) == Level(w, universe, m + 1)
    ensures Level(w, universe, n) == Level(w, universe, m)
    decreases n - m
  {
    if m < n {
      LevelStaysStable(w, universe, m, n - 1);
      forall k | k in universe ensures Derivable(w, n, k) <==> Derivable(w, m + 1, k) {
        LevelStep(w, universe, n - 1, m, k);
      }
    }
  }

  ghost predicate IsStableAt(w: World, universe: set<Key>, m: nat) {
    Level(w, universe, m) == Level(w, universe, m + 1)
  }

  lemma LevelGrows(w: World, universe: set<Key>, n: nat)
    ensures Level(w, universe, n) <= Level(w, universe, n + 1)
    ensures IsStableAt(w, universe, n) || |Level(w, universe, n)| < |Level(w, universe, n + 1)|
  {
    var lower, upper := Level(w, universe, n), Level(w, universe, n + 1);
    forall k | k in lower ensures k in upper { DerivableMonotone(w, n, n + 1, k); }
    if lower != upper { SubsetCardinality(lower, upper); }
  }

  lemma {:induction false} LevelGrowsOrIsStable(w: World, universe: set<Key>, n: nat)
    ensures |Level(w, universe, n)| >= n || exists m | 0 <= m < n :: IsStableAt(w, universe, m)
  {
    if n > 0 {
      LevelGrowsOrIsStable(w, universe, n - 1);
      LevelGrows(w, universe, n - 1);
    }
  }

  /** On a finite set of keys closed under the rules, height |universe| already decides
      every grant: no derivation needs to be taller, whatever cycles the tuples form. */
  lemma Saturation(w: World, universe: set<Key>, k: Key)
    requires ClosedUnderRules(w, universe) && k in universe
    ensures Grants(w, k) <==> Derivable(w, |universe|, k)
  {
    var size := |universe|;
    if Grants(w, k) {
      var n: nat :| Derivable(w, n, k);
      if n <= size {
        DerivableMonotone(w, n, size, k);
      } else {
        LevelGrowsOrIsStable(w, universe, size);
        if m :| 0 <= m < size && IsStableAt(w, universe, m) {
          LevelStaysStable(w, universe, m, size);
          LevelStaysStable(w, universe, m, n);
          assert k in Level(w, universe, n);
          assert k in Level(w, universe, size);
        } else {
          SubsetEquality(Level(w, universe, size), universe);
          assert k in Level(w, universe, size);
        }
      }
    }
  }
}
