/** The in-memory permission evaluator: a depth-first search over the rules that denies
    on a revisited key and below a fixed depth, optionally sharing a memo between the
    checks of a batch. */
module BulkEvaluator {
  import opened Prelude
  import opened RebacGraph
  import opened Exclusion

  const MAX_DEPTH: nat := 50

  /* ---- without a memo ---- */

  predicate Search(w: World, maxDepth: nat, k: Key, depth: nat, visited: set<Key>)
    decreases if depth <= maxDepth then maxDepth + 1 - depth else 0
  {
    depth <= maxDepth && k !in visited &&
    match Expand(w, k)
    case Leaf(granted, _) => granted
    case AnyOf(premises) => exists p | p in premises :: Search(w, maxDepth, p, depth + 1, visited + {k})
    case AllOf(premises) => forall p | p in premises :: Search(w, maxDepth, p, depth + 1, visited + {k})
    case NoneOf(premise) => !Search(w, maxDepth, premise, depth + 1, visited + {k})
  }

  /** Wherever the search asks about an excluded key, it gets the answer the meaning gives. */
  ghost predicate DecidesExclusions(w: World, maxDepth: nat, k: Key, depth: nat, visited: set<Key>)
    decreases if depth <= maxDepth then maxDepth + 1 - depth else 0
  {
    depth <= maxDepth && k !in visited ==>
      match Expand(w, k)
      case Leaf(_, _) => true
      case AnyOf(premises) => forall p | p in premises :: DecidesExclusions(w, maxDepth, p, depth + 1, visited + {k})
      case AllOf(premises) => forall p | p in premises :: DecidesExclusions(w, maxDepth, p, depth + 1, visited + {k})
      case NoneOf(premise) => Search(w, maxDepth, premise, depth + 1, visited + {k}) <==> premise in w.held
  }

  lemma {:induction false} SearchIsSound(w: World, maxDepth: nat, k: Key, depth: nat, visited: set<Key>)
    requires Search(w, maxDepth, k, depth, visited) && DecidesExclusions(w, maxDepth, k, depth, visited)
    ensures depth <= maxDepth && Derivable(w, maxDepth + 1 - depth, k)
    decreases if depth <= maxDepth then maxDepth + 1 - depth else 0
  {
    var rule, path := Expand(w, k), visited + {k};
    if rule.AnyOf? || rule.AllOf? {
      forall p | p in rule.premises && Search(w, maxDepth, p, depth + 1, path) ensures Derivable(w, maxDepth - depth, p) {
        assert DecidesExclusions(w, maxDepth, p, depth + 1, path);
        SearchIsSound(w, maxDepth, p, depth + 1, path);
      }
    }
  }

  /** The least height at which a key is derivable. */
  lemma {:induction false} LeastHeight(w: World, n: nat, k: Key) returns (m: nat)
    requires Derivable(w, n, k)
    ensures 0 < m <= n && Derivable(w, m, k) && !Derivable(w, m - 1, k)
  {
    if Derivable(w, n - 1, k) { m := LeastHeight(w, n - 1, k); } else { m := n; }
  }

  /** A search started with `visited` may deny keys of that set, so a key is only sure to be
      found when it has a derivation strictly below all of them. */
  ghost predicate Below(w: World, n: nat, visited: set<Key>) {
    forall v | v in visited :: !Derivable(w, n, v)
  }

  /** A derivation of a key on the path rests on premises derivable below the longer path. */
  lemma PremisesBelow(w: World, n: nat, k: Key, visited: set<Key>) returns (m: nat)
    requires Derivable(w, n, k) && Below(w, n, visited)
    ensures m < n && Below(w, m, visited + {k})
    ensures Expand(w, k).AnyOf? ==> exists p | p in Expand(w, k).premises :: Derivable(w, m, p)
    ensures Expand(w, k).AllOf? ==> forall p | p in Expand(w, k).premises :: Derivable(w, m, p)
  {
    var height := LeastHeight(w, n, k);
    m := height - 1;
    forall v | v in visited + {k} ensures !Derivable(w, m, v) {
      if Derivable(w, m, v) { DerivableMonotone(w, m, n, v); }
    }
  }

  lemma {:induction false} SearchIsComplete(w: World, maxDepth: nat, k: Key, depth: nat, visited: set<Key>, n: nat)
    requires Derivable(w, n, k) && depth + n <= maxDepth + 1 && Below(w, n, visited)
    requires DecidesExclusions(w, maxDepth, k, depth, visited)
    ensures Search(w, maxDepth, k, depth, visited)
    decreases n
  {
    var m := PremisesBelow(w, n, k, visited);
    var rule := Expand(w, k);
    if rule.AnyOf? || rule.AllOf? {
      forall p | p in rule.premises && Derivable(w, m, p)
        ensures Search(w, maxDepth, p, depth + 1, visited + {k})
      {
        SearchIsComplete(w, maxDepth, p, depth + 1, visited + {k}, m);
      }
    }
  }

  /** A check without a memo answers exactly the derivations of height `maxDepth + 1`:
      denying revisited keys loses nothing. */
  lemma SearchIsBoundedDerivation(w: World, maxDepth: nat, k: Key)
    requires DecidesExclusions(w, maxDepth, k, 0, {})
    ensures Search(w, maxDepth, k, 0, {}) <==> Derivable(w, maxDepth + 1, k)
  {
    if Search(w, maxDepth, k, 0, {}) { SearchIsSound(w, maxDepth, k, 0, {}); }
    if Derivable(w, maxDepth + 1, k) { SearchIsComplete(w, maxDepth, k, 0, {}, maxDepth + 1); }
  }

  /* ---- keys without exclusions ---- */

  /** A set of keys that depend only on each other and on no exclusion. */
  ghost predicate IsPlain(w: World, keys: iset<Key>) {
    forall k | k in keys :: !Expand(w, k).NoneOf? && forall p | p in Premises(Expand(w, k)) :: p in keys
  }

  lemma {:induction false} PlainDecidesExclusions(w: World, keys: iset<Key>, maxDepth: nat, k: Key, depth: nat, visited: set<Key>)
    requires IsPlain(w, keys) && k in keys
    ensures DecidesExclusions(w, maxDepth, k, depth, visited)
    decreases if depth <= maxDepth then maxDepth + 1 - depth else 0
  {
    var rule := Expand(w, k);
    if depth <= maxDepth && (rule.AnyOf? || rule.AllOf?) {
      forall p | p in rule.premises ensures DecidesExclusions(w, maxDepth, p, depth + 1, visited + {k}) {
        assert p in Premises(rule);
        PlainDecidesExclusions(w, keys, maxDepth, p, depth + 1, visited + {k});
      }
    }
  }

  /** There the depth limit is invisible when the keys the check can reach are at most
      `maxDepth + 1`. */
  lemma PlainSearchIsExact(w: World, keys: iset<Key>, maxDepth: nat, universe: set<Key>, k: Key)
    requires IsPlain(w, keys) && k in keys
    requires ClosedUnderRules(w, universe) && k in universe && |universe| <= maxDepth + 1
    ensures Search(w, maxDepth, k, 0, {}) <==> Grants(w, k)
  {
    PlainDecidesExclusions(w, keys, maxDepth, k, 0, {});
    SearchIsBoundedDerivation(w, maxDepth, k);
    Saturation(w, universe, k);
    if Derivable(w, |universe|, k) { DerivableMonotone(w, |universe|, maxDepth + 1, k); }
  }

  /* ---- ranked keys ---- */

  /** Keys on the path that the check cannot reach again do not matter. */
  lemma {:induction false} OnlyReachableMatters(w: World, universe: set<Key>, maxDepth: nat, k: Key, depth: nat, visited: set<Key>)
    requires ClosedUnderRules(w, universe) && k in universe
    ensures Search(w, maxDepth, k, depth, visited) <==> Search(w, maxDepth, k, depth, visited * universe)
    decreases if depth <= maxDepth then maxDepth + 1 - depth else 0
  {
    if depth <= maxDepth {
      assert (visited + {k}) * universe == visited * universe + {k};
      forall p | p in Premises(Expand(w, k))
        ensures Search(w, maxDepth, p, depth + 1, visited + {k}) <==>
                Search(w, maxDepth, p, depth + 1, visited * universe + {k})
      {
        OnlyReachableMatters(w, universe, maxDepth, p, depth + 1, visited + {k});
        OnlyReachableMatters(w, universe, maxDepth, p, depth + 1, visited * universe + {k});
        assert (visited * universe + {k}) * universe == (visited + {k}) * universe;
      }
      ReachableStep(w, maxDepth, k, depth, visited, visited * universe);
    }
  }

  lemma ReachableStep(w: World, maxDepth: nat, k: Key, depth: nat, a: set<Key>, b: set<Key>)
    requires depth <= maxDepth && (k in a <==> k in b)
    requires forall p | p in Premises(Expand(w, k)) ::
               Search(w, maxDepth, p, depth + 1, a + {k}) <==> Search(w, maxDepth, p, depth + 1, b + {k})
    ensures Search(w, maxDepth, k, depth, a) <==> Search(w, maxDepth, k, depth, b)
  {
    var rule := Expand(w, k);
    if rule.NoneOf? {
      assert rule.premise in Premises(rule);
    } else if rule.AnyOf? || rule.AllOf? {
      assert forall p | p in rule.premises :: p in Premises(rule);
    }
  }

  /** A finite set of ranked keys, closed under the rules, with its meaning. */
  ghost predicate HasMeaning(w: World, universe: set<Key>, rank: Key -> nat) {
    ClosedUnderRules(w, universe) && IsRanked(w, universe, rank) && IsMeaning(w, universe)
  }

  /** Sets that share nothing lie side by side. */
  lemma DisjointSizes<T>(a: set<T>, b: set<T>, whole: set<T>)
    requires a !! b && a <= whole && b <= whole
    ensures |a| + |b| <= |whole|
  {
    assert |a + b| == |a| + |b|;
    SubsetSize(a + b, whole);
  }

  /** Within the keys up to rank `r`, a path of keys no lower than the next. */
  ghost predicate IsDescent(universe: set<Key>, rank: Key -> nat, r: nat, k: Key, visited: set<Key>) {
    && k in UpToRank(universe, rank, r) && visited <= UpToRank(universe, rank, r)
    && forall v | v in visited :: rank(v) >= rank(k)
  }

  lemma DescentStep(universe: set<Key>, rank: Key -> nat, r: nat, k: Key, visited: set<Key>, p: Key)
    requires IsDescent(universe, rank, r, k, visited) && k !in visited && p in universe && rank(p) <= rank(k)
    ensures IsDescent(universe, rank, r, p, visited + {k}) && |visited + {k}| == |visited| + 1
  {
  }

  /** The path and the keys an exclusion can reach share nothing. */
  lemma RoomBelow(universe: set<Key>, rank: Key -> nat, r: nat, k: Key, p: Key, visited: set<Key>)
    requires IsDescent(universe, rank, r, k, visited) && k !in visited && rank(p) < rank(k)
    ensures visited + {k} !! UpToRank(universe, rank, rank(p))
    ensures |visited| + 1 + |UpToRank(universe, rank, rank(p))| <= |UpToRank(universe, rank, r)|
  {
    assert |visited + {k}| == |visited| + 1;
    DisjointSizes(visited + {k}, UpToRank(universe, rank, rank(p)), UpToRank(universe, rank, r));
  }

  lemma DecidesStep(w: World, maxDepth: nat, k: Key, depth: nat, visited: set<Key>)
    requires depth <= maxDepth
    requires forall p | p in Premises(Expand(w, k)) :: IsDecided(w, maxDepth, k, depth, visited, p)
    ensures DecidesExclusions(w, maxDepth, k, depth, visited)
  {
    var rule := Expand(w, k);
    if rule.NoneOf? {
      assert IsDecided(w, maxDepth, k, depth, visited, rule.premise);
    } else if rule.AnyOf? || rule.AllOf? {
      assert forall p | p in rule.premises :: IsDecided(w, maxDepth, k, depth, visited, p);
    }
  }

  lemma RankedPremise(w: World, universe: set<Key>, rank: Key -> nat, k: Key, p: Key)
    requires HasMeaning(w, universe, rank) && k in universe && p in Premises(Expand(w, k))
    ensures p in universe && rank(p) <= rank(k) && (Expand(w, k).NoneOf? ==> rank(p) < rank(k))
  {
  }

  /** Below the rank of every key on the path, and with room for the keys of its own rank and
      lower, the search gives the meaning. */
  lemma {:induction false} RankedSearch(w: World, universe: set<Key>, rank: Key -> nat, maxDepth: nat, k: Key, depth: nat, visited: set<Key>)
    requires HasMeaning(w, universe, rank) && k in universe && visited !! UpToRank(universe, rank, rank(k))
    requires depth + |UpToRank(universe, rank, rank(k))| <= maxDepth + 1
    ensures Search(w, maxDepth, k, depth, visited) <==> k in w.held
    decreases rank(k), 1, 0, 0
  {
    var lower := UpToRank(universe, rank, rank(k));
    UpToRankIsClosed(w, universe, rank, rank(k));
    OnlyReachableMatters(w, lower, maxDepth, k, depth, visited);
    assert visited * lower == {};
    RankedPath(w, universe, rank, maxDepth, rank(k), depth, k, depth, {});
    if Search(w, maxDepth, k, depth, {}) { SearchIsSound(w, maxDepth, k, depth, {}); }
    if Grants(w, k) {
      Saturation(w, lower, k);
      SearchIsComplete(w, maxDepth, k, depth, {}, |lower|);
    }
  }

  ghost predicate IsDecided(w: World, maxDepth: nat, k: Key, depth: nat, visited: set<Key>, p: Key) {
    if Expand(w, k).NoneOf? then Search(w, maxDepth, p, depth + 1, visited + {k}) <==> p in w.held
    else DecidesExclusions(w, maxDepth, p, depth + 1, visited + {k})
  }

  lemma {:induction false} RankedPath(w: World, universe: set<Key>, rank: Key -> nat, maxDepth: nat, r: nat, base: nat,
                                      k: Key, depth: nat, visited: set<Key>)
    requires HasMeaning(w, universe, rank) && IsDescent(universe, rank, r, k, visited)
    requires depth == base + |visited| && base + |UpToRank(universe, rank, r)| <= maxDepth + 1
    ensures DecidesExclusions(w, maxDepth, k, depth, visited)
    decreases r, 0, if depth <= maxDepth then maxDepth + 1 - depth else 0, 1
  {
    if depth <= maxDepth && k !in visited {
      forall p | p in Premises(Expand(w, k)) ensures IsDecided(w, maxDepth, k, depth, visited, p) {
        RankedPathStep(w, universe, rank, maxDepth, r, base, k, depth, visited, p);
      }
      DecidesStep(w, maxDepth, k, depth, visited);
    }
  }

  lemma {:induction false} RankedPathStep(w: World, universe: set<Key>, rank: Key -> nat, maxDepth: nat, r: nat, base: nat,
                                          k: Key, depth: nat, visited: set<Key>, p: Key)
    requires HasMeaning(w, universe, rank) && IsDescent(universe, rank, r, k, visited)
    requires depth == base + |visited| && base + |UpToRank(universe, rank, r)| <= maxDepth + 1
    requires depth <= maxDepth && k !in visited && p in Premises(Expand(w, k))
    ensures IsDecided(w, maxDepth, k, depth, visited, p)
    decreases r, 0, if depth <= maxDepth then maxDepth + 1 - depth else 0, 0
  {
    RankedPremise(w, universe, rank, k, p);
    if Expand(w, k).NoneOf? {
      RankedExclusion(w, universe, rank, maxDepth, r, base, k, depth, visited, p);
    } else {
      DescentStep(universe, rank, r, k, visited, p);
      RankedPath(w, universe, rank, maxDepth, r, base, p, depth + 1, visited + {k});
    }
  }

  lemma {:induction false} RankedExclusion(w: World, universe: set<Key>, rank: Key -> nat, maxDepth: nat, r: nat, base: nat,
                                           k: Key, depth: nat, visited: set<Key>, p: Key)
    requires HasMeaning(w, universe, rank) && IsDescent(universe, rank, r, k, visited) && k !in visited
    requires depth == base + |visited| && base + |UpToRank(universe, rank, r)| <= maxDepth + 1
    requires p in universe && rank(p) < rank(k)
    ensures Search(w, maxDepth, p, depth + 1, visited + {k}) <==> p in w.held
    decreases r, 0, 0, 0
  {
    RoomBelow(universe, rank, r, k, p, visited);
    RankedSearch(w, universe, rank, maxDepth, p, depth + 1, visited + {k});
  }

  /** On ranked keys, exclusions included, the search is exactly the meaning when the keys are
      at most `maxDepth + 1`. */
  lemma SearchIsExactOnSmallGraphs(w: World, maxDepth: nat, universe: set<Key>, rank: Key -> nat, k: Key)
    requires HasMeaning(w, universe, rank) && k in universe && |universe| <= maxDepth + 1
    ensures Search(w, maxDepth, k, 0, {}) <==> Grants(w, k)
  {
    SubsetSize(UpToRank(universe, rank, rank(k)), universe);
    RankedSearch(w, universe, rank, maxDepth, k, 0, {});
    assert k in w.held <==> Grants(w, k);
  }

  /** A key that excludes itself is granted: the revisit is denied and the denial inverted. */
  lemma SelfExclusionIsGranted(w: World, maxDepth: nat, k: Key)
    requires Expand(w, k) == NoneOf(k)
    ensures Search(w, maxDepth, k, 0, {})
  {
  }

  /* ---- with a memo shared by a batch ---- */

  /** The keys a batch may ask about: any that depend on no exclusion, or a ranked set small
      enough for the depth limit. */
  datatype Scope = Plain(keys: iset<Key>) | Ranked(universe: set<Key>, rank: Key -> nat)

  ghost predicate IsScope(w: World, scope: Scope) {
    match scope
    case Plain(keys) => IsPlain(w, keys)
    case Ranked(universe, rank) => HasMeaning(w, universe, rank) && |universe| <= MAX_DEPTH + 1
  }

  ghost function RankOf(scope: Scope, k: Key): nat { if scope.Plain? then 0 else scope.rank(k) }

  ghost predicate InScope(scope: Scope, k: Key) { if scope.Plain? then k in scope.keys else k in scope.universe }

  /** A path in the scope down to `k`. */
  ghost predicate IsPath(scope: Scope, k: Key, visited: set<Key>) {
    InScope(scope, k) && forall v | v in visited :: InScope(scope, v) && RankOf(scope, v) >= RankOf(scope, k)
  }

  lemma PremiseInScope(w: World, scope: Scope, k: Key, visited: set<Key>, p: Key)
    requires IsScope(w, scope) && IsPath(scope, k, visited) && p in Premises(Expand(w, k))
    ensures IsPath(scope, p, visited + {k}) && RankOf(scope, p) <= RankOf(scope, k)
    ensures Expand(w, k).NoneOf? ==> scope.Ranked? && RankOf(scope, p) < RankOf(scope, k)
  {
    if scope.Ranked? { RankedPremise(w, scope.universe, scope.rank, k, p); }
  }

  /** What a memo must satisfy: stored grants are grants, and a stored denial rules out
      every derivation the depth limit admits. */
  ghost predicate MemoValid(w: World, memo: map<Key, bool>) {
    forall k | k in memo :: if memo[k] then Grants(w, k) else !Derivable(w, MAX_DEPTH + 1, k)
  }

  /** The keys of the path that a check of `k` could come back to. */
  ghost function Relevant(scope: Scope, visited: set<Key>, k: Key): set<Key> {
    set v | v in visited && RankOf(scope, v) <= RankOf(scope, k)
  }

  /** An answer given at `depth` with `visited` on the path: a grant is a grant, and no
      derivation that fits the remaining depth below the path is missed. */
  ghost predicate AnswerValid(w: World, scope: Scope, k: Key, depth: nat, visited: set<Key>, granted: bool) {
    && (granted ==> Grants(w, k))
    && (!granted ==> forall n: nat | depth + n <= MAX_DEPTH + 1 && Below(w, n, Relevant(scope, visited, k)) :: !Derivable(w, n, k))
  }

  /** Stored answers stay as they are, and no key on the path gets one. */
  ghost predicate Keeps(before: map<Key, bool>, after: map<Key, bool>, visited: set<Key>) {
    && (forall k | k in before :: k in after && after[k] == before[k])
    && (forall k | k in visited && k in after :: k in before)
  }

  lemma StoredAnswerIsValid(w: World, scope: Scope, memo: map<Key, bool>, k: Key, depth: nat, visited: set<Key>)
    requires MemoValid(w, memo) && k in memo
    ensures AnswerValid(w, scope, k, depth, visited, memo[k])
  {
    forall n: nat | !memo[k] && depth + n <= MAX_DEPTH + 1 ensures !Derivable(w, n, k) {
      if Derivable(w, n, k) { DerivableMonotone(w, n, MAX_DEPTH + 1, k); }
    }
  }

  /** The first `n` of the keys are denied. */
  ghost predicate AreDenied(w: World, scope: Scope, keys: seq<Key>, n: nat, depth: nat, visited: set<Key>)
    requires n <= |keys|
  {
    forall i | 0 <= i < n :: AnswerValid(w, scope, keys[i], depth, visited, false)
  }

  lemma DeniedNext(w: World, scope: Scope, keys: seq<Key>, n: nat, depth: nat, visited: set<Key>)
    requires n < |keys| && AreDenied(w, scope, keys, n, depth, visited) && AnswerValid(w, scope, keys[n], depth, visited, false)
    ensures AreDenied(w, scope, keys, n + 1, depth, visited)
  {
  }

  /** Below the path of a key lies that of each of its premises. */
  lemma BelowPremise(w: World, scope: Scope, k: Key, visited: set<Key>, p: Key, m: nat)
    requires IsScope(w, scope) && IsPath(scope, k, visited) && p in Premises(Expand(w, k))
    requires Below(w, m, Relevant(scope, visited, k) + {k})
    ensures Below(w, m, Relevant(scope, visited + {k}, p))
  {
    PremiseInScope(w, scope, k, visited, p);
  }

  /** A denied premise denies an intersection. */
  lemma IntersectionIsDenied(w: World, scope: Scope, k: Key, depth: nat, visited: set<Key>, p: Key)
    requires IsScope(w, scope) && IsPath(scope, k, visited) && Expand(w, k).AllOf? && p in Expand(w, k).premises
    requires AnswerValid(w, scope, p, depth + 1, visited + {k}, false)
    ensures AnswerValid(w, scope, k, depth, visited, false)
    ensures depth == 0 && visited == {} ==> !Derivable(w, MAX_DEPTH + 1, k)
  {
    forall n: nat | depth + n <= MAX_DEPTH + 1 && Below(w, n, Relevant(scope, visited, k)) ensures !Derivable(w, n, k) {
      if Derivable(w, n, k) {
        var m := PremisesBelow(w, n, k, Relevant(scope, visited, k));
        BelowPremise(w, scope, k, visited, p, m);
      }
    }
    if depth == 0 && visited == {} { OutermostDenial(w, scope, k); }
  }

  lemma UnionPremisesBelow(w: World, scope: Scope, k: Key, depth: nat, visited: set<Key>, m: nat)
    requires IsScope(w, scope) && IsPath(scope, k, visited) && Expand(w, k).AnyOf?
    requires AreDenied(w, scope, Expand(w, k).premises, |Expand(w, k).premises|, depth + 1, visited + {k})
    requires depth + 1 + m <= MAX_DEPTH + 1 && Below(w, m, Relevant(scope, visited, k) + {k})
    ensures forall p | p in Expand(w, k).premises :: !Derivable(w, m, p)
  {
    forall p | p in Expand(w, k).premises ensures !Derivable(w, m, p) {
      BelowPremise(w, scope, k, visited, p, m);
    }
  }

  /** Denying all premises denies a union. */
  lemma UnionIsDenied(w: World, scope: Scope, k: Key, depth: nat, visited: set<Key>)
    requires IsScope(w, scope) && IsPath(scope, k, visited) && Expand(w, k).AnyOf?
    requires AreDenied(w, scope, Expand(w, k).premises, |Expand(w, k).premises|, depth + 1, visited + {k})
    ensures AnswerValid(w, scope, k, depth, visited, false)
    ensures (depth == 0 && visited == {}) || Expand(w, k).premises == [] ==> !Derivable(w, MAX_DEPTH + 1, k)
  {
    forall n: nat | depth + n <= MAX_DEPTH + 1 && Below(w, n, Relevant(scope, visited, k)) ensures !Derivable(w, n, k) {
      if Derivable(w, n, k) {
        var m := PremisesBelow(w, n, k, Relevant(scope, visited, k));
        UnionPremisesBelow(w, scope, k, depth, visited, m);
      }
    }
    if depth == 0 && visited == {} { OutermostDenial(w, scope, k); }
  }

  ghost predicate AreGranted(w: World, keys: seq<Key>, n: nat)
    requires n <= |keys|
  {
    forall i | 0 <= i < n :: Grants(w, keys[i])
  }

  lemma GrantedNext(w: World, keys: seq<Key>, n: nat)
    requires n < |keys| && AreGranted(w, keys, n) && Grants(w, keys[n])
    ensures AreGranted(w, keys, n + 1)
  {
  }

  lemma IntersectionIsGranted(w: World, k: Key)
    requires Expand(w, k).AllOf? && AreGranted(w, Expand(w, k).premises, |Expand(w, k).premises|)
    ensures Grants(w, k)
  {
    SupportedIsGranted(w, k);
  }

  /** The answer to an excluded key is its meaning: what it can reach fits the depth left. */
  lemma ExclusionIsDecided(w: World, scope: Scope, k: Key, depth: nat, visited: set<Key>, p: Key, granted: bool)
    requires IsScope(w, scope) && IsPath(scope, k, visited) && Expand(w, k) == NoneOf(p)
    requires |visited| == depth && k !in visited && AnswerValid(w, scope, p, depth + 1, visited + {k}, granted)
    ensures granted <==> p in w.held
    ensures Grants(w, k) <==> !granted
  {
    assert p in Premises(Expand(w, k));
    PremiseInScope(w, scope, k, visited, p);
    var universe, rank := scope.universe, scope.rank;
    var lower := UpToRank(universe, rank, rank(p));
    assert p in w.held <==> Grants(w, p);
    UpToRankIsClosed(w, universe, rank, rank(p));
    Saturation(w, lower, p);
    assert |visited + {k}| == depth + 1;
    DisjointSizes(visited + {k}, lower, universe);
    assert Below(w, |lower|, Relevant(scope, visited + {k}, p));
    assert p !in w.held ==> Derivable(w, 1, k);
  }

  lemma UnionIsGranted(w: World, k: Key, p: Key)
    requires Expand(w, k).AnyOf? && p in Expand(w, k).premises && Grants(w, p)
    ensures Grants(w, k)
  {
    assert p in GrantSet(w);
    SupportedIsGranted(w, k);
  }

  lemma OutermostDenial(w: World, scope: Scope, k: Key)
    requires AnswerValid(w, scope, k, 0, {}, false)
    ensures !Derivable(w, MAX_DEPTH + 1, k)
  {
    assert Below(w, MAX_DEPTH + 1, Relevant(scope, {}, k));
  }

  class Evaluator {
    const world: World
    ghost const scope: Scope
    var memo: map<Key, bool>

    ghost predicate Valid() reads this { IsScope(world, scope) && MemoValid(world, memo) }

    constructor (world: World, ghost scope: Scope)
      requires IsScope(world, scope)
      ensures this.world == world && this.scope == scope && memo == map[] && Valid()
    {
      this.world, this.scope := world, scope;
      memo := map[];
    }

    method Store(k: Key, granted: bool, cycleObserved: bool)
      requires Valid() && (granted ==> Grants(world, k))
      requires !granted && !cycleObserved ==> !Derivable(world, MAX_DEPTH + 1, k)
      modifies this`memo
      ensures Valid()
      ensures memo == if granted || !cycleObserved then old(memo)[k := granted] else old(memo)
    {
      if granted || !cycleObserved {
        memo := memo[k := granted];
      }
    }

    /** One recursive check. A denial is stored only when nothing above it on the path could
        have caused it: no premise was denied, or the check is the outermost one. */
    method Compute(k: Key, depth: nat, visited: set<Key>) returns (granted: bool)
      requires Valid() && IsPath(scope, k, visited) && |visited| == depth && depth <= MAX_DEPTH + 1
      modifies this`memo
      ensures Valid()
      ensures AnswerValid(world, scope, k, depth, visited, granted)
      ensures Keeps(old(memo), memo, visited)
      decreases MAX_DEPTH + 1 - depth, 2
    {
      if k in memo {
        StoredAnswerIsValid(world, scope, memo, k, depth, visited);
        return memo[k];
      }
      if depth > MAX_DEPTH || k in visited { return false; }
      var cycleObserved;
      match Expand(world, k)
      case Leaf(answer, stored) =>
        assert answer ==> Derivable(world, 1, k);
        granted := answer;
        if stored { memo := memo[k := answer]; }
        return;
      case AnyOf(_) => granted, cycleObserved := ComputeUnion(k, depth, visited);
      case AllOf(_) => granted, cycleObserved := ComputeIntersection(k, depth, visited);
      case NoneOf(_) => granted, cycleObserved := ComputeExclusion(k, depth, visited);
      Store(k, granted, cycleObserved);
    }

    /** An answer that may be used, and stored unless a cycle was observed. */
    ghost predicate IsComputed(k: Key, depth: nat, visited: set<Key>, granted: bool, cycleObserved: bool)
      reads this
    {
      && Valid() && AnswerValid(world, scope, k, depth, visited, granted)
      && (!granted && !cycleObserved ==> !Derivable(world, MAX_DEPTH + 1, k))
    }

    /** The recursive call for one premise, and whether its denial marks a cycle. */
    method Recurse(k: Key, depth: nat, visited: set<Key>, p: Key) returns (granted: bool, cycleObserved: bool)
      requires Valid() && IsPath(scope, k, visited) && |visited| == depth && depth <= MAX_DEPTH && k !in visited
      requires p in Premises(Expand(world, k))
      modifies this`memo
      ensures Valid() && AnswerValid(world, scope, p, depth + 1, visited + {k}, granted)
      ensures Keeps(old(memo), memo, visited + {k}) && (cycleObserved <==> !granted && visited != {})
      decreases MAX_DEPTH + 1 - depth, 0
    {
      PremiseInScope(world, scope, k, visited, p);
      granted := Compute(p, depth + 1, visited + {k});
      cycleObserved := !granted && visited != {};
    }

    method ComputeUnion(k: Key, depth: nat, visited: set<Key>) returns (granted: bool, cycleObserved: bool)
      requires Valid() && IsPath(scope, k, visited) && |visited| == depth && depth <= MAX_DEPTH
      requires k !in visited && Expand(world, k).AnyOf?
      modifies this`memo
      ensures IsComputed(k, depth, visited, granted, cycleObserved) && Keeps(old(memo), memo, visited + {k})
      decreases MAX_DEPTH + 1 - depth, 1
    {
      var premises := Expand(world, k).premises;
      granted, cycleObserved := false, false;
      var i := 0;
      while i < |premises| && !granted
        invariant 0 <= i <= |premises| && Valid() && Keeps(old(memo), memo, visited + {k})
        invariant granted ==> Grants(world, k)
        invariant !granted ==> AreDenied(world, scope, premises, i, depth + 1, visited + {k})
        invariant !granted && !cycleObserved ==> i == 0 || visited == {}
      {
        var cycle;
        granted, cycle := Recurse(k, depth, visited, premises[i]);
        if granted { UnionIsGranted(world, k, premises[i]); }
        else { DeniedNext(world, scope, premises, i, depth + 1, visited + {k}); }
        cycleObserved := cycleObserved || cycle;
        i := i + 1;
      }
      if !granted { UnionIsDenied(world, scope, k, depth, visited); }
    }

    method ComputeIntersection(k: Key, depth: nat, visited: set<Key>) returns (granted: bool, cycleObserved: bool)
      requires Valid() && IsPath(scope, k, visited) && |visited| == depth && depth <= MAX_DEPTH
      requires k !in visited && Expand(world, k).AllOf?
      modifies this`memo
      ensures IsComputed(k, depth, visited, granted, cycleObserved) && Keeps(old(memo), memo, visited + {k})
      decreases MAX_DEPTH + 1 - depth, 1
    {
      var premises := Expand(world, k).premises;
      granted, cycleObserved := true, false;
      var i := 0;
      while i < |premises| && granted
        invariant 0 <= i <= |premises| && Valid() && Keeps(old(memo), memo, visited + {k})
        invariant granted ==> AreGranted(world, premises, i)
        invariant !granted ==> IsComputed(k, depth, visited, granted, cycleObserved)
      {
        granted, cycleObserved := Recurse(k, depth, visited, premises[i]);
        if granted { GrantedNext(world, premises, i); }
        else { IntersectionIsDenied(world, scope, k, depth, visited, premises[i]); }
        i := i + 1;
      }
      if granted { IntersectionIsGranted(world, k); }
    }

    method ComputeExclusion(k: Key, depth: nat, visited: set<Key>) returns (granted: bool, cycleObserved: bool)
      requires Valid() && IsPath(scope, k, visited) && |visited| == depth && depth <= MAX_DEPTH
      requires k !in visited && Expand(world, k).NoneOf?
      modifies this`memo
      ensures IsComputed(k, depth, visited, granted, cycleObserved) && Keeps(old(memo), memo, visited + {k})
      decreases MAX_DEPTH + 1 - depth, 1
    {
      var premise := Expand(world, k).premise;
      var excluded;
      excluded, cycleObserved := Recurse(k, depth, visited, premise);
      ExclusionIsDecided(world, scope, k, depth, visited, premise, excluded);
      granted := !excluded;
    }

    /** A batch of checks over one shared memo, in any order and with any repetitions: every
        answer is a grant, and none that the depth limit admits is missed. On a ranked scope,
        exclusions included, the answers are exactly the grants. */
    method CheckBatch(queries: seq<Key>) returns (answers: seq<bool>)
      requires Valid() && forall q | q in queries :: InScope(scope, q)
      modifies this`memo
      ensures Valid() && Keeps(old(memo), memo, {})
      ensures |answers| == |queries|
      ensures forall i | 0 <= i < |queries| :: answers[i] ==> Grants(world, queries[i])
      ensures forall i | 0 <= i < |queries| :: Derivable(world, MAX_DEPTH + 1, queries[i]) ==> answers[i]
      ensures scope.Ranked? ==> forall i | 0 <= i < |queries| :: answers[i] <==> Grants(world, queries[i])
    {
      answers := [];
      for i := 0 to |queries|
        invariant Valid() && |answers| == i && Keeps(old(memo), memo, {})
        invariant forall j | 0 <= j < i :: answers[j] ==> Grants(world, queries[j])
        invariant forall j | 0 <= j < i :: Derivable(world, MAX_DEPTH + 1, queries[j]) ==> answers[j]
      {
        var granted := Compute(queries[i], 0, {});
        if !granted { OutermostDenial(world, scope, queries[i]); }
        answers := answers + [granted];
      }
      if scope.Ranked? {
        forall i | 0 <= i < |queries| ensures Grants(world, queries[i]) ==> answers[i] {
          RankedGrantIsShallow(world, scope, queries[i]);
        }
      }
    }
  }

  lemma RankedGrantIsShallow(w: World, scope: Scope, k: Key)
    requires IsScope(w, scope) && scope.Ranked? && InScope(scope, k)
    ensures Grants(w, k) ==> Derivable(w, MAX_DEPTH + 1, k)
  {
    if Grants(w, k) {
      Saturation(w, scope.universe, k);
      DerivableMonotone(w, |scope.universe|, MAX_DEPTH + 1, k);
    }
  }
}
