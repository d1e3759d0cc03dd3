/** What namespaces with exclusions mean.

    An exclusion grants a key when another is not granted, so the rules alone have no least
    fixpoint. On a finite set of keys that can be ranked, exclusions asking only about keys of
    lower rank, there is exactly one set of held keys that is also what the rules grant when
    exclusions are decided by it. That set is the meaning. */
module Exclusion {
  import opened Prelude
  import opened RebacGraph

  /** No key depends on one of higher rank, and an exclusion asks about a lower one. */
  ghost predicate IsRanked(w: World, universe: set<Key>, rank: Key -> nat) {
    forall k | k in universe ::
      match Expand(w, k)
      case Leaf(_, _) => true
      case NoneOf(premise) => rank(premise) < rank(k)
      case AnyOf(premises) => forall p | p in premises :: rank(p) <= rank(k)
      case AllOf(premises) => forall p | p in premises :: rank(p) <= rank(k)
  }

  /** The held keys are the granted ones. */
  ghost predicate IsMeaning(w: World, universe: set<Key>) {
    forall k | k in universe :: k in w.held <==> Grants(w, k)
  }

  function UpToRank(universe: set<Key>, rank: Key -> nat, r: nat): set<Key> {
    set k | k in universe && rank(k) <= r
  }

  lemma UpToRankIsClosed(w: World, universe: set<Key>, rank: Key -> nat, r: nat)
    requires ClosedUnderRules(w, universe) && IsRanked(w, universe, rank)
    ensures ClosedUnderRules(w, UpToRank(universe, rank, r))
  {
    forall k, p | k in UpToRank(universe, rank, r) && p in Premises(Expand(w, k))
      ensures p in UpToRank(universe, rank, r)
    {
      assert p in universe;
    }
  }

  /** What a key of some rank derives depends only on the held keys of lower rank. */
  lemma {:induction false} LowerRanksDecide(w: World, held: set<Key>, universe: set<Key>, rank: Key -> nat, r: nat, n: nat, k: Key)
    requires ClosedUnderRules(w, universe) && IsRanked(w, universe, rank) && k in universe && rank(k) <= r
    requires forall j | j in universe && rank(j) < r :: j in w.held <==> j in held
    ensures Derivable(w, n, k) <==> Derivable(w.(held := held), n, k)
    decreases n
  {
    var rule := Expand(w, k);
    assert Expand(w.(held := held), k) == rule;
    if n > 0 {
      if rule.AnyOf? || rule.AllOf? {
        forall p | p in rule.premises ensures Derivable(w, n - 1, p) <==> Derivable(w.(held := held), n - 1, p) {
          assert p in Premises(rule);
          LowerRanksDecide(w, held, universe, rank, r, n - 1, p);
        }
      } else if rule.NoneOf? {
        assert rule.premise in Premises(rule);
      }
    }
  }

  lemma LowerRanksDecideGrants(w: World, held: set<Key>, universe: set<Key>, rank: Key -> nat, r: nat, k: Key)
    requires ClosedUnderRules(w, universe) && IsRanked(w, universe, rank) && k in universe && rank(k) <= r
    requires forall j | j in universe && rank(j) < r :: j in w.held <==> j in held
    ensures Grants(w, k) <==> Grants(w.(held := held), k)
  {
    if Grants(w, k) {
      var n: nat :| Derivable(w, n, k);
      LowerRanksDecide(w, held, universe, rank, r, n, k);
    }
    if Grants(w.(held := held), k) {
      var n: nat :| Derivable(w.(held := held), n, k);
      LowerRanksDecide(w, held, universe, rank, r, n, k);
    }
  }

  /** There is at most one meaning. */
  lemma {:induction false} MeaningIsUnique(w: World, held: set<Key>, universe: set<Key>, rank: Key -> nat, r: nat)
    requires ClosedUnderRules(w, universe) && IsRanked(w, universe, rank)
    requires IsMeaning(w, universe) && IsMeaning(w.(held := held), universe)
    ensures forall k | k in universe && rank(k) <= r :: k in w.held <==> k in held
  {
    if r > 0 { MeaningIsUnique(w, held, universe, rank, r - 1); }
    forall k | k in universe && rank(k) <= r ensures k in w.held <==> k in held {
      LowerRanksDecideGrants(w, held, universe, rank, r, k);
    }
  }

  ghost predicate IsMeaningUpTo(w: World, universe: set<Key>, rank: Key -> nat, r: nat) {
    forall k | k in universe && rank(k) <= r :: k in w.held <==> Grants(w, k)
  }

  lemma RulesIgnoreHeld(w: World, held: set<Key>, universe: set<Key>, rank: Key -> nat)
    requires ClosedUnderRules(w, universe) && IsRanked(w, universe, rank)
    ensures ClosedUnderRules(w.(held := held), universe) && IsRanked(w.(held := held), universe, rank)
  {
    assert forall k :: Expand(w.(held := held), k) == Expand(w, k);
  }

  lemma NextRank(w: World, universe: set<Key>, rank: Key -> nat, r: nat) returns (held: set<Key>)
    requires ClosedUnderRules(w, universe) && IsRanked(w, universe, rank)
    requires forall k | k in universe && rank(k) < r :: k in w.held <==> Grants(w, k)
    ensures IsMeaningUpTo(w.(held := held), universe, rank, r)
  {
    held := set k | k in universe && Grants(w, k);
    forall k | k in universe && rank(k) <= r ensures k in held <==> Grants(w.(held := held), k) {
      LowerRanksDecideGrants(w, held, universe, rank, r, k);
    }
  }

  /** And there is one: rank by rank, what is granted given the ranks below. */
  lemma {:induction false} MeaningUpTo(w: World, universe: set<Key>, rank: Key -> nat, r: nat) returns (held: set<Key>)
    requires ClosedUnderRules(w, universe) && IsRanked(w, universe, rank)
    ensures IsMeaningUpTo(w.(held := held), universe, rank, r)
  {
    if r == 0 {
      held := NextRank(w, universe, rank, 0);
    } else {
      var lower := MeaningUpTo(w, universe, rank, r - 1);
      RulesIgnoreHeld(w, lower, universe, rank);
      held := NextRank(w.(held := lower), universe, rank, r);
    }
  }

  lemma {:induction false} HighestRank(universe: set<Key>, rank: Key -> nat) returns (r: nat)
    ensures forall k | k in universe :: rank(k) <= r
  {
    if universe == {} {
      r := 0;
    } else {
      var k :| k in universe;
      var rest := HighestRank(universe - {k}, rank);
      r := if rank(k) < rest then rest else rank(k);
    }
  }

  lemma MeaningExists(w: World, universe: set<Key>, rank: Key -> nat) returns (held: set<Key>)
    requires ClosedUnderRules(w, universe) && IsRanked(w, universe, rank)
    ensures IsMeaning(w.(held := held), universe)
  {
    var r := HighestRank(universe, rank);
    held := MeaningUpTo(w, universe, rank, r);
  }

  /** A key that excludes itself has no meaning. */
  lemma SelfExclusionHasNoMeaning(w: World, universe: set<Key>, k: Key)
    requires k in universe && Expand(w, k) == NoneOf(k)
    ensures !IsMeaning(w, universe)
  {
    if k !in w.held { assert Derivable(w, 1, k); }
  }
}
