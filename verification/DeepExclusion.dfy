/** The depth limit is a limit: a permission that excludes the top of a long chain of unions. */
module DeepExclusion {
  import opened Prelude
  import opened RebacGraph
  import opened Exclusion
  import opened BulkEvaluator

  const SUBJECT := Entity("user", "u")
  const DOCUMENT := Entity("doc", "d")

  /** Relation names of growing length. */
  function Name(i: nat): string { seq(i + 1, _ => 'r') }

  function LinkNames(m: nat): set<string> { set i: nat | i < m :: Name(i) }

  function LinkKey(i: nat): Key { Key(SUBJECT, Name(i), DOCUMENT) }

  const OPEN := Key(SUBJECT, "open", DOCUMENT)

  /** A chain of unions down to a direct relation the subject holds, and a permission that
      excludes the top of the chain. */
  function Chain(m: nat): World {
    World([Tuple(SUBJECT, Name(m), DOCUMENT, None, false)],
          map["doc" := Namespace(map["open" := Rewrite.Exclusion(Name(0))], map n | n in LinkNames(m) :: Union([n + "r"]))],
          set i: nat | i <= m :: LinkKey(i))
  }

  lemma LinkRule(m: nat, i: nat)
    requires i <= m
    ensures i < m ==> Expand(Chain(m), LinkKey(i)) == AnyOf(MemberKeys(LinkKey(i), [Name(i + 1)]))
    ensures i == m ==> Expand(Chain(m), LinkKey(i)) == Leaf(true, true)
  {
    assert Name(i)[0] == 'r' && "open"[0] == 'o';
    if i < m {
      assert Name(i) in LinkNames(m) && Name(i) + "r" == Name(i + 1);
    } else {
      forall j: nat | j < m ensures Name(j) != Name(m) { assert |Name(j)| != |Name(m)|; }
      assert IsDirectMatch(Chain(m).tuples[0], LinkKey(m));
    }
  }

  lemma LinkPremises(m: nat, i: nat)
    requires i <= m
    ensures !Expand(Chain(m), LinkKey(i)).NoneOf? && (i == m ==> Expand(Chain(m), LinkKey(i)).Leaf?)
    ensures forall p :: p in Premises(Expand(Chain(m), LinkKey(i))) <==> i < m && p == LinkKey(i + 1)
  {
    LinkRule(m, i);
    if i < m {
      var keys := MemberKeys(LinkKey(i), [Name(i + 1)]);
      assert forall p :: p in keys <==> p == LinkKey(i).(name := Name(i + 1));
    }
  }

  lemma OpenRule(m: nat)
    ensures Expand(Chain(m), OPEN) == NoneOf(LinkKey(0)) && LinkKey(0) in Chain(m).held
  {
    assert |Name(0)| == 1;
  }

  lemma {:induction false} LinkIsGranted(m: nat, i: nat)
    requires i <= m
    ensures Derivable(Chain(m), m - i + 1, LinkKey(i))
    decreases m - i
  {
    LinkRule(m, i);
    if i < m {
      LinkIsGranted(m, i + 1);
      assert LinkKey(i).(name := Name(i + 1)) == LinkKey(i + 1);
      assert LinkKey(i + 1) in MemberKeys(LinkKey(i), [Name(i + 1)]);
    }
  }

  lemma {:induction false} LinkIsDeniedTooDeep(m: nat, i: nat, visited: set<Key>)
    requires i <= m
    ensures !Search(Chain(m), m, LinkKey(i), i + 1, visited)
    decreases m - i
  {
    LinkRule(m, i);
    if i < m {
      LinkIsDeniedTooDeep(m, i + 1, visited + {LinkKey(i)});
      LinkPremises(m, i);
    }
  }

  function ChainKeys(m: nat): set<Key> { {OPEN} + Chain(m).held }

  lemma {:induction false} LinkCount(m: nat)
    ensures |Chain(m).held| == m + 1
  {
    var links := set i: nat | i <= m :: LinkKey(i);
    if m == 0 {
      assert links == {LinkKey(0)};
    } else {
      LinkCount(m - 1);
      forall i: nat | i < m ensures LinkKey(i) != LinkKey(m) { assert |Name(i)| != |Name(m)|; }
      assert links == Chain(m - 1).held + {LinkKey(m)};
    }
  }

  function ChainRank(k: Key): nat { if k.name == "open" then 1 else 0 }

  lemma LinkRank(m: nat, k: Key)
    requires k in Chain(m).held
    ensures ChainRank(k) == 0 && k != OPEN && Grants(Chain(m), k)
    ensures !Expand(Chain(m), k).NoneOf? && Premises(Expand(Chain(m), k)) <= Chain(m).held
  {
    var i: nat :| i <= m && k == LinkKey(i);
    LinkIsGranted(m, i);
    LinkPremises(m, i);
    assert Name(i)[0] == 'r' && "open"[0] == 'o';
  }

  lemma ChainHasMeaning(m: nat)
    ensures HasMeaning(Chain(m), ChainKeys(m), ChainRank) && !Grants(Chain(m), OPEN) && OPEN !in Chain(m).held
  {
    var w := Chain(m);
    OpenRule(m);
    if OPEN in w.held { LinkRank(m, OPEN); }
    forall k | k in w.held ensures Grants(w, k) && Premises(Expand(w, k)) <= w.held { LinkRank(m, k); }
    assert forall n: nat :: !Derivable(w, n, OPEN);
    ChainIsRanked(m);
  }

  lemma ChainIsRanked(m: nat)
    ensures IsRanked(Chain(m), ChainKeys(m), ChainRank)
  {
    var w := Chain(m);
    OpenRule(m);
    assert LinkKey(0) in w.held;
    LinkRank(m, LinkKey(0));
    forall k, p | k in w.held && p in Premises(Expand(w, k)) ensures ChainRank(p) <= ChainRank(k) {
      LinkRank(m, k);
      LinkRank(m, p);
    }
    forall k | k in w.held ensures !Expand(w, k).NoneOf? { LinkRank(m, k); }
  }

  /** One key more and it fails: for every depth limit there is a ranked set of two more keys
      than that in which the search grants what is excluded. */
  lemma DeepExclusionIsGranted(maxDepth: nat)
    ensures HasMeaning(Chain(maxDepth), ChainKeys(maxDepth), ChainRank) && |ChainKeys(maxDepth)| == maxDepth + 2
    ensures OPEN in ChainKeys(maxDepth) && Search(Chain(maxDepth), maxDepth, OPEN, 0, {}) && !Grants(Chain(maxDepth), OPEN)
  {
    ChainHasMeaning(maxDepth);
    LinkCount(maxDepth);
    OpenRule(maxDepth);
    LinkIsDeniedTooDeep(maxDepth, 0, {OPEN});
  }
}
