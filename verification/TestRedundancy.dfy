/** Finding redundant tests by comparing the sets of lines they cover. Ratios are exact
    reals; the rounding of reported figures is any function. */
module TestRedundancy {
  import opened Prelude

  datatype Test = Test(name: string, lines: set<string>)

  /* ---- similarity ---- */

  function Jaccard(a: set<string>, b: set<string>): real {
    if a == {} && b == {} then 1.0
    else if |a + b| == 0 then 0.0
    else |a * b| as real / |a + b| as real
  }

  function SubsetRatio(a: set<string>, b: set<string>): real {
    if a == {} then 1.0 else |a * b| as real / |a| as real
  }

  /** How many lines exactly one of the two covers. */
  function Difference(a: set<string>, b: set<string>): nat {
    |a - b| + |b - a|
  }

  lemma UnionSize(a: set<string>, b: set<string>)
    ensures 2 * |a + b| == |a| + |b| + Difference(a, b)
    ensures |a + b| == |a * b| + Difference(a, b)
  {
    assert a == (a - b) + (a * b) && b == (b - a) + (a * b);
    assert a + b == (a - b) + (b - a) + (a * b);
  }

  lemma DifferenceTriangle(a: set<string>, b: set<string>, c: set<string>)
    ensures Difference(a, c) <= Difference(a, b) + Difference(b, c)
  {
    SubsetSize(a - c, (a - b) + (b - c));
    SubsetSize(c - a, (c - b) + (b - a));
  }

  lemma SizeByDifference(a: set<string>, b: set<string>)
    ensures |a| <= |b| + Difference(a, b)
  {
    SubsetSize(a, b + (a - b));
  }

  lemma Cancel(x: real, y: real, d: real)
    requires d != 0.0 && x * d == y * d
    ensures x == y
  {
    assert (x - y) * d == 0.0;
  }

  lemma CancelLess(x: real, y: real, d: real)
    requires 0.0 < d && x * d <= y * d
    ensures x <= y
  {
    assert (x - y) * d <= 0.0;
  }

  lemma DivideMonotone(x: real, d: real, e: real)
    requires 0.0 <= x && 0.0 < d <= e
    ensures x / e <= x / d
  {
    var q := x / d;
    assert q * d == x && 0.0 <= q;
    assert q * d <= q * e;
    CancelLess(x / e, q, e);
  }

  lemma DivideSum(x: real, y: real, d: real)
    requires 0.0 < d
    ensures (x + y) / d == x / d + y / d
  {
    var p, q := x / d, y / d;
    assert p * d == x && q * d == y;
    Cancel((x + y) / d, p + q, d);
  }

  lemma RatioRange(m: real, u: real)
    requires 0.0 <= m <= u && 0.0 < u
    ensures 0.0 <= m / u <= 1.0
  {
    CancelLess(0.0, m / u, u);
    CancelLess(m / u, 1.0, u);
  }

  /** t / (s + t) grows with t. */
  lemma ShareMonotone(s: real, p: real, t: real)
    requires 0.0 <= s && 0.0 <= p <= t && 0.0 < s + p
    ensures p / (s + p) <= t / (s + t)
  {
    var x, y, d, e := p / (s + p), t / (s + t), s + p, s + t;
    assert x * d == p && y * e == t;
    assert p * e <= t * d;
    assert x * (d * e) == p * e && y * (d * e) == t * d;
    CancelLess(x, y, d * e);
  }

  /** The distance 1 - jaccard as a share of the difference. */
  lemma DistanceAsShare(a: set<string>, b: set<string>)
    requires a != {} || b != {}
    ensures var d, s := Difference(a, b) as real, (|a| + |b|) as real;
            0.0 < s && 1.0 - Jaccard(a, b) == 2.0 * (d / (s + d))
  {
    UnionSize(a, b);
    var u, d, m := |a + b| as real, Difference(a, b) as real, |a * b| as real;
    assert a + b != {} by { if a != {} { assert a <= a + b; } else { assert b <= a + b; } }
    assert |a + b| > 0;
    assert u == m + d && 2.0 * u == (|a| + |b|) as real + d;
    assert |a| + |b| > 0;
    var x, y, z := m / u, d / u, d / (2.0 * u);
    assert x * u == m && y * u == d && z * (2.0 * u) == d;
    Cancel(x + y, 1.0, u);
    Cancel(2.0 * z, y, u);
  }

  lemma AtLeastIff(m: real, d: real, n: real, t: real)
    requires n > 0.0 && m + d == n
    ensures m / n >= t <==> d <= (1.0 - t) * n
  {
    var q := m / n;
    assert q * n == m;
    if q >= t { assert (q - t) * n >= 0.0; }
    if t * n <= q * n { CancelLess(t, q, n); }
  }

  /** The part is at most what the share `t` leaves of the whole. */
  predicate WithinRest(part: nat, whole: nat, t: real) { part as real <= (1.0 - t) * whole as real }

  /** At most the rest of the share `t` of a's lines is missing from b; of no lines nothing is. */
  predicate MissesAtMost(a: set<string>, b: set<string>, t: real) {
    if a == {} then t <= 1.0 else WithinRest(|a - b|, |a|, t)
  }

  /** At most the rest of the share `t` of all their lines is covered by only one of the two. */
  predicate DiffersAtMost(a: set<string>, b: set<string>, t: real) {
    if a == {} && b == {} then t <= 1.0 else WithinRest(Difference(a, b), |a + b|, t)
  }

  /** A ratio of at least `t` is a bound on the lines missing, for every `t`. */
  lemma SubsetRatioIff(a: set<string>, b: set<string>, t: real)
    ensures SubsetRatio(a, b) >= t <==> MissesAtMost(a, b, t)
  {
    if a != {} {
      assert |a| > 0;
      assert a == (a * b) + (a - b);
      AtLeastIff(|a * b| as real, |a - b| as real, |a| as real, t);
    }
  }

  /** A similarity of at least `t` is a bound on the lines not shared, for every `t`. */
  lemma JaccardIff(a: set<string>, b: set<string>, t: real)
    ensures Jaccard(a, b) >= t <==> DiffersAtMost(a, b, t)
  {
    if a != {} || b != {} {
      UnionSize(a, b);
      DistanceAsShare(a, b);
      AtLeastIff(|a * b| as real, Difference(a, b) as real, |a + b| as real, t);
    }
  }

  /** 1 - jaccard satisfies the triangle inequality. */
  lemma JaccardTriangle(a: set<string>, b: set<string>, c: set<string>)
    ensures 1.0 - Jaccard(a, c) <= (1.0 - Jaccard(a, b)) + (1.0 - Jaccard(b, c))
  {
    JaccardRange(a, b);
    JaccardRange(b, c);
    if (a != {} || b != {}) && (b != {} || c != {}) && (a != {} || c != {}) {
      DistanceAsShare(a, b);
      DistanceAsShare(b, c);
      DistanceAsShare(a, c);
      DifferenceTriangle(a, b, c);
      SizeByDifference(b, a);
      SizeByDifference(b, c);
      ShareTriangle(|a| as real, |b| as real, |c| as real,
                    Difference(a, b) as real, Difference(b, c) as real, Difference(a, c) as real);
    }
  }

  lemma JaccardRange(a: set<string>, b: set<string>)
    ensures 0.0 <= Jaccard(a, b) <= 1.0
  {
    UnionSize(a, b);
    if |a + b| > 0 { RatioRange(|a * b| as real, |a + b| as real); }
  }

  lemma Chain(low: real, sum: real, x: real, y: real, x': real, y': real)
    requires low <= sum && sum == x + y && x <= x' && y <= y'
    ensures low <= x' + y'
  {
  }

  /** The arithmetic of the triangle: differences x, y, p between sets of sizes a, b, c. */
  lemma ShareTriangle(a: real, b: real, c: real, x: real, y: real, p: real)
    requires 0.0 <= a && 0.0 <= b && 0.0 <= c && 0.0 <= x && 0.0 <= y && 0.0 <= p <= x + y
    requires b <= a + x && b <= c + y && 0.0 < a + b && 0.0 < b + c && 0.0 < a + c
    ensures p / (a + c + p) <= x / (a + b + x) + y / (b + c + y)
  {
    var whole := a + c + (x + y);
    ShareMonotone(a + c, p, x + y);
    DivideMonotone(x, a + b + x, whole);
    DivideMonotone(y, b + c + y, whole);
    DivideSum(x, y, whole);
    Chain(p / (a + c + p), (x + y) / whole, x / whole, y / whole, x / (a + b + x), y / (b + c + y));
  }

  /* ---- the reports ---- */

  datatype Pair = Pair(testA: string, testB: string, similarity: real, linesA: nat, linesB: nat, shared: nat)

  datatype Containment = Containment(subsetTest: string, supersetTest: string, ratio: real,
                                     linesSubset: nat, linesSuperset: nat)

  function Substantial(tests: seq<Test>): (r: seq<Test>)
    ensures forall t :: t in r <==> t in tests && |t.lines| >= 3
  {
    if tests == [] then []
    else
      assert tests == [tests[0]] + tests[1..];
      (if |tests[0].lines| >= 3 then [tests[0]] else []) + Substantial(tests[1..])
  }

  function MakePair(a: Test, b: Test, round: real -> real): Pair {
    Pair(a.name, b.name, round(Jaccard(a.lines, b.lines)), |a.lines|, |b.lines|, |a.lines * b.lines|)
  }

  function MakeContainment(a: Test, b: Test, round: real -> real): Containment {
    Containment(a.name, b.name, round(SubsetRatio(a.lines, b.lines)), |a.lines|, |b.lines|)
  }

  predicate IsSimilar(a: Test, b: Test, threshold: real) { Jaccard(a.lines, b.lines) >= threshold }

  predicate IsContained(a: Test, b: Test, threshold: real) {
    SubsetRatio(a.lines, b.lines) >= threshold && |b.lines| > |a.lines|
  }

  /** Sorting by key, descending, equal keys in their original order. */
  function SortDescending<T>(s: seq<T>, key: T -> real): (r: seq<T>)
    ensures multiset(r) == multiset(s)
  {
    if s == [] then []
    else
      assert s == s[..|s| - 1] + [s[|s| - 1]];
      InsertDescending(SortDescending(s[..|s| - 1], key), s[|s| - 1], key)
  }

  function InsertDescending<T>(s: seq<T>, x: T, key: T -> real): (r: seq<T>)
    ensures multiset(r) == multiset(s) + multiset{x}
  {
    if s == [] || key(s[|s| - 1]) >= key(x) then s + [x]
    else
      assert s == s[..|s| - 1] + [s[|s| - 1]];
      InsertDescending(s[..|s| - 1], x, key) + [s[|s| - 1]]
  }

  ghost predicate Descending<T>(s: seq<T>, key: T -> real) {
    forall i, j | 0 <= i < j < |s| :: key(s[i]) >= key(s[j])
  }

  lemma {:induction false} InsertKeepsDescending<T>(s: seq<T>, x: T, key: T -> real)
    requires Descending(s, key)
    ensures Descending(InsertDescending(s, x, key), key)
  {
    if s != [] && key(s[|s| - 1]) < key(x) {
      var init, last := s[..|s| - 1], s[|s| - 1];
      InsertKeepsDescending(init, x, key);
      var r := InsertDescending(init, x, key);
      forall i | 0 <= i < |r| ensures key(r[i]) >= key(last) {
        assert r[i] in multiset(r);
        assert r[i] in init || r[i] == x;
      }
    }
  }

  lemma {:induction false} SortIsDescending<T>(s: seq<T>, key: T -> real)
    ensures Descending(SortDescending(s, key), key)
  {
    if s != [] {
      SortIsDescending(s[..|s| - 1], key);
      InsertKeepsDescending(SortDescending(s[..|s| - 1], key), s[|s| - 1], key);
    }
  }

  /** The elements with a given key, in order. */
  function WithKey<T>(s: seq<T>, key: T -> real, v: real): seq<T> {
    if s == [] then []
    else WithKey(s[..|s| - 1], key, v) + if key(s[|s| - 1]) == v then [s[|s| - 1]] else []
  }

  lemma WithKeyNext<T>(s: seq<T>, x: T, key: T -> real, v: real)
    ensures WithKey(s + [x], key, v) == WithKey(s, key, v) + if key(x) == v then [x] else []
  {
    assert (s + [x])[..|s|] == s;
  }

  lemma {:induction false} InsertIsStable<T>(s: seq<T>, x: T, key: T -> real, v: real)
    ensures WithKey(InsertDescending(s, x, key), key, v) == WithKey(s, key, v) + if key(x) == v then [x] else []
  {
    if s == [] || key(s[|s| - 1]) >= key(x) {
      WithKeyNext(s, x, key, v);
    } else {
      var init, last := s[..|s| - 1], s[|s| - 1];
      InsertIsStable(init, x, key, v);
      WithKeyNext(InsertDescending(init, x, key), last, key, v);
    }
  }

  lemma {:induction false} SortIsStable<T>(s: seq<T>, key: T -> real, v: real)
    ensures WithKey(SortDescending(s, key), key, v) == WithKey(s, key, v)
  {
    if s != [] {
      SortIsStable(s[..|s| - 1], key, v);
      InsertIsStable(SortDescending(s[..|s| - 1], key), s[|s| - 1], key, v);
    }
  }

  /** The length of a list cut at `n`, which drops from the end when negative. */
  function CutLength(n: nat, cut: int): nat {
    if cut >= 0 then (if cut < n then cut else n) else if n + cut > 0 then n + cut else 0
  }

  /** The first `n` elements; a negative `n` drops that many from the end. */
  function Slice<T>(s: seq<T>, n: int): (r: seq<T>)
    ensures r <= s && |r| == CutLength(|s|, n)
  {
    if n >= 0 then (if n <= |s| then s[..n] else s)
    else (if |s| + n >= 0 then s[..|s| + n] else [])
  }

  /** What `make` gives for the tests before `j`, other than `i` and, when only looking ahead,
      after it, that `keep` relates test `i` to. */
  function Row<C>(tests: seq<Test>, i: nat, j: nat, ahead: bool, keep: (Test, Test) -> bool, make: (Test, Test) -> C): seq<C>
    requires i < |tests| && j <= |tests|
  {
    if j == 0 || (ahead && j <= i + 1) then []
    else Row(tests, i, j - 1, ahead, keep, make)
         + if i != j - 1 && keep(tests[i], tests[j - 1]) then [make(tests[i], tests[j - 1])] else []
  }

  /** The first `i` rows, one after the other. */
  function Concat<C>(rows: nat -> seq<C>, i: nat): seq<C> {
    if i == 0 then [] else Concat(rows, i - 1) + rows(i - 1)
  }

  function Rows<C>(tests: seq<Test>, ahead: bool, keep: (Test, Test) -> bool, make: (Test, Test) -> C): nat -> seq<C> {
    (k: nat) => if k < |tests| then Row(tests, k, |tests|, ahead, keep, make) else []
  }

  function Listing<C>(tests: seq<Test>, i: nat, ahead: bool, keep: (Test, Test) -> bool, make: (Test, Test) -> C): seq<C> {
    Concat(Rows(tests, ahead, keep, make), i)
  }

  lemma RowStep<C>(before: seq<C>, tests: seq<Test>, i: nat, j: nat, ahead: bool, keep: (Test, Test) -> bool, make: (Test, Test) -> C)
    requires i < |tests| && j < |tests| && (ahead ==> i < j)
    ensures before + Row(tests, i, j + 1, ahead, keep, make) ==
            if i != j && keep(tests[i], tests[j])
            then before + Row(tests, i, j, ahead, keep, make) + [make(tests[i], tests[j])]
            else before + Row(tests, i, j, ahead, keep, make)
  {
    var row := Row(tests, i, j, ahead, keep, make);
    assert before + (row + [make(tests[i], tests[j])]) == before + row + [make(tests[i], tests[j])];
  }

  lemma RowStart<C>(before: seq<C>, tests: seq<Test>, i: nat, ahead: bool, keep: (Test, Test) -> bool, make: (Test, Test) -> C)
    requires i < |tests|
    ensures before + Row(tests, i, if ahead then i + 1 else 0, ahead, keep, make) == before
  {
  }

  lemma ListingStep<C>(tests: seq<Test>, i: nat, ahead: bool, keep: (Test, Test) -> bool, make: (Test, Test) -> C)
    requires i < |tests|
    ensures Listing(tests, i + 1, ahead, keep, make) ==
            Listing(tests, i, ahead, keep, make) + Row(tests, i, |tests|, ahead, keep, make)
  {
  }

  function SimilarAt(threshold: real): (Test, Test) -> bool { (a, b) => IsSimilar(a, b, threshold) }

  function PairMaker(round: real -> real): (Test, Test) -> Pair { (a, b) => MakePair(a, b, round) }

  function ContainedAt(threshold: real): (Test, Test) -> bool { (a, b) => IsContained(a, b, threshold) }

  function ContainmentMaker(round: real -> real): (Test, Test) -> Containment { (a, b) => MakeContainment(a, b, round) }

  function SimilarPairs(tests: seq<Test>, threshold: real, round: real -> real): seq<Pair> {
    Listing(tests, |tests|, true, SimilarAt(threshold), PairMaker(round))
  }

  function Containments(tests: seq<Test>, threshold: real, round: real -> real): seq<Containment> {
    Listing(tests, |tests|, false, ContainedAt(threshold), ContainmentMaker(round))
  }

  /** The inner loop of both reports. */
  method ListRow<C>(tests: seq<Test>, i: nat, ahead: bool, keep: (Test, Test) -> bool, make: (Test, Test) -> C, soFar: seq<C>)
    returns (found: seq<C>)
    requires i < |tests|
    ensures found == soFar + Row(tests, i, |tests|, ahead, keep, make)
  {
    found := soFar;
    RowStart(soFar, tests, i, ahead, keep, make);
    for j := if ahead then i + 1 else 0 to |tests|
      invariant found == soFar + Row(tests, i, j, ahead, keep, make)
    {
      RowStep(soFar, tests, i, j, ahead, keep, make);
      if i == j { continue; }
      if keep(tests[i], tests[j]) {
        found := found + [make(tests[i], tests[j])];
      }
    }
  }

  /** The double loop of both reports: what `make` gives for every ordered pair, or every pair
      further down the list, that `keep` relates. */
  method ListAll<C>(tests: seq<Test>, ahead: bool, keep: (Test, Test) -> bool, make: (Test, Test) -> C) returns (found: seq<C>)
    ensures found == Listing(tests, |tests|, ahead, keep, make)
  {
    found := [];
    for i := 0 to |tests|
      invariant found == Listing(tests, i, ahead, keep, make)
    {
      found := ListRow(tests, i, ahead, keep, make, found);
      ListingStep(tests, i, ahead, keep, make);
    }
  }

  /** What a report is: as many findings as the cut keeps, in descending order and with ties
      as they were found, and none left out outranks one that is in. */
  ghost predicate IsTopOf<T(!new)>(found: seq<T>, key: T -> real, topN: int, report: seq<T>) {
    && Descending(report, key) && |report| == CutLength(|found|, topN)
    && exists rest :: multiset(report + rest) == multiset(found) && Outranks(report, rest, key) && KeepsTies(found, key, report + rest)
  }

  ghost predicate KeepsTies<T(!new)>(found: seq<T>, key: T -> real, sorted: seq<T>) {
    forall v :: WithKey(sorted, key, v) == WithKey(found, key, v)
  }

  ghost predicate Outranks<T(!new)>(a: seq<T>, b: seq<T>, key: T -> real) {
    forall x, y | x in a && y in b :: key(x) >= key(y)
  }

  lemma PrefixOutranks<T(!new)>(s: seq<T>, key: T -> real, n: nat)
    requires n <= |s| && Descending(s, key)
    ensures Descending(s[..n], key) && Outranks(s[..n], s[n..], key)
  {
    forall x, y | x in s[..n] && y in s[n..] ensures key(x) >= key(y) {
      var i :| 0 <= i < n && s[i] == x;
      var j :| n <= j < |s| && s[j] == y;
    }
  }

  lemma SliceIsTop<T(!new)>(found: seq<T>, key: T -> real, topN: int)
    ensures IsTopOf(found, key, topN, Slice(SortDescending(found, key), topN))
  {
    SortIsDescending(found, key);
    SortKeepsLength(found, key);
    forall v ensures WithKey(SortDescending(found, key), key, v) == WithKey(found, key, v) {
      SortIsStable(found, key, v);
    }
    SliceOfSorted(SortDescending(found, key), found, key, topN);
  }

  lemma SortKeepsLength<T>(s: seq<T>, key: T -> real)
    ensures |SortDescending(s, key)| == |s|
  {
    assert |multiset(SortDescending(s, key))| == |multiset(s)|;
  }

  lemma SliceOfSorted<T(!new)>(sorted: seq<T>, found: seq<T>, key: T -> real, topN: int)
    requires Descending(sorted, key) && multiset(sorted) == multiset(found) && |sorted| == |found| && KeepsTies(found, key, sorted)
    ensures IsTopOf(found, key, topN, Slice(sorted, topN))
  {
    var n := |Slice(sorted, topN)|;
    assert Slice(sorted, topN) == sorted[..n];
    PrefixOutranks(sorted, key, n);
    assert sorted[..n] + sorted[n..] == sorted;
  }

  lemma TopIsFound<T(!new)>(found: seq<T>, key: T -> real, topN: int, report: seq<T>, x: T)
    requires IsTopOf(found, key, topN, report) && x in report
    ensures x in found
  {
    var rest :| multiset(report + rest) == multiset(found);
    assert x in multiset(report + rest);
  }

  function BySimilarity(p: Pair): real { p.similarity }

  function ByRatio(c: Containment): real { c.ratio }

  /** The pair is of two of the tests, similar at the threshold. */
  ghost predicate IsSomePair(tests: seq<Test>, threshold: real, round: real -> real, p: Pair) {
    exists k: nat, l: nat :: IsPairOf(tests, k, l, threshold, round, p)
  }

  /** The finding is of one of the tests and a larger one that contains it at the threshold. */
  ghost predicate IsSomeContainment(tests: seq<Test>, threshold: real, round: real -> real, c: Containment) {
    exists k: nat, l: nat :: IsContainmentOf(tests, k, l, threshold, round, c)
  }

  lemma ReportedPairs(tests: seq<Test>, threshold: real, round: real -> real, topN: int, report: seq<Pair>)
    requires IsTopOf(SimilarPairs(tests, threshold, round), BySimilarity, topN, report)
    ensures forall p | p in report :: IsSomePair(tests, threshold, round, p)
  {
    forall p | p in report ensures IsSomePair(tests, threshold, round, p) {
      TopIsFound(SimilarPairs(tests, threshold, round), BySimilarity, topN, report, p);
      SimilarPairsAre(tests, threshold, round, p);
    }
  }

  lemma ReportedContainments(tests: seq<Test>, threshold: real, round: real -> real, topN: int, report: seq<Containment>)
    requires IsTopOf(Containments(tests, threshold, round), ByRatio, topN, report)
    ensures forall c | c in report :: IsSomeContainment(tests, threshold, round, c)
  {
    forall c | c in report ensures IsSomeContainment(tests, threshold, round, c) {
      TopIsFound(Containments(tests, threshold, round), ByRatio, topN, report, c);
      ContainmentsAre(tests, threshold, round, c);
    }
  }

  method FindRedundantPairs(allTests: seq<Test>, threshold: real, topN: int, round: real -> real) returns (report: seq<Pair>)
    ensures IsTopOf(SimilarPairs(Substantial(allTests), threshold, round), BySimilarity, topN, report)
    ensures forall p | p in report :: IsSomePair(Substantial(allTests), threshold, round, p)
  {
    var tests := Substantial(allTests);
    var pairs := ListAll(tests, true, SimilarAt(threshold), PairMaker(round));
    report := Slice(SortDescending(pairs, BySimilarity), topN);
    SliceIsTop(pairs, BySimilarity, topN);
    ReportedPairs(tests, threshold, round, topN, report);
  }

  method FindSubsetTests(allTests: seq<Test>, threshold: real, topN: int, round: real -> real) returns (report: seq<Containment>)
    ensures IsTopOf(Containments(Substantial(allTests), threshold, round), ByRatio, topN, report)
    ensures forall c | c in report :: IsSomeContainment(Substantial(allTests), threshold, round, c)
    ensures DistinctNames(allTests) ==> forall c | c in report :: LosesAtMost(allTests, threshold, c)
  {
    var tests := Substantial(allTests);
    var subsets := ListAll(tests, false, ContainedAt(threshold), ContainmentMaker(round));
    report := Slice(SortDescending(subsets, ByRatio), topN);
    SliceIsTop(subsets, ByRatio, topN);
    ReportedContainments(tests, threshold, round, topN, report);
    if DistinctNames(allTests) {
      forall c | c in report ensures LosesAtMost(allTests, threshold, c) {
        DeletingOneLoses(allTests, threshold, round, c);
      }
    }
  }

  predicate IsPairOf(tests: seq<Test>, k: nat, l: nat, threshold: real, round: real -> real, p: Pair) {
    k < l < |tests| &&
    var a, b := tests[k], tests[l];
    && DiffersAtMost(a.lines, b.lines, threshold)
    && p.testA == a.name && p.testB == b.name && p.similarity == round(Jaccard(a.lines, b.lines))
    && p.linesA == |a.lines| && p.linesB == |b.lines| && p.shared == |a.lines * b.lines|
  }

  predicate IsContainmentOf(tests: seq<Test>, k: nat, l: nat, threshold: real, round: real -> real, c: Containment) {
    k < |tests| && l < |tests| && k != l &&
    var a, b := tests[k], tests[l];
    && MissesAtMost(a.lines, b.lines, threshold) && |a.lines| < |b.lines|
    && c.subsetTest == a.name && c.supersetTest == b.name && c.ratio == round(SubsetRatio(a.lines, b.lines))
    && c.linesSubset == |a.lines| && c.linesSuperset == |b.lines|
  }

  predicate IsListed<C(==)>(tests: seq<Test>, k: nat, l: nat, ahead: bool, keep: (Test, Test) -> bool, make: (Test, Test) -> C, c: C) {
    k < |tests| && l < |tests| && k != l && (ahead ==> k < l) && keep(tests[k], tests[l]) && c == make(tests[k], tests[l])
  }

  lemma RowMember<C>(tests: seq<Test>, k: nat, j: nat, ahead: bool, keep: (Test, Test) -> bool, make: (Test, Test) -> C, c: C)
    requires k < |tests| && j < |tests|
    ensures c in Row(tests, k, j + 1, ahead, keep, make) <==>
            || (!(ahead && j <= k) && c in Row(tests, k, j, ahead, keep, make))
            || IsListed(tests, k, j, ahead, keep, make, c)
  {
  }

  lemma {:induction false} RowHolds<C>(tests: seq<Test>, k: nat, l: nat, j: nat, ahead: bool,
                                       keep: (Test, Test) -> bool, make: (Test, Test) -> C, c: C)
    requires l < j <= |tests| && IsListed(tests, k, l, ahead, keep, make, c)
    ensures c in Row(tests, k, j, ahead, keep, make)
  {
    RowMember(tests, k, j - 1, ahead, keep, make, c);
    if l < j - 1 { RowHolds(tests, k, l, j - 1, ahead, keep, make, c); }
  }

  lemma {:induction false} RowComes<C>(tests: seq<Test>, k: nat, j: nat, ahead: bool,
                                       keep: (Test, Test) -> bool, make: (Test, Test) -> C, c: C) returns (l: nat)
    requires k < |tests| && j <= |tests| && c in Row(tests, k, j, ahead, keep, make)
    ensures l < j && IsListed(tests, k, l, ahead, keep, make, c)
  {
    RowMember(tests, k, j - 1, ahead, keep, make, c);
    if c in Row(tests, k, j - 1, ahead, keep, make) {
      l := RowComes(tests, k, j - 1, ahead, keep, make, c);
    } else {
      l := j - 1;
    }
  }

  lemma {:induction false} ConcatHolds<C>(rows: nat -> seq<C>, i: nat, k: nat, c: C)
    requires k < i && c in rows(k)
    ensures c in Concat(rows, i)
  {
    if k < i - 1 { ConcatHolds(rows, i - 1, k, c); }
  }

  lemma {:induction false} ConcatComes<C>(rows: nat -> seq<C>, i: nat, c: C) returns (k: nat)
    requires c in Concat(rows, i)
    ensures k < i && c in rows(k)
  {
    if c in Concat(rows, i - 1) { k := ConcatComes(rows, i - 1, c); } else { k := i - 1; }
  }

  lemma ListingHolds<C>(tests: seq<Test>, k: nat, l: nat, ahead: bool,
                        keep: (Test, Test) -> bool, make: (Test, Test) -> C, c: C)
    requires IsListed(tests, k, l, ahead, keep, make, c)
    ensures c in Listing(tests, |tests|, ahead, keep, make)
  {
    RowHolds(tests, k, l, |tests|, ahead, keep, make, c);
    ConcatHolds(Rows(tests, ahead, keep, make), |tests|, k, c);
  }

  lemma ListingComes<C>(tests: seq<Test>, ahead: bool,
                        keep: (Test, Test) -> bool, make: (Test, Test) -> C, c: C) returns (k: nat, l: nat)
    requires c in Listing(tests, |tests|, ahead, keep, make)
    ensures IsListed(tests, k, l, ahead, keep, make, c)
  {
    k := ConcatComes(Rows(tests, ahead, keep, make), |tests|, c);
    l := RowComes(tests, k, |tests|, ahead, keep, make, c);
  }

  lemma {:induction false} RowInOrder<C>(tests: seq<Test>, k: nat, j: nat, ahead: bool, keep: (Test, Test) -> bool, make: (Test, Test) -> C,
                                         a: nat, b: nat) returns (l: nat, l': nat)
    requires k < |tests| && j <= |tests| && a < b < |Row(tests, k, j, ahead, keep, make)|
    ensures var row := Row(tests, k, j, ahead, keep, make);
            l < l' < j && IsListed(tests, k, l, ahead, keep, make, row[a]) && IsListed(tests, k, l', ahead, keep, make, row[b])
  {
    var init := Row(tests, k, j - 1, ahead, keep, make);
    if b < |init| {
      l, l' := RowInOrder(tests, k, j - 1, ahead, keep, make, a, b);
    } else {
      l := RowComes(tests, k, j - 1, ahead, keep, make, init[a]);
      l' := j - 1;
    }
  }

  lemma {:induction false} ConcatAt<C>(rows: nat -> seq<C>, i: nat, a: nat) returns (k: nat, at: nat)
    requires a < |Concat(rows, i)|
    ensures k < i && at < |rows(k)| && rows(k)[at] == Concat(rows, i)[a]
    ensures a == |Concat(rows, k)| + at
  {
    if a < |Concat(rows, i - 1)| { k, at := ConcatAt(rows, i - 1, a); } else { k, at := i - 1, a - |Concat(rows, i - 1)|; }
  }

  lemma {:induction false} ConcatGrows<C>(rows: nat -> seq<C>, k: nat, k': nat)
    requires k < k'
    ensures |Concat(rows, k)| + |rows(k)| <= |Concat(rows, k')|
  {
    if k < k' - 1 { ConcatGrows(rows, k, k' - 1); }
  }

  /** Findings are listed in the order of the first test and then of the second, so each pair
      of places is listed once. */
  lemma ListingInOrder<C>(tests: seq<Test>, ahead: bool, keep: (Test, Test) -> bool, make: (Test, Test) -> C, a: nat, b: nat)
    returns (k: nat, l: nat, k': nat, l': nat)
    requires a < b < |Listing(tests, |tests|, ahead, keep, make)|
    ensures var found := Listing(tests, |tests|, ahead, keep, make);
            && IsListed(tests, k, l, ahead, keep, make, found[a]) && IsListed(tests, k', l', ahead, keep, make, found[b])
            && (k < k' || (k == k' && l < l'))
  {
    var rows, at, at' := Rows(tests, ahead, keep, make), 0, 0;
    k, at := ConcatAt(rows, |tests|, a);
    k', at' := ConcatAt(rows, |tests|, b);
    if k' < k { ConcatGrows(rows, k', k); }
    if k == k' {
      l, l' := RowInOrder(tests, k, |tests|, ahead, keep, make, at, at');
    } else {
      l := RowComes(tests, k, |tests|, ahead, keep, make, rows(k)[at]);
      l' := RowComes(tests, k', |tests|, ahead, keep, make, rows(k')[at']);
    }
  }

  /** The pairs listed are the similar ones. */
  lemma SimilarPairsAre(tests: seq<Test>, threshold: real, round: real -> real, p: Pair)
    ensures p in SimilarPairs(tests, threshold, round) <==>
            IsSomePair(tests, threshold, round, p)
  {
    var keep, make := SimilarAt(threshold), PairMaker(round);
    if p in SimilarPairs(tests, threshold, round) {
      var k, l := ListingComes(tests, true, keep, make, p);
      JaccardIff(tests[k].lines, tests[l].lines, threshold);
      assert IsPairOf(tests, k, l, threshold, round, p);
    }
    if k: nat, l: nat :| IsPairOf(tests, k, l, threshold, round, p) {
      JaccardIff(tests[k].lines, tests[l].lines, threshold);
      ListingHolds(tests, k, l, true, keep, make, p);
    }
  }

  /** The containments listed are the contained tests with each of their containers. */
  lemma ContainmentsAre(tests: seq<Test>, threshold: real, round: real -> real, c: Containment)
    ensures c in Containments(tests, threshold, round) <==>
            IsSomeContainment(tests, threshold, round, c)
  {
    var keep, make := ContainedAt(threshold), ContainmentMaker(round);
    if c in Containments(tests, threshold, round) {
      var k, l := ListingComes(tests, false, keep, make, c);
      SubsetRatioIff(tests[k].lines, tests[l].lines, threshold);
      assert IsContainmentOf(tests, k, l, threshold, round, c);
    }
    if k: nat, l: nat :| IsContainmentOf(tests, k, l, threshold, round, c) {
      SubsetRatioIff(tests[k].lines, tests[l].lines, threshold);
      ListingHolds(tests, k, l, false, keep, make, c);
    }
  }

  /* ---- what the reports imply ---- */

  /** Two similar pairs that share a test bound the similarity of the outer two. */
  lemma SimilarityChains(a: Test, b: Test, c: Test, threshold: real)
    requires IsSimilar(a, b, threshold) && IsSimilar(b, c, threshold)
    ensures Jaccard(a.lines, c.lines) >= 2.0 * threshold - 1.0
  {
    JaccardTriangle(a.lines, b.lines, c.lines);
  }

  /** A similar pair of unequal sizes is also a containment at the same threshold. */
  lemma SimilarIsContained(a: Test, b: Test, threshold: real)
    requires DiffersAtMost(a.lines, b.lines, threshold) && |a.lines| < |b.lines|
    ensures MissesAtMost(a.lines, b.lines, threshold)
  {
    JaccardIff(a.lines, b.lines, threshold);
    SubsetRatioIff(a.lines, b.lines, threshold);
    if a.lines == {} {
      JaccardRange(a.lines, b.lines);
    } else {
      assert |a.lines| > 0;
      assert a.lines <= a.lines + b.lines;
      SubsetSize(a.lines, a.lines + b.lines);
      DivideMonotone(|a.lines * b.lines| as real, |a.lines| as real, |a.lines + b.lines| as real);
    }
  }

  /** So every listed pair of unequal sizes is listed, one way round, as a containment. */
  lemma PairsAreContainments(tests: seq<Test>, threshold: real, round: real -> real, p: Pair)
    requires p in SimilarPairs(tests, threshold, round) && p.linesA != p.linesB
    ensures exists c | c in Containments(tests, threshold, round) ::
              || (c.subsetTest == p.testA && c.supersetTest == p.testB && c.linesSubset == p.linesA)
              || (c.subsetTest == p.testB && c.supersetTest == p.testA && c.linesSubset == p.linesB)
  {
    SimilarPairsAre(tests, threshold, round, p);
    var i: nat, j: nat :| IsPairOf(tests, i, j, threshold, round, p);
    if p.linesA < p.linesB {
      SimilarIsContained(tests[i], tests[j], threshold);
      assert IsContainmentOf(tests, i, j, threshold, round, MakeContainment(tests[i], tests[j], round));
      ContainmentsAre(tests, threshold, round, MakeContainment(tests[i], tests[j], round));
    } else {
      assert tests[i].lines + tests[j].lines == tests[j].lines + tests[i].lines;
      SimilarIsContained(tests[j], tests[i], threshold);
      assert IsContainmentOf(tests, j, i, threshold, round, MakeContainment(tests[j], tests[i], round));
      ContainmentsAre(tests, threshold, round, MakeContainment(tests[j], tests[i], round));
    }
  }

  /* ---- pruning ---- */

  function Coverage(tests: seq<Test>): (r: set<string>)
    ensures forall x :: x in r <==> exists t | t in tests :: x in t.lines
  {
    if tests == [] then {}
    else
      assert tests == [tests[0]] + tests[1..];
      tests[0].lines + Coverage(tests[1..])
  }

  /** The tests whose names the report does not flag. */
  function Prune(tests: seq<Test>, report: seq<Containment>): (r: seq<Test>)
    ensures forall t :: t in r <==> t in tests && forall c | c in report :: c.subsetTest != t.name
  {
    if tests == [] then []
    else
      assert tests == [tests[0]] + tests[1..];
      (if forall c | c in report :: c.subsetTest != tests[0].name then [tests[0]] else []) + Prune(tests[1..], report)
  }

  ghost predicate DistinctNames(tests: seq<Test>) {
    forall t, u | t in tests && u in tests && t.name == u.name :: t == u
  }

  lemma FullyContained(a: Test, b: Test)
    requires MissesAtMost(a.lines, b.lines, 1.0)
    ensures a.lines <= b.lines
  {
    if a.lines != {} {
      var missing := a.lines - b.lines;
      assert missing == {};
      assert forall x | x in a.lines :: x !in missing;
    }
  }

  /** A flagged test lies in a strictly larger one. */
  lemma FlaggedHasSuperset(tests: seq<Test>, round: real -> real, t: Test, c: Containment) returns (u: Test)
    requires DistinctNames(tests) && t in tests && c.subsetTest == t.name
    requires var big := Substantial(tests); c in Containments(big, 1.0, round)
    ensures u in tests && t.lines <= u.lines && |t.lines| < |u.lines|
  {
    var big := Substantial(tests);
    ContainmentsAre(big, 1.0, round, c);
    var i: nat, j: nat :| IsContainmentOf(big, i, j, 1.0, round, c);
    assert big[i] in tests && big[j] in tests;
    FullyContained(big[i], big[j]);
    u := big[j];
  }

  ghost predicate IsPartOfFindings(tests: seq<Test>, round: real -> real, report: seq<Containment>) {
    var big := Substantial(tests);
    forall c | c in report :: c in Containments(big, 1.0, round)
  }

  /** Following strictly larger supersets from any test ends in one that is not flagged. */
  lemma {:induction false} SurvivorCovers(tests: seq<Test>, round: real -> real, report: seq<Containment>, t: Test) returns (s: Test)
    requires DistinctNames(tests) && IsPartOfFindings(tests, round, report) && t in tests
    ensures s in Prune(tests, report) && t.lines <= s.lines
    decreases |Coverage(tests)| - |t.lines|
  {
    if c :| c in report && c.subsetTest == t.name {
      var u := FlaggedHasSuperset(tests, round, t, c);
      SubsetSize(u.lines, Coverage(tests));
      s := SurvivorCovers(tests, round, report, u);
    } else {
      s := t;
    }
  }

  /** At threshold 1.0, deleting every flagged subset test at once loses no covered line,
      whatever part of the findings the report keeps. */
  lemma PruningKeepsCoverage(tests: seq<Test>, round: real -> real, report: seq<Containment>)
    requires DistinctNames(tests) && IsPartOfFindings(tests, round, report)
    ensures Coverage(Prune(tests, report)) == Coverage(tests)
  {
    forall x | x in Coverage(tests) ensures x in Coverage(Prune(tests, report)) {
      var t :| t in tests && x in t.lines;
      var s := SurvivorCovers(tests, round, report, t);
    }
  }

  /** Deleting just the test a finding flags loses at most the rest of the threshold's share of
      that test's lines. */
  ghost predicate LosesAtMost(tests: seq<Test>, threshold: real, c: Containment) {
    forall t | t in tests && t.name == c.subsetTest ::
      WithinRest(|Coverage(tests) - Coverage(Prune(tests, [c]))|, |t.lines|, threshold)
  }

  lemma LossIsOwn(tests: seq<Test>, a: Test, b: Test, c: Containment)
    requires DistinctNames(tests) && a in tests && b in tests && a.name == c.subsetTest && b.name != c.subsetTest
    ensures Coverage(tests) - Coverage(Prune(tests, [c])) <= a.lines - b.lines
  {
    var kept := Prune(tests, [c]);
    assert b in kept;
    forall x | x in Coverage(tests) && x !in Coverage(kept) ensures x in a.lines - b.lines {
      var t :| t in tests && x in t.lines;
      assert t !in kept;
    }
  }

  lemma LossIsBounded(lost: set<string>, a: set<string>, b: set<string>, threshold: real)
    requires lost <= a - b && a != {} && MissesAtMost(a, b, threshold)
    ensures WithinRest(|lost|, |a|, threshold)
  {
    SubsetSize(lost, a - b);
  }

  lemma FlaggedBy(tests: seq<Test>, threshold: real, round: real -> real, c: Containment) returns (a: Test, b: Test)
    requires DistinctNames(tests) && IsSomeContainment(Substantial(tests), threshold, round, c)
    ensures a in tests && b in tests && a.name == c.subsetTest && b.name != c.subsetTest
    ensures a.lines != {} && MissesAtMost(a.lines, b.lines, threshold)
  {
    var big := Substantial(tests);
    var k: nat, l: nat :| IsContainmentOf(big, k, l, threshold, round, c);
    a, b := big[k], big[l];
    assert a in big && b in big;
  }

  lemma DeletingOneLoses(tests: seq<Test>, threshold: real, round: real -> real, c: Containment)
    requires DistinctNames(tests) && IsSomeContainment(Substantial(tests), threshold, round, c)
    ensures LosesAtMost(tests, threshold, c)
  {
    var a, b := FlaggedBy(tests, threshold, round, c);
    FlaggedLoses(tests, threshold, c, a, b);
  }

  lemma FlaggedLoses(tests: seq<Test>, threshold: real, c: Containment, a: Test, b: Test)
    requires DistinctNames(tests) && a in tests && b in tests && a.name == c.subsetTest && b.name != c.subsetTest
    requires a.lines != {} && MissesAtMost(a.lines, b.lines, threshold)
    ensures LosesAtMost(tests, threshold, c)
  {
    LossIsOwn(tests, a, b, c);
    LossIsBounded(Coverage(tests) - Coverage(Prune(tests, [c])), a.lines, b.lines, threshold);
  }

  /** The same for what the tool reports, after sorting and truncation. */
  method PruneByReport(tests: seq<Test>, topN: int, round: real -> real) returns (kept: seq<Test>)
    requires DistinctNames(tests)
    ensures Coverage(kept) == Coverage(tests) && forall t | t in kept :: t in tests
  {
    var report := FindSubsetTests(tests, 1.0, topN, round);
    ghost var big := Substantial(tests);
    forall c | c in report ensures c in Containments(big, 1.0, round) {
      TopIsFound(Containments(big, 1.0, round), ByRatio, topN, report, c);
    }
    PruningKeepsCoverage(tests, round, report);
    kept := Prune(tests, report);
  }
}
