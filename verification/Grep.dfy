/** Three forms of grep over a list of files: a line-by-line scan, a scan in batches that
    hands each batch to a bulk matcher and falls back to scanning it, and the batched scan
    of only those files a trigram index proposes. */
module Grep {
  import opened Prelude

  datatype Match = Match(file: string, line: nat, content: string, text: string)

  /** `files` holds the lines of every readable path; `search` finds the matching text of a
      line, if any; `show` is how a form records the content of a matching line. */
  datatype Corpus = Corpus(files: map<string, seq<string>>, search: string -> Option<string>, show: string -> string)

  const BATCH_SIZE: nat := 64

  /* ---- what there is to find ---- */

  function LineMatches(c: Corpus, path: string, lines: seq<string>, from: nat): seq<Match>
    requires from <= |lines|
    decreases |lines| - from
  {
    if from == |lines| then []
    else
      LineMatch(c, path, lines, from) + LineMatches(c, path, lines, from + 1)
  }

  function LineMatch(c: Corpus, path: string, lines: seq<string>, i: nat): seq<Match>
    requires i < |lines|
  {
    var found := c.search(lines[i]);
    if found.Some? then [Match(path, i + 1, c.show(lines[i]), found.value)] else []
  }

  /** All matches of a file in line order; an unreadable file has none. */
  function FileMatches(c: Corpus, path: string): seq<Match> {
    if path in c.files then LineMatches(c, path, c.files[path], 0) else []
  }

  function Finder(c: Corpus): string -> seq<Match> { (path: string) => FileMatches(c, path) }

  function AllMatches(c: Corpus, paths: seq<string>): seq<Match> { FlatMap(Finder(c), paths) }

  function FirstN<T>(s: seq<T>, n: int): (r: seq<T>)
    ensures r <= s && |r| == if n <= 0 then 0 else if n < |s| then n else |s|
  {
    if n <= 0 then [] else if n <= |s| then s[..n] else s
  }

  /** The paths of a batch as a dictionary lists them: repeated ones at their first place. */
  function Distinct(paths: seq<string>): (r: seq<string>)
    ensures |r| <= |paths| && NoRepeats(r) && forall p :: p in r <==> p in paths
  {
    if paths == [] then []
    else
      assert paths == paths[..|paths| - 1] + [paths[|paths| - 1]];
      var init := Distinct(paths[..|paths| - 1]);
      if paths[|paths| - 1] in init then init else init + [paths[|paths| - 1]]
  }

  function DistinctByBatch(paths: seq<string>): (r: seq<string>)
    ensures forall p :: p in r <==> p in paths
  {
    if |paths| <= BATCH_SIZE then Distinct(paths)
    else
      assert paths == paths[..BATCH_SIZE] + paths[BATCH_SIZE..];
      Distinct(paths[..BATCH_SIZE]) + DistinctByBatch(paths[BATCH_SIZE..])
  }

  /* ---- what a match is ---- */

  /** The match records a line of a readable file, by its number from 1, that the pattern finds
      its text in. */
  predicate IsMatch(c: Corpus, m: Match) {
    && m.file in c.files && 1 <= m.line <= |c.files[m.file]|
    && var line := c.files[m.file][m.line - 1];
       c.search(line) == Some(m.text) && m.content == c.show(line)
  }

  lemma {:induction false} LineMatchesAre(c: Corpus, path: string, from: nat, m: Match)
    requires path in c.files && from <= |c.files[path]|
    ensures m in LineMatches(c, path, c.files[path], from) <==> m.file == path && m.line > from && IsMatch(c, m)
    decreases |c.files[path]| - from
  {
    if from < |c.files[path]| { LineMatchesAre(c, path, from + 1, m); }
  }

  /** The matches are exactly the lines of the given readable files that the pattern finds. */
  lemma {:induction false} AllMatchesAre(c: Corpus, paths: seq<string>, m: Match)
    ensures m in AllMatches(c, paths) <==> m.file in paths && IsMatch(c, m)
  {
    if paths != [] {
      AllMatchesOfFirst(c, paths);
      AllMatchesAre(c, paths[1..], m);
      if paths[0] in c.files { LineMatchesAre(c, paths[0], 0, m); }
    }
  }

  /** The first match comes from an earlier place in the list of paths, or from an earlier line
      of the same file. */
  ghost predicate ComesBefore(paths: seq<string>, m: Match, n: Match) {
    exists i, j | 0 <= i <= j < |paths| :: m.file == paths[i] && n.file == paths[j] && (i == j ==> m.line < n.line)
  }

  lemma {:induction false} LinesIncrease(c: Corpus, path: string, from: nat)
    requires path in c.files && from <= |c.files[path]|
    ensures var found := LineMatches(c, path, c.files[path], from);
            forall a, b | 0 <= a < b < |found| :: found[a].line < found[b].line
    decreases |c.files[path]| - from
  {
    if from < |c.files[path]| {
      LinesIncrease(c, path, from + 1);
      var rest := LineMatches(c, path, c.files[path], from + 1);
      forall b | 0 <= b < |rest| ensures rest[b].line > from + 1 {
        LineMatchesAre(c, path, from + 1, rest[b]);
      }
    }
  }

  lemma ComesLater(paths: seq<string>, m: Match, n: Match)
    requires paths != [] && ComesBefore(paths[1..], m, n)
    ensures ComesBefore(paths, m, n)
  {
    var i, j :| 0 <= i <= j < |paths[1..]| && m.file == paths[1..][i] && n.file == paths[1..][j] && (i == j ==> m.line < n.line);
    assert paths[i + 1] == m.file && paths[j + 1] == n.file;
  }

  /** Files come in path order, and within a file the line numbers strictly increase. */
  lemma {:induction false} MatchesComeInOrder(c: Corpus, paths: seq<string>, a: nat, b: nat)
    requires a < b < |AllMatches(c, paths)|
    ensures ComesBefore(paths, AllMatches(c, paths)[a], AllMatches(c, paths)[b])
  {
    var head, rest := FileMatches(c, paths[0]), AllMatches(c, paths[1..]);
    AllMatchesOfFirst(c, paths);
    if a >= |head| {
      MatchesComeInOrder(c, paths[1..], a - |head|, b - |head|);
      ComesLater(paths, rest[a - |head|], rest[b - |head|]);
    } else {
      LineMatchesAre(c, paths[0], 0, head[a]);
      if b < |head| {
        LineMatchesAre(c, paths[0], 0, head[b]);
        LinesIncrease(c, paths[0], 0);
      } else {
        AllMatchesAre(c, paths[1..], rest[b - |head|]);
        var j :| 0 <= j < |paths[1..]| && paths[1..][j] == rest[b - |head|].file;
        assert paths[j + 1] == rest[b - |head|].file;
      }
    }
  }

  /** Every result is a match in the files, and unless the limit is reached every match is there. */
  ghost predicate FindsMatches(c: Corpus, paths: seq<string>, results: seq<Match>, limit: int) {
    && (forall m | m in results :: m.file in paths && IsMatch(c, m))
    && (|results| < limit ==> forall m: Match | m.file in paths && IsMatch(c, m) :: m in results)
  }

  lemma FirstMatchesAreMatches(c: Corpus, paths: seq<string>, limit: int)
    ensures FindsMatches(c, paths, FirstN(AllMatches(c, paths), limit), limit)
  {
    var all := AllMatches(c, paths);
    forall m: Match ensures m in all <==> m.file in paths && IsMatch(c, m) {
      AllMatchesAre(c, paths, m);
    }
    assert forall m | m in FirstN(all, limit) :: m in all;
  }

  /* ---- list facts ---- */

  lemma AllMatchesAppend(c: Corpus, a: seq<string>, b: seq<string>)
    ensures AllMatches(c, a + b) == AllMatches(c, a) + AllMatches(c, b)
  {
    FlatMapAppend(Finder(c), a, b);
  }

  lemma AllMatchesNext(c: Corpus, a: seq<string>, path: string)
    ensures AllMatches(c, a + [path]) == AllMatches(c, a) + FileMatches(c, path)
  {
    FlatMapNext(Finder(c), a, path);
  }

  lemma AllMatchesOfFirst(c: Corpus, paths: seq<string>)
    requires paths != []
    ensures AllMatches(c, paths) == FileMatches(c, paths[0]) + AllMatches(c, paths[1..])
  {
  }

  lemma AllMatchesFrom(c: Corpus, paths: seq<string>, k: nat)
    requires k < |paths|
    ensures AllMatches(c, paths[k..]) == FileMatches(c, paths[k]) + AllMatches(c, paths[k + 1..])
  {
    assert paths[k..][1..] == paths[k + 1..];
  }

  lemma DistinctNext(paths: seq<string>, i: nat)
    requires i < |paths|
    ensures Distinct(paths[..i + 1]) ==
            if paths[i] in Distinct(paths[..i]) then Distinct(paths[..i]) else Distinct(paths[..i]) + [paths[i]]
  {
    assert paths[..i + 1][..i] == paths[..i];
  }

  /** Once a list is cut, what follows it does not matter. */
  lemma CutIsFinal<T>(x: seq<T>, y: seq<T>, n: nat)
    ensures |FirstN(x, n)| >= n ==> FirstN(x + y, n) == FirstN(x, n)
    ensures |FirstN(x, n)| < n ==> FirstN(x, n) == x
  {
  }

  /** What is wanted can be cut off early. */
  lemma FirstNOfPrefix<T>(x: seq<T>, y: seq<T>, n: int)
    ensures FirstN(FirstN(x, n) + y, n) == FirstN(x + y, n)
  {
  }

  lemma FirstNOfRest<T>(r: seq<T>, x: seq<T>, n: int)
    requires |r| <= n
    ensures r + FirstN(x, n - |r|) == FirstN(r + x, n)
  {
  }

  lemma {:induction false} DistinctOfNoRepeats(paths: seq<string>)
    requires NoRepeats(paths)
    ensures Distinct(paths) == paths
  {
    if paths != [] {
      DistinctOfNoRepeats(paths[..|paths| - 1]);
      assert paths == paths[..|paths| - 1] + [paths[|paths| - 1]];
    }
  }

  lemma {:induction false} BatchesOfNoRepeats(paths: seq<string>)
    requires NoRepeats(paths)
    ensures DistinctByBatch(paths) == paths
  {
    if |paths| <= BATCH_SIZE { DistinctOfNoRepeats(paths); }
    else {
      DistinctOfNoRepeats(paths[..BATCH_SIZE]);
      BatchesOfNoRepeats(paths[BATCH_SIZE..]);
    }
  }

  /* ---- scanning ---- */

  /** Appends the matches of one file until the limit is reached. */
  method ScanLines(c: Corpus, path: string, lines: seq<string>, soFar: seq<Match>, limit: nat)
    returns (results: seq<Match>, full: bool)
    requires |soFar| < limit
    ensures results == FirstN(soFar + LineMatches(c, path, lines, 0), limit)
    ensures full <==> |results| >= limit
  {
    results := soFar;
    var i := 0;
    while i < |lines|
      invariant 0 <= i <= |lines| && |results| < limit
      invariant soFar + LineMatches(c, path, lines, 0) == results + LineMatches(c, path, lines, i)
    {
      var found := c.search(lines[i]);
      if found.Some? {
        results := results + [Match(path, i + 1, c.show(lines[i]), found.value)];
        if |results| >= limit { return results, true; }
      }
      i := i + 1;
    }
    return results, false;
  }

  /** Scans file after file, skipping unreadable ones, until the limit is reached. */
  method ScanFiles(c: Corpus, paths: seq<string>, soFar: seq<Match>, limit: nat) returns (results: seq<Match>, full: bool)
    requires |soFar| < limit
    ensures results == FirstN(soFar + AllMatches(c, paths), limit)
    ensures full <==> |results| >= limit
  {
    results := soFar;
    var k := 0;
    while k < |paths|
      invariant 0 <= k <= |paths| && |results| < limit
      invariant soFar + AllMatches(c, paths) == results + AllMatches(c, paths[k..])
    {
      AllMatchesFrom(c, paths, k);
      if paths[k] in c.files {
        ghost var upToHere := results + FileMatches(c, paths[k]);
        assert soFar + AllMatches(c, paths) == upToHere + AllMatches(c, paths[k + 1..]);
        results, full := ScanLines(c, paths[k], c.files[paths[k]], results, limit);
        CutIsFinal(upToHere, AllMatches(c, paths[k + 1..]), limit);
        if full { return; }
      }
      k := k + 1;
    }
    full := false;
  }

  /** The line-by-line scan, which strips the lines it records. It checks the limit only after
      a match, so a limit below one still yields one match. */
  method PythonScan(c: Corpus, strip: string -> string, paths: seq<string>, maxResults: int) returns (results: seq<Match>)
    ensures results == FirstN(AllMatches(c.(show := strip), paths), if maxResults < 1 then 1 else maxResults)
    ensures FindsMatches(c.(show := strip), paths, results, if maxResults < 1 then 1 else maxResults)
  {
    FirstMatchesAreMatches(c.(show := strip), paths, if maxResults < 1 then 1 else maxResults);
    var full: bool;
    results, full := ScanFiles(c.(show := strip), paths, [], if maxResults < 1 then 1 else maxResults);
    assert [] + AllMatches(c.(show := strip), paths) == AllMatches(c.(show := strip), paths);
  }

  /** The bulk matcher, when it answers for a batch, gives the first matches of the batch in
      batch order. */
  type Bulk = (seq<string>, nat) -> Option<seq<Match>>

  ghost predicate IsFaithful(c: Corpus, bulk: Bulk) {
    forall batch, remaining: nat | bulk(batch, remaining).Some? ::
      bulk(batch, remaining).value == FirstN(AllMatches(c, batch), remaining)
  }

  /** The dictionary of a batch: its readable paths, each once. */
  method ReadBatch(c: Corpus, batch: seq<string>) returns (paths: seq<string>)
    ensures AllMatches(c, paths) == AllMatches(c, Distinct(batch))
  {
    paths := [];
    for i := 0 to |batch|
      invariant forall p :: p in paths <==> p in Distinct(batch[..i]) && p in c.files
      invariant AllMatches(c, paths) == AllMatches(c, Distinct(batch[..i]))
    {
      DistinctNext(batch, i);
      AllMatchesNext(c, Distinct(batch[..i]), batch[i]);
      if batch[i] in c.files && batch[i] !in paths {
        AllMatchesNext(c, paths, batch[i]);
        paths := paths + [batch[i]];
      }
    }
    assert batch[..|batch|] == batch;
  }

  /** One batch, by the bulk matcher or by scanning it. */
  method GrepBatch(c: Corpus, batch: seq<string>, soFar: seq<Match>, maxResults: nat, bulk: Bulk)
    returns (results: seq<Match>)
    requires IsFaithful(c, bulk) && |soFar| < maxResults
    ensures results == FirstN(soFar + AllMatches(c, batch), maxResults)
  {
    if batch == [] { return soFar; }
    var remaining := maxResults - |soFar|;
    var answer := bulk(batch, remaining);
    if answer.Some? {
      FirstNOfRest(soFar, AllMatches(c, batch), maxResults);
      return soFar + answer.value;
    }
    var full: bool;
    results, full := ScanFiles(c, batch, soFar, maxResults);
  }

  /** What the batches from `start` on have to add to the results so far. */
  ghost predicate IsOnTrack(c: Corpus, paths: seq<string>, start: nat, results: seq<Match>, maxResults: int)
    requires start <= |paths|
  {
    FirstN(results + AllMatches(c, DistinctByBatch(paths[start..])), maxResults) ==
    FirstN(AllMatches(c, DistinctByBatch(paths)), maxResults)
  }

  lemma OnTrackStep(c: Corpus, paths: seq<string>, start: nat, end: nat, before: seq<Match>, results: seq<Match>, maxResults: int)
    requires start < end <= |paths| && end == if start + BATCH_SIZE <= |paths| then start + BATCH_SIZE else |paths|
    requires IsOnTrack(c, paths, start, before, maxResults)
    requires results == FirstN(before + AllMatches(c, Distinct(paths[start..end])), maxResults)
    ensures IsOnTrack(c, paths, end, results, maxResults)
  {
    NextBatch(c, paths, start, end);
    var found, rest := AllMatches(c, Distinct(paths[start..end])), AllMatches(c, DistinctByBatch(paths[end..]));
    assert before + (found + rest) == before + found + rest;
    FirstNOfPrefix(before + found, rest, maxResults);
  }

  /** The batched scan: for every mix of batches the bulk matcher answers and batches scanned
      in its place, the result is the first matches in file order. */
  method FacadeGrep(c: Corpus, paths: seq<string>, maxResults: int, bulk: Bulk) returns (results: seq<Match>)
    requires IsFaithful(c, bulk)
    ensures results == FirstN(AllMatches(c, DistinctByBatch(paths)), maxResults)
    ensures FindsMatches(c, paths, results, maxResults)
  {
    FirstMatchesAreMatches(c, DistinctByBatch(paths), maxResults);
    results := [];
    var start := 0;
    assert IsOnTrack(c, paths, 0, [], maxResults) by {
      assert paths[0..] == paths;
      assert [] + AllMatches(c, DistinctByBatch(paths)) == AllMatches(c, DistinctByBatch(paths));
    }
    while start < |paths|
      invariant 0 <= start <= |paths|
      invariant IsOnTrack(c, paths, start, results, maxResults)
      invariant results == [] || |results| <= maxResults
    {
      if |results| >= maxResults { break; }
      var end := if start + BATCH_SIZE <= |paths| then start + BATCH_SIZE else |paths|;
      var batch := ReadBatch(c, paths[start..end]);
      ghost var before := results;
      results := GrepBatch(c, batch, results, maxResults, bulk);
      OnTrackStep(c, paths, start, end, before, results, maxResults);
      start := end;
    }
    assert start == |paths| ==> paths[start..] == [];
  }

  lemma NextBatch(c: Corpus, paths: seq<string>, start: nat, end: nat)
    requires start < end <= |paths| && end == if start + BATCH_SIZE <= |paths| then start + BATCH_SIZE else |paths|
    ensures AllMatches(c, DistinctByBatch(paths[start..])) ==
            AllMatches(c, Distinct(paths[start..end])) + AllMatches(c, DistinctByBatch(paths[end..]))
  {
    var tail := paths[start..];
    if |tail| <= BATCH_SIZE {
      assert tail == paths[start..end];
    } else {
      assert tail[..BATCH_SIZE] == paths[start..end] && tail[BATCH_SIZE..] == paths[end..];
      AllMatchesAppend(c, Distinct(paths[start..end]), DistinctByBatch(paths[end..]));
    }
  }

  /* ---- the forms agree ---- */

  /** Matches with their content as another form records it. */
  function Restated(show: string -> string, matches: seq<Match>): (r: seq<Match>)
    ensures |r| == |matches|
    ensures forall i | 0 <= i < |r| :: r[i] == matches[i].(content := show(matches[i].content))
  {
    seq(|matches|, i requires 0 <= i < |matches| => matches[i].(content := show(matches[i].content)))
  }

  /** The batched form records lines as they are. */
  ghost predicate IsRaw(c: Corpus) { forall line :: c.show(line) == line }

  lemma RestatedAppend(show: string -> string, a: seq<Match>, b: seq<Match>)
    ensures Restated(show, a + b) == Restated(show, a) + Restated(show, b)
  {
  }

  lemma {:induction false} RestatedLines(c: Corpus, strip: string -> string, path: string, lines: seq<string>, from: nat)
    requires IsRaw(c) && from <= |lines|
    ensures LineMatches(c.(show := strip), path, lines, from) == Restated(strip, LineMatches(c, path, lines, from))
    decreases |lines| - from
  {
    if from < |lines| {
      RestatedLines(c, strip, path, lines, from + 1);
      RestatedAppend(strip, LineMatch(c, path, lines, from), LineMatches(c, path, lines, from + 1));
      assert LineMatch(c.(show := strip), path, lines, from) == Restated(strip, LineMatch(c, path, lines, from));
    }
  }

  lemma {:induction false} RestatedFiles(c: Corpus, strip: string -> string, paths: seq<string>)
    requires IsRaw(c)
    ensures AllMatches(c.(show := strip), paths) == Restated(strip, AllMatches(c, paths))
  {
    if paths != [] {
      RestatedFiles(c, strip, paths[1..]);
      if paths[0] in c.files { RestatedLines(c, strip, paths[0], c.files[paths[0]], 0); }
      AllMatchesOfFirst(c, paths);
      AllMatchesOfFirst(c.(show := strip), paths);
      RestatedAppend(strip, FileMatches(c, paths[0]), AllMatches(c, paths[1..]));
    }
  }

  /** On distinct paths the batched scan finds what the sequential one finds, up to the
      stripping of lines, exactly when the limit is at least one or there is nothing to find. */
  lemma BatchedAgreesWithSequential(c: Corpus, strip: string -> string, paths: seq<string>, maxResults: int)
    requires NoRepeats(paths) && IsRaw(c)
    ensures Restated(strip, FirstN(AllMatches(c, DistinctByBatch(paths)), maxResults)) ==
            FirstN(AllMatches(c.(show := strip), paths), if maxResults < 1 then 1 else maxResults)
            <==> maxResults >= 1 || AllMatches(c, paths) == []
  {
    BatchesOfNoRepeats(paths);
    RestatedFiles(c, strip, paths);
  }

  function Narrow(paths: seq<string>, candidates: set<string>): (r: seq<string>)
    ensures forall p :: p in r <==> p in paths && p in candidates
  {
    if paths == [] then []
    else
      assert paths == [paths[0]] + paths[1..];
      (if paths[0] in candidates then [paths[0]] else []) + Narrow(paths[1..], candidates)
  }

  /** Narrowing loses no match exactly when every file with a match is a candidate. */
  lemma {:induction false} NarrowingIsLossless(c: Corpus, paths: seq<string>, candidates: set<string>)
    ensures AllMatches(c, Narrow(paths, candidates)) == AllMatches(c, paths) <==>
            forall p | p in paths && FileMatches(c, p) != [] :: p in candidates
    ensures |AllMatches(c, Narrow(paths, candidates))| <= |AllMatches(c, paths)|
  {
    if paths != [] {
      var rest, narrowed := paths[1..], Narrow(paths[1..], candidates);
      NarrowingIsLossless(c, rest, candidates);
      AllMatchesOfFirst(c, paths);
      assert forall p :: p in paths <==> p == paths[0] || p in rest;
      if paths[0] in candidates {
        AllMatchesAppend(c, [paths[0]], narrowed);
        AllMatchesAppend(c, [paths[0]], rest);
        assert paths == [paths[0]] + rest;
        var head := AllMatches(c, [paths[0]]);
        assert (head + AllMatches(c, narrowed))[|head|..] == AllMatches(c, narrowed);
        assert (head + AllMatches(c, rest))[|head|..] == AllMatches(c, rest);
      } else {
        assert [] + narrowed == narrowed;
      }
    }
  }

  lemma {:induction false} NarrowKeepsNoRepeats(paths: seq<string>, candidates: set<string>)
    requires NoRepeats(paths)
    ensures NoRepeats(Narrow(paths, candidates))
  {
    if paths != [] {
      NarrowKeepsNoRepeats(paths[1..], candidates);
      var rest := Narrow(paths[1..], candidates);
      assert forall i | 0 <= i < |rest| :: rest[i] in rest;
      assert paths[0] !in paths[1..];
    }
  }

  function Searched(paths: seq<string>, candidates: Option<seq<string>>): seq<string> {
    if candidates.None? then paths else Narrow(paths, set p | p in candidates.value)
  }

  /** The trigram form: the batched scan of the candidates, or of everything when the index
      gives no answer. */
  method FacadeTrigram(c: Corpus, paths: seq<string>, candidates: Option<seq<string>>, maxResults: int, bulk: Bulk)
    returns (results: seq<Match>)
    requires IsFaithful(c, bulk)
    ensures results == FirstN(AllMatches(c, DistinctByBatch(Searched(paths, candidates))), maxResults)
    ensures FindsMatches(c, Searched(paths, candidates), results, maxResults)
    ensures forall p :: p in Searched(paths, candidates) <==> p in paths && (candidates.Some? ==> p in candidates.value)
  {
    if candidates.None? {
      results := FacadeGrep(c, paths, maxResults, bulk);
    } else {
      var candidateSet := set p | p in candidates.value;
      results := FacadeGrep(c, Narrow(paths, candidateSet), maxResults, bulk);
    }
  }

  /** On distinct paths it returns the same list as the batched scan, for every limit, exactly
      when the candidates include every file with a match. */
  lemma TrigramAgrees(c: Corpus, paths: seq<string>, candidates: seq<string>)
    requires NoRepeats(paths)
    ensures (forall n :: FirstN(AllMatches(c, DistinctByBatch(Searched(paths, Some(candidates)))), n) ==
                         FirstN(AllMatches(c, DistinctByBatch(paths)), n))
            <==> (forall p | p in paths && FileMatches(c, p) != [] :: p in candidates)
  {
    var candidateSet := set p | p in candidates;
    NarrowingIsLossless(c, paths, candidateSet);
    NarrowKeepsNoRepeats(paths, candidateSet);
    BatchesOfNoRepeats(paths);
    BatchesOfNoRepeats(Narrow(paths, candidateSet));
    var all, narrowed := AllMatches(c, paths), AllMatches(c, Narrow(paths, candidateSet));
    assert FirstN(all, |all|) == all && FirstN(narrowed, |all|) == narrowed;
  }
}
