/** The external-content full-text index over document chunks, kept by three triggers.

    The index stores one posting per token occurrence and never the text itself, so a row's
    postings can only be taken out by handing the `'delete'` command the text that was
    indexed. It also keeps two totals, of rows and of tokens, and a `'delete'` that would take
    either below zero raises. A tokenizer is any function from text to tokens. */
module SearchIndex {
  import opened Prelude

  datatype RowId = RowId(number: int)
  type Token = string
  type Posting = (Token, RowId)
  type Tokenizer = string -> seq<Token>

  datatype Index = Index(postings: multiset<Posting>, rowCount: nat, tokenCount: nat)

  datatype Db = Db(rows: map<RowId, string>, index: Index)

  datatype Op =
    | InsertRow(row: RowId, text: string)
    | DeleteRow(row: RowId)
    | UpdateText(row: RowId, text: string)

  const EMPTY_INDEX := Index(multiset{}, 0, 0)

  /** The index is created empty over the rows already there; nothing rebuilds it from them. */
  function Migrated(rows: map<RowId, string>): Db { Db(rows, EMPTY_INDEX) }

  /* ---- the index ---- */

  function PostingsOf(tokens: seq<Token>, row: RowId): multiset<Posting> {
    if tokens == [] then multiset{} else multiset{(tokens[0], row)} + PostingsOf(tokens[1..], row)
  }

  lemma {:induction false} PostingsCount(tokens: seq<Token>, row: RowId, p: Posting)
    ensures PostingsOf(tokens, row)[p] == if p.1 == row then multiset(tokens)[p.0] else 0
  {
    if tokens != [] {
      PostingsCount(tokens[1..], row, p);
      assert tokens == [tokens[0]] + tokens[1..];
    }
  }

  lemma {:induction false} PostingsSize(tokens: seq<Token>, row: RowId)
    ensures |PostingsOf(tokens, row)| == |tokens|
  {
    if tokens != [] { PostingsSize(tokens[1..], row); }
  }

  /** `INSERT INTO fts(rowid, text)`. */
  function IndexText(tokenize: Tokenizer, index: Index, row: RowId, text: string): Index {
    Index(index.postings + PostingsOf(tokenize(text), row), index.rowCount + 1, index.tokenCount + |tokenize(text)|)
  }

  /** `INSERT INTO fts(fts, rowid, text) VALUES ('delete', ...)`; None when it raises. */
  function UnindexText(tokenize: Tokenizer, index: Index, row: RowId, text: string): Option<Index> {
    if index.rowCount < 1 || index.tokenCount < |tokenize(text)| then None
    else Some(Index(index.postings - PostingsOf(tokenize(text), row), index.rowCount - 1,
                    index.tokenCount - |tokenize(text)|))
  }

  /* ---- statements with their triggers ---- */

  /** An insert under a taken row id is refused; a delete or update of a missing row does nothing. */
  predicate Applies(db: Db, op: Op) {
    if op.InsertRow? then op.row !in db.rows else op.row in db.rows
  }

  function RowsAfter(rows: map<RowId, string>, op: Op): map<RowId, string> {
    if op.DeleteRow? then rows - {op.row} else rows[op.row := op.text]
  }

  /** What the trigger of a statement does to the index; None when it raises. */
  function IndexAfter(tokenize: Tokenizer, db: Db, op: Op): Option<Index>
    requires Applies(db, op)
  {
    if op.InsertRow? then Some(IndexText(tokenize, db.index, op.row, op.text))
    else
      var rest := UnindexText(tokenize, db.index, op.row, db.rows[op.row]);
      if rest.None? || op.DeleteRow? then rest else Some(IndexText(tokenize, rest.value, op.row, op.text))
  }

  /** The table and index after a statement, or None when its trigger raises. */
  function Execute(tokenize: Tokenizer, db: Db, op: Op): Option<Db> {
    if !Applies(db, op) then Some(db)
    else
      var index := IndexAfter(tokenize, db, op);
      if index.None? then None else Some(Db(RowsAfter(db.rows, op), index.value))
  }

  /** Statement after statement, or None as soon as one raises. */
  function Run(tokenize: Tokenizer, db: Db, ops: seq<Op>): Option<Db>
    decreases |ops|
  {
    if ops == [] then Some(db)
    else
      var next := Execute(tokenize, db, ops[0]);
      if next.None? then None else Run(tokenize, next.value, ops[1..])
  }

  /** The text of one row after some statements: an insert writes it unless the row is there, an
      update only if it is, a delete removes it, and statements on other rows do not touch it. */
  function TextAfter(text: Option<string>, ops: seq<Op>, row: RowId): Option<string>
    decreases |ops|
  {
    if ops == [] then text
    else if ops[0].row != row then TextAfter(text, ops[1..], row)
    else
      match ops[0]
      case InsertRow(_, written) => TextAfter(if text.None? then Some(written) else text, ops[1..], row)
      case UpdateText(_, written) => TextAfter(if text.Some? then Some(written) else None, ops[1..], row)
      case DeleteRow(_) => TextAfter(None, ops[1..], row)
  }

  function TextIn(rows: map<RowId, string>, row: RowId): Option<string> {
    if row in rows then Some(rows[row]) else None
  }

  /** The rows after a run that goes through follow from the statements alone. */
  lemma {:induction false} RunWritesRows(tokenize: Tokenizer, db: Db, ops: seq<Op>, row: RowId)
    requires Run(tokenize, db, ops).Some?
    ensures TextIn(Run(tokenize, db, ops).value.rows, row) == TextAfter(TextIn(db.rows, row), ops, row)
    decreases |ops|
  {
    if ops != [] {
      var next := Execute(tokenize, db, ops[0]).value;
      RunWritesRows(tokenize, next, ops[1..], row);
    }
  }

  /** The `'delete'` of a statement only takes out postings that are there. */
  ghost predicate IsBacked(tokenize: Tokenizer, db: Db, op: Op) {
    op.InsertRow? || op.row !in db.rows || PostingsOf(tokenize(db.rows[op.row]), op.row) <= db.index.postings
  }

  /** The statement does not update or delete one of the given rows. */
  predicate Spares(op: Op, rows: set<RowId>) { op.InsertRow? || op.row !in rows }

  predicate AllSpare(ops: seq<Op>, rows: set<RowId>) { forall op | op in ops :: Spares(op, rows) }

  /* ---- the index agrees with the table ---- */

  /** Every row outside `skipped` is indexed under exactly its tokens, as often as they occur,
      and nothing else is indexed. */
  ghost predicate PostingsAgree(tokenize: Tokenizer, db: Db, skipped: set<RowId>) {
    forall p: Posting :: db.index.postings[p] ==
      if p.1 in db.rows && p.1 !in skipped then multiset(tokenize(db.rows[p.1]))[p.0] else 0
  }

  /** The same, and the totals count what is indexed. */
  ghost predicate Consistent(tokenize: Tokenizer, db: Db, skipped: set<RowId>) {
    && PostingsAgree(tokenize, db, skipped) && skipped <= db.rows.Keys
    && db.index.rowCount == |db.rows.Keys - skipped| && db.index.tokenCount == |db.index.postings|
  }

  /** Rows that hold all the terms, by index and by scanning the texts. */
  ghost predicate IndexMatches(db: Db, row: RowId, terms: set<Token>) {
    row in db.rows && forall t | t in terms :: (t, row) in db.index.postings
  }

  predicate ScanMatches(tokenize: Tokenizer, db: Db, row: RowId, terms: set<Token>) {
    row in db.rows && forall t | t in terms :: t in tokenize(db.rows[row])
  }

  lemma AgreeingSearch(tokenize: Tokenizer, db: Db, skipped: set<RowId>, row: RowId, terms: set<Token>)
    requires PostingsAgree(tokenize, db, skipped) && terms != {}
    ensures IndexMatches(db, row, terms) <==> row !in skipped && ScanMatches(tokenize, db, row, terms)
  {
    if row in db.rows {
      forall t ensures (t, row) in db.index.postings <==> row !in skipped && t in tokenize(db.rows[row]) {
        assert db.index.postings[(t, row)] == if row !in skipped then multiset(tokenize(db.rows[row]))[t] else 0;
      }
      var t :| t in terms;
    }
  }

  /** The tokens a statement takes out and puts in. */
  function Removed(tokenize: Tokenizer, db: Db, op: Op): seq<Token>
    requires Applies(db, op)
  {
    if op.InsertRow? then [] else tokenize(db.rows[op.row])
  }

  function Added(tokenize: Tokenizer, op: Op): seq<Token> {
    if op.DeleteRow? then [] else tokenize(op.text)
  }

  lemma PostingsAfter(tokenize: Tokenizer, db: Db, op: Op)
    requires Applies(db, op) && IndexAfter(tokenize, db, op).Some?
    ensures IndexAfter(tokenize, db, op).value.postings ==
            db.index.postings - PostingsOf(Removed(tokenize, db, op), op.row) + PostingsOf(Added(tokenize, op), op.row)
  {
  }

  lemma PostingAfter(tokenize: Tokenizer, db: Db, skipped: set<RowId>, op: Op, p: Posting)
    requires PostingsAgree(tokenize, db, skipped) && Spares(op, skipped) && Applies(db, op)
    requires IndexAfter(tokenize, db, op).Some? && (op.InsertRow? ==> op.row !in skipped)
    ensures var rows := RowsAfter(db.rows, op);
            IndexAfter(tokenize, db, op).value.postings[p] ==
              if p.1 in rows && p.1 !in skipped then multiset(tokenize(rows[p.1]))[p.0] else 0
  {
    PostingsAfter(tokenize, db, op);
    PostingsCount(Removed(tokenize, db, op), op.row, p);
    PostingsCount(Added(tokenize, op), op.row, p);
  }

  lemma IndexedIsBacked(tokenize: Tokenizer, db: Db, skipped: set<RowId>, op: Op)
    requires PostingsAgree(tokenize, db, skipped) && Spares(op, skipped)
    ensures IsBacked(tokenize, db, op)
  {
    if !op.InsertRow? && op.row in db.rows {
      var tokens := tokenize(db.rows[op.row]);
      forall p: Posting ensures PostingsOf(tokens, op.row)[p] <= db.index.postings[p] {
        PostingsCount(tokens, op.row, p);
      }
    }
  }

  /** A statement that spares the unindexed rows only takes out what is there, and indexes
      the row it touches. */
  lemma StepKeepsPostings(tokenize: Tokenizer, db: Db, skipped: set<RowId>, op: Op)
    requires PostingsAgree(tokenize, db, skipped) && skipped <= db.rows.Keys && Spares(op, skipped)
    ensures IsBacked(tokenize, db, op)
    ensures var after := Execute(tokenize, db, op);
            after.Some? ==> PostingsAgree(tokenize, after.value, skipped) && skipped <= after.value.rows.Keys
  {
    IndexedIsBacked(tokenize, db, skipped, op);
    var after := Execute(tokenize, db, op);
    if Applies(db, op) && after.Some? {
      forall p: Posting ensures after.value.index.postings[p] ==
                                if p.1 in after.value.rows && p.1 !in skipped
                                then multiset(tokenize(after.value.rows[p.1]))[p.0] else 0 {
        PostingAfter(tokenize, db, skipped, op, p);
      }
    }
  }

  /* ---- the totals ---- */

  /** The row total is short by `missing`. */
  ghost predicate IsShort(db: Db, skipped: set<RowId>, missing: nat) {
    skipped <= db.rows.Keys && db.index.rowCount + missing == |db.rows.Keys - skipped|
  }

  /** What is still unindexed after a statement, and after a run. */
  function StillSkipped(skipped: set<RowId>, op: Op): set<RowId> {
    if Spares(op, skipped) then skipped else skipped - {op.row}
  }

  lemma IndexedAfter(db: Db, skipped: set<RowId>, op: Op)
    requires Applies(db, op) && skipped <= db.rows.Keys
    ensures var indexed := db.rows.Keys - skipped;
            RowsAfter(db.rows, op).Keys - StillSkipped(skipped, op) ==
              if op.DeleteRow? then indexed - {op.row} else indexed + {op.row}
  {
  }

  lemma RowCountAfter(tokenize: Tokenizer, db: Db, op: Op)
    requires Applies(db, op) && IndexAfter(tokenize, db, op).Some?
    ensures IndexAfter(tokenize, db, op).value.rowCount ==
            db.index.rowCount + (if op.InsertRow? then 1 else if op.DeleteRow? then -1 else 0)
  {
  }

  lemma IndexedCount(db: Db, skipped: set<RowId>, op: Op)
    requires Applies(db, op) && skipped <= db.rows.Keys
    ensures |RowsAfter(db.rows, op).Keys - StillSkipped(skipped, op)| ==
            |db.rows.Keys - skipped| + (if op.InsertRow? then 1 else if op.DeleteRow? then -1 else 0)
                                     + (if Spares(op, skipped) then 0 else 1)
  {
    IndexedAfter(db, skipped, op);
    SizeWithOrWithout(db.rows.Keys - skipped, op.row);
  }

  /** Each update or delete of an unindexed row makes the row total short by one more. */
  lemma StepCounts(tokenize: Tokenizer, db: Db, skipped: set<RowId>, missing: nat, op: Op)
    requires IsShort(db, skipped, missing) && Execute(tokenize, db, op).Some?
    ensures IsShort(Execute(tokenize, db, op).value, StillSkipped(skipped, op),
                    if Spares(op, skipped) then missing else missing + 1)
  {
    if Applies(db, op) {
      IndexedCount(db, skipped, op);
      RowCountAfter(tokenize, db, op);
    }
  }

  lemma ExchangeSize(before: multiset<Posting>, removed: multiset<Posting>, added: multiset<Posting>)
    requires removed <= before
    ensures |before - removed + added| == |before| - |removed| + |added|
  {
    assert (before - removed) + removed == before;
  }

  lemma RemovedIsCounted(tokenize: Tokenizer, db: Db, skipped: set<RowId>, op: Op)
    requires Consistent(tokenize, db, skipped) && Spares(op, skipped) && Applies(db, op) && IsBacked(tokenize, db, op)
    ensures PostingsOf(Removed(tokenize, db, op), op.row) <= db.index.postings
    ensures op.InsertRow? || (db.index.rowCount >= 1 && db.index.tokenCount >= |Removed(tokenize, db, op)|)
  {
    var removed := Removed(tokenize, db, op);
    PostingsSize(removed, op.row);
    if !op.InsertRow? {
      assert op.row in db.rows.Keys - skipped;
      ExchangeSize(db.index.postings, PostingsOf(removed, op.row), multiset{});
    }
  }

  lemma TokenCountAfter(tokenize: Tokenizer, db: Db, op: Op)
    requires Applies(db, op) && IndexAfter(tokenize, db, op).Some?
    ensures IndexAfter(tokenize, db, op).value.tokenCount ==
            db.index.tokenCount - |Removed(tokenize, db, op)| + |Added(tokenize, op)|
  {
  }

  lemma ExchangeTokens(before: Index, after: Index, removed: seq<Token>, added: seq<Token>, row: RowId)
    requires before.tokenCount == |before.postings| && PostingsOf(removed, row) <= before.postings
    requires after.postings == before.postings - PostingsOf(removed, row) + PostingsOf(added, row)
    requires after.tokenCount == before.tokenCount - |removed| + |added|
    ensures after.tokenCount == |after.postings|
  {
    PostingsSize(removed, row);
    PostingsSize(added, row);
    ExchangeSize(before.postings, PostingsOf(removed, row), PostingsOf(added, row));
  }

  lemma BackedDelete(tokenize: Tokenizer, db: Db, skipped: set<RowId>, op: Op)
    requires Consistent(tokenize, db, skipped) && Spares(op, skipped) && Applies(db, op) && IsBacked(tokenize, db, op)
    ensures IndexAfter(tokenize, db, op).Some?
    ensures var after := IndexAfter(tokenize, db, op).value; after.tokenCount == |after.postings|
  {
    RemovedIsCounted(tokenize, db, skipped, op);
    PostingsAfter(tokenize, db, op);
    TokenCountAfter(tokenize, db, op);
    ExchangeTokens(db.index, IndexAfter(tokenize, db, op).value, Removed(tokenize, db, op), Added(tokenize, op), op.row);
  }

  /** From a consistent index such a statement never raises, and the totals stay right. */
  lemma StepKeepsConsistent(tokenize: Tokenizer, db: Db, skipped: set<RowId>, op: Op)
    requires Consistent(tokenize, db, skipped) && Spares(op, skipped)
    ensures IsBacked(tokenize, db, op) && Execute(tokenize, db, op).Some?
    ensures Consistent(tokenize, Execute(tokenize, db, op).value, skipped)
  {
    StepKeepsPostings(tokenize, db, skipped, op);
    if Applies(db, op) {
      BackedDelete(tokenize, db, skipped, op);
      StepCounts(tokenize, db, skipped, 0, op);
    }
  }

  /** Every run of such statements goes through. */
  lemma {:induction false} SparingRunGoesThrough(tokenize: Tokenizer, db: Db, skipped: set<RowId>, ops: seq<Op>)
    requires Consistent(tokenize, db, skipped) && AllSpare(ops, skipped)
    ensures Run(tokenize, db, ops).Some? && Consistent(tokenize, Run(tokenize, db, ops).value, skipped)
    decreases |ops|
  {
    if ops != [] {
      assert ops[0] in ops;
      StepKeepsConsistent(tokenize, db, skipped, ops[0]);
      SparingRunGoesThrough(tokenize, Execute(tokenize, db, ops[0]).value, skipped, ops[1..]);
    }
  }

  /** Every `'delete'` of the run only takes out postings that are there. */
  ghost predicate DeletesAreBacked(tokenize: Tokenizer, db: Db, ops: seq<Op>)
    decreases |ops|
  {
    ops == [] || (&& IsBacked(tokenize, db, ops[0]) && Execute(tokenize, db, ops[0]).Some?
                  && DeletesAreBacked(tokenize, Execute(tokenize, db, ops[0]).value, ops[1..]))
  }

  lemma {:induction false} RunBacksItsDeletes(tokenize: Tokenizer, db: Db, skipped: set<RowId>, ops: seq<Op>)
    requires Consistent(tokenize, db, skipped) && AllSpare(ops, skipped)
    ensures DeletesAreBacked(tokenize, db, ops)
    decreases |ops|
  {
    if ops != [] {
      assert ops[0] in ops;
      StepKeepsConsistent(tokenize, db, skipped, ops[0]);
      RunBacksItsDeletes(tokenize, Execute(tokenize, db, ops[0]).value, skipped, ops[1..]);
    }
  }

  /* ---- rows that were there before the index ---- */

  lemma MigratedIsConsistent(tokenize: Tokenizer, rows: map<RowId, string>)
    ensures Consistent(tokenize, Migrated(rows), rows.Keys)
  {
    assert rows.Keys - rows.Keys == {};
  }

  /** On the index as the migration leaves it, updating or deleting any row raises. */
  lemma OldRowRaises(tokenize: Tokenizer, rows: map<RowId, string>, op: Op)
    requires !op.InsertRow? && op.row in rows
    ensures Run(tokenize, Migrated(rows), [op]) == None
  {
  }

  /** The rows a run leaves unindexed. */
  function Unindexed(skipped: set<RowId>, ops: seq<Op>): set<RowId> {
    set r | r in skipped && AllSpare(ops, {r})
  }

  lemma AllSpareStep(ops: seq<Op>, rows: set<RowId>)
    requires ops != []
    ensures AllSpare(ops, rows) <==> Spares(ops[0], rows) && AllSpare(ops[1..], rows)
  {
    assert forall op :: op in ops <==> op == ops[0] || op in ops[1..];
  }

  lemma UnindexedStep(skipped: set<RowId>, ops: seq<Op>)
    requires ops != []
    ensures Unindexed(skipped, ops) == Unindexed(StillSkipped(skipped, ops[0]), ops[1..])
    ensures AllSpare(ops, skipped) <==> Spares(ops[0], skipped) && AllSpare(ops[1..], StillSkipped(skipped, ops[0]))
  {
    AllSpareStep(ops, skipped);
    forall r | r in skipped
      ensures AllSpare(ops, {r}) <==> r in StillSkipped(skipped, ops[0]) && AllSpare(ops[1..], {r})
    {
      AllSpareStep(ops, {r});
    }
  }

  lemma {:induction false} RunCounts(tokenize: Tokenizer, db: Db, skipped: set<RowId>, missing: nat, ops: seq<Op>) returns (missing': nat)
    requires IsShort(db, skipped, missing) && Run(tokenize, db, ops).Some?
    ensures IsShort(Run(tokenize, db, ops).value, Unindexed(skipped, ops), missing')
    ensures missing' >= missing && (!AllSpare(ops, skipped) ==> missing' > missing)
    decreases |ops|
  {
    if ops == [] {
      assert Unindexed(skipped, ops) == skipped;
      missing' := missing;
    } else {
      StepCounts(tokenize, db, skipped, missing, ops[0]);
      UnindexedStep(skipped, ops);
      var next := Execute(tokenize, db, ops[0]).value;
      var short := if Spares(ops[0], skipped) then missing else missing + 1;
      missing' := RunCounts(tokenize, next, StillSkipped(skipped, ops[0]), short, ops[1..]);
    }
  }

  /** Once the total is short, deleting the indexed rows one by one raises. */
  lemma {:induction false} ShortTotalRaises(tokenize: Tokenizer, db: Db, skipped: set<RowId>, missing: nat) returns (ops: seq<Op>)
    requires IsShort(db, skipped, missing) && missing > 0
    ensures AllSpare(ops, skipped) && Run(tokenize, db, ops) == None
    decreases |db.rows|
  {
    var row :| row in db.rows.Keys - skipped;
    var op := DeleteRow(row);
    var next := Execute(tokenize, db, op);
    if next.None? {
      ops := [op];
    } else {
      StepCounts(tokenize, db, skipped, missing, op);
      var rest := ShortTotalRaises(tokenize, next.value, skipped, missing);
      ops := [op] + rest;
      assert ops[1..] == rest;
    }
  }

  /** From here on, statements that spare the given rows never raise. */
  ghost predicate StaysUsable(tokenize: Tokenizer, db: Db, rows: set<RowId>) {
    forall more | AllSpare(more, rows) :: Run(tokenize, db, more).Some?
  }

  /** After a run on the migrated table, work on the rows the index has taken in can never
      raise exactly when the run updated and deleted none of the rows from before. */
  lemma UsableIffOldRowsSpared(tokenize: Tokenizer, rows: map<RowId, string>, ops: seq<Op>)
    requires Run(tokenize, Migrated(rows), ops).Some?
    ensures StaysUsable(tokenize, Run(tokenize, Migrated(rows), ops).value, Unindexed(rows.Keys, ops))
            <==> AllSpare(ops, rows.Keys)
  {
    var start, prior := Migrated(rows), rows.Keys;
    var db := Run(tokenize, start, ops).value;
    MigratedIsConsistent(tokenize, rows);
    if AllSpare(ops, prior) {
      assert Unindexed(prior, ops) == prior;
      SparingRunGoesThrough(tokenize, start, prior, ops);
      forall more | AllSpare(more, prior) ensures Run(tokenize, db, more).Some? {
        SparingRunGoesThrough(tokenize, db, prior, more);
      }
    } else {
      var missing := RunCounts(tokenize, start, prior, 0, ops);
      var more := ShortTotalRaises(tokenize, db, Unindexed(prior, ops), missing);
    }
  }

  /** The rows from before that hold a token. */
  function Holding(tokenize: Tokenizer, rows: map<RowId, string>): set<RowId> {
    set r | r in rows && tokenize(rows[r]) != []
  }

  /** The skipped rows are there and hold tokens, and the rest is indexed. */
  ghost predicate SkipsHolders(tokenize: Tokenizer, db: Db, skipped: set<RowId>) {
    && PostingsAgree(tokenize, db, skipped)
    && (forall r | r in skipped :: r in db.rows && tokenize(db.rows[r]) != [])
  }

  lemma StepKeepsSkipping(tokenize: Tokenizer, db: Db, skipped: set<RowId>, op: Op)
    requires SkipsHolders(tokenize, db, skipped)
    ensures IsBacked(tokenize, db, op) <==> Spares(op, skipped)
    ensures var after := Execute(tokenize, db, op);
            after.Some? && Spares(op, skipped) ==> SkipsHolders(tokenize, after.value, skipped)
  {
    if Spares(op, skipped) {
      assert skipped <= db.rows.Keys;
      StepKeepsPostings(tokenize, db, skipped, op);
    } else {
      var tokens := tokenize(db.rows[op.row]);
      var p := (tokens[0], op.row);
      PostingsCount(tokens, op.row, p);
      assert db.index.postings[p] == 0 && PostingsOf(tokens, op.row)[p] > 0;
    }
  }

  lemma {:induction false} BackedRuns(tokenize: Tokenizer, db: Db, skipped: set<RowId>, ops: seq<Op>)
    requires SkipsHolders(tokenize, db, skipped) && Run(tokenize, db, ops).Some?
    ensures DeletesAreBacked(tokenize, db, ops) <==> AllSpare(ops, skipped)
    ensures AllSpare(ops, skipped) ==> SkipsHolders(tokenize, Run(tokenize, db, ops).value, skipped)
    decreases |ops|
  {
    if ops != [] {
      assert ops == [ops[0]] + ops[1..];
      StepKeepsSkipping(tokenize, db, skipped, ops[0]);
      if Spares(ops[0], skipped) { BackedRuns(tokenize, Execute(tokenize, db, ops[0]).value, skipped, ops[1..]); }
    }
  }

  /** Every `'delete'` of a run on the migrated table takes out only postings that are there
      exactly when no row from before that holds a token is updated or deleted. */
  lemma BackedIffHoldersSpared(tokenize: Tokenizer, rows: map<RowId, string>, ops: seq<Op>)
    requires Run(tokenize, Migrated(rows), ops).Some?
    ensures DeletesAreBacked(tokenize, Migrated(rows), ops) <==> AllSpare(ops, Holding(tokenize, rows))
  {
    BackedRuns(tokenize, Migrated(rows), Holding(tokenize, rows), ops);
  }

  /** After a backed run a search returns exactly the rows whose text, as the statements wrote
      it, holds every term, other than the rows from before that held a token. */
  lemma SearchFindsWhatWasWritten(tokenize: Tokenizer, rows: map<RowId, string>, ops: seq<Op>, row: RowId, terms: set<Token>)
    requires Run(tokenize, Migrated(rows), ops).Some? && DeletesAreBacked(tokenize, Migrated(rows), ops) && terms != {}
    ensures var text := TextAfter(TextIn(rows, row), ops, row);
            IndexMatches(Run(tokenize, Migrated(rows), ops).value, row, terms) <==>
            text.Some? && (forall t | t in terms :: t in tokenize(text.value)) && row !in Holding(tokenize, rows)
  {
    RunWritesRows(tokenize, Migrated(rows), ops, row);
    BackedRuns(tokenize, Migrated(rows), Holding(tokenize, rows), ops);
    AgreeingSearch(tokenize, Run(tokenize, Migrated(rows), ops).value, Holding(tokenize, rows), row, terms);
  }

  /** Searching is as good as scanning, after every run that goes through. */
  ghost predicate SearchIsComplete(tokenize: Tokenizer, rows: map<RowId, string>) {
    forall ops, row, terms | Run(tokenize, Migrated(rows), ops).Some? ::
      var db := Run(tokenize, Migrated(rows), ops).value;
      IndexMatches(db, row, terms) <==> ScanMatches(tokenize, db, row, terms)
  }

  /** That holds exactly when no row from before the index holds a token. */
  lemma CompleteIffNothingToIndex(tokenize: Tokenizer, rows: map<RowId, string>)
    ensures SearchIsComplete(tokenize, rows) <==> Holding(tokenize, rows) == {}
  {
    var start := Migrated(rows);
    if Holding(tokenize, rows) == {} {
      forall ops, row, terms | Run(tokenize, start, ops).Some?
        ensures var db := Run(tokenize, start, ops).value;
                IndexMatches(db, row, terms) <==> ScanMatches(tokenize, db, row, terms)
      {
        BackedRuns(tokenize, start, {}, ops);
        if terms != {} { AgreeingSearch(tokenize, Run(tokenize, start, ops).value, {}, row, terms); }
      }
    } else {
      var row :| row in Holding(tokenize, rows);
      var term := tokenize(rows[row])[0];
      assert Run(tokenize, start, []) == Some(start);
      assert ScanMatches(tokenize, start, row, {term}) && !IndexMatches(start, row, {term});
    }
  }

  /** No run ever raises exactly when the migration found an empty table. */
  lemma NeverRaisesIffEmpty(tokenize: Tokenizer, rows: map<RowId, string>)
    ensures (forall ops :: Run(tokenize, Migrated(rows), ops).Some?) <==> rows == map[]
  {
    if rows == map[] {
      MigratedIsConsistent(tokenize, rows);
      forall ops ensures Run(tokenize, Migrated(rows), ops).Some? {
        SparingRunGoesThrough(tokenize, Migrated(rows), {}, ops);
      }
    } else {
      var row :| row in rows;
      OldRowRaises(tokenize, rows, DeleteRow(row));
    }
  }

  /* ---- the tables as the triggers update them ---- */

  /** A statement that raises is rolled back. */
  class ChunkTable {
    const tokenize: Tokenizer
    var rows: map<RowId, string>
    var index: Index

    ghost function Contents(): Db reads this { Db(rows, index) }

    /** The state the migration leaves. */
    constructor (tokenize: Tokenizer, rows: map<RowId, string>)
      ensures this.tokenize == tokenize && Contents() == Migrated(rows)
      ensures Consistent(tokenize, Contents(), rows.Keys)
    {
      this.tokenize := tokenize;
      this.rows, index := rows, EMPTY_INDEX;
      new;
      MigratedIsConsistent(tokenize, rows);
    }

    /** What a statement promises: its effect, and that on a consistent index it goes through
        and keeps the index consistent unless it updates or deletes an unindexed row. */
    twostate predicate Did(op: Op, raised: bool)
      reads this
    {
      && Execute(tokenize, old(Contents()), op) == (if raised then None else Some(Contents()))
      && (raised ==> Contents() == old(Contents()))
      && (forall row :: TextIn(rows, row) == if raised then TextIn(old(rows), row) else TextAfter(TextIn(old(rows), row), [op], row))
      && (forall skipped | old(Consistent(tokenize, Contents(), skipped)) && Spares(op, skipped) ::
            !raised && Consistent(tokenize, Contents(), skipped))
    }

    method Insert(row: RowId, text: string) returns (raised: bool)
      modifies this
      ensures Did(InsertRow(row, text), raised)
    {
      ghost var db, op := Contents(), InsertRow(row, text);
      Consequences(db, op);
      if row !in rows {
        rows := rows[row := text];
        index := IndexText(tokenize, index, row, text);
      }
      return false;
    }

    method Delete(row: RowId) returns (raised: bool)
      modifies this
      ensures Did(DeleteRow(row), raised)
    {
      ghost var db, op := Contents(), DeleteRow(row);
      Consequences(db, op);
      if row in rows {
        var next := UnindexText(tokenize, index, row, rows[row]);
        if next.None? { return true; }
        rows, index := rows - {row}, next.value;
      }
      return false;
    }

    method Update(row: RowId, text: string) returns (raised: bool)
      modifies this
      ensures Did(UpdateText(row, text), raised)
    {
      ghost var db, op := Contents(), UpdateText(row, text);
      Consequences(db, op);
      if row in rows {
        var next := UnindexText(tokenize, index, row, rows[row]);
        if next.None? { return true; }
        rows, index := rows[row := text], IndexText(tokenize, next.value, row, text);
      }
      return false;
    }

    lemma Consequences(db: Db, op: Op)
      ensures forall skipped | Consistent(tokenize, db, skipped) && Spares(op, skipped) ::
                Execute(tokenize, db, op).Some? && Consistent(tokenize, Execute(tokenize, db, op).value, skipped)
    {
      forall skipped | Consistent(tokenize, db, skipped) && Spares(op, skipped)
        ensures Execute(tokenize, db, op).Some? && Consistent(tokenize, Execute(tokenize, db, op).value, skipped)
      {
        StepKeepsConsistent(tokenize, db, skipped, op);
      }
    }
  }
}
