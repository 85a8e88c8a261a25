/** The `transactions` table and the writes `main.py` makes to it: the
    de-duplicating insert of parsed records, `process_input`, and the category
    update of `categorize_transactions`. */
module Store {
  import opened Results
  import opened Lists
  import opened Parser

  /** One row of `transactions (id, date, merchant, amount, category)`; the parsed
      `type` has no column and is not stored. */
  datatype Row = Row(id: nat, date: string, merchant: string, amount: real, category: string)

  /** The rows in rowid order, and the largest id ever handed out (what
      `AUTOINCREMENT` keeps in `sqlite_sequence`). */
  datatype Db = Db(rows: seq<Row>, lastId: nat)

  /** Ids strictly increase along the sequence, as they do in rowid order. */
  predicate Increasing(rows: seq<Row>) {
    forall i, j :: 0 <= i < j < |rows| ==> rows[i].id < rows[j].id
  }

  /** Rowids are positive, strictly increasing in storage order and never above the
      recorded high-water mark. */
  predicate WellFormed(d: Db) {
    && Increasing(d.rows)
    && (forall i :: 0 <= i < |d.rows| ==> 1 <= d.rows[i].id <= d.lastId)
  }

  type Table = d: Db | WellFormed(d) witness Db([], 0)

  /** The columns the insert compares to decide that a record is already stored. */
  datatype Key = Key(date: string, merchant: string, amount: real)

  function KeyOf(r: Row): Key {
    Key(r.date, r.merchant, r.amount)
  }

  function TxKey(tx: Transaction): Key {
    Key(tx.date, tx.merchant, tx.amount)
  }

  /** `EXISTS(SELECT 1 FROM transactions WHERE date=? AND merchant=? AND amount=?)`. */
  predicate HasKey(t: Db, k: Key) {
    exists i :: 0 <= i < |t.rows| && KeyOf(t.rows[i]) == k
  }

  /** No two rows share a key. */
  predicate UniqueKeys(t: Db) {
    forall i, j :: 0 <= i < j < |t.rows| ==> KeyOf(t.rows[i]) != KeyOf(t.rows[j])
  }

  /** A row stores the record `tx` (every column but the id). */
  predicate Stores(r: Row, tx: Transaction) {
    r.date == tx.date && r.merchant == tx.merchant && r.amount == tx.amount && r.category == tx.category
  }

  /** One `INSERT ... SELECT ... WHERE NOT EXISTS(...)`: the record is appended with
      the next id unless a row with its date, merchant and amount already exists. */
  function InsertOne(t: Table, tx: Transaction): (r: Table)
    ensures HasKey(t, TxKey(tx)) ==> r == t
    ensures !HasKey(t, TxKey(tx)) ==>
              && |r.rows| == |t.rows| + 1 && r.rows[..|t.rows|] == t.rows
              && Stores(r.rows[|t.rows|], tx) && r.rows[|t.rows|].id > t.lastId
    ensures forall k :: HasKey(r, k) <==> HasKey(t, k) || k == TxKey(tx)
    ensures UniqueKeys(t) ==> UniqueKeys(r)
  {
    if HasKey(t, TxKey(tx)) then t
    else
      var row := Row(t.lastId + 1, tx.date, tx.merchant, tx.amount, tx.category);
      var r := Db(t.rows + [row], t.lastId + 1);
      assert KeyOf(r.rows[|t.rows|]) == TxKey(tx);
      assert forall i :: 0 <= i < |t.rows| ==> r.rows[i] == t.rows[i];
      r
  }

  /** Some record of `txs` has key `k`. */
  predicate Mentions(txs: seq<Transaction>, k: Key) {
    exists j :: 0 <= j < |txs| && TxKey(txs[j]) == k
  }

  /** The loop of `insert_transactions`, one statement per record, in order; each
      statement sees the rows the earlier ones inserted. Existing rows are never
      touched. */
  function InsertAll(t: Table, txs: seq<Transaction>): (r: Table)
    ensures |t.rows| <= |r.rows| && r.rows[..|t.rows|] == t.rows
    ensures t.lastId <= r.lastId
    decreases |txs|
  {
    if |txs| == 0 then t
    else
      var mid := InsertAll(t, txs[..|txs| - 1]);
      var r := InsertOne(mid, txs[|txs| - 1]);
      assert r.rows[..|t.rows|] == mid.rows[..|t.rows|];
      r
  }

  /** Row `r` stores one of the records `txs`. */
  predicate FromRecords(r: Row, txs: seq<Transaction>) {
    exists j :: 0 <= j < |txs| && Stores(r, txs[j])
  }

  /** A row storing one of the earlier records stores one of the records. */
  lemma FromRecordsInit(r: Row, txs: seq<Transaction>)
    requires |txs| > 0 && FromRecords(r, txs[..|txs| - 1])
    ensures FromRecords(r, txs)
  {
    var j :| 0 <= j < |txs| - 1 && Stores(r, txs[..|txs| - 1][j]);
    assert txs[j] == txs[..|txs| - 1][j];
  }

  /** Every row the loop adds stores one of the records, under an id above every
      id handed out before. */
  lemma {:induction false} InsertAllNewRows(t: Table, txs: seq<Transaction>)
    ensures forall i :: |t.rows| <= i < |InsertAll(t, txs).rows| ==>
              InsertAll(t, txs).rows[i].id > t.lastId && FromRecords(InsertAll(t, txs).rows[i], txs)
    decreases |txs|
  {
    if |txs| > 0 {
      var init := txs[..|txs| - 1];
      var mid := InsertAll(t, init);
      InsertAllNewRows(t, init);
      var r := InsertOne(mid, txs[|txs| - 1]);
      forall i | |t.rows| <= i < |r.rows|
        ensures r.rows[i].id > t.lastId && FromRecords(r.rows[i], txs)
      {
        if i < |mid.rows| {
          assert r.rows[i] == mid.rows[i] by {
            if r != mid { assert r.rows[..|mid.rows|] == mid.rows; }
          }
          FromRecordsInit(mid.rows[i], txs);
        }
      }
    }
  }

  /** A key is carried by the records exactly when the earlier ones or the last one
      carries it. */
  lemma MentionsInit(txs: seq<Transaction>)
    requires |txs| > 0
    ensures forall k :: Mentions(txs, k) <==> Mentions(txs[..|txs| - 1], k) || k == TxKey(txs[|txs| - 1])
  {
    var init := txs[..|txs| - 1];
    forall k | Mentions(txs, k) && k != TxKey(txs[|txs| - 1]) ensures Mentions(init, k) {
      var j :| 0 <= j < |txs| && TxKey(txs[j]) == k;
      assert j < |init| && TxKey(init[j]) == k;
    }
    forall k | Mentions(init, k) ensures Mentions(txs, k) {
      var j :| 0 <= j < |init| && TxKey(init[j]) == k;
      assert TxKey(txs[j]) == k;
    }
  }

  /** After the loop, a key is stored exactly when it was stored before or some
      record carries it. */
  lemma {:induction false} InsertAllKeys(t: Table, txs: seq<Transaction>)
    ensures forall k :: HasKey(InsertAll(t, txs), k) <==> HasKey(t, k) || Mentions(txs, k)
    decreases |txs|
  {
    if |txs| > 0 {
      InsertAllKeys(t, txs[..|txs| - 1]);
      MentionsInit(txs);
    }
  }

  /** The records the loop stores, as a reference: in order, each record whose key
      is neither in the table already nor carried by an earlier record. */
  function Fresh(t: Db, txs: seq<Transaction>): (r: seq<Transaction>)
    ensures |r| <= |txs|
    ensures forall i :: 0 <= i < |r| ==> r[i] in txs && !HasKey(t, TxKey(r[i]))
    decreases |txs|
  {
    if |txs| == 0 then []
    else
      var init := txs[..|txs| - 1];
      var last := txs[|txs| - 1];
      var f := Fresh(t, init);
      assert forall x :: x in init ==> x in txs;
      if HasKey(t, TxKey(last)) || Mentions(init, TxKey(last)) then f else f + [last]
  }

  /** Each key new to the table is carried by exactly one fresh record. */
  lemma {:induction false} FreshKeys(t: Db, txs: seq<Transaction>)
    ensures forall k :: Mentions(Fresh(t, txs), k) <==> Mentions(txs, k) && !HasKey(t, k)
    ensures forall i, j :: 0 <= i < j < |Fresh(t, txs)| ==> TxKey(Fresh(t, txs)[i]) != TxKey(Fresh(t, txs)[j])
    decreases |txs|
  {
    if |txs| > 0 {
      var init := txs[..|txs| - 1];
      var last := txs[|txs| - 1];
      var f := Fresh(t, init);
      FreshKeys(t, init);
      MentionsInit(txs);
      if !(HasKey(t, TxKey(last)) || Mentions(init, TxKey(last))) {
        var g := f + [last];
        assert g[..|g| - 1] == f;
        MentionsInit(g);
        forall i, j | 0 <= i < j < |g| ensures TxKey(g[i]) != TxKey(g[j]) {
          if j == |f| {
            assert g[i] == f[i];
            assert Mentions(f, TxKey(f[i]));
          }
        }
      }
    }
  }

  /** The loop appends exactly the fresh records, in order, one row each. */
  lemma {:induction false} InsertAllFresh(t: Table, txs: seq<Transaction>)
    ensures |InsertAll(t, txs).rows| == |t.rows| + |Fresh(t, txs)|
    ensures forall i :: 0 <= i < |Fresh(t, txs)| ==> Stores(InsertAll(t, txs).rows[|t.rows| + i], Fresh(t, txs)[i])
    decreases |txs|
  {
    if |txs| > 0 {
      var init := txs[..|txs| - 1];
      var last := txs[|txs| - 1];
      var mid := InsertAll(t, init);
      var f := Fresh(t, init);
      InsertAllFresh(t, init);
      InsertAllKeys(t, init);
      var r := InsertOne(mid, last);
      if !HasKey(mid, TxKey(last)) {
        forall i | 0 <= i < |f| ensures Stores(r.rows[|t.rows| + i], f[i]) {
          assert r.rows[|t.rows| + i] == mid.rows[|t.rows| + i];
        }
      }
    }
  }

  /** The loop keeps the keys of the table distinct. */
  lemma {:induction false} InsertAllUnique(t: Table, txs: seq<Transaction>)
    requires UniqueKeys(t)
    ensures UniqueKeys(InsertAll(t, txs))
    decreases |txs|
  {
    if |txs| > 0 {
      InsertAllUnique(t, txs[..|txs| - 1]);
    }
  }

  /** Records whose keys are all stored already change nothing. */
  lemma {:induction false} InsertAllPresent(t: Table, txs: seq<Transaction>)
    requires forall j :: 0 <= j < |txs| ==> HasKey(t, TxKey(txs[j]))
    ensures InsertAll(t, txs) == t
    decreases |txs|
  {
    if |txs| > 0 {
      var init := txs[..|txs| - 1];
      assert forall j :: 0 <= j < |init| ==> init[j] == txs[j];
      InsertAllPresent(t, init);
    }
  }

  /** After the loop every record's key is stored. */
  lemma InsertAllHolds(t: Table, txs: seq<Transaction>)
    ensures forall j :: 0 <= j < |txs| ==> HasKey(InsertAll(t, txs), TxKey(txs[j]))
  {
    InsertAllKeys(t, txs);
    forall j | 0 <= j < |txs| ensures HasKey(InsertAll(t, txs), TxKey(txs[j])) {
      assert Mentions(txs, TxKey(txs[j]));
    }
  }

  /** Inserting the same records twice is the same as inserting them once: the
      duplicate check makes loading the same notification text again harmless. */
  lemma InsertAllIdempotent(t: Table, txs: seq<Transaction>)
    ensures InsertAll(InsertAll(t, txs), txs) == InsertAll(t, txs)
  {
    InsertAllHolds(t, txs);
    InsertAllPresent(InsertAll(t, txs), txs);
  }

  /** `process_input(text)`: parse, then insert. A parse error propagates before
      anything is written, so the table the caller holds stays as it was. */
  function ProcessInput(t: Table, text: string): (r: Result<Table>)
    ensures r.Ok? <==> Parse(text).Ok?
    ensures r.Err? ==> r.error.BadAmount?
    ensures r.Ok? ==> |t.rows| <= |r.value.rows| && r.value.rows[..|t.rows|] == t.rows
    ensures r.Ok? ==> forall j :: 0 <= j < |Parse(text).value| ==> HasKey(r.value, TxKey(Parse(text).value[j]))
  {
    var parsed := Parse(text);
    if parsed.Err? then
      ParseErr(text);
      Err(parsed.error)
    else
      InsertAllHolds(t, parsed.value);
      Ok(InsertAll(t, parsed.value))
  }

  /** Feeding the same text twice stores it once. */
  lemma ProcessInputIdempotent(t: Table, text: string)
    requires ProcessInput(t, text).Ok?
    ensures ProcessInput(ProcessInput(t, text).value, text) == ProcessInput(t, text)
  {
    InsertAllIdempotent(t, Parse(text).value);
  }

  // ---------------------------------------------------------------------------
  // categorize_transactions

  /** The merchants of the rows whose category is the empty string, in row order. */
  function Uncategorized(rows: seq<Row>): (r: seq<string>)
    ensures forall m :: m in r <==> exists i :: 0 <= i < |rows| && rows[i].merchant == m && rows[i].category == ""
  {
    if |rows| == 0 then []
    else
      var rest := Uncategorized(rows[1..]);
      assert forall i :: 0 < i < |rows| ==> rows[i] == rows[1..][i - 1];
      if rows[0].category == "" then [rows[0].merchant] + rest else rest
  }

  /** `SELECT DISTINCT merchant FROM transactions WHERE category = ""`. */
  function PendingMerchants(t: Table): (r: seq<string>)
    ensures NoDup(r)
    ensures forall m :: m in r <==> exists i :: 0 <= i < |t.rows| && t.rows[i].merchant == m && t.rows[i].category == ""
  {
    Distinct(Uncategorized(t.rows))
  }

  /** `if category:` — the dialog returned a non-empty string (not `None`, not ""). */
  predicate Accepted(answer: Option<string>) {
    answer.Some? && answer.value != ""
  }

  /** `UPDATE transactions SET category = ? WHERE merchant = ?`: every row of that
      merchant gets the category, whatever it had before; no other row changes. */
  function SetCategory(rows: seq<Row>, merchant: string, category: string): (r: seq<Row>)
    ensures |r| == |rows|
    ensures forall i :: 0 <= i < |rows| ==>
              r[i] == if rows[i].merchant == merchant then rows[i].(category := category) else rows[i]
  {
    if |rows| == 0 then []
    else
      var head := if rows[0].merchant == merchant then rows[0].(category := category) else rows[0];
      [head] + SetCategory(rows[1..], merchant, category)
  }

  /** Only categories change: ids, keys and the order of the rows stay. */
  predicate SameRowsExceptCategory(a: seq<Row>, b: seq<Row>) {
    |a| == |b| && forall i :: 0 <= i < |a| ==> b[i] == a[i].(category := b[i].category)
  }

  function Recategorize(t: Table, merchant: string, category: string): (r: Table)
    ensures SameRowsExceptCategory(t.rows, r.rows) && r.lastId == t.lastId
  {
    Db(SetCategory(t.rows, merchant, category), t.lastId)
  }

  /** The answer the dialog gave for `m`, when it was accepted. */
  function AnswerFor(merchants: seq<string>, answers: seq<Option<string>>, m: string): (r: Option<string>)
    requires |answers| == |merchants|
    ensures r.Some? ==> r.value != ""
  {
    if |merchants| == 0 then None
    else if merchants[0] == m && Accepted(answers[0]) then answers[0]
    else AnswerFor(merchants[1..], answers[1..], m)
  }

  /** The loop of `categorize_transactions` over a fixed list of merchants, with the
      dialog's answers given in the same order. */
  function ApplyAnswers(t: Table, merchants: seq<string>, answers: seq<Option<string>>): (r: Table)
    requires |answers| == |merchants|
    ensures SameRowsExceptCategory(t.rows, r.rows) && r.lastId == t.lastId
    decreases |merchants|
  {
    if |merchants| == 0 then t
    else
      var next := if Accepted(answers[0]) then Recategorize(t, merchants[0], answers[0].value) else t;
      var r := ApplyAnswers(next, merchants[1..], answers[1..]);
      assert forall i :: 0 <= i < |t.rows| ==> r.rows[i] == t.rows[i].(category := r.rows[i].category) by {
        forall i | 0 <= i < |t.rows| ensures r.rows[i] == t.rows[i].(category := r.rows[i].category) {
          assert next.rows[i] == t.rows[i].(category := next.rows[i].category);
        }
      }
      r
  }

  /** For distinct merchants the sequential updates are the same as looking each
      row's merchant up among the accepted answers. */
  lemma {:induction false} ApplyAnswersLookup(t: Table, merchants: seq<string>, answers: seq<Option<string>>)
    requires |answers| == |merchants| && NoDup(merchants)
    ensures forall i :: 0 <= i < |t.rows| ==>
              ApplyAnswers(t, merchants, answers).rows[i].category
              == match AnswerFor(merchants, answers, t.rows[i].merchant)
                 case Some(c) => c
                 case None => t.rows[i].category
    decreases |merchants|
  {
    if |merchants| > 0 {
      var next := if Accepted(answers[0]) then Recategorize(t, merchants[0], answers[0].value) else t;
      var tail := merchants[1..];
      assert NoDup(tail) by {
        forall i, j | 0 <= i < j < |tail| ensures tail[i] != tail[j] {
          assert tail[i] == merchants[i + 1] && tail[j] == merchants[j + 1];
        }
      }
      ApplyAnswersLookup(next, tail, answers[1..]);
      forall i | 0 <= i < |t.rows|
        ensures ApplyAnswers(t, merchants, answers).rows[i].category
                == match AnswerFor(merchants, answers, t.rows[i].merchant)
                   case Some(c) => c
                   case None => t.rows[i].category
      {
        var m := t.rows[i].merchant;
        assert next.rows[i].merchant == m;
        if m == merchants[0] {
          NotInTail(merchants);
          AnswerForAbsent(tail, answers[1..], m);
        }
      }
    }
  }

  lemma NotInTail(xs: seq<string>)
    requires |xs| > 0 && NoDup(xs)
    ensures xs[0] !in xs[1..]
  {
  }

  lemma {:induction false} AnswerForAbsent(merchants: seq<string>, answers: seq<Option<string>>, m: string)
    requires |answers| == |merchants| && m !in merchants
    ensures AnswerFor(merchants, answers, m).None?
    decreases |merchants|
  {
    if |merchants| > 0 {
      assert merchants[0] != m;
      assert m !in merchants[1..];
      AnswerForAbsent(merchants[1..], answers[1..], m);
    }
  }

  /** `categorize_transactions`: the merchants awaiting a category are listed once,
      up front, and each accepted answer is written to all of that merchant's rows. */
  function Categorize(t: Table, answers: seq<Option<string>>): (r: Table)
    requires |answers| == |PendingMerchants(t)|
    ensures SameRowsExceptCategory(t.rows, r.rows) && r.lastId == t.lastId
    ensures forall i :: 0 <= i < |t.rows| ==>
              r.rows[i].category
              == match AnswerFor(PendingMerchants(t), answers, t.rows[i].merchant)
                 case Some(c) => c
                 case None => t.rows[i].category
  {
    ApplyAnswersLookup(t, PendingMerchants(t), answers);
    ApplyAnswers(t, PendingMerchants(t), answers)
  }

  /** After categorizing, a merchant still awaits a category exactly when it did
      before and its answer was not accepted. */
  lemma CategorizePending(t: Table, answers: seq<Option<string>>, m: string)
    requires |answers| == |PendingMerchants(t)|
    ensures m in PendingMerchants(Categorize(t, answers))
            <==> m in PendingMerchants(t) && AnswerFor(PendingMerchants(t), answers, m).None?
  {
    var r := Categorize(t, answers);
    if m in PendingMerchants(r) {
      var i :| 0 <= i < |r.rows| && r.rows[i].merchant == m && r.rows[i].category == "";
      assert t.rows[i].merchant == m;
    }
    if m in PendingMerchants(t) && AnswerFor(PendingMerchants(t), answers, m).None? {
      var i :| 0 <= i < |t.rows| && t.rows[i].merchant == m && t.rows[i].category == "";
      assert r.rows[i].merchant == m && r.rows[i].category == "";
    }
  }

  /** Categorizing never creates two rows with the same key. */
  lemma CategorizeKeepsKeys(t: Table, answers: seq<Option<string>>)
    requires |answers| == |PendingMerchants(t)| && UniqueKeys(t)
    ensures UniqueKeys(Categorize(t, answers))
  {
    var r := Categorize(t, answers);
    assert forall i :: 0 <= i < |t.rows| ==> KeyOf(r.rows[i]) == KeyOf(t.rows[i]);
  }

  /** With no accepted answer the lookup finds nothing. */
  lemma {:induction false} AnswerForNoneAccepted(merchants: seq<string>, answers: seq<Option<string>>, m: string)
    requires |answers| == |merchants| && forall j :: 0 <= j < |answers| ==> !Accepted(answers[j])
    ensures AnswerFor(merchants, answers, m).None?
    decreases |merchants|
  {
    if |merchants| > 0 {
      assert !Accepted(answers[0]);
      AnswerForNoneAccepted(merchants[1..], answers[1..], m);
    }
  }

  /** Cancelled or empty answers everywhere leave the table exactly as it was. */
  lemma CategorizeUnanswered(t: Table, answers: seq<Option<string>>)
    requires |answers| == |PendingMerchants(t)|
    requires forall j :: 0 <= j < |answers| ==> !Accepted(answers[j])
    ensures Categorize(t, answers) == t
  {
    var r := Categorize(t, answers);
    forall i | 0 <= i < |t.rows| ensures r.rows[i] == t.rows[i] {
      AnswerForNoneAccepted(PendingMerchants(t), answers, t.rows[i].merchant);
    }
    assert r.rows == t.rows;
  }
}
