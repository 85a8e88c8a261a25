/** The reads of `database.py`, each a pure function of the rows of the
    `transactions` table (so none of them changes it). `datetime.now()` becomes a
    parameter. SQL `WHERE` clauses are the `Cond` values below; `SUM(amount) or 0`
    is `Total` of the selected rows. */
module Queries {
  import opened Results
  import opened Text
  import opened Calendar
  import opened Lists
  import opened Parser
  import opened Store

  /** The tuple `(date, merchant, amount, category)` the listing queries fetch. */
  datatype Listing = Listing(date: string, merchant: string, amount: real, category: string)

  function ListingOf(r: Row): Listing {
    Listing(r.date, r.merchant, r.amount, r.category)
  }

  function Listings(rows: seq<Row>): (r: seq<Listing>)
    ensures |r| == |rows| && forall i :: 0 <= i < |rows| ==> r[i] == ListingOf(rows[i])
  {
    seq(|rows|, i requires 0 <= i < |rows| => ListingOf(rows[i]))
  }

  // ---------------------------------------------------------------------------
  // get_recent_transactions

  /** `ORDER BY id DESC LIMIT n` over rows in rowid order: the last `n` rows,
      last first. */
  function Newest(rows: seq<Row>, n: nat): (r: seq<Row>)
    ensures |r| == if n < |rows| then n else |rows|
    decreases n
  {
    if n == 0 || |rows| == 0 then []
    else [rows[|rows| - 1]] + Newest(rows[..|rows| - 1], n - 1)
  }

  /** Dropping the newest row keeps the ids increasing, and every row left has
      a lower id than the one dropped. */
  lemma InitIncreasing(rows: seq<Row>)
    requires Increasing(rows) && |rows| > 0
    ensures Increasing(rows[..|rows| - 1])
    ensures forall x :: x in rows[..|rows| - 1] ==> x in rows && x.id < rows[|rows| - 1].id
  {
    var init := rows[..|rows| - 1];
    forall i, j | 0 <= i < j < |init| ensures init[i].id < init[j].id {
      assert init[i] == rows[i] && init[j] == rows[j];
    }
    forall x | x in init ensures x in rows && x.id < rows[|rows| - 1].id {
      var k :| 0 <= k < |init| && init[k] == x;
      assert rows[k] == x;
    }
  }

  /** Every row `Newest` keeps is a row of the table. */
  lemma {:induction false} NewestMembers(rows: seq<Row>, n: nat)
    ensures forall i :: 0 <= i < |Newest(rows, n)| ==> Newest(rows, n)[i] in rows
    decreases n
  {
    if n > 0 && |rows| > 0 {
      var init := rows[..|rows| - 1];
      var rest := Newest(init, n - 1);
      var r := Newest(rows, n);
      NewestMembers(init, n - 1);
      assert rows == init + [rows[|rows| - 1]];
      forall i | 0 <= i < |r| ensures r[i] in rows {
        if i > 0 { assert r[i] == rest[i - 1]; }
      }
    }
  }

  /** Ids strictly decrease along the result of `Newest`: newest first. */
  lemma {:induction false} NewestOrder(rows: seq<Row>, n: nat)
    requires Increasing(rows)
    ensures forall i, j :: 0 <= i < j < |Newest(rows, n)| ==> Newest(rows, n)[i].id > Newest(rows, n)[j].id
    decreases n
  {
    if n > 0 && |rows| > 0 {
      var init := rows[..|rows| - 1];
      var rest := Newest(init, n - 1);
      var r := Newest(rows, n);
      InitIncreasing(rows);
      NewestOrder(init, n - 1);
      NewestMembers(init, n - 1);
      forall i, j | 0 <= i < j < |r| ensures r[i].id > r[j].id {
        assert r[j] == rest[j - 1];
        if i > 0 { assert r[i] == rest[i - 1]; }
      }
    }
  }

  /** Every row `Newest` leaves out has a lower id than every row it keeps. */
  lemma {:induction false} NewestTop(rows: seq<Row>, n: nat)
    requires Increasing(rows)
    ensures forall k :: 0 <= k < |rows| && rows[k] !in Newest(rows, n) ==>
              forall i :: 0 <= i < |Newest(rows, n)| ==> rows[k].id < Newest(rows, n)[i].id
    decreases n
  {
    if n > 0 && |rows| > 0 {
      var init := rows[..|rows| - 1];
      var last := rows[|rows| - 1];
      var rest := Newest(init, n - 1);
      var r := Newest(rows, n);
      assert r == [last] + rest;
      InitIncreasing(rows);
      NewestTop(init, n - 1);
      forall k | 0 <= k < |rows| && rows[k] !in r
        ensures forall i :: 0 <= i < |r| ==> rows[k].id < r[i].id
      {
        assert k < |rows| - 1;
        assert rows[k] == init[k] && rows[k] !in rest;
        forall i | 0 <= i < |r| ensures rows[k].id < r[i].id {
          if i > 0 { assert r[i] == rest[i - 1]; }
        }
      }
    }
  }

  /** `get_recent_transactions`: the three most recently inserted rows, newest first. */
  function RecentTransactions(t: Table): (r: seq<Listing>)
    ensures |r| == if |t.rows| < 3 then |t.rows| else 3
    ensures forall i :: 0 <= i < |r| ==> r[i] == ListingOf(Newest(t.rows, 3)[i])
  {
    Listings(Newest(t.rows, 3))
  }

  // ---------------------------------------------------------------------------
  // Filters and sums

  /** The `WHERE` clauses of the reads. */
  datatype Cond =
    /** `date LIKE prefix || '%'` */
    | DateLike(prefix: string)
    /** `date >= bound` */
    | DateFrom(bound: string)
    /** `LOWER(merchant) = name AND date >= bound` */
    | MerchantFrom(name: string, bound: string)

  /** Whether a row with this date and merchant satisfies the clause. SQLite's
      `LIKE` ignores ASCII case on both sides; `>=` and `=` compare TEXT
      byte by byte. */
  predicate Holds(c: Cond, date: string, merchant: string) {
    match c
    case DateLike(prefix) => StartsWith(Lower(date), Lower(prefix))
    case DateFrom(bound) => AtLeast(date, bound)
    case MerchantFrom(name, bound) => Lower(merchant) == name && AtLeast(date, bound)
  }

  /** The clauses see a merchant only through `LOWER(merchant)`: two names that
      differ only in ASCII case satisfy the same clauses, and a lowercased name
      selects every row whose merchant lowercases to it. */
  lemma HoldsMerchantCase(c: Cond, date: string, m1: string, m2: string, bound: string)
    requires Lower(m1) == Lower(m2)
    ensures Holds(c, date, m1) <==> Holds(c, date, m2)
    ensures Holds(MerchantFrom(Lower(m1), bound), date, m2) <==> AtLeast(date, bound)
  {
  }

  /** The rows satisfying the clause, in storage order. */
  function Select(rows: seq<Row>, c: Cond): (r: seq<Row>)
    ensures |r| <= |rows|
    ensures forall i :: 0 <= i < |r| ==> r[i] in rows && Holds(c, r[i].date, r[i].merchant)
  {
    if |rows| == 0 then []
    else
      var sel := Select(rows[..|rows| - 1], c);
      var last := rows[|rows| - 1];
      if Holds(c, last.date, last.merchant) then sel + [last] else sel
  }

  /** A row is selected exactly when it is in the table and satisfies the clause. */
  lemma {:induction false} SelectMembers(rows: seq<Row>, c: Cond)
    ensures forall x :: x in Select(rows, c) <==> x in rows && Holds(c, x.date, x.merchant)
  {
    if |rows| > 0 {
      var init := rows[..|rows| - 1];
      var last := rows[|rows| - 1];
      SelectMembers(init, c);
      assert rows == init + [last];
      assert forall x :: x in rows <==> x in init || x == last;
    }
  }

  /** The selection keeps the storage order: ids still strictly increase. */
  lemma {:induction false} SelectIncreasing(rows: seq<Row>, c: Cond)
    requires Increasing(rows)
    ensures Increasing(Select(rows, c))
  {
    if |rows| > 0 {
      var init := rows[..|rows| - 1];
      var last := rows[|rows| - 1];
      var sel := Select(init, c);
      assert Increasing(init) by {
        forall i, j | 0 <= i < j < |init| ensures init[i].id < init[j].id {
          assert init[i] == rows[i] && init[j] == rows[j];
        }
      }
      SelectIncreasing(init, c);
      SelectMembers(init, c);
      if Holds(c, last.date, last.merchant) {
        var r := sel + [last];
        forall i, j | 0 <= i < j < |r| ensures r[i].id < r[j].id {
          if j == |sel| {
            assert r[i] == sel[i] && sel[i] in init;
            var k :| 0 <= k < |init| && init[k] == sel[i];
            assert rows[k] == sel[i];
          } else {
            assert r[i] == sel[i] && r[j] == sel[j];
          }
        }
      }
    }
  }

  /** `SUM(amount)` over the rows, with the `or 0` the callers apply: no rows, no
      spending. */
  function Total(rows: seq<Row>): (r: real)
    ensures |rows| == 0 ==> r == 0.0
    ensures (forall i :: 0 <= i < |rows| ==> rows[i].amount >= 0.0) ==> r >= 0.0
  {
    if |rows| == 0 then 0.0 else Total(rows[..|rows| - 1]) + rows[|rows| - 1].amount
  }

  /** A clause that no row satisfies selects nothing, so the sum is 0. */
  lemma NothingSelected(rows: seq<Row>, c: Cond)
    ensures (forall i :: 0 <= i < |rows| ==> !Holds(c, rows[i].date, rows[i].merchant))
            ==> Select(rows, c) == [] && Total(Select(rows, c)) == 0.0
  {
    var r := Select(rows, c);
    SelectMembers(rows, c);
    if |r| > 0 {
      assert r[0] in rows;
    }
  }

  /** One `insert_transactions` statement changes a sum by the record's amount
      exactly when it stores the record and the clause accepts it. */
  lemma TotalAfterInsert(t: Table, tx: Transaction, c: Cond)
    ensures Total(Select(InsertOne(t, tx).rows, c))
            == Total(Select(t.rows, c))
               + if !HasKey(t, TxKey(tx)) && Holds(c, tx.date, tx.merchant) then tx.amount else 0.0
  {
    var r := InsertOne(t, tx);
    if !HasKey(t, TxKey(tx)) {
      var last := r.rows[|t.rows|];
      assert r.rows == t.rows + [last] by {
        assert r.rows[..|t.rows|] == t.rows;
      }
      SelectSnoc(t.rows, last, c);
      if Holds(c, tx.date, tx.merchant) {
        TotalSnoc(Select(t.rows, c), last);
      }
    }
  }

  /** Selecting from a table with one more row adds that row when it satisfies the clause. */
  lemma SelectSnoc(rows: seq<Row>, x: Row, c: Cond)
    ensures Select(rows + [x], c) == if Holds(c, x.date, x.merchant) then Select(rows, c) + [x] else Select(rows, c)
  {
    assert (rows + [x])[..|rows|] == rows;
  }

  lemma TotalSnoc(rows: seq<Row>, x: Row)
    ensures Total(rows + [x]) == Total(rows) + x.amount
  {
    assert (rows + [x])[..|rows|] == rows;
  }

  lemma SameRowsPrefix(a: seq<Row>, b: seq<Row>, n: nat)
    requires SameRowsExceptCategory(a, b) && n <= |a|
    ensures SameRowsExceptCategory(a[..n], b[..n])
  {
    forall i | 0 <= i < n ensures b[..n][i] == a[..n][i].(category := b[..n][i].category) {
      assert b[..n][i] == b[i] && a[..n][i] == a[i];
    }
  }

  /** One step of the induction below: rows whose last elements agree on date,
      merchant and amount, and whose prefixes select equal sums and counts. */
  lemma SelectLastAgrees(a: seq<Row>, b: seq<Row>, c: Cond)
    requires |a| == |b| > 0
    requires var n := |a| - 1; a[n].date == b[n].date && a[n].merchant == b[n].merchant && a[n].amount == b[n].amount
    requires Total(Select(a[..|a| - 1], c)) == Total(Select(b[..|b| - 1], c))
    requires |Select(a[..|a| - 1], c)| == |Select(b[..|b| - 1], c)|
    ensures Total(Select(a, c)) == Total(Select(b, c))
    ensures |Select(a, c)| == |Select(b, c)|
  {
    var n := |a| - 1;
    var sa := Select(a[..n], c);
    var sb := Select(b[..n], c);
    if Holds(c, a[n].date, a[n].merchant) {
      assert Select(a, c) == sa + [a[n]] && Select(b, c) == sb + [b[n]];
      TotalSnoc(sa, a[n]);
      TotalSnoc(sb, b[n]);
    }
  }

  /** Sums ignore categories: changing only categories changes no sum and no count. */
  lemma {:induction false} TotalIgnoresCategory(a: seq<Row>, b: seq<Row>, c: Cond)
    requires SameRowsExceptCategory(a, b)
    ensures Total(Select(a, c)) == Total(Select(b, c))
    ensures |Select(a, c)| == |Select(b, c)|
  {
    if |a| > 0 {
      var n := |a| - 1;
      SameRowsPrefix(a, b, n);
      TotalIgnoresCategory(a[..n], b[..n], c);
      assert b[n] == a[n].(category := b[n].category);
      SelectLastAgrees(a, b, c);
    }
  }

  /** The `DateLike` clause with a `strftime('%Y-%m')` prefix holds, for a date
      written `YYYY-MM-DD`, exactly on the days of that month. */
  lemma LikeMonth(date: string, merchant: string, today: Date)
    requires ValidDate(today) && DateShaped(date)
    ensures Holds(DateLike(MonthPrefix(today)), date, merchant)
            <==> FieldsOf(date).year == today.year && FieldsOf(date).month == today.month
  {
    var p := MonthPrefix(today);
    forall k | 0 <= k < |date| ensures !('A' <= date[k] <= 'Z') {
      if k < 4 { assert date[k] == date[..4][k]; }
      else if 5 <= k < 7 { assert date[k] == date[5..7][k - 5]; }
      else if 8 <= k { assert date[k] == date[8..][k - 8]; }
    }
    forall k | 0 <= k < |p| ensures !('A' <= p[k] <= 'Z') {
      if k < 4 { assert p[k] == Pad(today.year, 4)[k]; }
      else if k > 4 { assert p[k] == Pad(today.month, 2)[k - 5]; }
    }
    LowerNoCapitals(date);
    LowerNoCapitals(p);
    MonthPrefixMatches(date, today);
  }

  /** The `DateFrom` clause with a `strftime('%Y-%m-%d')` bound holds, for a date
      written `YYYY-MM-DD`, exactly on that day and after it. */
  lemma FromDay(date: string, merchant: string, start: Date)
    requires Printable(start) && DateShaped(date)
    ensures Holds(DateFrom(FormatDate(start)), date, merchant) <==> DateLe(start, FieldsOf(date))
  {
    FieldsRoundTrip(date);
    CmpFormatDate(start, FieldsOf(date));
  }

  // ---------------------------------------------------------------------------
  // get_monthly_expenses

  /** The month clause of `get_monthly_expenses`. */
  function ThisMonth(today: Date): Cond
    requires ValidDate(today)
  {
    DateLike(MonthPrefix(today))
  }

  /** `get_monthly_expenses`: the spending whose date starts with this year and month. */
  function MonthlyExpenses(t: Table, today: Date): (r: real)
    requires ValidDate(today)
    ensures (forall i :: 0 <= i < |t.rows| ==> !Holds(ThisMonth(today), t.rows[i].date, t.rows[i].merchant)) ==> r == 0.0
  {
    NothingSelected(t.rows, ThisMonth(today));
    Total(Select(t.rows, ThisMonth(today)))
  }

  /** For rows dated `YYYY-MM-DD`, the month sum takes exactly the rows of
      today's year and month. */
  lemma MonthlyExpensesRows(t: Table, today: Date, x: Row)
    requires ValidDate(today) && DateShaped(x.date)
    ensures x in Select(t.rows, ThisMonth(today))
            <==> x in t.rows && FieldsOf(x.date).year == today.year && FieldsOf(x.date).month == today.month
  {
    SelectMembers(t.rows, ThisMonth(today));
    LikeMonth(x.date, x.merchant, today);
  }

  /** Storing a record dated this month raises the month sum by its amount; a
      duplicate or a record of another month leaves it as it was. */
  lemma MonthlyExpensesAfterInsert(t: Table, tx: Transaction, today: Date)
    requires ValidDate(today) && DateShaped(tx.date)
    ensures MonthlyExpenses(InsertOne(t, tx), today)
            == MonthlyExpenses(t, today)
               + if !HasKey(t, TxKey(tx)) && FieldsOf(tx.date).year == today.year && FieldsOf(tx.date).month == today.month
                 then tx.amount else 0.0
  {
    TotalAfterInsert(t, tx, ThisMonth(today));
    LikeMonth(tx.date, tx.merchant, today);
  }

  /** Categorizing does not change the month sum. */
  lemma MonthlyExpensesAfterCategorize(t: Table, answers: seq<Option<string>>, today: Date)
    requires |answers| == |PendingMerchants(t)| && ValidDate(today)
    ensures MonthlyExpenses(Categorize(t, answers), today) == MonthlyExpenses(t, today)
  {
    TotalIgnoresCategory(t.rows, Categorize(t, answers).rows, ThisMonth(today));
  }

  // ---------------------------------------------------------------------------
  // get_expense_since_last_tenth and list_all_since_last_tenth

  /** `WHERE date >= ?` with the `strftime('%Y-%m-%d')` of `start` bound to it. */
  function RowsFrom(t: Table, start: Date): seq<Row>
    requires Printable(start)
  {
    Select(t.rows, DateFrom(FormatDate(start)))
  }

  /** For rows dated `YYYY-MM-DD`, the rows taken from `start` on are exactly those
      dated on or after that day, and they come in storage order. */
  lemma RowsFromMeaning(t: Table, start: Date, x: Row)
    requires Printable(start) && DateShaped(x.date)
    ensures x in RowsFrom(t, start) <==> x in t.rows && DateLe(start, FieldsOf(x.date))
    ensures Increasing(RowsFrom(t, start))
  {
    SelectMembers(t.rows, DateFrom(FormatDate(start)));
    SelectIncreasing(t.rows, DateFrom(FormatDate(start)));
    FromDay(x.date, x.merchant, start);
  }

  /** `get_expense_since_last_tenth`, with the cycle start computed as its comments
      describe: fails only when that start cannot be computed, and is 0 when no row
      is dated from it on. */
  function ExpenseSinceLastTenth(t: Table, today: Date): (r: Result<real>)
    requires ValidDate(today)
    ensures r.Err? <==> today.day < 10 && today.month == 1 && today.year == MinYear
    ensures r.Err? ==> r.error == DateOutOfRange
    ensures r.Ok? && (forall i :: 0 <= i < |t.rows| ==> !AtLeast(t.rows[i].date, FormatDate(CycleStart(today).value)))
            ==> r.value == 0.0
  {
    match CycleStart(today)
    case Err(e) => Err(e)
    case Ok(start) =>
      NothingSelected(t.rows, DateFrom(FormatDate(start)));
      Ok(Total(RowsFrom(t, start)))
  }

  /** `get_expense_since_last_tenth` as written: the `NameError` of the cycle start
      before the 10th reaches the caller. */
  function ExpenseSinceLastTenthAsWritten(t: Table, today: Date): (r: Result<real>)
    requires ValidDate(today)
    ensures today.day < 10 ==> r == Err(UndefinedName("timedelta"))
    ensures today.day >= 10 ==> r == ExpenseSinceLastTenth(t, today)
  {
    match CycleStartAsWritten(today)
    case Err(e) => Err(e)
    case Ok(start) => Ok(Total(RowsFrom(t, start)))
  }

  /** `list_all_since_last_tenth` as written: both branches of its day test build
      the same cutoff. */
  function ListAllSinceLastTenthAsWritten(t: Table, today: Date): (r: seq<Listing>)
    requires ValidDate(today)
    ensures r == Listings(RowsFrom(t, today.(day := 10)))
  {
    var currentMonth := MonthPrefix(today);
    var tenth := if today.day < 10 then currentMonth + "-10" else currentMonth + "-10";
    MonthPrefixTenth(today);
    Listings(Select(t.rows, DateFrom(tenth)))
  }

  /** Before the 10th, the listing as written misses every row of the current
      cycle dated before the 10th of this month. */
  lemma ListAllAsWrittenMisses(t: Table, today: Date, x: Row)
    requires ValidDate(today) && today.day < 10 && CycleStart(today).Ok?
    requires DateShaped(x.date) && x in t.rows
    requires DateLe(CycleStart(today).value, FieldsOf(x.date)) && DateCmp(FieldsOf(x.date), today.(day := 10)) < 0
    ensures x in RowsFrom(t, CycleStart(today).value)
    ensures x !in RowsFrom(t, today.(day := 10))
  {
    RowsFromMeaning(t, CycleStart(today).value, x);
    RowsFromMeaning(t, today.(day := 10), x);
  }

  /** `list_all_since_last_tenth` with the cutoff at the start of the billing cycle:
      the rows of the current cycle, in storage order. The docstring and comments
      describe the current month's 10th, which is what the code as written uses; the
      cycle start follows the function's name, the branch on the day, and
      `get_expense_since_last_tenth`. */
  function ListAllSinceLastTenth(t: Table, today: Date): (r: Result<seq<Listing>>)
    requires ValidDate(today)
    ensures r.Err? <==> CycleStart(today).Err?
    ensures r.Ok? ==> r.value == Listings(RowsFrom(t, CycleStart(today).value))
    ensures today.day >= 10 ==> r == Ok(ListAllSinceLastTenthAsWritten(t, today))
  {
    match CycleStart(today)
    case Err(e) => Err(e)
    case Ok(start) => Ok(Listings(RowsFrom(t, start)))
  }
}
