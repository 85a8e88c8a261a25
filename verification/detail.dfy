/** `list_expenses_in_detail`: per lowercased merchant, the spending and number of
    transactions of the last 30 days, largest total first. */
module Detail {
  import opened Results
  import opened Text
  import opened Calendar
  import opened Lists
  import opened Store
  import opened Queries

  /** One `(merchant, total_spent, transaction_count)` entry. */
  datatype MerchantTotal = MerchantTotal(merchant: string, total: real, count: nat)

  /** `current_date - timedelta(days=30)` as sqlite3 binds it: the `datetime` is
      adapted to its `isoformat(" ")` text. Stepping back past 0001-01-01 is
      Python's `OverflowError`. */
  function DetailCutoff(now: DateTime): (r: Result<string>)
    requires ValidDateTime(now)
    ensures r.Err? <==> Ordinal(now.date) <= 30
    ensures r.Err? ==> r.error == DateOutOfRange
  {
    MinusDaysOrdinal(now.date, 30);
    match MinusDays(now.date, 30)
    case Err(e) => Err(e)
    case Ok(d) => Ok(FormatDateTime(DateTime(d, now.time)))
  }

  /** A date written `YYYY-MM-DD` is at least the text of day `d` followed by
      more characters exactly when it is a later day than `d`. */
  lemma AtLeastStamp(date: string, d: Date, rest: string)
    requires DateShaped(date) && Printable(d) && |rest| > 0
    ensures AtLeast(date, FormatDate(d) + rest) <==> DateCmp(d, FieldsOf(date)) < 0
  {
    FieldsRoundTrip(date);
    FormatDateRoundTrip(d);
    assert date == FormatDate(FieldsOf(date)) + "";
    CmpConcat(FormatDate(d), rest, FormatDate(FieldsOf(date)), "");
    CmpFormatDate(d, FieldsOf(date));
  }

  /** Against that cutoff, a row dated `YYYY-MM-DD` is in the window exactly when
      its day is strictly after the day 30 days back: a date on that very day is a
      proper prefix of the cutoff text and sorts below it. */
  lemma DetailWindow(now: DateTime, date: string)
    requires ValidDateTime(now) && DetailCutoff(now).Ok? && DateShaped(date)
    ensures MinusDays(now.date, 30).Ok?
    ensures AtLeast(date, DetailCutoff(now).value) <==> DateCmp(MinusDays(now.date, 30).value, FieldsOf(date)) < 0
  {
    var d := MinusDays(now.date, 30).value;
    assert DetailCutoff(now).value == FormatDate(d) + (" " + FormatTime(now.time));
    AtLeastStamp(date, d, " " + FormatTime(now.time));
  }

  /** `LOWER(merchant)` of every row. */
  function LowerMerchants(rows: seq<Row>): (r: seq<string>)
    ensures |r| == |rows| && forall i :: 0 <= i < |rows| ==> r[i] == Lower(rows[i].merchant)
  {
    seq(|rows|, i requires 0 <= i < |rows| => Lower(rows[i].merchant))
  }

  /** The second query of the loop, for one merchant. */
  function Entry(rows: seq<Row>, m: string, cutoff: string): (r: MerchantTotal)
    ensures r.merchant == m && r.count <= |rows|
    ensures r.count == 0 ==> r.total == 0.0
    ensures (forall i :: 0 <= i < |rows| ==> rows[i].amount >= 0.0) ==> r.total >= 0.0
  {
    var sel := Select(rows, MerchantFrom(m, cutoff));
    MerchantTotal(m, Total(sel), |sel|)
  }

  function Entries(rows: seq<Row>, ms: seq<string>, cutoff: string): (r: seq<MerchantTotal>)
    ensures |r| == |ms| && forall i :: 0 <= i < |ms| ==> r[i] == Entry(rows, ms[i], cutoff)
  {
    seq(|ms|, i requires 0 <= i < |ms| => Entry(rows, ms[i], cutoff))
  }

  predicate SortedByTotal(xs: seq<MerchantTotal>) {
    forall i, j :: 0 <= i < j < |xs| ==> xs[i].total >= xs[j].total
  }

  predicate DistinctMerchants(xs: seq<MerchantTotal>) {
    forall i, j :: 0 <= i < j < |xs| ==> xs[i].merchant != xs[j].merchant
  }

  /** Places `x` before the first entry whose total does not exceed its own, so an
      entry that came first stays first among equal totals. */
  function InsertByTotal(x: MerchantTotal, xs: seq<MerchantTotal>): (r: seq<MerchantTotal>)
    ensures multiset(r) == multiset(xs) + multiset{x}
    ensures forall y :: y in r <==> y == x || y in xs
  {
    if |xs| == 0 then [x]
    else if xs[0].total > x.total then
      assert xs == [xs[0]] + xs[1..];
      [xs[0]] + InsertByTotal(x, xs[1..])
    else [x] + xs
  }

  /** `merchant_sums.sort(key=lambda x: x[1], reverse=True)`: a stable sort by
      total, largest first. */
  function SortByTotal(xs: seq<MerchantTotal>): (r: seq<MerchantTotal>)
    ensures multiset(r) == multiset(xs)
    ensures forall y :: y in r <==> y in xs
  {
    if |xs| == 0 then []
    else
      assert xs == [xs[0]] + xs[1..];
      InsertByTotal(xs[0], SortByTotal(xs[1..]))
  }

  /** Inserting into a sorted list keeps it sorted. */
  lemma {:induction false} InsertByTotalSorted(x: MerchantTotal, xs: seq<MerchantTotal>)
    requires SortedByTotal(xs)
    ensures SortedByTotal(InsertByTotal(x, xs))
  {
    if |xs| > 0 && xs[0].total > x.total {
      var tail := xs[1..];
      var ins := InsertByTotal(x, tail);
      InsertByTotalSorted(x, tail);
      var r := [xs[0]] + ins;
      forall j | 0 <= j < |ins| ensures xs[0].total >= ins[j].total {
        assert ins[j] in ins;
        if ins[j] != x {
          var k :| 0 <= k < |tail| && tail[k] == ins[j];
          assert tail[k] == xs[k + 1];
        }
      }
      forall i, j | 0 <= i < j < |r| ensures r[i].total >= r[j].total {
        assert r[j] == ins[j - 1];
        if i > 0 { assert r[i] == ins[i - 1]; }
      }
    }
  }

  /** Inserting an entry for a new merchant keeps the merchants distinct. */
  lemma {:induction false} InsertByTotalDistinct(x: MerchantTotal, xs: seq<MerchantTotal>)
    requires DistinctMerchants(xs) && forall k :: 0 <= k < |xs| ==> xs[k].merchant != x.merchant
    ensures DistinctMerchants(InsertByTotal(x, xs))
  {
    if |xs| > 0 && xs[0].total > x.total {
      var tail := xs[1..];
      var ins := InsertByTotal(x, tail);
      InsertByTotalDistinct(x, tail);
      var r := [xs[0]] + ins;
      forall j | 0 <= j < |ins| ensures xs[0].merchant != ins[j].merchant {
        assert ins[j] in ins;
        if ins[j] != x {
          var k :| 0 <= k < |tail| && tail[k] == ins[j];
          assert tail[k] == xs[k + 1];
        }
      }
      forall i, j | 0 <= i < j < |r| ensures r[i].merchant != r[j].merchant {
        assert r[j] == ins[j - 1];
        if i > 0 { assert r[i] == ins[i - 1]; }
      }
    }
  }

  /** The sort puts the largest totals first and keeps distinct merchants distinct. */
  lemma {:induction false} SortByTotalSpec(xs: seq<MerchantTotal>)
    ensures SortedByTotal(SortByTotal(xs))
    ensures DistinctMerchants(xs) ==> DistinctMerchants(SortByTotal(xs))
  {
    if |xs| > 0 {
      var tail := xs[1..];
      var sorted := SortByTotal(tail);
      SortByTotalSpec(tail);
      InsertByTotalSorted(xs[0], sorted);
      if DistinctMerchants(xs) {
        forall k | 0 <= k < |sorted| ensures sorted[k].merchant != xs[0].merchant {
          assert sorted[k] in sorted;
          var j :| 0 <= j < |tail| && tail[j] == sorted[k];
          assert tail[j] == xs[j + 1];
        }
        InsertByTotalDistinct(xs[0], sorted);
      }
    }
  }

  /** The merchants of the first query, `SELECT DISTINCT LOWER(merchant) ... WHERE
      date >= ?`, each once. */
  function WindowMerchants(rows: seq<Row>, cutoff: string): (r: seq<string>)
    ensures NoDup(r)
  {
    Distinct(LowerMerchants(Select(rows, DateFrom(cutoff))))
  }

  /** The summary the function builds: one entry per merchant of the window,
      sorted by total. */
  function MerchantSummary(rows: seq<Row>, cutoff: string): (r: seq<MerchantTotal>)
    ensures |r| == |WindowMerchants(rows, cutoff)|
    ensures forall i :: 0 <= i < |r| ==>
              r[i].merchant in WindowMerchants(rows, cutoff) && r[i] == Entry(rows, r[i].merchant, cutoff)
  {
    var ms := WindowMerchants(rows, cutoff);
    var es := Entries(rows, ms, cutoff);
    var r := SortByTotal(es);
    assert |r| == |multiset(r)| == |multiset(es)| == |es|;
    forall i | 0 <= i < |r| ensures r[i].merchant in ms && r[i] == Entry(rows, r[i].merchant, cutoff) {
      assert r[i] in es;
    }
    r
  }

  /** A row in the window of some merchant puts that merchant on the list ... */
  lemma WindowMerchantsFromRow(rows: seq<Row>, cutoff: string, k: nat)
    requires k < |rows| && AtLeast(rows[k].date, cutoff)
    ensures Lower(rows[k].merchant) in WindowMerchants(rows, cutoff)
  {
    var sel := Select(rows, DateFrom(cutoff));
    SelectMembers(rows, DateFrom(cutoff));
    assert rows[k] in sel;
    var i :| 0 <= i < |sel| && sel[i] == rows[k];
    assert LowerMerchants(sel)[i] == Lower(rows[k].merchant);
  }

  /** ... and every merchant on the list has a row in the window. */
  lemma WindowMerchantsHaveRow(rows: seq<Row>, cutoff: string, m: string)
    requires m in WindowMerchants(rows, cutoff)
    ensures exists k :: 0 <= k < |rows| && AtLeast(rows[k].date, cutoff) && Lower(rows[k].merchant) == m
  {
    var sel := Select(rows, DateFrom(cutoff));
    SelectMembers(rows, DateFrom(cutoff));
    var lm := LowerMerchants(sel);
    var i :| 0 <= i < |lm| && lm[i] == m;
    assert sel[i] in rows;
    var k :| 0 <= k < |rows| && rows[k] == sel[i];
    assert AtLeast(rows[k].date, cutoff) && Lower(rows[k].merchant) == m;
  }

  /** An entry for a merchant of the window counts at least that merchant's row. */
  lemma EntryCounts(rows: seq<Row>, cutoff: string, m: string)
    requires m in WindowMerchants(rows, cutoff)
    ensures Entry(rows, m, cutoff).count >= 1
  {
    WindowMerchantsHaveRow(rows, cutoff, m);
    var k :| 0 <= k < |rows| && AtLeast(rows[k].date, cutoff) && Lower(rows[k].merchant) == m;
    SelectMembers(rows, MerchantFrom(m, cutoff));
    assert rows[k] in Select(rows, MerchantFrom(m, cutoff));
  }

  /** The entries before sorting, one per merchant of the window. */
  lemma EntriesDistinct(rows: seq<Row>, cutoff: string)
    ensures DistinctMerchants(Entries(rows, WindowMerchants(rows, cutoff), cutoff))
  {
    var ms := WindowMerchants(rows, cutoff);
    var es := Entries(rows, ms, cutoff);
    forall i, j | 0 <= i < j < |es| ensures es[i].merchant != es[j].merchant {
      assert es[i].merchant == ms[i] && es[j].merchant == ms[j];
    }
  }

  /** The summary is sorted by total, largest first, with each merchant once. */
  lemma MerchantSummaryOrder(rows: seq<Row>, cutoff: string)
    ensures SortedByTotal(MerchantSummary(rows, cutoff))
    ensures DistinctMerchants(MerchantSummary(rows, cutoff))
  {
    EntriesDistinct(rows, cutoff);
    SortByTotalSpec(Entries(rows, WindowMerchants(rows, cutoff), cutoff));
  }

  /** Each entry's total and count are the sum and number of that merchant's rows
      in the window, and the count is at least 1. */
  lemma MerchantSummaryEntries(rows: seq<Row>, cutoff: string)
    ensures forall i :: 0 <= i < |MerchantSummary(rows, cutoff)| ==>
              MerchantSummary(rows, cutoff)[i] == Entry(rows, MerchantSummary(rows, cutoff)[i].merchant, cutoff)
              && MerchantSummary(rows, cutoff)[i].count >= 1
  {
    var ms := WindowMerchants(rows, cutoff);
    var es := Entries(rows, ms, cutoff);
    var r := MerchantSummary(rows, cutoff);
    forall i | 0 <= i < |r|
      ensures r[i] == Entry(rows, r[i].merchant, cutoff) && r[i].count >= 1
    {
      assert r[i] in r;
      var j :| 0 <= j < |es| && es[j] == r[i];
      EntryCounts(rows, cutoff, ms[j]);
    }
  }

  /** A lowercased merchant has an entry exactly when some row of that merchant is
      dated at or after the cutoff. */
  lemma MerchantSummaryCovers(rows: seq<Row>, cutoff: string, m: string)
    ensures (exists i :: 0 <= i < |MerchantSummary(rows, cutoff)| && MerchantSummary(rows, cutoff)[i].merchant == m)
            <==> exists k :: 0 <= k < |rows| && AtLeast(rows[k].date, cutoff) && Lower(rows[k].merchant) == m
  {
    var ms := WindowMerchants(rows, cutoff);
    var es := Entries(rows, ms, cutoff);
    var r := MerchantSummary(rows, cutoff);
    if exists i :: 0 <= i < |r| && r[i].merchant == m {
      var i :| 0 <= i < |r| && r[i].merchant == m;
      assert r[i] in r;
      var j :| 0 <= j < |es| && es[j] == r[i];
      WindowMerchantsHaveRow(rows, cutoff, ms[j]);
    }
    if exists k :: 0 <= k < |rows| && AtLeast(rows[k].date, cutoff) && Lower(rows[k].merchant) == m {
      var k :| 0 <= k < |rows| && AtLeast(rows[k].date, cutoff) && Lower(rows[k].merchant) == m;
      WindowMerchantsFromRow(rows, cutoff, k);
      var j :| 0 <= j < |ms| && ms[j] == m;
      assert es[j] in es;
      var i :| 0 <= i < |r| && r[i] == es[j];
      assert r[i].merchant == m;
    }
  }

  /** `list_expenses_in_detail` as written: it builds and sorts the summary but
      has no `return`, so every call that gets past the cutoff yields `None`. */
  function ListExpensesInDetailAsWritten(t: Table, now: DateTime): (r: Result<Option<seq<MerchantTotal>>>)
    requires ValidDateTime(now)
    ensures r.Err? <==> Ordinal(now.date) <= 30
    ensures r.Ok? ==> r.value.None?
  {
    match DetailCutoff(now)
    case Err(e) => Err(e)
    case Ok(_) => Ok(None)
  }

  /** `list_expenses_in_detail` returning the summary it builds. */
  function ListExpensesInDetail(t: Table, now: DateTime): (r: Result<seq<MerchantTotal>>)
    requires ValidDateTime(now)
    ensures r.Err? <==> Ordinal(now.date) <= 30
    ensures r.Ok? ==> r.value == MerchantSummary(t.rows, DetailCutoff(now).value)
  {
    match DetailCutoff(now)
    case Err(e) => Err(e)
    case Ok(cutoff) => Ok(MerchantSummary(t.rows, cutoff))
  }
}
