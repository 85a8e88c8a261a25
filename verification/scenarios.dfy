/** Concrete cases: the billing-cycle start on both sides of the 10th and across
    a year boundary, a notification line turned into a record, and the inputs on
    which the code as written departs from what its comments describe.

    Most lemmas here take the text they are about as a parameter pinned by a
    `requires s == ...`, instead of naming the literal or the constant in their
    contracts. This keeps the literal out of the callers' proof contexts, where
    the verifier would otherwise unfold every function applied to it. */
module Scenarios {
  import opened Results
  import opened Text
  import opened Amount
  import opened Calendar
  import opened Scanner
  import opened Parser
  import opened Store
  import opened Queries
  import opened Detail

  lemma CycleStartExamples()
    ensures CycleStart(Date(2024, 1, 5)) == Ok(Date(2023, 12, 10))
    ensures CycleStart(Date(2024, 1, 15)) == Ok(Date(2024, 1, 10))
    ensures CycleStart(Date(2024, 3, 10)) == Ok(Date(2024, 3, 10))
    ensures CycleStart(Date(2024, 3, 9)) == Ok(Date(2024, 2, 10))
  {
  }

  /** Before the 10th, `get_date_of_last_tenth` as written raises `NameError`
      where the corrected version returns the 10th of the previous month. */
  lemma CycleStartAsWrittenFails()
    ensures CycleStartAsWritten(Date(2024, 1, 5)) == Err(UndefinedName("timedelta"))
    ensures CycleStart(Date(2024, 1, 5)) == Ok(Date(2023, 12, 10))
  {
  }

  /** A date group `YYYY年MM月DD日` whose digits are those of the date-shaped `iso` is
      well formed, and the chained `replace` calls spell `iso`. */
  lemma DateGroupSpells(dg: string, iso: string)
    requires DateShaped(iso) && |dg| == 11
    requires dg[..4] == iso[..4] && dg[5..7] == iso[5..7] && dg[8..10] == iso[8..]
    requires dg[4] == '年' && dg[7] == '月' && dg[10] == '日'
    ensures DateGroupOk(dg)
    ensures dg[..4] + "-" + dg[5..7] + "-" + dg[8..10] == iso
  {
    var r := dg[..4] + "-" + dg[5..7] + "-" + dg[8..10];
    assert forall k :: 0 <= k < 10 ==> r[k] == iso[k];
  }

  /** The merchant group keeps the spaces around the name; `strip()` removes them. */
  lemma StripCafe(s: string)
    requires s == " Cafe "
    ensures Strip(s) == "Cafe"
  {
    assert LeadingSpaces(s) == 1 by {
      assert IsSpace(s[0]) && !IsSpace(s[1]) && s[1..] == "Cafe ";
    }
    var r := Strip(s);
    assert |r| == 4 by {
      assert !IsSpace(s[4]) && IsSpace(s[5]);
    }
  }

  /** "4.50" is 4 written in one digit, a dot, and 50 written in two. */
  lemma FourFiftyDigits(s: string)
    requires s == "4.50"
    ensures s == Pad(4, 1) + "." + Pad(50, 2)
  {
    assert Pad(4, 1) == "4" by { assert Pad(0, 0) == ""; }
    assert Pad(50, 2) == "50" by { assert Pad(5, 1) == "5" by { assert Pad(0, 0) == ""; } }
  }

  /** `float("4.50")` */
  lemma FourFifty(s: string)
    requires s == "4.50"
    ensures AllAmountChars(s) && ParseAmount(s) == Some(4.5)
  {
    FourFiftyDigits(s);
    ParseFormattedAmount(4, 1, 50, 2);
  }

  /** `float("1.2.3")` raises: two dots. */
  lemma TwoDotAmount(s: string)
    requires s == "1.2.3"
    ensures AllAmountChars(s) && ParseAmount(s).None?
  {
    assert s[1] == '.' && s[3] == '.';
    TwoDots(s, 1, 3);
  }

  /** The groups of one consumption notification. */
  lemma CafeGroups(g: Groups)
    requires g == Groups("2024年05月20日", " Cafe ", Consume, "4.50")
    ensures GroupsOk(g) && AmountValid(g)
    ensures g.date[..4] + "-" + g.date[5..7] + "-" + g.date[8..10] == "2024-05-20"
    ensures Strip(g.merchant) == "Cafe" && ParseAmount(g.amount).value == 4.5
    ensures g.verb != PreAuth
  {
    DateGroupSpells(g.date, "2024-05-20");
    StripCafe(g.merchant);
    FourFifty(g.amount);
    assert g.verb[0] != PreAuth[0];
  }

  /** ... and the record built from them. */
  lemma RecordExample(g: Groups)
    requires g == Groups("2024年05月20日", " Cafe ", Consume, "4.50")
    ensures GroupsOk(g)
    ensures Record(g) == Ok(Transaction("2024-05-20", "Cafe", 4.5, Consumption, ""))
  {
    CafeGroups(g);
    var r := Record(g);
    assert r.Ok?;
    assert r.value.kind == Consumption;
  }

  /** An amount the pattern accepts but `float()` rejects makes the record fail. */
  lemma RecordBadAmount(g: Groups)
    requires g == Groups("2024年05月20日", "Cafe", PreAuth, "1.2.3")
    ensures GroupsOk(g)
    ensures Record(g) == Err(BadAmount("1.2.3"))
  {
    DateGroupSpells(g.date, "2024-05-20");
    TwoDotAmount(g.amount);
  }

  /** SQLite's `lower()` folds only `A`-`Z`: `CAFE` and `cafe` are one merchant of
      the detail listing, while `É` and `é` stay two. */
  lemma LowerAsciiOnly()
    ensures Lower("CAFE") == Lower("cafe") == "cafe"
    ensures Lower("É") == "É" && Lower("É") != Lower("é")
  {
  }

  /** A row dated 2023-12-20, a day of the cycle that began on 2023-12-10. */
  function DecemberRow(): Row {
    Row(1, FormatDate(Date(2023, 12, 20)), "Cafe", 4.5, "")
  }

  /** On 2024-01-05 the cycle began on 2023-12-10, yet the listing as written starts
      at 2024-01-10: in any table holding the December row, the corrected listing
      takes the row and the one as written does not. */
  lemma ListAllAsWrittenExample(t: Table, x: Row)
    requires x == DecemberRow() && x in t.rows
    ensures CycleStart(Date(2024, 1, 5)) == Ok(Date(2023, 12, 10))
    ensures x in RowsFrom(t, Date(2023, 12, 10))
    ensures x !in RowsFrom(t, Date(2024, 1, 10))
  {
    FormatDateRoundTrip(Date(2023, 12, 20));
    ListAllAsWrittenMisses(t, Date(2024, 1, 5), x);
  }

  /** `list_expenses_in_detail` as written yields `None` for an ordinary date. */
  lemma DetailAsWrittenExample()
    ensures ListExpensesInDetailAsWritten(Db([DecemberRow()], 1), DateTime(Date(2024, 1, 5), Time(12, 0, 0, 0))) == Ok(None)
  {
  }

  /** A whole notification, as `parse_transaction` receives it. */
  const StarbucksLine: string := "2024年03月15日您尾号1234的卡在Starbucks消费USD12.50元"

  /** The one match in it: the date at 0, `在` at 20, the verb at 30 and the amount
      in `[35, 40)`, closed by `元` at 40. */
  const StarbucksMatch: Match := Match(0, 20, 30, Consume, 35, 40)

  /** ... and its groups. */
  const StarbucksNotice: Groups := Groups("2024年03月15日", "Starbucks", Consume, "12.50")

  lemma StarbucksYear(s: string)
    requires s == StarbucksLine
    ensures forall k :: 0 <= k < |s| && s[k] == '年' ==> k == 4
  {
  }

  lemma StarbucksAt(s: string)
    requires s == StarbucksLine
    ensures forall k :: 0 <= k < |s| && s[k] == '在' ==> k == 20
  {
  }

  lemma StarbucksVerb(s: string)
    requires s == StarbucksLine
    ensures forall k :: 0 <= k < |s| && (s[k] == '消' || s[k] == '预') ==> k == 30
  {
  }

  lemma StarbucksYuan(s: string)
    requires s == StarbucksLine
    ensures forall k :: 0 <= k < |s| && s[k] == '元' ==> k == 40
  {
  }

  lemma StarbucksOneLine(s: string)
    requires s == StarbucksLine
    ensures |s| == 41 && NoNewline(s, 0, |s|)
  {
  }

  /** The date group, the gap up to `在`, the merchant, and the tail from 30 on. */
  lemma StarbucksTail(s: string)
    requires s == StarbucksLine
    ensures TailAt(s, 30) == Some(Tail(Consume, 35, 40))
  {
    assert VerbLength(s, 30) == 2 && CurrencyAt(s, 32);
    RunEndUnique(s, 35, 40);
  }

  /** The date group read character by character. */
  lemma DateAtChars(s: string, p: nat)
    requires p + 11 <= |s|
    requires forall k :: p <= k < p + 11 && k != p + 4 && k != p + 7 && k != p + 10 ==> IsDigit(s[k])
    requires s[p + 4] == '年' && s[p + 7] == '月' && s[p + 10] == '日'
    ensures DateAt(s, p)
  {
    var d := s[p..p + 11];
    assert forall k :: 0 <= k < 11 ==> d[k] == s[p + k];
    assert forall k :: 0 <= k < 4 ==> d[..4][k] == d[k];
    assert forall k :: 0 <= k < 2 ==> d[5..7][k] == d[5 + k] && d[8..10][k] == d[8 + k];
  }

  lemma StarbucksDate(s: string)
    requires s == StarbucksLine
    ensures DateAt(s, 0)
  {
    assert forall k :: 0 <= k < 11 && k != 4 && k != 7 && k != 10 ==> IsDigit(s[k]);
    DateAtChars(s, 0);
  }

  lemma StarbucksIsMatch(s: string)
    requires s == StarbucksLine
    ensures IsMatch(s, 0, 20, 30)
  {
    StarbucksDate(s);
    StarbucksOneLine(s);
    StarbucksTail(s);
  }

  /** In a text where a match at `p` uses the only `在`, the only verb character
      and the only `元`, that match is the one `pattern.match` finds. */
  lemma SoleMatch(s: string, p: nat, g: nat, m: nat, e: nat)
    requires IsMatch(s, p, g, m) && s[m] == '消' && e < |s| && s[e] == '元'
    requires forall k :: 0 <= k < |s| && s[k] == '在' ==> k == g
    requires forall k :: 0 <= k < |s| && (s[k] == '消' || s[k] == '预') ==> k == m
    requires forall k :: 0 <= k < |s| && s[k] == '元' ==> k == e
    ensures MatchAt(s, p) == Some(Match(p, g, m, Consume, m + 5, e))
  {
    var r := MatchAt(s, p).value;
    assert r.anchor == g by {
      assert s[r.anchor] == '在';
    }
    assert r.verbAt == m by {
      assert r.verbAt <= m;
      assert s[r.verbAt] == r.verb[0];
    }
    assert r.verb == Consume by {
      assert r.verb[0] == '消' != PreAuth[0];
    }
    assert r.amountEnd == e by {
      assert s[r.amountEnd] == '元';
    }
    assert r == Match(p, g, m, Consume, m + 5, e);
  }

  /** `pattern.match` at 0 finds exactly that match ... */
  lemma StarbucksMatchAt(s: string)
    requires s == StarbucksLine
    ensures MatchAt(s, 0) == Some(StarbucksMatch)
  {
    StarbucksIsMatch(s);
    StarbucksAt(s);
    StarbucksVerb(s);
    StarbucksYuan(s);
    SoleMatch(s, 0, 20, 30, 40);
  }

  /** ... and at no later position does the pattern match. */
  lemma StarbucksNoLaterMatch(s: string)
    requires s == StarbucksLine
    ensures forall q :: 1 <= q <= |s| ==> MatchAt(s, q).None?
  {
    StarbucksYear(s);
    forall q | 1 <= q <= |s| ensures !DateAt(s, q) {
      if q + 11 <= |s| {
        assert s[q..q + 11][4] == s[q + 4];
      }
    }
  }

  /** `re.findall` reports that one match and nothing else. */
  lemma StarbucksFindAll(s: string)
    requires s == StarbucksLine
    ensures FindAll(s) == [StarbucksMatch]
  {
    StarbucksOneLine(s);
    StarbucksMatchAt(s);
    StarbucksNoLaterMatch(s);
    var t := MatchTable(s);
    var ms := [StarbucksMatch];
    assert IsScan(t, 0, ms) by {
      assert ms[1..] == [];
      assert IsScan(t, 41, []);
    }
    ScanUnique(t, 0, ms);
    ScanUnique(t, 0, FindAll(s));
  }

  lemma StarbucksSlices(s: string)
    requires s == StarbucksLine
    ensures s[0..11] == "2024年03月15日"
  {
  }

  lemma StarbucksName(s: string)
    requires s == StarbucksLine
    ensures s[21..30] == "Starbucks"
  {
  }

  lemma StarbucksAmount(s: string)
    requires s == StarbucksLine
    ensures s[35..40] == "12.50"
  {
  }

  /** The groups of that match. */
  lemma StarbucksGroups(s: string)
    requires s == StarbucksLine
    ensures FindAllGroups(s) == [StarbucksNotice]
  {
    StarbucksFindAll(s);
    StarbucksSlices(s);
    StarbucksName(s);
    StarbucksAmount(s);
  }

  /** "12.50" is 12 in two digits, a dot, and 50 in two. */
  lemma TwelveFiftyDigits(a: string)
    requires a == "12.50"
    ensures a == Pad(12, 2) + "." + Pad(50, 2)
  {
    assert Pad(12, 2) == "12" by { assert Pad(1, 1) == "1" by { assert Pad(0, 0) == ""; } }
    assert Pad(50, 2) == "50" by { assert Pad(5, 1) == "5" by { assert Pad(0, 0) == ""; } }
  }

  lemma TwelveFifty(a: string)
    requires a == "12.50"
    ensures AllAmountChars(a) && ParseAmount(a) == Some(12.5)
  {
    TwelveFiftyDigits(a);
    ParseFormattedAmount(12, 2, 50, 2);
  }

  /** The record built from those groups. */
  lemma StarbucksRecord(g: Groups)
    requires g == StarbucksNotice
    ensures GroupsOk(g)
    ensures Record(g) == Ok(Transaction("2024-03-15", "Starbucks", 12.5, Consumption, ""))
  {
    DateGroupSpells(g.date, "2024-03-15");
    StripNoSpace(g.merchant);
    TwelveFifty(g.amount);
    assert g.verb[0] != PreAuth[0];
    var r := Record(g);
    assert r.Ok?;
    assert r.value.kind == Consumption;
  }

  /** Text with a single match parses to the record of that match. */
  lemma ParseSingle(text: string, tx: Transaction)
    requires |FindAllGroups(text)| == 1 && Record(FindAllGroups(text)[0]) == Ok(tx)
    ensures Parse(text) == Ok([tx])
  {
    var gs := FindAllGroups(text);
    assert AmountValid(gs[0]);
    ParseOk(text);
    var v := Parse(text).value;
    assert |v| == 1 && v[0] == tx;
    assert v == [tx];
  }

  /** `parse_transaction` on a whole notification: one consumption record. */
  lemma ParseExample(s: string)
    requires s == StarbucksLine
    ensures Parse(s) == Ok([Transaction("2024-03-15", "Starbucks", 12.5, Consumption, "")])
  {
    StarbucksGroups(s);
    StarbucksRecord(FindAllGroups(s)[0]);
    ParseSingle(s, Transaction("2024-03-15", "Starbucks", 12.5, Consumption, ""));
  }
}
