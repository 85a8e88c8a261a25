/** `parse_transaction`: every match of the bank-notification pattern becomes one
    transaction record, in text order; a malformed amount aborts the whole parse. */
module Parser {
  import opened Results
  import opened Text
  import opened Amount
  import opened Calendar
  import opened Scanner

  /** The `type` field: `预授权` is a pre-authorization hold, `消费` a purchase. */
  datatype Kind = Consumption | PreAuthorization

  /** The dictionary built for each match. */
  datatype Transaction = Transaction(date: string, merchant: string, amount: real, kind: Kind, category: string)

  /** The tuple `re.findall` yields for one match: its four capture groups. */
  datatype Groups = Groups(date: string, merchant: string, verb: string, amount: string)

  /** What the pattern guarantees about the groups of any match. */
  predicate GroupsOk(g: Groups) {
    && DateGroupOk(g.date)
    && (g.verb == Consume || g.verb == PreAuth)
    && AllAmountChars(g.amount)
  }

  /** The groups of one match: the date, the text between `在` and the verb, the
      verb, and the text between `USD` and `元`. */
  function GroupsOf(s: string, mt: Match): (g: Groups)
    requires Shaped(s, mt)
    ensures GroupsOk(g)
  {
    var a := s[mt.amountStart..mt.amountEnd];
    assert forall k :: 0 <= k < |a| ==> a[k] == s[mt.amountStart + k];
    Groups(s[mt.start..mt.start + 11], s[mt.anchor + 1..mt.verbAt], mt.verb, a)
  }

  /** `re.findall(pattern, text)`: the groups of every match of the scan, in order. */
  function FindAllGroups(text: string): (r: seq<Groups>)
    ensures |r| == |FindAll(text)| && forall i :: 0 <= i < |r| ==> GroupsOk(r[i])
    ensures forall i :: 0 <= i < |r| ==> Shaped(text, FindAll(text)[i]) && r[i] == GroupsOf(text, FindAll(text)[i])
  {
    var ms := FindAll(text);
    FindAllShaped(text);
    seq(|ms|, i requires 0 <= i < |ms| => GroupsOf(text, ms[i]))
  }

  /** The chained `replace` calls that turn `年`, `月` into dashes and drop `日`. */
  function NormaliseDate(d: string): (r: string)
    ensures '年' !in r && '月' !in r && '日' !in r
    ensures forall c :: c in r ==> c in d || c == '-'
  {
    var a := Replace(d, '年', "-");
    var b := Replace(a, '月', "-");
    ReplaceFrom(d, '年', "-");
    ReplaceFrom(a, '月', "-");
    ReplaceFrom(b, '日', "");
    ReplaceKeepsOut(a, '月', "-", '年');
    ReplaceKeepsOut(b, '日', "", '年');
    ReplaceKeepsOut(b, '日', "", '月');
    Replace(b, '日', "")
  }

  lemma ReplaceOne(c: char, from: char, to: string)
    ensures Replace([c], from, to) == if c == from then to else [c]
  {
    assert [c][1..] == [];
  }

  /** Replacing a character that occurs once, at a known place. */
  lemma ReplaceSplit(a: string, c: char, b: string, from: char, to: string)
    requires from !in a && from !in b
    ensures Replace(a + [c] + b, from, to) == a + (if c == from then to else [c]) + b
  {
    ReplaceConcat(a + [c], b, from, to);
    ReplaceConcat(a, [c], from, to);
    ReplaceAbsent(a, from, to);
    ReplaceAbsent(b, from, to);
    ReplaceOne(c, from, to);
  }

  /** The three `replace` steps on `y年m月d日`, one lemma each. */
  lemma NormaliseYear(y: string, m: string, d: string)
    requires AllDigits(y) && AllDigits(m) && AllDigits(d)
    ensures Replace(y + ['年'] + (m + ['月'] + d + ['日']), '年', "-") == (y + "-" + m) + ['月'] + (d + ['日'])
  {
    assert '年' !in y && '年' !in m + ['月'] + d + ['日'];
    ReplaceSplit(y, '年', m + ['月'] + d + ['日'], '年', "-");
  }

  lemma NormaliseMonth(y: string, m: string, d: string)
    requires AllDigits(y) && AllDigits(m) && AllDigits(d)
    ensures Replace((y + "-" + m) + ['月'] + (d + ['日']), '月', "-") == (y + "-" + m + "-" + d) + ['日'] + []
  {
    assert '月' !in y + "-" + m && '月' !in d + ['日'];
    ReplaceSplit(y + "-" + m, '月', d + ['日'], '月', "-");
  }

  lemma NormaliseDay(y: string, m: string, d: string)
    requires AllDigits(y) && AllDigits(m) && AllDigits(d)
    ensures Replace((y + "-" + m + "-" + d) + ['日'] + [], '日', "") == y + "-" + m + "-" + d
  {
    assert '日' !in y + "-" + m + "-" + d;
    ReplaceSplit(y + "-" + m + "-" + d, '日', [], '日', "");
  }

  /** The date group normalises to `YYYY-MM-DD`, made of the same digits. */
  lemma NormaliseDateGroup(dg: string)
    requires DateGroupOk(dg)
    ensures NormaliseDate(dg) == dg[..4] + "-" + dg[5..7] + "-" + dg[8..10]
    ensures DateShaped(NormaliseDate(dg))
  {
    var y, m, d := dg[..4], dg[5..7], dg[8..10];
    assert dg == y + ['年'] + (m + ['月'] + d + ['日']);
    NormaliseYear(y, m, d);
    NormaliseMonth(y, m, d);
    NormaliseDay(y, m, d);
    var r := y + "-" + m + "-" + d;
    assert r[..4] == y && r[5..7] == m && r[8..] == d;
  }

  /** The verb group is one of the two literals, which carry no whitespace, so the
      `strip()` leaves it alone. */
  lemma VerbUnchanged(v: string)
    requires v == Consume || v == PreAuth
    ensures Strip(v) == v
  {
    StripNoSpace(v);
  }

  /** `float()` accepts the amount group. */
  predicate AmountValid(g: Groups)
    requires GroupsOk(g)
  {
    ParseAmount(g.amount).Some?
  }

  /** One loop iteration of `parse_transaction`: the record for one match, or the
      exception the iteration raises. The verb check cannot fire, because the verb
      group only ever holds one of the two accepted verbs. */
  function Record(g: Groups): (r: Result<Transaction>)
    requires GroupsOk(g)
    ensures r.Ok? <==> AmountValid(g)
    ensures r.Err? ==> r.error == BadAmount(g.amount)
    ensures r.Ok? ==> DateShaped(r.value.date)
                      && r.value.date == g.date[..4] + "-" + g.date[5..7] + "-" + g.date[8..10]
    ensures r.Ok? ==> r.value.merchant == Strip(g.merchant)
    ensures r.Ok? ==> r.value.amount == ParseAmount(g.amount).value && r.value.amount >= 0.0
    ensures r.Ok? ==> (r.value.kind == PreAuthorization <==> g.verb == PreAuth)
    ensures r.Ok? ==> r.value.category == ""
  {
    NormaliseDateGroup(g.date);
    VerbUnchanged(g.verb);
    var date := NormaliseDate(g.date);
    var merchant := Strip(g.merchant);
    var verb := Strip(g.verb);
    var amount := ParseAmount(g.amount);
    if amount.None? then Err(BadAmount(g.amount))
    else if verb != Consume && verb != PreAuth then Err(UnrecognizedVerb(verb))
    else Ok(Transaction(date, merchant, amount.value, if verb == PreAuth then PreAuthorization else Consumption, ""))
  }

  /** `i` is the first match whose amount `float()` rejects. */
  predicate FirstBad(gs: seq<Groups>, i: nat)
    requires forall j :: 0 <= j < |gs| ==> GroupsOk(gs[j])
  {
    i < |gs| && !AmountValid(gs[i]) && forall j :: 0 <= j < i ==> AmountValid(gs[j])
  }

  /** The outcome of every loop iteration, taken on its own. */
  function Records(gs: seq<Groups>): (rs: seq<Result<Transaction>>)
    requires forall j :: 0 <= j < |gs| ==> GroupsOk(gs[j])
    ensures |rs| == |gs| && forall j :: 0 <= j < |gs| ==> rs[j] == Record(gs[j])
  {
    seq(|gs|, j requires 0 <= j < |gs| => Record(gs[j]))
  }

  /** The loop over the iterations, in order; the first exception ends it. */
  function Collect<T>(rs: seq<Result<T>>): (r: Result<seq<T>>)
    ensures r.Ok? ==> |r.value| == |rs|
  {
    if |rs| == 0 then Ok([])
    else if rs[0].Err? then Err(rs[0].error)
    else
      var rest := Collect(rs[1..]);
      if rest.Err? then Err(rest.error) else Ok([rs[0].value] + rest.value)
  }

  /** The loop completes exactly when every iteration does, and then the `j`-th
      element is the value of the `j`-th iteration. */
  lemma {:induction false} CollectOk<T>(rs: seq<Result<T>>)
    ensures Collect(rs).Ok? <==> forall j :: 0 <= j < |rs| ==> rs[j].Ok?
    ensures Collect(rs).Ok? ==> forall j :: 0 <= j < |rs| ==> Collect(rs).value[j] == rs[j].value
  {
    if |rs| > 0 {
      var tail := rs[1..];
      CollectOk(tail);
      assert forall j :: 0 < j < |rs| ==> rs[j] == tail[j - 1];
      if Collect(rs).Ok? {
        var v := Collect(rs).value;
        assert v == [rs[0].value] + Collect(tail).value;
        forall j | 0 <= j < |rs| ensures v[j] == rs[j].value {
          if j > 0 {
            assert v[j] == Collect(tail).value[j - 1];
          }
        }
      }
    }
  }

  /** When the loop fails, it fails with the error of the first failing iteration. */
  lemma {:induction false} CollectErr<T>(rs: seq<Result<T>>)
    ensures Collect(rs).Err? ==>
              exists i: nat :: i < |rs| && rs[i].Err? && (forall j :: 0 <= j < i ==> rs[j].Ok?)
                               && Collect(rs).error == rs[i].error
  {
    if |rs| > 0 && Collect(rs).Err? && rs[0].Ok? {
      var tail := rs[1..];
      CollectErr(tail);
      var i: nat :| i < |tail| && tail[i].Err? && (forall j :: 0 <= j < i ==> tail[j].Ok?)
                    && Collect(tail).error == tail[i].error;
      assert forall j :: 0 < j < |rs| ==> rs[j] == tail[j - 1];
      assert rs[i + 1].Err? && forall j :: 0 <= j < i + 1 ==> rs[j].Ok?;
    }
  }

  /** The loop over the matches' groups completes exactly when `float()` accepts
      every amount, and then its `j`-th record is the one built from the `j`-th
      groups. */
  lemma BuildOk(gs: seq<Groups>)
    requires forall j :: 0 <= j < |gs| ==> GroupsOk(gs[j])
    ensures Collect(Records(gs)).Ok? <==> forall j :: 0 <= j < |gs| ==> AmountValid(gs[j])
    ensures Collect(Records(gs)).Ok? ==>
              forall j :: 0 <= j < |gs| ==> Record(gs[j]).Ok? && Collect(Records(gs)).value[j] == Record(gs[j]).value
  {
    CollectOk(Records(gs));
  }

  /** Otherwise it fails with the error of the first rejected amount. */
  lemma BuildErr(gs: seq<Groups>)
    requires forall j :: 0 <= j < |gs| ==> GroupsOk(gs[j])
    ensures Collect(Records(gs)).Err? ==>
              exists i: nat :: FirstBad(gs, i) && Collect(Records(gs)).error == BadAmount(gs[i].amount)
  {
    var rs := Records(gs);
    CollectErr(rs);
    if Collect(rs).Err? {
      var i: nat :| i < |rs| && rs[i].Err? && (forall j :: 0 <= j < i ==> rs[j].Ok?) && Collect(rs).error == rs[i].error;
      assert rs[i] == Record(gs[i]);
      forall j | 0 <= j < i ensures AmountValid(gs[j]) {
        assert rs[j] == Record(gs[j]);
      }
      assert FirstBad(gs, i);
    }
  }

  /** `parse_transaction(text)`. */
  function Parse(text: string): (r: Result<seq<Transaction>>)
    ensures r.Ok? ==> |r.value| == |FindAllGroups(text)|
  {
    Collect(Records(FindAllGroups(text)))
  }

  /** `parse_transaction` returns one record per match, in order, exactly when every
      amount is a valid number, and the verb check never fires. */
  lemma ParseOk(text: string)
    ensures var gs := FindAllGroups(text);
            && (Parse(text).Ok? <==> forall j :: 0 <= j < |gs| ==> AmountValid(gs[j]))
            && (Parse(text).Ok? ==> forall j :: 0 <= j < |gs| ==> Record(gs[j]).Ok? && Parse(text).value[j] == Record(gs[j]).value)
  {
    BuildOk(FindAllGroups(text));
  }

  /** Otherwise it raises the error of the first bad amount. */
  lemma ParseErr(text: string)
    ensures var gs := FindAllGroups(text);
            Parse(text).Err? ==> exists i: nat :: FirstBad(gs, i) && Parse(text).error == BadAmount(gs[i].amount)
  {
    BuildErr(FindAllGroups(text));
  }

  /** Text in which the pattern matches nowhere parses to the empty list. */
  lemma ParseWithoutMatch(text: string)
    requires forall q :: 0 <= q <= |text| ==> MatchAt(text, q).None?
    ensures Parse(text) == Ok([])
  {
    var r := FindAll(text);
    if |r| > 0 {
      assert false;
    }
    assert FindAllGroups(text) == [];
    assert Records([]) == [];
  }
}
